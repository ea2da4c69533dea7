# NamespaceUtil cleanup engine, modelled in Dafny

The Fedora repository's `NamespaceUtil` tool removes spurious namespaces and
node types. These are the `nsXXX` prefixes and `nsXXX:None` node types left
behind by transactions. The tool works in four parts:

- **list**: writes a CSV work list of candidate prefixes, their `tx:` URIs,
  their node types and the resources that still use them.
- **add_resources**: fills in missing resource cells of that list.
- **clean**: walks the list row by row, either in node-type mode or in
  namespace mode. It writes each row to a completed, rejected or skipped file,
  and unregisters what is safe to unregister. It keeps the prefix being
  processed in a status file, so that an interrupted run can be resumed.
- **URI parent/child graph**: built from the registered `tx:` URIs. In
  namespace mode it stops a parent URI from being unregistered while child
  URIs remain.

The repository is reduced to abstract state:

- a namespace registry (prefix to URI map);
- the node-type registry, as a sequence in enumeration order;
- oracles: for a JCR-SQL2 query (invalid, or a sequence of resource paths);
  for `unregisterNamespace` (succeeds, `NamespaceException` or another
  `RepositoryException`); and for `unregisterNodeType` (succeeds or throws).

CSV files are sequences of rows (`seq<string>`). The status file is an
`Option<string>`.

Modules:

- `Wrappers`, `Strings`: `Option`, and the `java.lang.String` operations the
  tool relies on (`startsWith`, `endsWith`, `contains`, `replace` of every
  occurrence, `split(":")[0]`, the first line as `readLine` returns it,
  `equalsIgnoreCase`).
- `Repository`: rows, the header, the oracles, and the spurious and in-scope
  predicates.
- `Discovery`: the discovery map and the reference definition of `list`.
- `Augment`: the reference definition of `add_resources`.
- `Relationships`: the URI graph. This covers truncation at `/`, what the
  builder produces, the graph invariant, `hasChildNamespaceUris` and
  `removeRelationships`.
- `Driver`: the reference definition of `clean`. It covers the run state, one
  pass of the loop per row, the namespace and node-type rules, resumption and
  the derived file names.
- `Util`: the class `NamespaceUtil`. Its fields are the registries, the number
  of session saves and the two graph maps. Its methods are the tool's
  operations, each proved equal to the reference definition it models.

The exceptions that end a loop early are modelled as a `halted` flag (in
`clean`) or a `failed` flag (in `list`). The remaining effects follow the
code as written:

- A prefix without node types is listed with the resource left over from the
  previous row.
- `getURI` throws for a prefix added only because of a node type, and that
  ends `list`.
- A `NamespaceException` from `unregisterNamespace` is swallowed, and the row
  is still completed.
- A failing `unregisterNodeType` ends the whole loop.
- `session.save()` is called in a dry run too.
- `removeRelationships` never changes the parents map.

## Model

| member | source | states |
|---|---|---|
| Repository.NamespaceExistsAfterUnregister | src/main/java/org/fcrepo/utils/NamespaceUtil.java:547-555 | After `unregisterNamespace(p)`, `doesNamespaceExists` is false for `p` and answers as before for every other prefix |
| Discovery.ScanIsGrouping | src/main/java/org/fcrepo/utils/NamespaceUtil.java:168-188 | The node-type scan fails exactly when some name makes `split(":")[0]` throw. Otherwise it appends each spurious node type, in order, to the list of the text before its first colon |
| Discovery.DiscoveryMap | src/main/java/org/fcrepo/utils/NamespaceUtil.java:163-188 | When no name makes `split` throw, the keys are exactly the registered `ns` prefixes and the heads of spurious node types. Every key starts with `ns`, and a key's list holds exactly the spurious node types with that head, in registry order |
| Discovery.GroupMember | src/main/java/org/fcrepo/utils/NamespaceUtil.java:175-184 | Every spurious node type is in the list of its `split(":")[0]` |
| Discovery.MatchingMembers | src/main/java/org/fcrepo/utils/NamespaceUtil.java:176-184 | A node type is grouped under `p` iff it is spurious and its head is `p` |
| Discovery.SpuriousPrefixShape | src/main/java/org/fcrepo/utils/NamespaceUtil.java:175-176 | The head of a spurious node type starts with `ns` and is shorter than the name |
| Discovery.DiscoveryNamed | src/main/java/org/fcrepo/utils/NamespaceUtil.java:173-186 | No list of the discovery map holds an empty name |
| Discovery.ListRowsEmitted | src/main/java/org/fcrepo/utils/NamespaceUtil.java:194-248 | The first row of a listing is the header. Every data row has four cells and a registered prefix with its URI, which contains `tx:`. A row naming a node type names one of that prefix, and without skipResources carries a path of that type's query, or `""` if it found none; a row without a node type carries the previous row's resource. With skipResources every resource is `""` |
| Discovery.ListComplete | src/main/java/org/fcrepo/utils/NamespaceUtil.java:200-247 | A listing that completes writes, for every spurious node type of an in-scope prefix, its rows consecutively: one row per query path, in query order |
| Discovery.InvalidQueryWritesNoRow | src/main/java/org/fcrepo/utils/NamespaceUtil.java:225-245 | A node type whose query is invalid appears in no row (without skipResources) |
| Discovery.ListPrefixesSkipResource | src/main/java/org/fcrepo/utils/NamespaceUtil.java:198-222 | With skipResources the reused resource cell stays `""` |
| Discovery.StaleResource | src/main/java/org/fcrepo/utils/NamespaceUtil.java:207-243 | A prefix without node types after one whose query found paths is listed with the last of those paths as its resource |
| Discovery.ListAbortsAt | src/main/java/org/fcrepo/utils/NamespaceUtil.java:200-201 | When `getURI` throws for a key, `list` ends with exactly the rows written before that key, whatever keys remain |
| Discovery.ListPrefixesFailed | src/main/java/org/fcrepo/utils/NamespaceUtil.java:200-201 | After the exception, later keys change nothing |
| Discovery.ListPrefixesAppend | src/main/java/org/fcrepo/utils/NamespaceUtil.java:200-248 | The loop over `a + b` is the loop over `a` followed by the loop over `b` |
| Augment.AugmentedRowRule | src/main/java/org/fcrepo/utils/NamespaceUtil.java:270-297 | Per row: a filled resource is written unchanged. An empty one gets the first query path. It is dropped when the query is invalid or finds nothing |
| Augment.AugmentedFromInput | src/main/java/org/fcrepo/utils/NamespaceUtil.java:270-297 | Every output row is an input row, unchanged or with only its resource filled in from that row's query |
| Augment.AugmentedKeepsFilled | src/main/java/org/fcrepo/utils/NamespaceUtil.java:274-278 | A file whose rows all have resources is left as it is |
| Augment.AugmentedAllFilled | src/main/java/org/fcrepo/utils/NamespaceUtil.java:274-295 | When every query's first path is non-empty, every output row has a resource |
| Augment.AugmentedIdempotent | src/main/java/org/fcrepo/utils/NamespaceUtil.java:270-297 | Running add_resources on its own output changes nothing (when first paths are non-empty) |
| Augment.AugmentedStopsAtShortRow | src/main/java/org/fcrepo/utils/NamespaceUtil.java:274-303 | A row with fewer than four cells throws; it and later rows are lost |
| Augment.AugmentedPrefix | src/main/java/org/fcrepo/utils/NamespaceUtil.java:270-299 | The output for the first `i+1` rows extends the output for the first `i` rows by exactly the rewrite of row `i` (one row or none) |
| Augment.TempPathIsInput | src/main/java/org/fcrepo/utils/NamespaceUtil.java:256-258 | The temporary path equals the input path exactly when the input has no `.csv` |
| Strings.ReplaceLength | src/main/java/org/fcrepo/utils/NamespaceUtil.java:334-341 | `replace` changes the length by the number of occurrences times the length difference |
| Strings.ReplaceAbsent | src/main/java/org/fcrepo/utils/NamespaceUtil.java:334-341 | `replace` of an absent target returns the string unchanged |
| Strings.ReplaceNotExtension | src/main/java/org/fcrepo/utils/NamespaceUtil.java:334-341 | When the target occurs and the replacement starts with a different character, `replace` yields no extension of its input |
| Strings.OccurrencesContains | src/main/java/org/fcrepo/utils/NamespaceUtil.java:334-341 | `contains` holds iff the target occurs at least once |
| Strings.BeforeFirstColon | src/main/java/org/fcrepo/utils/NamespaceUtil.java:175 | `split(":")[0]` is a colon-free prefix of the name, ending where the first colon is |
| Strings.FirstLine | src/main/java/org/fcrepo/utils/NamespaceUtil.java:450 | `readLine` gives null exactly for an empty file. Otherwise it gives a prefix with no line break, ending at the first line break |
| Strings.FirstLineOfLine | src/main/java/org/fcrepo/utils/NamespaceUtil.java:450-471 | A non-empty text without line breaks reads back as itself |
| Relationships.LastSlash | src/main/java/org/fcrepo/utils/NamespaceUtil.java:502 | `lastIndexOf("/", from)` is -1 or a slash at or before `from`, with no slash between it and `from` |
| Relationships.Truncate | src/main/java/org/fcrepo/utils/NamespaceUtil.java:502 | One truncation is a prefix, strictly shorter for a non-empty URI, either empty or ending in `/`, and drops every character after the last non-final slash |
| Relationships.TruncationsShape | src/main/java/org/fcrepo/utils/NamespaceUtil.java:501-502 | Every value `trimmedUri` takes is a proper prefix of the URI, empty or ending in `/` |
| Relationships.TruncateExamples | src/main/java/org/fcrepo/utils/NamespaceUtil.java:502 | Searching from `length-2` finds the parent of a URI ending in `/` rather than the URI itself |
| Relationships.ParentShape | src/main/java/org/fcrepo/utils/NamespaceUtil.java:493-513 | Every parent of `u` is an in-scope `tx:` URI obtained by 1 to 4 truncations. It is a proper prefix of `u`, ends in `/`, and is never `u` itself |
| Relationships.BuiltSymmetric | src/main/java/org/fcrepo/utils/NamespaceUtil.java:496-513 | After construction `p` is in `parents[u]` iff `u` is in `children[p]`, and every parent has a children entry |
| Relationships.HasChildrenIsParent | src/main/java/org/fcrepo/utils/NamespaceUtil.java:522-524 | In a consistent graph, a URI for which `hasChildNamespaceUris` holds is a recorded parent of one of its children |
| Relationships.HasChildrenBuilt | src/main/java/org/fcrepo/utils/NamespaceUtil.java:496-524 | Right after construction, `hasChildNamespaceUris(p)` holds iff some in-scope URI has `p` among its parents |
| Relationships.MergeValid | src/main/java/org/fcrepo/utils/NamespaceUtil.java:506-511 | Adding a consistent graph into the maps already held keeps them consistent |
| Relationships.RemovedValid | src/main/java/org/fcrepo/utils/NamespaceUtil.java:526-535 | removeRelationships keeps the invariant that every child link has its parent link |
| Relationships.RemovedEffect | src/main/java/org/fcrepo/utils/NamespaceUtil.java:526-535 | After removal `u` is nobody's child. Every other child link is kept, and the children map keeps its keys |
| Relationships.RemovedIdempotent | src/main/java/org/fcrepo/utils/NamespaceUtil.java:526-535 | Removal is idempotent, and a no-op for a URI without parents |
| Relationships.RemovedShrinks | src/main/java/org/fcrepo/utils/NamespaceUtil.java:522-535 | Removal never makes `hasChildNamespaceUris` true |
| Driver.ParseModeNames | src/main/java/org/fcrepo/utils/NamespaceUtil.java:327-341 | The mode named in a run's status and output paths is the mode that name selects, and `type` values equal up to ASCII case select the same mode |
| Driver.ReadLastProcessingPrefix | src/main/java/org/fcrepo/utils/NamespaceUtil.java:447-455 | The prefix is null iff the status file is missing or empty; otherwise it starts the file |
| Driver.OutputPaths | src/main/java/org/fcrepo/utils/NamespaceUtil.java:334-341 | With `.csv` in the input path, the three output paths are pairwise distinct. Without it they all equal the input path |
| Driver.StatusPaths | src/main/java/org/fcrepo/utils/NamespaceUtil.java:322-338 | The status path is never the input path. Two runs share a status path iff they have the same mode and dry-run flag |
| Driver.StatusNotOutput | src/main/java/org/fcrepo/utils/NamespaceUtil.java:322-341 | No status path is an output path of a run on the same input, in any mode or dry-run setting |
| Driver.StepGrows | src/main/java/org/fcrepo/utils/NamespaceUtil.java:363-440 | Each row lands in at most one output. Outputs only grow, parents never change, and children change only by a removal |
| Driver.StepRecordsStatus | src/main/java/org/fcrepo/utils/NamespaceUtil.java:367-379 | A processed row's prefix is written to the status file before its rule runs |
| Driver.UnregisteredPrefixSkipped | src/main/java/org/fcrepo/utils/NamespaceUtil.java:383-388 | Namespace rule 1: an unregistered prefix goes to skipped and its URI leaves the graph |
| Driver.NamespaceRowRejected | src/main/java/org/fcrepo/utils/NamespaceUtil.java:389-394 | Namespace rules 2 and 3: a URI with children, or a node type still registered, rejects the row and changes nothing else |
| Driver.NamespaceUnregisteredSafely | src/main/java/org/fcrepo/utils/NamespaceUtil.java:392-406 | A namespace leaves the registry only in namespace mode outside a dry run, with no children, its node type gone and the unregister succeeding. That row is completed |
| Driver.NamespaceErrorCompletes | src/main/java/org/fcrepo/utils/NamespaceUtil.java:396-405 | A swallowed NamespaceException still completes the row and removes its URI from the graph |
| Driver.NodeTypeInUseRejected | src/main/java/org/fcrepo/utils/NamespaceUtil.java:419-426 | A node type whose query finds paths goes to rejected, with an empty resource filled in from the first path |
| Driver.NodeTypeUnregisteredSafely | src/main/java/org/fcrepo/utils/NamespaceUtil.java:427-433 | A node type leaves the registry only outside a dry run when its query finds nothing. The session is saved and the row completed |
| Driver.DryRunNodeTypeSaves | src/main/java/org/fcrepo/utils/NamespaceUtil.java:427-433 | A dry run still saves the session and completes the row, but unregisters nothing |
| Driver.InvalidQueryWritesNothing | src/main/java/org/fcrepo/utils/NamespaceUtil.java:410-438 | An invalid query writes the row to no output, and the loop goes on |
| Driver.NodeTypeErrorEndsRun | src/main/java/org/fcrepo/utils/NamespaceUtil.java:428-444 | A failing `unregisterNodeType` ends the loop: the rest of the file reaches no output, neither completed, rejected nor skipped, and no further node type is unregistered |
| Driver.HaltedStays | src/main/java/org/fcrepo/utils/NamespaceUtil.java:442-444 | After an escaped exception the remaining rows change nothing |
| Driver.RunGrows | src/main/java/org/fcrepo/utils/NamespaceUtil.java:363-441 | Outputs only grow, by at most one row per input row, and parents stay fixed |
| Driver.DryRunKeepsRegistries | src/main/java/org/fcrepo/utils/NamespaceUtil.java:396-428 | A dry run leaves both registries unchanged |
| Driver.RunKeepsGraphValid | src/main/java/org/fcrepo/utils/NamespaceUtil.java:526-535 | The graph invariant holds throughout the run |
| Driver.RunUnregistersOnlyListed | src/main/java/org/fcrepo/utils/NamespaceUtil.java:396-402 | Only prefixes named in rows leave the registry, and nothing is added or changed |
| Driver.ChildBeforeParent | src/main/java/org/fcrepo/utils/NamespaceUtil.java:389-406 | Child listed first: both child and parent are unregistered. Parent listed first: the parent is rejected and only the child goes |
| Driver.NothingSkipped | src/main/java/org/fcrepo/utils/NamespaceUtil.java:345-367 | Without a target, or once it is reached, every row is processed |
| Driver.SkipsUntilTarget | src/main/java/org/fcrepo/utils/NamespaceUtil.java:367-375 | Rows before the target go, unprocessed and in order, only to skipped |
| Driver.ResumeAtTarget | src/main/java/org/fcrepo/utils/NamespaceUtil.java:367-379 | The target row and every later row are processed as in a run without a target |
| Driver.TargetNeverReached | src/main/java/org/fcrepo/utils/NamespaceUtil.java:367-375 | A target no row names copies the whole input to skipped |
| Driver.StatusRoundTrip | src/main/java/org/fcrepo/utils/NamespaceUtil.java:447-471 | A non-empty prefix without line breaks, written to the status file, is the target of the next run |
| Driver.EmptyStatusTarget | src/main/java/org/fcrepo/utils/NamespaceUtil.java:345-347 | An empty prefix in the status file gives the next run only its explicit target; without one that run starts from the first row |
| Driver.StatusReadBack | src/main/java/org/fcrepo/utils/NamespaceUtil.java:447-455 | A prefix holding a line break reads back from the status file cut at the first one |
| Driver.CleanStart | src/main/java/org/fcrepo/utils/NamespaceUtil.java:327-353 | clean refuses exactly in namespace mode while a spurious node type exists. Otherwise it starts the three outputs with the header and uses the graph built over the in-scope URIs |
| Driver.CleanKeepsInvariants | src/main/java/org/fcrepo/utils/NamespaceUtil.java:312-445 | Starting from a consistent graph, clean leaves it consistent; a dry run unregisters nothing |
| Driver.CleanWithoutCsvExtension | src/main/java/org/fcrepo/utils/NamespaceUtil.java:334-358 | Without `.csv` every output is the input file, whose rows the header writes destroy; nothing is processed |
| Util.NamespaceUtil.GetSpuriousNodeTypes | src/main/java/org/fcrepo/utils/NamespaceUtil.java:168-188 | The loop computes the discovery map of the reference definition, or fails where `split(":")[0]` throws |
| Util.NamespaceUtil.ListNodeType | src/main/java/org/fcrepo/utils/NamespaceUtil.java:217-245 | The inner query loop writes one row per path and leaves the last path in the reused cell |
| Util.NamespaceUtil.ListPrefixRows | src/main/java/org/fcrepo/utils/NamespaceUtil.java:203-247 | The rows of one key, as the reference definition gives them |
| Util.NamespaceUtil.ListPrefixesOf | src/main/java/org/fcrepo/utils/NamespaceUtil.java:200-248 | The key loop equals the reference listing for the order in which the keys were visited, and that order enumerates the key set |
| Util.NamespaceUtil.List | src/main/java/org/fcrepo/utils/NamespaceUtil.java:190-253 | The written file is the reference listing for some enumeration of the discovery map's keys |
| Util.NamespaceUtil.AddResources | src/main/java/org/fcrepo/utils/NamespaceUtil.java:255-310 | The input file afterwards holds the header followed by the augmented rows, or only the header when the temporary path is the input path |
| Util.NamespaceUtil.HasSpuriousNodeTypeExists | src/main/java/org/fcrepo/utils/NamespaceUtil.java:474-489 | True iff some registered node type starts with `ns` and ends with `:None` |
| Util.NamespaceUtil.AddRelationshipsOf | src/main/java/org/fcrepo/utils/NamespaceUtil.java:498-513 | The four truncations add exactly the in-scope parents of `u`, in both maps |
| Util.NamespaceUtil.BuildNamespaceUriRelationships | src/main/java/org/fcrepo/utils/NamespaceUtil.java:491-520 | Both maps become the old maps merged with the graph of all in-scope URIs |
| Util.NamespaceUtil.RemoveRelationships | src/main/java/org/fcrepo/utils/NamespaceUtil.java:526-535 | Children become the reference removal, the parents map is untouched, and the invariant is kept |
| Util.NamespaceUtil.NamespaceRow | src/main/java/org/fcrepo/utils/NamespaceUtil.java:382-406 | One row in namespace mode gives the state of the namespace rule |
| Util.NamespaceUtil.NodeTypeRow | src/main/java/org/fcrepo/utils/NamespaceUtil.java:410-438 | One row in node-type mode gives the state of the node-type rule; the graph is untouched |
| Util.NamespaceUtil.Clean | src/main/java/org/fcrepo/utils/NamespaceUtil.java:312-445 | The result and the new repository state are those of the reference definition of clean. A refusal changes nothing, and the graph stays consistent |

## Left out

- `main`, `getPropertyOrExit` and the `run` dispatch (lines 98-160) are left out. They are Spring bootstrap, system properties and `System.exit`. The dry-run flag and `startTime` are parameters, because both come from the clock or the environment.
- The JCR and ModeShape APIs exist only as the abstract registries and the three oracles. The query oracle is fixed for a run and does not react to unregistrations.
- `RepositoryException`s from `getAllNodeTypes`, `getURIs`, `hasNodeType` and `session.save` are not modelled. `hasNodeType` is registry membership, so a `ValueFormatException` for an odd name is not modelled either.
- An `InvalidQueryException` is modelled only as thrown by `query.execute()`, inside the catch. One thrown by `createQuery` would escape the loop; that case is not modelled.
- Files are sequences of rows and the status file is an `Option<string>`. opencsv quoting and parsing, writer buffering, I/O failures and `Files.move` are not modelled. In particular, an aborted `list` is modelled as having written every row before the exception, even though the unclosed writer may not have flushed them.
- Logging is left out.
- `equalsIgnoreCase` is modelled for ASCII letters only.
- Util.NamespaceUtil.RemoveRelationships requires the graph invariant. Without it, `childNamespaceUris.get(parent)` could be null and throw. Every map the class builds satisfies the invariant.
- Util.NamespaceUtil.List states the result for some iteration order of the HashMap's keys. The actual order is not modelled.
- The two Python scripts under `scripts/` (an HTTP PATCH client and a Solr search wrapper) are network plumbing and are not part of this model.
