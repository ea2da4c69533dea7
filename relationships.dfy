/**
 * The namespace URI relationship graph (NamespaceUtil.java lines 491-535):
 * parentNamespaceUris and childNamespaceUris as maps from a URI to a set of
 * URIs. A URI's parents are the in-scope URIs reached from it by cutting its
 * last path segment at most four times. This module gives the reference
 * definitions; the NamespaceUtil class holds the two maps and updates them.
 */
module Relationships {
  import opened Strings

  type Links = map<string, set<string>>

  /** HashMap.get, with an absent key read as the empty set. */
  function Get(m: Links, k: string): set<string> {
    if k in m then m[k] else {}
  }

  /** String.lastIndexOf("/", from): the last slash at or before `from`, or -1. */
  function LastSlash(s: string, from: int): (k: int)
    ensures -1 <= k < |s| && (k == -1 || k <= from)
    ensures k >= 0 ==> s[k] == '/'
    ensures forall j :: k < j <= from && 0 <= j < |s| ==> s[j] != '/'
    decreases if from < 0 then 0 else from + 1
  {
    if from < 0 then -1
    else if from >= |s| then LastSlash(s, |s| - 1)
    else if s[from] == '/' then from
    else LastSlash(s, from - 1)
  }

  /**
   * Line 502: `t.substring(0, t.lastIndexOf("/", t.length() - 2) + 1)`. The
   * result is a prefix of `t`, strictly shorter unless `t` is empty, empty or
   * ending in a slash, and it keeps every slash but a trailing one.
   */
  function Truncate(t: string): (r: string)
    ensures StartsWith(t, r)
    ensures t != "" ==> |r| < |t|
    ensures r == "" || r[|r| - 1] == '/'
    ensures forall j :: |r| <= j < |t| - 1 ==> t[j] != '/'
  {
    t[..LastSlash(t, |t| - 2) + 1]
  }

  /** The strings taken by `trimmed` in `n` passes of the loop of line 501, starting from `u`. */
  function Truncations(u: string, n: nat): seq<string> {
    if n == 0 then [] else [Truncate(u)] + Truncations(Truncate(u), n - 1)
  }

  /** The loop bound of line 501. */
  const MaxDepth: nat := 4

  /** The parents recorded for `u` by the first `n` passes: the truncations that are URIs of `uris`. */
  function ParentsUpTo(uris: set<string>, u: string, n: nat): set<string> {
    set p | p in Truncations(u, n) && p in uris
  }

  /** Lines 499-511: the parents of `u` are the in-scope URIs among its four truncations. */
  function ParentsOf(uris: set<string>, u: string): set<string> {
    ParentsUpTo(uris, u, MaxDepth)
  }

  /** The URIs among `done` that have `p` as a parent. */
  function ChildrenAmong(uris: set<string>, done: set<string>, p: string): set<string> {
    set u | u in done && p in ParentsOf(uris, u)
  }

  function ChildrenOf(uris: set<string>, p: string): set<string> {
    ChildrenAmong(uris, uris, p)
  }

  /** parentNamespaceUris once the URIs of `done` have been visited, starting from an empty map. */
  function ParentsAmong(uris: set<string>, done: set<string>): Links {
    map u | u in done && ParentsOf(uris, u) != {} :: ParentsOf(uris, u)
  }

  /** childNamespaceUris once the URIs of `done` have been visited, starting from an empty map. */
  function ChildMapAmong(uris: set<string>, done: set<string>): Links {
    map p | p in uris && ChildrenAmong(uris, done, p) != {} :: ChildrenAmong(uris, done, p)
  }

  /** parentNamespaceUris as built from empty maps: a key for every URI with a parent. */
  function BuiltParents(uris: set<string>): Links {
    ParentsAmong(uris, uris)
  }

  /** childNamespaceUris as built from empty maps: a key for every URI with a child. */
  function BuiltChildren(uris: set<string>): Links {
    ChildMapAmong(uris, uris)
  }

  /** Lines 506-510: `u` gets the parents `ps` (no entry is made while there are none). */
  function WithParents(m: Links, u: string, ps: set<string>): Links {
    if ps == {} then m else m[u := Get(m, u) + ps]
  }

  /** Lines 507-511: each of the parents `ps` gets the child `u`. */
  function WithChild(m: Links, u: string, ps: set<string>): Links {
    map k | k in m.Keys + ps :: Get(m, k) + (if k in ps then {u} else {})
  }

  /** The maps after relationships are added into maps that already hold `a`. */
  function Merge(a: Links, b: Links): Links {
    map k | k in a.Keys + b.Keys :: Get(a, k) + Get(b, k)
  }

  /**
   * The graph invariant: every parent has an entry in the children map, and
   * every child recorded under `p` still lists `p` among its parents.
   */
  ghost predicate Valid(parents: Links, children: Links) {
    && (forall u, p :: u in parents && p in parents[u] ==> p in children)
    && (forall p, u :: p in children && u in children[p] ==> u in parents && p in parents[u])
  }

  /** hasChildNamespaceUris: the children entry exists and is non-empty. */
  predicate HasChildren(children: Links, p: string) {
    p in children && children[p] != {}
  }

  /**
   * In a consistent graph a URI reported to have children is a recorded
   * parent of one of them.
   */
  lemma HasChildrenIsParent(parents: Links, children: Links, p: string)
    requires Valid(parents, children) && HasChildren(children, p)
    ensures exists u :: u in children[p] && u in parents && p in parents[u]
  {
    var u :| u in children[p];
    assert u in parents && p in parents[u];
  }

  /** removeRelationships(u): drop `u` from the children set of each of its parents; parents stay as they are. */
  function Removed(parents: Links, children: Links, u: string): Links {
    if u !in parents then children else RemovedFrom(children, u, parents[u])
  }

  /** The children map once `u` has been removed under each of the parents `ps`. */
  function RemovedFrom(children: Links, u: string, ps: set<string>): Links {
    map p | p in children :: if p in ps then children[p] - {u} else children[p]
  }

  lemma MapsEqual(a: Links, b: Links)
    requires a.Keys == b.Keys && forall k :: k in a ==> a[k] == b[k]
    ensures a == b
  {
  }

  // ------------------------------------------------------------ truncation

  /** Every truncation of a non-empty URI is a proper prefix of it, empty or ending in a slash. */
  lemma {:induction false} TruncationsShape(u: string, n: nat)
    requires u != ""
    ensures forall t :: t in Truncations(u, n) ==> StartsWith(u, t) && |t| < |u| && (t == "" || t[|t| - 1] == '/')
  {
    if n > 0 {
      var t0 := Truncate(u);
      if t0 == "" {
        TruncationsOfEmpty(n - 1);
      } else {
        TruncationsShape(t0, n - 1);
      }
    }
  }

  lemma {:induction false} TruncationsOfEmpty(n: nat)
    ensures forall t :: t in Truncations("", n) ==> t == ""
  {
    if n > 0 {
      assert Truncate("") == "";
      TruncationsOfEmpty(n - 1);
    }
  }

  /** The first `i` passes followed by the remaining `n - i`, from where the first `i` stopped. */
  lemma {:induction false} TruncationsSplit(u: string, i: nat, n: nat)
    requires i <= n
    ensures Truncations(u, n) == Truncations(u, i) + Truncations(Last(u, Truncations(u, i)), n - i)
  {
    if i > 0 {
      TruncationsSplit(Truncate(u), i - 1, n - 1);
      assert Truncations(u, i) == [Truncate(u)] + Truncations(Truncate(u), i - 1);
      LastCons(u, Truncate(u), Truncations(Truncate(u), i - 1));
    }
  }

  /** The value of `trimmed` after the passes that produced `ts`. */
  function Last(u: string, ts: seq<string>): string {
    if ts == [] then u else ts[|ts| - 1]
  }

  lemma LastCons(u: string, t: string, ts: seq<string>)
    ensures Last(u, [t] + ts) == Last(t, ts)
  {
  }

  /** One more pass appends the truncation of the current value of `trimmed`. */
  lemma TruncationsSnoc(u: string, i: nat)
    ensures Truncations(u, i + 1) == Truncations(u, i) + [Truncate(Last(u, Truncations(u, i)))]
  {
    TruncationsSplit(u, i, i + 1);
    assert Truncations(Last(u, Truncations(u, i)), 1) == [Truncate(Last(u, Truncations(u, i)))];
  }

  /** Only strings that contain `tx:` are in scope. */
  ghost predicate AllInScope(uris: set<string>) {
    forall x :: x in uris ==> Contains(x, "tx:")
  }

  /**
   * Every parent of `u` is an in-scope URI obtained from `u` by one to four
   * truncations; it is a proper prefix of `u` ending in `/`, so `u` is never its
   * own parent.
   */
  lemma ParentShape(uris: set<string>, u: string, p: string)
    requires AllInScope(uris) && p in ParentsOf(uris, u)
    ensures p in uris && Contains(p, "tx:")
    ensures p in Truncations(u, MaxDepth)
    ensures StartsWith(u, p) && |p| < |u| && p[|p| - 1] == '/' && p != u
  {
    ContainsLength(p, "tx:");
    if u == "" {
      TruncationsOfEmpty(MaxDepth);
      assert false;
    }
    TruncationsShape(u, MaxDepth);
  }

  /** One more pass records the new value of `trimmed` when it is an in-scope URI. */
  lemma ParentsUpToSnoc(uris: set<string>, u: string, i: nat)
    ensures var t := Truncate(Last(u, Truncations(u, i)));
      && Last(u, Truncations(u, i + 1)) == t
      && ParentsUpTo(uris, u, i + 1) == ParentsUpTo(uris, u, i) + (if t in uris then {t} else {})
  {
    TruncationsSnoc(u, i);
  }

  // ----------------------------------------------------------------- build

  lemma ChildrenAmongGrows(uris: set<string>, done: set<string>, u: string, p: string)
    ensures ChildrenAmong(uris, done + {u}, p) == ChildrenAmong(uris, done, p) + (if p in ParentsOf(uris, u) then {u} else {})
  {
  }

  /** One more in-scope parent `t` found for `u` (the inner loop of line 501). */
  lemma WithParentsStep(m: Links, u: string, ps: set<string>, t: string)
    ensures var m' := WithParents(m, u, ps); m'[u := Get(m', u) + {t}] == WithParents(m, u, ps + {t})
  {
    if ps != {} {
      var m' := WithParents(m, u, ps);
      assert Get(m', u) + {t} == Get(m, u) + (ps + {t});
      MapsEqual(m'[u := Get(m', u) + {t}], m[u := Get(m, u) + (ps + {t})]);
    } else {
      assert ps + {t} == {t} && t in ps + {t};
    }
  }

  lemma WithChildStep(m: Links, u: string, ps: set<string>, t: string)
    ensures var m' := WithChild(m, u, ps); m'[t := Get(m', t) + {u}] == WithChild(m, u, ps + {t})
  {
    var m' := WithChild(m, u, ps);
    var a := m'[t := Get(m', t) + {u}];
    var b := WithChild(m, u, ps + {t});
    assert a.Keys == b.Keys;
    forall k | k in a ensures a[k] == b[k] {
    }
    MapsEqual(a, b);
  }

  lemma MergeUpdate(a: Links, b: Links, k: string, v: set<string>)
    requires k !in b
    ensures Merge(a, b[k := v]) == Merge(a, b)[k := Get(a, k) + v]
  {
    MapsEqual(Merge(a, b[k := v]), Merge(a, b)[k := Get(a, k) + v]);
  }

  lemma MergeWithChild(a: Links, b: Links, u: string, ps: set<string>)
    ensures WithChild(Merge(a, b), u, ps) == Merge(a, WithChild(b, u, ps))
  {
    var l := WithChild(Merge(a, b), u, ps);
    var r := Merge(a, WithChild(b, u, ps));
    assert l.Keys == r.Keys;
    forall k | k in l ensures l[k] == r[k] {
    }
    MapsEqual(l, r);
  }

  lemma ParentsAmongAdd(uris: set<string>, done: set<string>, u: string)
    requires u !in done
    ensures ParentsAmong(uris, done + {u}) ==
      if ParentsOf(uris, u) == {} then ParentsAmong(uris, done) else ParentsAmong(uris, done)[u := ParentsOf(uris, u)]
  {
    var l := ParentsAmong(uris, done + {u});
    var r := if ParentsOf(uris, u) == {} then ParentsAmong(uris, done) else ParentsAmong(uris, done)[u := ParentsOf(uris, u)];
    assert l.Keys == r.Keys;
    MapsEqual(l, r);
  }

  lemma ChildMapAmongAdd(uris: set<string>, done: set<string>, u: string)
    ensures ChildMapAmong(uris, done + {u}) == WithChild(ChildMapAmong(uris, done), u, ParentsOf(uris, u))
  {
    var l := ChildMapAmong(uris, done + {u});
    var r := WithChild(ChildMapAmong(uris, done), u, ParentsOf(uris, u));
    forall k ensures ChildrenAmong(uris, done + {u}, k) == ChildrenAmong(uris, done, k) + (if k in ParentsOf(uris, u) then {u} else {}) {
      ChildrenAmongGrows(uris, done, u, k);
    }
    assert l.Keys == r.Keys;
    forall k | k in l ensures l[k] == r[k] {
    }
    MapsEqual(l, r);
  }

  /** Visiting one more URI `u` of the outer loop of line 496 adds its parents. */
  lemma ParentsAmongStep(m: Links, uris: set<string>, done: set<string>, u: string)
    requires u !in done
    ensures WithParents(Merge(m, ParentsAmong(uris, done)), u, ParentsOf(uris, u)) == Merge(m, ParentsAmong(uris, done + {u}))
  {
    ParentsAmongAdd(uris, done, u);
    if ParentsOf(uris, u) != {} {
      MergeUpdate(m, ParentsAmong(uris, done), u, ParentsOf(uris, u));
      assert Get(Merge(m, ParentsAmong(uris, done)), u) == Get(m, u);
    }
  }

  /** Visiting one more URI `u` of the outer loop of line 496 makes it a child of each of its parents. */
  lemma ChildMapAmongStep(m: Links, uris: set<string>, done: set<string>, u: string)
    ensures WithChild(Merge(m, ChildMapAmong(uris, done)), u, ParentsOf(uris, u)) == Merge(m, ChildMapAmong(uris, done + {u}))
  {
    ChildMapAmongAdd(uris, done, u);
    MergeWithChild(m, ChildMapAmong(uris, done), u, ParentsOf(uris, u));
  }

  /** Before the outer loop nothing has been added. */
  lemma MergeNothing(m: Links, uris: set<string>)
    ensures Merge(m, ParentsAmong(uris, {})) == m && Merge(m, ChildMapAmong(uris, {})) == m
  {
    MapsEqual(Merge(m, ParentsAmong(uris, {})), m);
    MapsEqual(Merge(m, ChildMapAmong(uris, {})), m);
  }

  /** One more parent handled by the loop of line 531. */
  lemma RemovedFromStep(children: Links, u: string, ps: set<string>, p: string)
    requires p in children
    ensures var c := RemovedFrom(children, u, ps); c[p := c[p] - {u}] == RemovedFrom(children, u, ps + {p})
  {
    var c := RemovedFrom(children, u, ps);
    MapsEqual(c[p := c[p] - {u}], RemovedFrom(children, u, ps + {p}));
  }

  lemma RemovedFromNothing(children: Links, u: string)
    ensures RemovedFrom(children, u, {}) == children
  {
    MapsEqual(RemovedFrom(children, u, {}), children);
  }

  /** Right after construction, `p` is a parent of `u` exactly when `u` is a child of `p`. */
  lemma BuiltSymmetric(uris: set<string>)
    ensures forall u, p :: p in Get(BuiltParents(uris), u) <==> u in Get(BuiltChildren(uris), p)
    ensures Valid(BuiltParents(uris), BuiltChildren(uris))
  {
    forall u, p | p in Get(BuiltParents(uris), u)
      ensures u in Get(BuiltChildren(uris), p)
    {
      assert u in ChildrenOf(uris, p);
    }
    forall u, p | u in BuiltParents(uris) && p in BuiltParents(uris)[u]
      ensures p in BuiltChildren(uris)
    {
      assert u in ChildrenOf(uris, p);
    }
  }

  /** Right after construction, a URI has children exactly when some in-scope URI truncates to it. */
  lemma HasChildrenBuilt(uris: set<string>, p: string)
    ensures HasChildren(BuiltChildren(uris), p) <==> exists u :: u in uris && p in ParentsOf(uris, u)
  {
    if exists u :: u in uris && p in ParentsOf(uris, u) {
      var u :| u in uris && p in ParentsOf(uris, u);
      assert u in ChildrenOf(uris, p);
    }
  }

  /** Adding the relationships of a valid pair of maps into another valid pair keeps the invariant. */
  lemma MergeValid(p0: Links, c0: Links, p1: Links, c1: Links)
    requires Valid(p0, c0) && Valid(p1, c1)
    ensures Valid(Merge(p0, p1), Merge(c0, c1))
  {
  }

  // ---------------------------------------------------------------- remove

  /** removeRelationships keeps the invariant. */
  lemma RemovedValid(parents: Links, children: Links, u: string)
    requires Valid(parents, children)
    ensures Valid(parents, Removed(parents, children, u))
  {
  }

  /**
   * After removeRelationships(u) on a valid graph, `u` is nobody's child any
   * more, every other child link is kept, and no entry of the children map is
   * added or dropped.
   */
  lemma RemovedEffect(parents: Links, children: Links, u: string)
    requires Valid(parents, children)
    ensures Removed(parents, children, u).Keys == children.Keys
    ensures forall p :: u !in Get(Removed(parents, children, u), p)
    ensures forall p, v :: v != u ==> (v in Get(Removed(parents, children, u), p) <==> v in Get(children, p))
  {
  }

  /** removeRelationships is idempotent, and does nothing for a URI without parents. */
  lemma RemovedIdempotent(parents: Links, children: Links, u: string)
    ensures Removed(parents, Removed(parents, children, u), u) == Removed(parents, children, u)
    ensures u !in parents ==> Removed(parents, children, u) == children
  {
    if u in parents {
      var once := Removed(parents, children, u);
      var twice := Removed(parents, once, u);
      forall p | p in twice ensures twice[p] == once[p] {
        if p in parents[u] {
          assert once[p] == children[p] - {u};
          assert twice[p] == once[p] - {u};
        }
      }
      MapsEqual(twice, once);
    }
  }

  /** Removing a URI never gives another URI children. */
  lemma RemovedShrinks(parents: Links, children: Links, u: string, p: string)
    ensures HasChildren(Removed(parents, children, u), p) ==> HasChildren(children, p)
  {
  }

  // -------------------------------------------------------------- examples

  /** Searching from `length - 2` lets a URI that ends in `/` find its parent rather than itself. */
  lemma TruncateExamples()
    ensures Truncate("http://x/tx:a/b/") == "http://x/tx:a/"
    ensures Truncate("http://x/tx:a/") == "http://x/"
  {
    var s := "http://x/tx:a/b/";
    assert s[13] == '/' && s[14] == 'b';
    assert LastSlash(s, 14) == LastSlash(s, 13) == 13;
    var t := "http://x/tx:a/";
    assert t[8] == '/' && t[12] == 'a';
    assert LastSlash(t, 12) == LastSlash(t, 11) == LastSlash(t, 10) == LastSlash(t, 9) == LastSlash(t, 8) == 8;
  }
}
