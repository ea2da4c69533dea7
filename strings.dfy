/**
 * The java.lang.String operations the cleanup engine relies on, written out on
 * `seq<char>`: startsWith, endsWith, contains, replace, `split(":")[0]`,
 * BufferedReader.readLine on a whole file, and equalsIgnoreCase.
 */
module Strings {
  import opened Wrappers

  /** String.startsWith. */
  predicate StartsWith(s: string, prefix: string) {
    prefix <= s
  }

  /** String.endsWith. */
  predicate EndsWith(s: string, suffix: string) {
    |suffix| <= |s| && s[|s| - |suffix|..] == suffix
  }

  /** String.contains: `sub` occurs at some position of `s`. */
  predicate Contains(s: string, sub: string)
    decreases |s|
  {
    StartsWith(s, sub) || (|s| > 0 && Contains(s[1..], sub))
  }

  lemma {:induction false} ContainsLength(s: string, sub: string)
    requires Contains(s, sub)
    ensures |sub| <= |s|
    decreases |s|
  {
    if !StartsWith(s, sub) {
      ContainsLength(s[1..], sub);
    }
  }

  /** The number of non-overlapping occurrences String.replace finds, scanning left to right. */
  function Occurrences(s: string, target: string): nat
    requires |target| > 0
    decreases |s|
  {
    if |s| < |target| then 0
    else if s[..|target|] == target then 1 + Occurrences(s[|target|..], target)
    else Occurrences(s[1..], target)
  }

  /** String.replace(CharSequence, CharSequence): every occurrence, left to right. */
  function Replace(s: string, target: string, replacement: string): string
    requires |target| > 0
    decreases |s|
  {
    if |s| < |target| then s
    else if s[..|target|] == target then replacement + Replace(s[|target|..], target, replacement)
    else [s[0]] + Replace(s[1..], target, replacement)
  }

  lemma MulSucc(k: int, d: int)
    ensures (1 + k) * d == d + k * d
  {
  }

  /** Each occurrence replaced changes the length by the difference of the two lengths. */
  lemma {:induction false} ReplaceLength(s: string, target: string, replacement: string)
    requires |target| > 0
    ensures |Replace(s, target, replacement)| == |s| + Occurrences(s, target) * (|replacement| - |target|)
    decreases |s|
  {
    if |s| >= |target| {
      var d := |replacement| - |target|;
      if s[..|target|] == target {
        var rest := s[|target|..];
        ReplaceLength(rest, target, replacement);
        var k := Occurrences(rest, target);
        assert Occurrences(s, target) == 1 + k;
        assert |Replace(s, target, replacement)| == |replacement| + |Replace(rest, target, replacement)|;
        MulSucc(k, d);
      } else {
        ReplaceLength(s[1..], target, replacement);
        assert Occurrences(s, target) == Occurrences(s[1..], target);
        assert |Replace(s, target, replacement)| == 1 + |Replace(s[1..], target, replacement)|;
      }
    }
  }

  /** `replace` finds an occurrence exactly when `contains` does. */
  lemma {:induction false} OccurrencesContains(s: string, target: string)
    requires |target| > 0
    ensures Occurrences(s, target) > 0 <==> Contains(s, target)
    decreases |s|
  {
    if |s| < |target| {
      if Contains(s, target) {
        ContainsLength(s, target);
      }
    } else if s[..|target|] != target {
      OccurrencesContains(s[1..], target);
    }
  }

  /**
   * A replacement whose first character differs from the target's changes the
   * string at the first occurrence, so the result is no extension of the input.
   */
  lemma {:induction false} ReplaceNotExtension(s: string, target: string, replacement: string, x: string)
    requires |target| > 0 && |replacement| > 0 && replacement[0] != target[0] && Contains(s, target)
    ensures Replace(s, target, replacement) != s + x
    decreases |s|
  {
    ContainsLength(s, target);
    if s[..|target|] == target {
      assert Replace(s, target, replacement)[0] == replacement[0];
      assert (s + x)[0] == target[0];
    } else {
      assert !StartsWith(s, target);
      var tail := Replace(s[1..], target, replacement);
      ReplaceNotExtension(s[1..], target, replacement, x);
      assert Replace(s, target, replacement) == [s[0]] + tail;
      assert s + x == [s[0]] + (s[1..] + x);
      assert ([s[0]] + tail)[1..] == tail;
      assert ([s[0]] + (s[1..] + x))[1..] == s[1..] + x;
    }
  }

  /** Without an occurrence, `replace` returns its argument unchanged. */
  lemma {:induction false} ReplaceAbsent(s: string, target: string, replacement: string)
    requires |target| > 0 && !Contains(s, target)
    ensures Replace(s, target, replacement) == s
    decreases |s|
  {
    OccurrencesContains(s, target);
    if |s| >= |target| {
      assert s[..|target|] != target;
      OccurrencesContains(s[1..], target);
      ReplaceAbsent(s[1..], target, replacement);
    }
  }

  /** Java's `s.split(":")` has no element 0 (it throws) for a non-empty string made only of colons. */
  predicate SplitHeadFails(s: string) {
    |s| > 0 && forall i :: 0 <= i < |s| ==> s[i] == ':'
  }

  /** `s.split(":")[0]` when it exists: the text before the first colon. */
  function BeforeFirstColon(s: string): (r: string)
    ensures StartsWith(s, r) && ':' !in r
    ensures |r| < |s| ==> s[|r|] == ':'
  {
    if s == [] || s[0] == ':' then [] else [s[0]] + BeforeFirstColon(s[1..])
  }

  predicate IsLineBreak(c: char) {
    c == '\n' || c == '\r'
  }

  /** BufferedReader.readLine on a file whose whole content is `s`: null (None) at end of file. */
  function FirstLine(s: string): (r: Option<string>)
    ensures r.None? <==> s == []
    ensures r.Some? ==> StartsWith(s, r.value) && (forall c :: c in r.value ==> !IsLineBreak(c))
    ensures r.Some? && |r.value| < |s| ==> IsLineBreak(s[|r.value|])
  {
    if s == [] then None
    else if IsLineBreak(s[0]) then Some([])
    else
      var rest := FirstLine(s[1..]);
      Some([s[0]] + (if rest.Some? then rest.value else []))
  }

  /** readLine stops at the first line break: the text before it is the line. */
  lemma {:induction false} FirstLineUpTo(s: string, cut: nat)
    requires cut < |s| && IsLineBreak(s[cut])
    requires forall i :: 0 <= i < cut ==> !IsLineBreak(s[i])
    ensures FirstLine(s) == Some(s[..cut])
    decreases cut
  {
    if cut > 0 {
      FirstLineUpTo(s[1..], cut - 1);
      assert s[..cut] == [s[0]] + s[1..][..cut - 1];
    }
  }

  /** A file holding one line break free text reads back as exactly that text (an empty one as null). */
  lemma {:induction false} FirstLineOfLine(s: string)
    ensures FirstLine(s) == Some(s) <==> s != [] && forall c :: c in s ==> !IsLineBreak(c)
    decreases |s|
  {
    if s != [] && (forall c :: c in s ==> !IsLineBreak(c)) {
      assert !IsLineBreak(s[0]);
      var tail := s[1..];
      assert forall c :: c in tail ==> c in s;
      FirstLineOfLine(tail);
      assert s == [s[0]] + tail;
      if tail == [] {
        assert FirstLine(tail) == None;
      } else {
        assert FirstLine(tail) == Some(tail);
      }
    }
  }

  function LowerAscii(c: char): char {
    if 'A' <= c <= 'Z' then (c as int + 32) as char else c
  }

  /** String.equalsIgnoreCase, with case folding restricted to ASCII letters. */
  predicate EqualsIgnoreCase(a: string, b: string) {
    |a| == |b| && forall i :: 0 <= i < |a| ==> LowerAscii(a[i]) == LowerAscii(b[i])
  }
}
