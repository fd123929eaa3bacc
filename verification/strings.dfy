/** Go string operations that pkg/util/util.go relies on: the built-in
    ordering of strings, `strings.HasPrefix`/`HasSuffix`, `strings.Index`,
    `strings.ReplaceAll` and `strings.Join`.

    A Go string is modelled as a sequence of Unicode scalar values. For
    well-formed UTF-8 the byte-wise order Go uses on strings coincides with
    the order of the code points, so `Compare` below is Go's `<`. */
module Strings {

  /** The three-way outcome of a comparison. */
  datatype Ordering = Less | Equal | Greater {
    /** The same comparison seen from the other side. */
    function Flip(): Ordering {
      match this
      case Less => Greater
      case Equal => Equal
      case Greater => Less
    }
  }

  /** Go's lexicographic string order: the first differing character
      decides, and a proper prefix is smaller. */
  function Compare(a: string, b: string): Ordering
  {
    if |a| == 0 then (if |b| == 0 then Equal else Less)
    else if |b| == 0 then Greater
    else if a[0] < b[0] then Less
    else if b[0] < a[0] then Greater
    else Compare(a[1..], b[1..])
  }

  /** Two strings compare equal exactly when they are the same string. */
  lemma {:induction false} CompareEqual(a: string, b: string)
    ensures Compare(a, b) == Equal <==> a == b
  {
    if |a| != 0 && |b| != 0 && a[0] == b[0] {
      CompareEqual(a[1..], b[1..]);
      assert a == [a[0]] + a[1..];
      assert b == [b[0]] + b[1..];
    }
  }

  /** Swapping the operands flips the outcome. */
  lemma {:induction false} CompareFlip(a: string, b: string)
    ensures Compare(b, a) == Compare(a, b).Flip()
  {
    if |a| != 0 && |b| != 0 && a[0] == b[0] {
      CompareFlip(a[1..], b[1..]);
    }
  }

  /** The string order is transitive, and strictly so when either step is strict. */
  lemma {:induction false} CompareTransitive(a: string, b: string, c: string)
    requires Compare(a, b) != Greater && Compare(b, c) != Greater
    ensures Compare(a, c) != Greater
    ensures Compare(a, b) == Less || Compare(b, c) == Less ==> Compare(a, c) == Less
  {
    if |a| != 0 && |b| != 0 && |c| != 0 && a[0] == b[0] && b[0] == c[0] {
      CompareTransitive(a[1..], b[1..], c[1..]);
    }
  }

  predicate HasPrefix(s: string, prefix: string)
  {
    |prefix| <= |s| && s[..|prefix|] == prefix
  }

  predicate HasSuffix(s: string, suffix: string)
  {
    |suffix| <= |s| && s[|s| - |suffix|..] == suffix
  }

  /** The end of the longest run of characters satisfying `p` that starts at `i`. */
  function Span(s: string, i: nat, p: char -> bool): (j: nat)
    requires i <= |s|
    ensures i <= j <= |s|
    ensures forall k :: i <= k < j ==> p(s[k])
    ensures j == |s| || !p(s[j])
    decreases |s| - i
  {
    if i == |s| || !p(s[i]) then i else Span(s, i + 1, p)
  }

  /** A run is determined by where it stops. */
  lemma SpanStopsAt(s: string, i: nat, j: nat, p: char -> bool)
    requires i <= j <= |s|
    requires forall k :: i <= k < j ==> p(s[k])
    requires j == |s| || !p(s[j])
    ensures Span(s, i, p) == j
  {
  }

  /** `strings.Index` for a one-character pattern: the first position of
      `c` in `s`, or -1 when `c` does not occur. */
  function Index(s: string, c: char): (i: int)
    ensures -1 <= i < |s|
    ensures i == -1 <==> c !in s
    ensures 0 <= i ==> s[i] == c && c !in s[..i]
  {
    if |s| == 0 then -1
    else if s[0] == c then 0
    else
      var k := Index(s[1..], c);
      assert s == [s[0]] + s[1..];
      if k == -1 then -1 else
        assert s[..k + 1] == [s[0]] + s[1..][..k];
        k + 1
  }

  /** `sub` occurs in `s` starting at position `i`. */
  predicate OccursAt(s: string, sub: string, i: nat)
  {
    i + |sub| <= |s| && s[i..i + |sub|] == sub
  }

  predicate Occurs(s: string, sub: string)
  {
    exists i: nat :: i <= |s| && OccursAt(s, sub, i)
  }

  /** `strings.ReplaceAll`: every non-overlapping occurrence of `pattern`,
      found left to right, is replaced by `repl`. An empty `pattern` matches at the
      start and after every character. */
  function ReplaceAll(s: string, pattern: string, repl: string): string
  {
    if |pattern| == 0 then Interleave(s, repl) else ReplaceNonEmpty(s, pattern, repl)
  }

  function Interleave(s: string, sep: string): string
  {
    if |s| == 0 then sep else sep + [s[0]] + Interleave(s[1..], sep)
  }

  function ReplaceNonEmpty(s: string, pattern: string, repl: string): string
    requires |pattern| > 0
    decreases |s|
  {
    if |s| < |pattern| then s
    else if s[..|pattern|] == pattern then repl + ReplaceNonEmpty(s[|pattern|..], pattern, repl)
    else [s[0]] + ReplaceNonEmpty(s[1..], pattern, repl)
  }

  /** Replacing a pattern that does not occur leaves the string unchanged. */
  lemma {:induction false} ReplaceAllAbsent(s: string, pattern: string, repl: string)
    requires !Occurs(s, pattern)
    ensures ReplaceAll(s, pattern, repl) == s
  {
    if |pattern| == 0 {
      assert OccursAt(s, pattern, 0);
    } else if |s| >= |pattern| {
      assert !OccursAt(s, pattern, 0);
      forall i: nat | OccursAt(s[1..], pattern, i)
        ensures OccursAt(s, pattern, i + 1)
      {
        assert s[i + 1..i + 1 + |pattern|] == s[1..][i..i + |pattern|];
      }
      ReplaceAllAbsent(s[1..], pattern, repl);
      assert s == [s[0]] + s[1..];
    }
  }

  /** A first character that cannot start the pattern is copied through. */
  lemma ReplaceNonEmptyFirst(s: string, pattern: string, repl: string)
    requires |pattern| > 0 && |s| > 0 && s[0] != pattern[0]
    ensures ReplaceNonEmpty(s, pattern, repl) == [s[0]] + ReplaceNonEmpty(s[1..], pattern, repl)
  {
  }

  /** A prefix in which the pattern cannot start is copied through unchanged. */
  lemma {:induction false} ReplaceAllSkipsPrefix(p: string, x: string, pattern: string, repl: string)
    requires |pattern| > 0 && pattern[0] !in p
    ensures ReplaceAll(p + x, pattern, repl) == p + ReplaceAll(x, pattern, repl)
  {
    if |p| > 0 {
      var s := p + x;
      ReplaceNonEmptyFirst(s, pattern, repl);
      assert s[1..] == p[1..] + x;
      ReplaceAllSkipsPrefix(p[1..], x, pattern, repl);
      assert [p[0]] + p[1..] == p;
    } else {
      assert p + x == x;
    }
  }

  /** An occurrence at the very start is replaced, and the scan resumes after it. */
  lemma ReplaceAllAtStart(pattern: string, q: string, repl: string)
    requires |pattern| > 0
    ensures ReplaceAll(pattern + q, pattern, repl) == repl + ReplaceAll(q, pattern, repl)
  {
  }

  /** `strings.Join`: the parts separated by `sep`. */
  function Join(parts: seq<string>, sep: string): string
  {
    if |parts| == 0 then ""
    else if |parts| == 1 then parts[0]
    else parts[0] + sep + Join(parts[1..], sep)
  }
}
