/** Version strings in pkg/util/util.go: sorting a list of them by
    semantic-version precedence, and recognising the "regular" form
    `v<digits>.<digits>.<digits>`. */
module Versions {
  import opened Strings
  import opened SemVer
  import Sorting

  /** The text handed to the parser: one leading `v` removed. */
  function TrimV(item: string): string
  {
    if HasPrefix(item, "v") then item[1..] else item
  }

  predicate Parses(parse: Parser, item: string)
  {
    parse(TrimV(item)).Some?
  }

  /** The order the versions are sorted by, extended to every string so
      that it is total: unparsable strings rank lowest (they never reach the
      sort). */
  predicate PrecedesOrEqual(parse: Parser, a: string, b: string)
  {
    match (parse(TrimV(a)), parse(TrimV(b)))
    case (Some(x), Some(y)) => SemVer.LessEq(x, y)
    case (None, _) => true
    case (Some(_), None) => false
  }

  /** Go's `<=` on strings. */
  predicate StringLessEq(a: string, b: string)
  {
    Strings.Compare(a, b) != Greater
  }

  lemma PrecedesOrEqualTotalPreorder(parse: Parser)
    ensures Sorting.TotalPreorder((a: string, b: string) => PrecedesOrEqual(parse, a, b))
  {
    var le := (a: string, b: string) => PrecedesOrEqual(parse, a, b);
    forall a: string, b: string
      ensures le(a, b) || le(b, a)
    {
      if parse(TrimV(a)).Some? && parse(TrimV(b)).Some? {
        SemVer.CompareFlip(parse(TrimV(a)).value, parse(TrimV(b)).value);
      }
    }
    forall a: string, b: string, c: string | le(a, b) && le(b, c)
      ensures le(a, c)
    {
      if parse(TrimV(a)).Some? && parse(TrimV(b)).Some? && parse(TrimV(c)).Some? {
        SemVer.CompareTransitive(parse(TrimV(a)).value, parse(TrimV(b)).value, parse(TrimV(c)).value);
      }
    }
  }

  lemma StringLessEqTotalPreorder()
    ensures Sorting.TotalPreorder(StringLessEq)
  {
    forall a: string, b: string
      ensures StringLessEq(a, b) || StringLessEq(b, a)
    {
      Strings.CompareFlip(a, b);
    }
    forall a: string, b: string, c: string | StringLessEq(a, b) && StringLessEq(b, c)
      ensures StringLessEq(a, c)
    {
      Strings.CompareTransitive(a, b, c);
    }
  }

  /** The version `item` parses to. */
  function VersionOf(parse: Parser, item: string): Version
    requires Parses(parse, item)
  {
    parse(TrimV(item)).value
  }

  /** `sort.Strings`: a permutation in ascending string order. */
  function SortStrings(s: seq<string>): (r: seq<string>)
    ensures multiset(r) == multiset(s)
    ensures forall i, j :: 0 <= i < j < |r| ==> StringLessEq(r[i], r[j])
  {
    StringLessEqTotalPreorder();
    Sorting.Sort(s, StringLessEq)
  }

  /** `sort.Sort` on the parsed versions, each carried back to the item it
      came from: a permutation of `items` in ascending precedence. */
  function SortByPrecedence(parse: Parser, items: seq<string>): (r: seq<string>)
    requires forall k :: 0 <= k < |items| ==> Parses(parse, items[k])
    ensures multiset(r) == multiset(items)
    ensures forall k :: 0 <= k < |r| ==> Parses(parse, r[k])
    ensures forall i, j :: 0 <= i < j < |r| ==> SemVer.LessEq(VersionOf(parse, r[i]), VersionOf(parse, r[j]))
  {
    PrecedesOrEqualTotalPreorder(parse);
    var r := Sorting.Sort(items, (a: string, b: string) => PrecedesOrEqual(parse, a, b));
    assert forall k :: 0 <= k < |r| ==> r[k] in multiset(items);
    r
  }

  /** Reference definitions: the items that do not parse, and those that
      do, each in input order. */
  ghost function Unparsable(parse: Parser, s: seq<string>): (r: seq<string>)
    ensures forall k :: 0 <= k < |r| ==> !Parses(parse, r[k])
  {
    if |s| == 0 then []
    else
      var last := s[|s| - 1];
      Unparsable(parse, s[..|s| - 1]) + (if Parses(parse, last) then [] else [last])
  }

  ghost function Parsable(parse: Parser, s: seq<string>): (r: seq<string>)
    ensures forall k :: 0 <= k < |r| ==> Parses(parse, r[k])
  {
    if |s| == 0 then []
    else
      var last := s[|s| - 1];
      Parsable(parse, s[..|s| - 1]) + (if Parses(parse, last) then [last] else [])
  }

  /** Every item is in exactly one of the two lists. */
  lemma {:induction false} SplitIsPermutation(parse: Parser, s: seq<string>)
    ensures multiset(Unparsable(parse, s)) + multiset(Parsable(parse, s)) == multiset(s)
  {
    if |s| != 0 {
      var init := s[..|s| - 1];
      SplitIsPermutation(parse, init);
      assert s == init + [s[|s| - 1]];
    }
  }

  /** The loop of `SortSemanticVersion`: each item goes, in input order,
      to `malformed` when it does not parse and to `parsed` when it does. */
  method Partition(items: seq<string>, parse: Parser) returns (malformed: seq<string>, parsed: seq<string>)
    ensures malformed == Unparsable(parse, items) && parsed == Parsable(parse, items)
    ensures multiset(malformed) + multiset(parsed) == multiset(items)
    ensures forall k :: 0 <= k < |malformed| ==> !Parses(parse, malformed[k])
    ensures forall k :: 0 <= k < |parsed| ==> Parses(parse, parsed[k])
  {
    parsed := [];
    malformed := [];
    for n := 0 to |items|
      invariant malformed == Unparsable(parse, items[..n])
      invariant parsed == Parsable(parse, items[..n])
    {
      var item := items[n];
      assert items[..n + 1][..n] == items[..n];
      var version := parse(TrimV(item));
      if version.None? {
        malformed := malformed + [item];
        continue;
      }
      parsed := parsed + [item];
    }
    assert items[..|items|] == items;
    SplitIsPermutation(parse, items);
  }

  /** A permutation of strings that do not parse holds only strings that do not parse. */
  lemma PermutedMalformed(parse: Parser, s: seq<string>, r: seq<string>)
    requires multiset(r) == multiset(s)
    requires forall k :: 0 <= k < |s| ==> !Parses(parse, s[k])
    ensures forall k :: 0 <= k < |r| ==> !Parses(parse, r[k])
  {
    forall k | 0 <= k < |r|
      ensures !Parses(parse, r[k])
    {
      assert r[k] in multiset(s);
    }
  }

  /** `SortSemanticVersion`: splits `items` into the strings that do not
      parse as a semantic version, sorted as strings, and those that do,
      sorted by precedence; every item lands in exactly one of the two. */
  method SortSemanticVersion(items: seq<string>, parse: Parser) returns (malformed: seq<string>, data: seq<string>)
    ensures multiset(malformed) + multiset(data) == multiset(items)
    ensures forall k :: 0 <= k < |malformed| ==> !Parses(parse, malformed[k])
    ensures forall k :: 0 <= k < |data| ==> Parses(parse, data[k])
    ensures forall i, j :: 0 <= i < j < |malformed| ==> StringLessEq(malformed[i], malformed[j])
    ensures forall i, j :: 0 <= i < j < |data| ==> SemVer.LessEq(VersionOf(parse, data[i]), VersionOf(parse, data[j]))
  {
    var unsorted, parsed := Partition(items, parse);
    data := SortByPrecedence(parse, parsed);
    malformed := SortStrings(unsorted);
    PermutedMalformed(parse, unsorted, malformed);
  }

  predicate IsDigit(c: char)
  {
    '0' <= c <= '9'
  }

  /** A non-empty run of ASCII digits. */
  predicate IsDigits(s: string)
  {
    |s| > 0 && forall k :: 0 <= k < |s| ==> IsDigit(s[k])
  }

  function RegularVersion(major: string, minor: string, patch: string): string
  {
    "v" + major + "." + minor + "." + patch
  }

  /** The language of `^v[0-9]+\.[0-9]+\.[0-9]+$`. */
  ghost predicate IsRegularForm(s: string)
  {
    exists a, b, c :: IsDigits(a) && IsDigits(b) && IsDigits(c) && s == RegularVersion(a, b, c)
  }

  /** `IsRegularVersion`: a left-to-right scan for `v`, three digit runs and
      the two dots between them, with nothing after the last run. */
  function IsRegularVersion(s: string): bool
  {
    && 1 <= |s| && s[0] == 'v'
    && var e1 := Span(s, 1, IsDigit);
    && 1 < e1 < |s| && s[e1] == '.'
    && var e2 := Span(s, e1 + 1, IsDigit);
    && e1 + 1 < e2 < |s| && s[e2] == '.'
    && var e3 := Span(s, e2 + 1, IsDigit);
    && e2 + 1 < e3 && e3 == |s|
  }

  /** The scan accepts exactly the strings the pattern matches. */
  lemma IsRegularVersionCorrect(s: string)
    ensures IsRegularVersion(s) <==> IsRegularForm(s)
  {
    if IsRegularVersion(s) {
      var e1 := Span(s, 1, IsDigit);
      var e2 := Span(s, e1 + 1, IsDigit);
      var a, b, c := s[1..e1], s[e1 + 1..e2], s[e2 + 1..];
      assert IsDigits(a) && IsDigits(b) && IsDigits(c);
      assert s == RegularVersion(a, b, c);
    }
    if IsRegularForm(s) {
      var a, b, c :| IsDigits(a) && IsDigits(b) && IsDigits(c) && s == RegularVersion(a, b, c);
      RegularVersionScan(a, b, c);
    }
  }

  lemma RegularVersionScan(a: string, b: string, c: string)
    requires IsDigits(a) && IsDigits(b) && IsDigits(c)
    ensures IsRegularVersion(RegularVersion(a, b, c))
  {
    var s := RegularVersion(a, b, c);
    var i1 := 1 + |a|;
    var i2 := i1 + 1 + |b|;
    assert forall k :: 1 <= k < i1 ==> s[k] == a[k - 1];
    assert s[i1] == '.';
    assert forall k :: i1 + 1 <= k < i2 ==> s[k] == b[k - i1 - 1];
    assert s[i2] == '.';
    assert forall k :: i2 + 1 <= k < |s| ==> s[k] == c[k - i2 - 1];
    SpanStopsAt(s, 1, i1, IsDigit);
    SpanStopsAt(s, i1 + 1, i2, IsDigit);
    SpanStopsAt(s, i2 + 1, |s|, IsDigit);
  }
}
