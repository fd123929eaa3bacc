/** The sequence helpers of pkg/util/util.go: stable deduplication,
    membership, and listing the members of a set or the keys of a map. */
module Collections {

  ghost predicate NoDuplicates(s: seq<string>)
  {
    forall i, j :: 0 <= i < j < |s| ==> s[i] != s[j]
  }

  /** The position of the first occurrence of `x` in `s`. */
  function FirstIndex(s: seq<string>, x: string): (i: nat)
    requires x in s
    ensures i < |s| && s[i] == x
    ensures forall k :: 0 <= k < i ==> s[k] != x
  {
    if s[0] == x then 0
    else
      assert s == [s[0]] + s[1..];
      FirstIndex(s[1..], x) + 1
  }

  /** Reference definition: each element of `s` at its first occurrence,
      the later repeats dropped. */
  function FirstOccurrences(s: seq<string>): (r: seq<string>)
    ensures NoDuplicates(r)
    ensures forall x :: x in r <==> x in s
    ensures |r| <= |s|
  {
    if |s| == 0 then []
    else
      var init := s[..|s| - 1];
      var p := FirstOccurrences(init);
      if s[|s| - 1] in init then
        assert forall x :: x in s <==> x in init || x == s[|s| - 1] by {
          assert s == init + [s[|s| - 1]];
        }
        p
      else
        assert forall x :: x in s <==> x in init || x == s[|s| - 1] by {
          assert s == init + [s[|s| - 1]];
        }
        p + [s[|s| - 1]]
  }

  /** The kept elements appear in the order of their first occurrences. */
  lemma {:induction false} FirstOccurrencesOrder(s: seq<string>)
    ensures forall i, j :: 0 <= i < j < |FirstOccurrences(s)| ==>
      FirstIndex(s, FirstOccurrences(s)[i]) < FirstIndex(s, FirstOccurrences(s)[j])
  {
    if |s| != 0 {
      var init := s[..|s| - 1];
      var last := s[|s| - 1];
      assert s == init + [last];
      FirstOccurrencesOrder(init);
      var p := FirstOccurrences(init);
      forall x | x in init
        ensures FirstIndex(s, x) == FirstIndex(init, x)
      {
        FirstIndexExtend(init, last, x);
      }
      if last !in init {
        var r := p + [last];
        forall i, j | 0 <= i < j < |r|
          ensures FirstIndex(s, r[i]) < FirstIndex(s, r[j])
        {
          assert r[i] == p[i] && p[i] in init;
          if j == |r| - 1 {
            assert FirstIndex(s, last) == |init|;
          } else {
            assert r[j] == p[j] && p[j] in init;
            assert FirstIndex(init, p[i]) < FirstIndex(init, p[j]);
          }
        }
      }
    }
  }

  lemma FirstIndexExtend(s: seq<string>, y: string, x: string)
    requires x in s
    ensures FirstIndex(s + [y], x) == FirstIndex(s, x)
  {
    var i := FirstIndex(s, x);
    assert (s + [y])[i] == x;
  }

  /** A sequence without repeats is its own first-occurrence list. */
  lemma {:induction false} FirstOccurrencesOfDistinct(s: seq<string>)
    requires NoDuplicates(s)
    ensures FirstOccurrences(s) == s
  {
    if |s| != 0 {
      var init := s[..|s| - 1];
      FirstOccurrencesOfDistinct(init);
      assert s == init + [s[|s| - 1]];
    }
  }

  /** Deduplicating twice is deduplicating once. */
  lemma DeduplicateIdempotent(s: seq<string>)
    ensures FirstOccurrences(FirstOccurrences(s)) == FirstOccurrences(s)
  {
    FirstOccurrencesOfDistinct(FirstOccurrences(s));
  }

  /** `DeduplicateSliceStably`: one pass, remembering what has been seen. */
  method DeduplicateSliceStably(items: seq<string>) returns (data: seq<string>)
    ensures data == FirstOccurrences(items)
    ensures NoDuplicates(data)
    ensures forall x :: x in data <==> x in items
    ensures forall i, j :: 0 <= i < j < |data| ==> FirstIndex(items, data[i]) < FirstIndex(items, data[j])
  {
    data := [];
    var seen: set<string> := {};
    for n := 0 to |items|
      invariant seen == set x | x in items[..n]
      invariant data == FirstOccurrences(items[..n])
    {
      var val := items[n];
      assert items[..n + 1][..n] == items[..n];
      if val !in seen {
        seen := seen + {val};
        data := data + [val];
      }
    }
    assert items[..|items|] == items;
    FirstOccurrencesOrder(items);
  }

  /** `Contains`: whether `target` is one of `items`. */
  method Contains(items: seq<string>, target: string) returns (found: bool)
    ensures found <==> exists i :: 0 <= i < |items| && items[i] == target
  {
    for n := 0 to |items|
      invariant forall i :: 0 <= i < n ==> items[i] != target
    {
      if items[n] == target {
        return true;
      }
    }
    return false;
  }

  /** `ContainsEmpty`: whether the empty string is one of `items`. */
  method ContainsEmpty(items: seq<string>) returns (found: bool)
    ensures found <==> exists i :: 0 <= i < |items| && items[i] == ""
  {
    found := Contains(items, "");
  }

  /** `SetToSlice`: the members of a set, each once, in some order. */
  method SetToSlice(members: set<string>) returns (data: seq<string>)
    ensures NoDuplicates(data)
    ensures forall x :: x in data <==> x in members
    ensures |data| == |members|
  {
    data := [];
    var rest := members;
    while rest != {}
      invariant rest <= members
      invariant forall x :: x in data <==> x in members && x !in rest
      invariant NoDuplicates(data)
      invariant |data| + |rest| == |members|
      decreases |rest|
    {
      var key :| key in rest;
      data := data + [key];
      rest := rest - {key};
    }
  }

  /** `GetMapKeys`: the keys of a map, each once, in some order. */
  method GetMapKeys(dict: map<string, string>) returns (keys: seq<string>)
    ensures NoDuplicates(keys)
    ensures forall k :: k in keys <==> k in dict
    ensures |keys| == |dict|
  {
    keys := SetToSlice(dict.Keys);
  }
}
