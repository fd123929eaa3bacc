/** `RenderWithEnv`: expanding `$NAME` references in a string.

    The references are the matches of `\$[A-Za-z_]+` in the original
    string, found once, leftmost first, each as long as possible, none
    overlapping. They are then handled one after another: the name is looked
    up in `ext`, then, when that gives the empty string, in the process
    environment, which is passed in as the map `env` (a missing name reads as
    the empty string, as `os.Getenv` gives). A non-empty value replaces every
    occurrence of the reference text in the string as it stands at that
    point. So replacing `$FOO` also rewrites the front of a later `$FOOBAR`,
    and a value that itself contains a reference can be rewritten by a later
    step; the model keeps both behaviours. */
module Render {
  import opened Strings

  predicate IsNameChar(c: char)
  {
    'A' <= c <= 'Z' || 'a' <= c <= 'z' || c == '_'
  }

  /** A match of `\$[A-Za-z_]+`. */
  predicate IsReference(m: string)
  {
    |m| >= 2 && m[0] == '$' && forall k :: 1 <= k < |m| ==> IsNameChar(m[k])
  }

  /** A match can start at position `i` of `s`. */
  predicate StartsReference(s: string, i: nat)
  {
    i + 1 < |s| && s[i] == '$' && IsNameChar(s[i + 1])
  }

  /** `FindAllString` from position `i` on. */
  function FindReferencesFrom(s: string, i: nat): (ms: seq<string>)
    requires i <= |s|
    ensures forall k :: 0 <= k < |ms| ==> IsReference(ms[k])
    decreases |s| - i
  {
    if i == |s| then []
    else if StartsReference(s, i) then
      var j := Span(s, i + 1, IsNameChar);
      [s[i..j]] + FindReferencesFrom(s, j)
    else FindReferencesFrom(s, i + 1)
  }

  /** There is no match exactly when no `$` is followed by a name character. */
  lemma {:induction false} NoReferences(s: string, i: nat)
    requires i <= |s|
    ensures FindReferencesFrom(s, i) == [] <==> forall k :: i <= k < |s| ==> !StartsReference(s, k)
    decreases |s| - i
  {
    if i < |s| && !StartsReference(s, i) {
      NoReferences(s, i + 1);
    }
  }

  function FindReferences(s: string): seq<string>
  {
    FindReferencesFrom(s, 0)
  }

  /** Indexing a Go map: a missing key reads as the empty string. */
  function Lookup(m: map<string, string>, key: string): string
  {
    if key in m then m[key] else ""
  }

  /** `ext` first; the environment only when `ext` gives the empty string. */
  function Resolve(key: string, ext: map<string, string>, env: map<string, string>): string
  {
    var val := Lookup(ext, key);
    if val == "" then Lookup(env, key) else val
  }

  /** The loop over the matches, applied to the string as it is so far. */
  function Substitute(s: string, refs: seq<string>, ext: map<string, string>, env: map<string, string>): string
    requires forall k :: 0 <= k < |refs| ==> IsReference(refs[k])
    decreases |refs|
  {
    if |refs| == 0 then s
    else
      assert IsReference(refs[0]);
      var val := Resolve(refs[0][1..], ext, env);
      var next := if val != "" then ReplaceAll(s, refs[0], val) else s;
      Substitute(next, refs[1..], ext, env)
  }

  function RenderWithEnv(s: string, ext: map<string, string>, env: map<string, string>): string
  {
    Substitute(s, FindReferences(s), ext, env)
  }

  /** A string without any `$` followed by a name character is returned unchanged. */
  lemma RenderWithoutReferences(s: string, ext: map<string, string>, env: map<string, string>)
    requires forall k :: 0 <= k < |s| ==> !StartsReference(s, k)
    ensures RenderWithEnv(s, ext, env) == s
  {
    NoReferences(s, 0);
  }

  /** When no name resolves to a non-empty value, nothing is replaced. */
  lemma {:induction false} SubstituteUnresolved(s: string, refs: seq<string>, ext: map<string, string>, env: map<string, string>)
    requires forall k :: 0 <= k < |refs| ==> IsReference(refs[k]) && Resolve(refs[k][1..], ext, env) == ""
    decreases |refs|
    ensures Substitute(s, refs, ext, env) == s
  {
    if |refs| != 0 {
      SubstituteUnresolved(s, refs[1..], ext, env);
    }
  }

  lemma RenderUnresolved(s: string, ext: map<string, string>, env: map<string, string>)
    requires forall k :: 0 <= k < |FindReferences(s)| ==> Resolve(FindReferences(s)[k][1..], ext, env) == ""
    ensures RenderWithEnv(s, ext, env) == s
  {
    SubstituteUnresolved(s, FindReferences(s), ext, env);
  }

  /** `ext` is consulted first, name by name: two environments that agree on
      every matched name `ext` leaves empty give the same result, whatever
      they hold for the names `ext` resolves. */
  lemma {:induction false} SubstituteIgnoresEnv(s: string, refs: seq<string>, ext: map<string, string>, env: map<string, string>, env': map<string, string>)
    requires forall k :: 0 <= k < |refs| ==> IsReference(refs[k])
    requires forall k :: 0 <= k < |refs| && IsReference(refs[k]) && Lookup(ext, refs[k][1..]) == "" ==>
      Lookup(env, refs[k][1..]) == Lookup(env', refs[k][1..])
    decreases |refs|
    ensures Substitute(s, refs, ext, env) == Substitute(s, refs, ext, env')
  {
    if |refs| != 0 {
      var val := Resolve(refs[0][1..], ext, env);
      var next := if val != "" then ReplaceAll(s, refs[0], val) else s;
      SubstituteIgnoresEnv(next, refs[1..], ext, env, env');
    }
  }

  lemma RenderPrefersExt(s: string, ext: map<string, string>, env: map<string, string>, env': map<string, string>)
    requires forall k :: 0 <= k < |FindReferences(s)| && Lookup(ext, FindReferences(s)[k][1..]) == "" ==>
      Lookup(env, FindReferences(s)[k][1..]) == Lookup(env', FindReferences(s)[k][1..])
    ensures RenderWithEnv(s, ext, env) == RenderWithEnv(s, ext, env')
  {
    SubstituteIgnoresEnv(s, FindReferences(s), ext, env, env');
  }

  /** A name as the pattern matches it: one or more name characters. */
  predicate IsName(n: string)
  {
    |n| > 0 && forall k :: 0 <= k < |n| ==> IsNameChar(n[k])
  }

  lemma NameHasNoDollar(n: string)
    requires IsName(n)
    ensures '$' !in n
  {
  }

  /** The scan passes over positions where no match starts. */
  lemma {:induction false} SkipToReference(s: string, i: nat, j: nat)
    requires i <= j <= |s|
    requires forall k :: i <= k < j ==> !StartsReference(s, k)
    ensures FindReferencesFrom(s, i) == FindReferencesFrom(s, j)
    decreases j - i
  {
    if i < j {
      SkipToReference(s, i + 1, j);
    }
  }

  /** A match that starts at `i` runs exactly to the end of the name there. */
  lemma ReferenceAt(s: string, i: nat, j: nat)
    requires StartsReference(s, i) && i + 1 < j <= |s|
    requires forall k :: i + 1 <= k < j ==> IsNameChar(s[k])
    requires j == |s| || !IsNameChar(s[j])
    ensures FindReferencesFrom(s, i) == [s[i..j]] + FindReferencesFrom(s, j)
  {
  }

  /** Scanning `p + x` from inside `x` is scanning `x`. */
  lemma SpanShift(p: string, x: string, i: nat, pr: char -> bool)
    requires i <= |x|
    ensures Span(p + x, |p| + i, pr) == |p| + Span(x, i, pr)
  {
    var s := p + x;
    var j := Span(x, i, pr);
    forall k | |p| + i <= k < |p| + j
      ensures pr(s[k])
    {
      assert s[k] == x[k - |p|];
    }
    if j < |x| {
      assert s[|p| + j] == x[j];
    }
    SpanStopsAt(s, |p| + i, |p| + j, pr);
  }

  lemma StartsShift(p: string, x: string, i: nat)
    requires i < |x|
    ensures StartsReference(p + x, |p| + i) == StartsReference(x, i)
  {
  }

  lemma SliceShift(p: string, x: string, i: nat, j: nat)
    requires i <= j <= |x|
    ensures (p + x)[|p| + i..|p| + j] == x[i..j]
  {
  }

  /** One step of the scan over `p + x` at a match inside `x`. */
  lemma FindShiftStep(p: string, x: string, i: nat, j: nat)
    requires StartsReference(x, i) && j == Span(x, i + 1, IsNameChar)
    ensures FindReferencesFrom(p + x, |p| + i) == [x[i..j]] + FindReferencesFrom(p + x, |p| + j)
  {
    var s := p + x;
    var a, b := |p| + i, |p| + j;
    StartsShift(p, x, i);
    SpanShift(p, x, i + 1, IsNameChar);
    SliceShift(p, x, i, j);
    assert StartsReference(s, a) && Span(s, a + 1, IsNameChar) == b;
    assert s[a..b] == x[i..j];
  }

  lemma {:induction false} FindShift(p: string, x: string, i: nat)
    requires i <= |x|
    ensures FindReferencesFrom(p + x, |p| + i) == FindReferencesFrom(x, i)
    decreases |x| - i
  {
    if i == |x| {
      assert |p| + i == |p + x|;
    } else if StartsReference(x, i) {
      var j := Span(x, i + 1, IsNameChar);
      FindShiftStep(p, x, i, j);
      FindShift(p, x, j);
    } else {
      StartsShift(p, x, i);
      FindShift(p, x, i + 1);
    }
  }

  /** Text without `$` in front of a string adds no match. */
  lemma FindAfterPlain(p: string, x: string)
    requires '$' !in p
    ensures FindReferences(p + x) == FindReferences(x)
  {
    forall k | 0 <= k < |p|
      ensures !StartsReference(p + x, k)
    {
      assert (p + x)[k] == p[k];
    }
    SkipToReference(p + x, 0, |p|);
    FindShift(p, x, 0);
  }

  /** Text without `$` has no match. */
  lemma FindInPlain(x: string)
    requires '$' !in x
    ensures FindReferences(x) == []
  {
    NoReferences(x, 0);
  }

  /** A string that opens with `$name`, followed by something that does not
      continue the name, has that as its first match. */
  lemma LeadingReference(name: string, x: string)
    requires IsName(name)
    requires |x| == 0 || !IsNameChar(x[0])
    ensures FindReferences("$" + name + x) == ["$" + name] + FindReferences(x)
  {
    var m: string := "$" + name;
    var s := m + x;
    forall k | 1 <= k < |m|
      ensures IsNameChar(s[k])
    {
      assert s[k] == name[k - 1];
    }
    if |x| > 0 {
      assert s[|m|] == x[0];
    }
    ReferenceAt(s, 0, |m|);
    assert s[0..|m|] == m;
    FindShift(m, x, 0);
  }

  /** A string with a single reference `$name`, not followed by another name
      character, has that reference replaced by the name's value when it
      has one, and is left alone otherwise. */
  lemma RenderSingleReference(p: string, name: string, q: string, ext: map<string, string>, env: map<string, string>)
    requires '$' !in p && '$' !in q
    requires IsName(name)
    requires |q| == 0 || !IsNameChar(q[0])
    ensures var val := Resolve(name, ext, env);
      RenderWithEnv(p + "$" + name + q, ext, env) == if val == "" then p + "$" + name + q else p + val + q
  {
    var s := p + "$" + name + q;
    var m: string := "$" + name;
    SingleReferenceFound(p, name, q);
    var val := Resolve(name, ext, env);
    assert m[1..] == name;
    assert |[m][1..]| == 0;
    assert RenderWithEnv(s, ext, env) == Substitute(s, [m], ext, env);
    if val != "" {
      assert Substitute(s, [m], ext, env) == Substitute(ReplaceAll(s, m, val), [], ext, env);
      assert s == p + m + q;
      SingleReferenceReplaced(p, m, q, val);
    }
  }

  lemma SingleReferenceFound(p: string, name: string, q: string)
    requires '$' !in p && '$' !in q
    requires IsName(name)
    requires |q| == 0 || !IsNameChar(q[0])
    ensures FindReferences(p + "$" + name + q) == ["$" + name]
  {
    var m: string := "$" + name;
    assert p + "$" + name + q == p + (m + q);
    FindAfterPlain(p, m + q);
    LeadingReference(name, q);
    FindInPlain(q);
  }

  lemma SingleReferenceReplaced(p: string, m: string, q: string, val: string)
    requires |m| > 0 && m[0] == '$'
    requires '$' !in p && '$' !in q
    ensures ReplaceAll(p + m + q, m, val) == p + val + q
  {
    assert p + m + q == p + (m + q);
    ReplaceAllSkipsPrefix(p, m + q, m, val);
    ReplaceAllAtStart(m, q, val);
    ReplaceAllSkipsPrefix(q, "", m, val);
    assert q + "" == q;
  }

  /** A string with no `$` is left alone by any replacement of a reference. */
  lemma ReplaceWithoutDollar(s: string, m: string, val: string)
    requires |m| > 0 && m[0] == '$' && '$' !in s
    ensures ReplaceAll(s, m, val) == s
  {
    ReplaceAllSkipsPrefix(s, "", m, val);
    assert s + "" == s;
  }

  /** Replacing `$a` also rewrites the front of a later `$ab`: when `a` has a
      value `v` (without `$`), `$a $ab` renders as `v vb`, whatever `ab`
      resolves to, because `$ab` is gone by the time its turn comes. */
  lemma PrefixReferenceRewritten(a: string, b: string, ext: map<string, string>, env: map<string, string>)
    requires IsName(a) && IsName(b)
    requires Resolve(a, ext, env) != "" && '$' !in Resolve(a, ext, env)
    ensures var v := Resolve(a, ext, env);
      RenderWithEnv("$" + a + " $" + a + b, ext, env) == v + " " + v + b
  {
    var v := Resolve(a, ext, env);
    var m: string := "$" + a;
    var mb: string := m + b;
    var s := "$" + a + " $" + a + b;
    assert s == m + " " + mb;
    PrefixReferencesFound(a, b);
    PrefixReplaced(m, b, v);
    var t := v + " " + v + b;
    NameHasNoDollar(b);
    assert '$' !in t;
    var w := Resolve(mb[1..], ext, env);
    var next := if w != "" then ReplaceAll(t, mb, w) else t;
    ReplaceWithoutDollar(t, mb, w);
    assert m[1..] == a;
    assert [m, mb][1..] == [mb];
    assert |[mb][1..]| == 0;
    calc {
      RenderWithEnv(s, ext, env);
      Substitute(s, [m, mb], ext, env);
      Substitute(t, [mb], ext, env);
      Substitute(next, [], ext, env);
    }
  }

  lemma PrefixReferencesFound(a: string, b: string)
    requires IsName(a) && IsName(b)
    ensures FindReferences("$" + a + " $" + a + b) == ["$" + a, "$" + a + b]
  {
    var m: string := "$" + a;
    var mb: string := "$" + (a + b);
    assert "$" + a + " $" + a + b == m + (" " + mb);
    LeadingReference(a, " " + mb);
    FindAfterPlain(" ", mb);
    assert IsName(a + b) by {
      forall k | 0 <= k < |a + b|
        ensures IsNameChar((a + b)[k])
      {
        assert k < |a| ==> (a + b)[k] == a[k];
        assert k >= |a| ==> (a + b)[k] == b[k - |a|];
      }
    }
    LeadingReference(a + b, "");
    assert mb + "" == mb;
    FindInPlain("");
    assert mb == "$" + a + b;
  }

  lemma PrefixReplaced(m: string, b: string, v: string)
    requires |m| > 0 && m[0] == '$' && '$' !in b
    ensures ReplaceAll(m + " " + (m + b), m, v) == v + " " + v + b
  {
    ReplaceAllAtStart(m, " " + (m + b), v);
    assert m + " " + (m + b) == m + (" " + (m + b));
    ReplaceAllSkipsPrefix(" ", m + b, m, v);
    ReplaceAllAtStart(m, b, v);
    ReplaceWithoutDollar(b, m, v);
  }

  /** A value that is itself a reference is expanded by a later step: when
      `a` has the value `$b` and `b` the value `w` (without `$`), `$a $b`
      renders as `w w`. The condition that `b` does not start with `a` keeps
      the first replacement away from the text of `$b`. */
  lemma SubstitutedValueRewritten(a: string, b: string, ext: map<string, string>, env: map<string, string>)
    requires IsName(a) && IsName(b) && !HasPrefix(b, a)
    requires Resolve(a, ext, env) == "$" + b
    requires Resolve(b, ext, env) != "" && '$' !in Resolve(b, ext, env)
    ensures var w := Resolve(b, ext, env);
      RenderWithEnv("$" + a + " $" + b, ext, env) == w + " " + w
  {
    var w := Resolve(b, ext, env);
    var ma: string := "$" + a;
    var mb: string := "$" + b;
    var s := "$" + a + " $" + b;
    ChainReferencesFound(a, b);
    ChainFirstReplaced(a, b);
    assert "$" + b + " $" + b == mb + " " + mb;
    ChainSecondReplaced(mb, w);
    assert ma[1..] == a && mb[1..] == b;
    assert [ma, mb][1..] == [mb];
    assert |[mb][1..]| == 0;
    calc {
      RenderWithEnv(s, ext, env);
      Substitute(s, [ma, mb], ext, env);
      Substitute(mb + " " + mb, [mb], ext, env);
      Substitute(w + " " + w, [], ext, env);
    }
  }

  lemma ChainReferencesFound(a: string, b: string)
    requires IsName(a) && IsName(b)
    ensures FindReferences("$" + a + " $" + b) == ["$" + a, "$" + b]
  {
    var mb: string := "$" + b;
    assert "$" + a + " $" + b == "$" + a + (" " + mb);
    LeadingReference(a, " " + mb);
    FindAfterPlain(" ", mb);
    LeadingReference(b, "");
    assert mb + "" == mb;
    FindInPlain("");
  }

  lemma ChainFirstReplaced(a: string, b: string)
    requires IsName(a) && IsName(b) && !HasPrefix(b, a)
    ensures ReplaceAll("$" + a + " $" + b, "$" + a, "$" + b) == "$" + b + " $" + b
  {
    var ma: string := "$" + a;
    var mb: string := "$" + b;
    assert "$" + a + " $" + b == ma + (" " + mb);
    ReplaceAllAtStart(ma, " " + mb, mb);
    ReplaceAllSkipsPrefix(" ", mb, ma, mb);
    if |mb| >= |ma| {
      assert mb[..|ma|] != ma by {
        assert mb[..|ma|][1..] == b[..|a|];
        assert ma[1..] == a;
      }
    }
    NameHasNoDollar(b);
    ReplaceWithoutDollar(b, ma, mb);
    assert mb[1..] == b;
  }

  lemma ChainSecondReplaced(mb: string, w: string)
    requires |mb| > 0 && mb[0] == '$'
    ensures ReplaceAll(mb + " " + mb, mb, w) == w + " " + w
  {
    assert mb + " " + mb == mb + (" " + mb);
    ReplaceAllAtStart(mb, " " + mb, w);
    ReplaceAllSkipsPrefix(" ", mb, mb, w);
    assert mb + "" == mb;
    ReplaceAllAtStart(mb, "", w);
    assert ReplaceAll("", mb, w) == "";
    assert w + "" == w;
  }
}
