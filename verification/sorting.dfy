/** Go's `sort.Strings`: ascending order under Go's `<` on strings. */
module Sorting {
  import opened Strings

  ghost predicate Sorted(s: seq<string>)
  {
    forall i, j :: 0 <= i < j < |s| ==> LessEq(s[i], s[j])
  }

  /** Every element of `s` is at least `b`. */
  ghost predicate AllAtLeast(b: string, s: seq<string>)
  {
    forall i :: 0 <= i < |s| ==> LessEq(b, s[i])
  }

  /** A lower bound of a sequence is a lower bound of any rearrangement of it. */
  lemma AllAtLeastPermutation(b: string, s: seq<string>, t: seq<string>)
    requires AllAtLeast(b, s)
    requires multiset(s) == multiset(t)
    ensures AllAtLeast(b, t)
  {
    forall i | 0 <= i < |t|
      ensures LessEq(b, t[i])
    {
      assert t[i] in multiset(t);
      assert t[i] in s;
    }
  }

  /** Puts `x` into the sorted sequence `s` in front of the first element it does not exceed. */
  function Insert(x: string, s: seq<string>): (r: seq<string>)
    requires Sorted(s)
    ensures Sorted(r)
    ensures multiset(r) == multiset(s) + multiset{x}
  {
    if |s| == 0 then [x]
    else if LessEq(x, s[0]) then
      SortedBelowHead(x, s);
      [x] + s
    else
      var rest := Insert(x, s[1..]);
      SortedAboveHead(x, s, rest);
      [s[0]] + rest
  }

  lemma SortedBelowHead(x: string, s: seq<string>)
    requires Sorted(s) && |s| > 0 && LessEq(x, s[0])
    ensures Sorted([x] + s)
  {
    forall j | 0 <= j < |s|
      ensures LessEq(x, s[j])
    {
      if j > 0 {
        LessEqTransitive(x, s[0], s[j]);
      }
    }
  }

  lemma SortedAboveHead(x: string, s: seq<string>, rest: seq<string>)
    requires Sorted(s) && |s| > 0 && !LessEq(x, s[0])
    requires Sorted(rest) && multiset(rest) == multiset(s[1..]) + multiset{x}
    ensures Sorted([s[0]] + rest)
    ensures multiset([s[0]] + rest) == multiset(s) + multiset{x}
  {
    assert s == [s[0]] + s[1..];
    LessEqTotal(x, s[0]);
    assert AllAtLeast(s[0], s[1..] + [x]);
    AllAtLeastPermutation(s[0], s[1..] + [x], rest);
  }

  /** Insertion sort; it returns the elements of `s` rearranged into ascending order. */
  function Sort(s: seq<string>): (r: seq<string>)
    ensures Sorted(r)
    ensures multiset(r) == multiset(s)
  {
    if |s| == 0 then []
    else
      assert s == [s[0]] + s[1..];
      Insert(s[0], Sort(s[1..]))
  }

  /**
   * A multiset of strings has exactly one ascending arrangement, so sorting
   * forgets the order the elements came in.
   */
  lemma {:induction false} SortedUnique(a: seq<string>, b: seq<string>)
    requires Sorted(a) && Sorted(b)
    requires multiset(a) == multiset(b)
    ensures a == b
  {
    assert |a| == |multiset(a)| == |multiset(b)| == |b|;
    if |a| > 0 {
      assert a[0] in multiset(b);
      assert b[0] in multiset(a);
      var j :| 0 <= j < |b| && b[j] == a[0];
      var k :| 0 <= k < |a| && a[k] == b[0];
      assert LessEq(b[0], a[0]);
      assert LessEq(a[0], b[0]);
      LessEqAntisymmetric(a[0], b[0]);
      assert a == [a[0]] + a[1..];
      assert b == [b[0]] + b[1..];
      assert multiset(a[1..]) == multiset(a) - multiset{a[0]};
      assert multiset(b[1..]) == multiset(b) - multiset{b[0]};
      assert multiset(a[1..]) == multiset(b[1..]);
      SortedUnique(a[1..], b[1..]);
    }
  }

  lemma {:induction false} SortDependsOnlyOnMultiset(s: seq<string>, t: seq<string>)
    requires multiset(s) == multiset(t)
    ensures Sort(s) == Sort(t)
  {
    SortedUnique(Sort(s), Sort(t));
  }

  /** `f` applied to every element of `s`, in order. */
  function Apply(f: string -> string, s: seq<string>): (r: seq<string>)
    ensures |r| == |s|
    ensures forall i :: 0 <= i < |s| ==> r[i] == f(s[i])
  {
    if |s| == 0 then [] else [f(s[0])] + Apply(f, s[1..])
  }

  lemma ApplyAppend(f: string -> string, a: seq<string>, b: seq<string>)
    ensures Apply(f, a + b) == Apply(f, a) + Apply(f, b)
  {
  }

  lemma MultisetRemoveAt(s: seq<string>, j: nat)
    requires j < |s|
    ensures multiset(s[..j] + s[j + 1..]) == multiset(s) - multiset{s[j]}
  {
    assert s == s[..j] + [s[j]] + s[j + 1..];
  }

  lemma {:induction false} ApplyRemoveAt(f: string -> string, s: seq<string>, j: nat)
    requires j < |s|
    ensures multiset(Apply(f, s)) == multiset(Apply(f, s[..j] + s[j + 1..])) + multiset{f(s[j])}
  {
    var before, after := s[..j], s[j + 1..];
    assert s == before + ([s[j]] + after);
    ApplyAppend(f, before, [s[j]] + after);
    ApplyAppend(f, [s[j]], after);
    ApplyAppend(f, before, after);
  }

  lemma IndexOf(x: string, t: seq<string>) returns (j: nat)
    requires x in multiset(t)
    ensures j < |t| && t[j] == x
  {
    assert x in t;
    j :| 0 <= j < |t| && t[j] == x;
  }

  lemma TailPermutation(s: seq<string>, t: seq<string>, j: nat)
    requires |s| > 0 && j < |t| && t[j] == s[0]
    requires multiset(s) == multiset(t)
    ensures multiset(s[1..]) == multiset(t[..j] + t[j + 1..])
  {
    MultisetRemoveAt(t, j);
    assert s == [s[0]] + s[1..];
  }

  lemma ApplyHead(f: string -> string, s: seq<string>)
    requires |s| > 0
    ensures multiset(Apply(f, s)) == multiset{f(s[0])} + multiset(Apply(f, s[1..]))
  {
    assert Apply(f, s) == [f(s[0])] + Apply(f, s[1..]);
  }

  /** Applying `f` to a rearrangement gives a rearrangement of the results. */
  lemma {:induction false} ApplyPermutation(f: string -> string, s: seq<string>, t: seq<string>)
    requires multiset(s) == multiset(t)
    ensures multiset(Apply(f, s)) == multiset(Apply(f, t))
    decreases |s|
  {
    if |s| == 0 {
      assert |t| == |multiset(t)| == 0;
    } else {
      var j := IndexOf(s[0], t);
      TailPermutation(s, t, j);
      ApplyPermutation(f, s[1..], t[..j] + t[j + 1..]);
      ApplyHead(f, s);
      ApplyRemoveAt(f, t, j);
    }
  }
}
