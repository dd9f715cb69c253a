/** Python's ordering of `str` values (code point by code point, a proper
    prefix first) and `sorted(set(xs))` over it. */
module Ordering {

  /** `a < b` on Python strings: the first differing code point decides,
      and a proper prefix sorts first. */
  predicate Less(a: string, b: string)
    ensures Less(a, b) ==> a != b
    ensures |a| < |b| && a == b[..|a|] ==> Less(a, b)
    decreases |a|
  {
    if a == [] then b != []
    else if b == [] then false
    else if a[0] != b[0] then a[0] < b[0]
    else
      assert |a| < |b| && a == b[..|a|] ==> a[1..] == b[1..][..|a| - 1];
      Less(a[1..], b[1..])
  }

  lemma {:induction false} LessIrreflexive(a: string)
    ensures !Less(a, a)
    decreases |a|
  {
    if a != [] {
      LessIrreflexive(a[1..]);
    }
  }

  lemma {:induction false} LessTransitive(a: string, b: string, c: string)
    requires Less(a, b) && Less(b, c)
    ensures Less(a, c)
    decreases |a|
  {
    if a != [] && a[0] == b[0] && b[0] == c[0] {
      LessTransitive(a[1..], b[1..], c[1..]);
    }
  }

  /** Any two different strings are ordered one way or the other. */
  lemma {:induction false} LessTotal(a: string, b: string)
    requires a != b
    ensures Less(a, b) || Less(b, a)
    decreases |a|
  {
    if a != [] && b != [] && a[0] == b[0] {
      assert a == [a[0]] + a[1..] && b == [b[0]] + b[1..];
      LessTotal(a[1..], b[1..]);
    }
  }

  lemma {:induction false} LessAsymmetric(a: string, b: string)
    requires Less(a, b)
    ensures !Less(b, a)
  {
    if Less(b, a) {
      LessTransitive(a, b, a);
      LessIrreflexive(a);
    }
  }

  /** Sorted with no duplicates: what `sorted()` returns for a set. */
  predicate StrictlyIncreasing(xs: seq<string>) {
    forall i, j :: 0 <= i < j < |xs| ==> Less(xs[i], xs[j])
  }

  function Elements(xs: seq<string>): (s: set<string>) {
    set k | 0 <= k < |xs| :: xs[k]
  }

  lemma ElementsEmpty(xs: seq<string>)
    ensures Elements(xs) == {} <==> xs == []
  {
    if xs != [] {
      assert xs[0] in Elements(xs);
    }
  }

  lemma ElementsCons(x: string, xs: seq<string>)
    ensures Elements([x] + xs) == {x} + Elements(xs)
  {
    var ys := [x] + xs;
    assert ys[0] == x;
    forall y | y in Elements(ys) ensures y in {x} + Elements(xs) {
      var k :| 0 <= k < |ys| && ys[k] == y;
      if k > 0 { assert xs[k - 1] == y; }
    }
    forall y | y in Elements(xs) ensures y in Elements(ys) {
      var k :| 0 <= k < |xs| && xs[k] == y;
      assert ys[k + 1] == y;
    }
  }

  lemma ElementsAppend(xs: seq<string>, ys: seq<string>)
    ensures Elements(xs + ys) == Elements(xs) + Elements(ys)
  {
    var zs := xs + ys;
    forall y | y in Elements(zs) ensures y in Elements(xs) + Elements(ys) {
      var k :| 0 <= k < |zs| && zs[k] == y;
      if k >= |xs| { assert ys[k - |xs|] == y; }
    }
    forall y | y in Elements(xs) ensures y in Elements(zs) {
      var k :| 0 <= k < |xs| && xs[k] == y;
      assert zs[k] == y;
    }
    forall y | y in Elements(ys) ensures y in Elements(zs) {
      var k :| 0 <= k < |ys| && ys[k] == y;
      assert zs[|xs| + k] == y;
    }
  }

  /** Puts `x` into its place in a strictly increasing list, unless it is
      already there. */
  function Insert(x: string, xs: seq<string>): (r: seq<string>)
    requires StrictlyIncreasing(xs)
    ensures StrictlyIncreasing(r)
    ensures Elements(r) == Elements(xs) + {x}
  {
    if xs == [] then
      ElementsCons(x, []);
      assert [x] + [] == [x];
      [x]
    else if x == xs[0] then xs
    else if Less(x, xs[0]) then
      forall j | 0 < j < |xs| ensures Less(x, xs[j]) {
        LessTransitive(x, xs[0], xs[j]);
      }
      ElementsCons(x, xs);
      [x] + xs
    else
      LessTotal(x, xs[0]);
      var rest := Insert(x, xs[1..]);
      ElementsCons(xs[0], xs[1..]);
      assert [xs[0]] + xs[1..] == xs;
      var r := [xs[0]] + rest;
      ElementsCons(xs[0], rest);
      forall j | 0 < j < |r| ensures Less(r[0], r[j]) {
        assert r[j] == rest[j - 1];
        assert r[j] in Elements(rest);
        if r[j] != x {
          var k :| 0 <= k < |xs[1..]| && xs[1..][k] == r[j];
          assert xs[k + 1] == r[j];
        }
      }
      r
  }

  /** `sorted(set(xs))`: the distinct elements of `xs`, in increasing order. */
  function SortedSet(xs: seq<string>): (r: seq<string>)
    ensures StrictlyIncreasing(r)
    ensures Elements(r) == Elements(xs)
  {
    if xs == [] then []
    else
      var r := Insert(xs[0], SortedSet(xs[1..]));
      ElementsCons(xs[0], xs[1..]);
      assert [xs[0]] + xs[1..] == xs;
      r
  }

  /** A strictly increasing list is determined by its elements, so
      `SortedSet(xs)` is the one sorted enumeration of the set of `xs`. */
  lemma {:induction false} StrictlyIncreasingUnique(xs: seq<string>, ys: seq<string>)
    requires StrictlyIncreasing(xs) && StrictlyIncreasing(ys)
    requires Elements(xs) == Elements(ys)
    ensures xs == ys
    decreases |xs|
  {
    ElementsEmpty(xs);
    ElementsEmpty(ys);
    if xs != [] {
      assert xs[0] in Elements(ys);
      assert ys != [];
      assert ys[0] in Elements(xs);
      if xs[0] != ys[0] {
        var i :| 0 <= i < |ys| && ys[i] == xs[0];
        var j :| 0 <= j < |xs| && xs[j] == ys[0];
        assert i > 0 && j > 0;
        assert Less(ys[0], xs[0]) && Less(xs[0], ys[0]);
        LessAsymmetric(ys[0], xs[0]);
        assert false;
      }
      assert Elements(xs[1..]) == Elements(ys[1..]) by {
        forall y | y in Elements(xs[1..]) ensures y in Elements(ys[1..]) {
          var k :| 0 <= k < |xs[1..]| && xs[1..][k] == y;
          assert Less(xs[0], y);
          LessIrreflexive(y);
          assert y in Elements(ys);
          var m :| 0 <= m < |ys| && ys[m] == y;
          assert m != 0;
          assert ys[1..][m - 1] == y;
        }
        forall y | y in Elements(ys[1..]) ensures y in Elements(xs[1..]) {
          var k :| 0 <= k < |ys[1..]| && ys[1..][k] == y;
          assert Less(ys[0], y);
          LessIrreflexive(y);
          assert y in Elements(xs);
          var m :| 0 <= m < |xs| && xs[m] == y;
          assert m != 0;
          assert xs[1..][m - 1] == y;
        }
      }
      StrictlyIncreasingUnique(xs[1..], ys[1..]);
      assert xs == [xs[0]] + xs[1..] && ys == [ys[0]] + ys[1..];
    }
  }

  /** The sorted result depends only on the set of values: reordering or
      repeating inputs does not change it. */
  lemma SortedSetDependsOnElements(xs: seq<string>, ys: seq<string>)
    requires Elements(xs) == Elements(ys)
    ensures SortedSet(xs) == SortedSet(ys)
  {
    StrictlyIncreasingUnique(SortedSet(xs), SortedSet(ys));
  }

  /** No element occurs twice: what iterating over a Python set yields. */
  predicate Distinct(xs: seq<string>) {
    forall i, j :: 0 <= i < j < |xs| ==> xs[i] != xs[j]
  }

  /** `order` lists the set `s`, each element once, in some order. */
  predicate Enumerates(order: seq<string>, s: set<string>) {
    Distinct(order) && Elements(order) == s
  }

  lemma {:induction false} DistinctCard(xs: seq<string>)
    requires Distinct(xs)
    ensures |Elements(xs)| == |xs|
  {
    if xs != [] {
      DistinctCard(xs[1..]);
      ElementsCons(xs[0], xs[1..]);
      assert [xs[0]] + xs[1..] == xs;
      assert xs[0] !in Elements(xs[1..]) by {
        forall k | 0 <= k < |xs[1..]| ensures xs[1..][k] != xs[0] {
          assert xs[1..][k] == xs[k + 1];
        }
      }
    }
  }

  lemma StrictlyIncreasingDistinct(xs: seq<string>)
    requires StrictlyIncreasing(xs)
    ensures Distinct(xs)
  {
    forall i, j | 0 <= i < j < |xs| ensures xs[i] != xs[j] {
      if xs[i] == xs[j] {
        LessIrreflexive(xs[i]);
      }
    }
  }

  /** The empty string sorts first, so it can only be last in a sorted list
      that holds nothing else. */
  lemma EmptyOnlyFirst(xs: seq<string>)
    requires StrictlyIncreasing(xs) && |xs| >= 2
    ensures xs[|xs| - 1] != ""
  {
    assert Less(xs[0], xs[|xs| - 1]);
  }
}
