/**
 * Python's ordering of `str` values and the `sorted()` of a list of
 * strings. `sorted()` is a library call, so it is modelled by a function
 * (an insertion sort) together with what any correct sort must return: the
 * same strings, in ascending order. A sorted permutation is unique, so
 * every such function returns the same list.
 */
module StrOrder {

  /** `a < b` on Python strings: code points compared left to right, a proper prefix first. */
  predicate Less(a: string, b: string) {
    if |a| == 0 then |b| > 0
    else if |b| == 0 then false
    else if a[0] != b[0] then a[0] < b[0]
    else Less(a[1..], b[1..])
  }

  predicate LessEq(a: string, b: string) {
    a == b || Less(a, b)
  }

  lemma {:induction false} LessIrreflexive(a: string)
    ensures !Less(a, a)
  {
    if |a| > 0 {
      LessIrreflexive(a[1..]);
    }
  }

  lemma {:induction false} LessAsymmetric(a: string, b: string)
    requires Less(a, b)
    ensures !Less(b, a)
  {
    if |a| > 0 && |b| > 0 && a[0] == b[0] {
      LessAsymmetric(a[1..], b[1..]);
    }
  }

  lemma {:induction false} LessTransitive(a: string, b: string, c: string)
    requires Less(a, b) && Less(b, c)
    ensures Less(a, c)
  {
    if |a| > 0 && a[0] == b[0] && b[0] == c[0] {
      LessTransitive(a[1..], b[1..], c[1..]);
    }
  }

  lemma {:induction false} LessTotal(a: string, b: string)
    ensures a == b || Less(a, b) || Less(b, a)
  {
    if |a| > 0 && |b| > 0 && a[0] == b[0] {
      LessTotal(a[1..], b[1..]);
      if a[1..] == b[1..] {
        assert a == [a[0]] + a[1..] && b == [b[0]] + b[1..];
      }
    }
  }

  /** A common prefix does not change the order. */
  lemma {:induction false} LessCommonPrefix(p: string, a: string, b: string)
    ensures Less(p + a, p + b) == Less(a, b)
  {
    if |p| > 0 {
      assert (p + a)[1..] == p[1..] + a && (p + b)[1..] == p[1..] + b;
      LessCommonPrefix(p[1..], a, b);
    } else {
      assert p + a == a && p + b == b;
    }
  }

  /** The first difference decides. */
  lemma {:induction false} LessAt(a: string, b: string, k: nat)
    requires k < |a| && k < |b| && a[..k] == b[..k] && a[k] < b[k]
    ensures Less(a, b)
  {
    if k > 0 {
      assert a[0] == a[..k][0] && b[0] == b[..k][0];
      assert a[1..][..k - 1] == a[..k][1..] && b[1..][..k - 1] == b[..k][1..];
      LessAt(a[1..], b[1..], k - 1);
    }
  }

  ghost predicate Sorted(xs: seq<string>) {
    forall i, j :: 0 <= i < j < |xs| ==> LessEq(xs[i], xs[j])
  }

  /** `x` goes before the first element it does not exceed. */
  function Insert(x: string, xs: seq<string>): seq<string> {
    if |xs| == 0 then [x]
    else if LessEq(x, xs[0]) then [x] + xs
    else [xs[0]] + Insert(x, xs[1..])
  }

  /** `sorted(xs)` */
  function Sort(xs: seq<string>): seq<string> {
    if |xs| == 0 then [] else Insert(xs[0], Sort(xs[1..]))
  }

  /** `LessEq` is antisymmetric. */
  lemma LessAntisymmetric(a: string, b: string)
    ensures LessEq(a, b) && LessEq(b, a) ==> a == b
  {
    if Less(a, b) {
      LessAsymmetric(a, b);
    }
  }

  /** `x` no greater than the head of a sorted list may go in front of it. */
  lemma SortedCons(x: string, xs: seq<string>)
    requires Sorted(xs) && (|xs| > 0 ==> LessEq(x, xs[0]))
    ensures Sorted([x] + xs)
  {
    var r := [x] + xs;
    forall i, j | 0 <= i < j < |r| ensures LessEq(r[i], r[j]) {
      if i == 0 && j > 1 {
        assert LessEq(xs[0], xs[j - 1]);
        if x != xs[0] && xs[0] != xs[j - 1] {
          LessTransitive(x, xs[0], xs[j - 1]);
        }
      }
    }
  }

  /** A lower bound of every element of a sorted list may go in front of it. */
  lemma SortedConsBound(x: string, xs: seq<string>)
    requires Sorted(xs) && forall k :: 0 <= k < |xs| ==> LessEq(x, xs[k])
    ensures Sorted([x] + xs)
  {
    var r := [x] + xs;
    forall i, j | 0 <= i < j < |r| ensures LessEq(r[i], r[j]) {
      if i == 0 {
        assert r[j] == xs[j - 1];
      } else {
        assert r[i] == xs[i - 1] && r[j] == xs[j - 1];
      }
    }
  }

  lemma {:induction false} InsertFacts(x: string, xs: seq<string>)
    requires Sorted(xs)
    ensures multiset(Insert(x, xs)) == multiset(xs) + multiset{x}
    ensures Sorted(Insert(x, xs))
    decreases |xs|, 1
  {
    if |xs| == 0 {
    } else if LessEq(x, xs[0]) {
      SortedCons(x, xs);
    } else {
      InsertLater(x, xs);
    }
  }

  lemma {:induction false} InsertLater(x: string, xs: seq<string>)
    requires Sorted(xs) && |xs| > 0 && !LessEq(x, xs[0])
    ensures multiset(Insert(x, xs)) == multiset(xs) + multiset{x}
    ensures Sorted(Insert(x, xs))
    decreases |xs|, 0
  {
    var t := xs[1..];
    assert xs == [xs[0]] + t;
    assert Sorted(t);
    InsertFacts(x, t);
    var it := Insert(x, t);
    LessTotal(x, xs[0]);
    forall k | 0 <= k < |it| ensures LessEq(xs[0], it[k]) {
      assert it[k] in multiset(it);
      if it[k] != x {
        assert it[k] in multiset(t);
        var m :| 0 <= m < |t| && t[m] == it[k];
        assert xs[m + 1] == t[m];
      }
    }
    SortedConsBound(xs[0], it);
  }

  /** `sorted` returns the same strings, in ascending order. */
  lemma {:induction false} SortFacts(xs: seq<string>)
    ensures multiset(Sort(xs)) == multiset(xs)
    ensures Sorted(Sort(xs))
  {
    if |xs| > 0 {
      SortFacts(xs[1..]);
      InsertFacts(xs[0], Sort(xs[1..]));
      assert xs == [xs[0]] + xs[1..];
    }
  }

  /** Two sorted arrangements of one multiset start with the same string. */
  lemma SortedHead(a: seq<string>, b: seq<string>)
    requires Sorted(a) && Sorted(b) && multiset(a) == multiset(b) && |a| > 0
    ensures |b| > 0 && a[0] == b[0]
  {
    assert |b| == |multiset(b)| == |a|;
    assert b[0] in multiset(a) && a[0] in multiset(b);
    var i :| 0 <= i < |a| && a[i] == b[0];
    var j :| 0 <= j < |b| && b[j] == a[0];
    assert LessEq(a[0], b[0]) by {
      if i > 0 { assert LessEq(a[0], a[i]); }
    }
    assert LessEq(b[0], a[0]) by {
      if j > 0 { assert LessEq(b[0], b[j]); }
    }
    LessAntisymmetric(a[0], b[0]);
  }

  /** Taking the same first string from two equal multisets leaves equal ones. */
  lemma MultisetTail(a: seq<string>, b: seq<string>)
    requires |a| > 0 && |b| > 0 && a[0] == b[0] && multiset(a) == multiset(b)
    ensures multiset(a[1..]) == multiset(b[1..])
  {
    assert a == [a[0]] + a[1..] && b == [b[0]] + b[1..];
    assert multiset(a) == multiset{a[0]} + multiset(a[1..]);
    assert multiset(b) == multiset{a[0]} + multiset(b[1..]);
    forall y ensures multiset(a[1..])[y] == multiset(b[1..])[y] {
      assert multiset(a)[y] == multiset(b)[y];
    }
  }

  /** There is only one sorted arrangement of a multiset of strings. */
  lemma {:induction false} SortedUnique(a: seq<string>, b: seq<string>)
    requires Sorted(a) && Sorted(b) && multiset(a) == multiset(b)
    ensures a == b
  {
    if |a| == 0 {
      assert |b| == |multiset(b)|;
    } else {
      SortedHead(a, b);
      MultisetTail(a, b);
      assert Sorted(a[1..]) && Sorted(b[1..]);
      SortedUnique(a[1..], b[1..]);
      assert a == [a[0]] + a[1..] && b == [b[0]] + b[1..];
    }
  }

  /** So `sorted` does not depend on the order it is given its strings in. */
  lemma SortIgnoresOrder(xs: seq<string>, ys: seq<string>)
    requires multiset(xs) == multiset(ys)
    ensures Sort(xs) == Sort(ys)
  {
    SortFacts(xs);
    SortFacts(ys);
    SortedUnique(Sort(xs), Sort(ys));
  }

  /** A list already ascending is its own sorted form. */
  lemma SortSorted(xs: seq<string>)
    requires Sorted(xs)
    ensures Sort(xs) == xs
  {
    SortFacts(xs);
    SortedUnique(Sort(xs), xs);
  }
}
