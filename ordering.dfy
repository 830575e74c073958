/**
  Orders used by the pipeline's sorts: integers (years) and strings compared
  code point by code point (county names); "collect the distinct values and
  sort them", the first half of sort-then-rank key assignment; and pandas'
  unique(), the distinct values in order of first appearance.
 */
module Ordering {

  /** lt is a strict total order on T. */
  ghost predicate StrictTotalOrder<T(!new)>(lt: (T, T) -> bool) {
    && (forall x :: !lt(x, x))
    && (forall x, y, z :: lt(x, y) && lt(y, z) ==> lt(x, z))
    && (forall x, y :: x != y ==> lt(x, y) || lt(y, x))
  }

  /** Every element comes strictly before every later one: sorted, no repeats. */
  ghost predicate StrictlySorted<T>(s: seq<T>, lt: (T, T) -> bool) {
    forall i, j :: 0 <= i < j < |s| ==> lt(s[i], s[j])
  }

  predicate IntLt(a: int, b: int) {
    a < b
  }

  lemma IntLtIsStrictTotalOrder()
    ensures StrictTotalOrder(IntLt)
  {
  }

  /** Python's string comparison: lexicographic by code point, a proper prefix first. */
  predicate StrLt(a: string, b: string) {
    if a == [] then b != []
    else if b == [] then false
    else if a[0] == b[0] then StrLt(a[1..], b[1..])
    else a[0] < b[0]
  }

  lemma {:induction false} StrLtIrreflexive(a: string)
    ensures !StrLt(a, a)
  {
    if a != [] {
      StrLtIrreflexive(a[1..]);
    }
  }

  lemma {:induction false} StrLtTransitive(a: string, b: string, c: string)
    requires StrLt(a, b) && StrLt(b, c)
    ensures StrLt(a, c)
  {
    if a != [] && b != [] && c != [] && a[0] == b[0] && b[0] == c[0] {
      StrLtTransitive(a[1..], b[1..], c[1..]);
    }
  }

  lemma {:induction false} StrLtConnected(a: string, b: string)
    requires a != b
    ensures StrLt(a, b) || StrLt(b, a)
  {
    if a != [] && b != [] && a[0] == b[0] {
      assert a == [a[0]] + a[1..] && b == [b[0]] + b[1..];
      StrLtConnected(a[1..], b[1..]);
    }
  }

  /** County names are sorted by a genuine strict total order. */
  lemma StrLtIsStrictTotalOrder()
    ensures StrictTotalOrder(StrLt)
  {
    forall x: string ensures !StrLt(x, x) {
      StrLtIrreflexive(x);
    }
    forall x: string, y: string, z: string | StrLt(x, y) && StrLt(y, z) ensures StrLt(x, z) {
      StrLtTransitive(x, y, z);
    }
    forall x: string, y: string | x != y ensures StrLt(x, y) || StrLt(y, x) {
      StrLtConnected(x, y);
    }
  }

  /** Adds x to a strictly sorted sequence unless it is already there. */
  function Insert<T(==, !new)>(s: seq<T>, x: T, lt: (T, T) -> bool): (r: seq<T>)
    requires StrictTotalOrder(lt)
    requires StrictlySorted(s, lt)
    ensures StrictlySorted(r, lt)
    ensures forall y :: y in r <==> y in s || y == x
  {
    if s == [] then [x]
    else if x == s[0] then s
    else if lt(x, s[0]) then [x] + s
    else
      var t := Insert(s[1..], x, lt);
      assert forall y :: y in t ==> lt(s[0], y);
      [s[0]] + t
  }

  /** The distinct values of xs in ascending order (pandas unique() then sort_values()). */
  function SortDistinct<T(==, !new)>(xs: seq<T>, lt: (T, T) -> bool): (s: seq<T>)
    requires StrictTotalOrder(lt)
    ensures StrictlySorted(s, lt)
    ensures forall y :: y in s <==> y in xs
  {
    if xs == [] then []
    else
      var s := SortDistinct(xs[..|xs| - 1], lt);
      assert xs == xs[..|xs| - 1] + [xs[|xs| - 1]];
      Insert(s, xs[|xs| - 1], lt)
  }

  /**
    A strictly sorted sequence is determined by its set of elements, so the
    keys assigned by sort-then-rank depend only on the set of input values.
   */
  lemma {:induction false} SortedIsUnique<T(!new)>(a: seq<T>, b: seq<T>, lt: (T, T) -> bool)
    requires StrictTotalOrder(lt)
    requires StrictlySorted(a, lt) && StrictlySorted(b, lt)
    requires forall y :: y in a <==> y in b
    ensures a == b
  {
    SortedCardinality(a, lt);
    SortedCardinality(b, lt);
    assert (set y | y in a) == (set y | y in b);
    if a != [] {
      assert b[0] in a;
      assert a[0] in b;
      assert a[0] == b[0];
      forall y ensures y in a[1..] <==> y in b[1..] {
        if y in a[1..] {
          assert y in b && y != b[0];
        }
        if y in b[1..] {
          assert y in a && y != a[0];
        }
      }
      SortedIsUnique(a[1..], b[1..], lt);
      assert a == [a[0]] + a[1..] && b == [b[0]] + b[1..];
    }
  }

  /** A sequence without repeats has as many distinct elements as positions. */
  lemma {:induction false} SortedCardinality<T(!new)>(s: seq<T>, lt: (T, T) -> bool)
    requires StrictTotalOrder(lt) && StrictlySorted(s, lt)
    ensures |set y | y in s| == |s|
  {
    if s != [] {
      SortedCardinality(s[1..], lt);
      assert (set y | y in s) == (set y | y in s[1..]) + {s[0]};
      assert s[0] !in s[1..];
    }
  }

  /** Position of the first occurrence of x in s. */
  function IndexOf<T(==)>(s: seq<T>, x: T): (k: nat)
    requires x in s
    ensures k < |s| && s[k] == x
    ensures forall j :: 0 <= j < k ==> s[j] != x
  {
    if s[0] == x then 0 else 1 + IndexOf(s[1..], x)
  }

  /** The elements of s that come before x. */
  ghost function Below<T(!new)>(s: seq<T>, x: T, lt: (T, T) -> bool): set<T> {
    set y | y in s && lt(y, x)
  }

  /**
    Rank: in a strictly sorted sequence, the position of an element equals the
    number of elements below it.
   */
  lemma RankIsCountBelow<T(!new)>(s: seq<T>, i: nat, lt: (T, T) -> bool)
    requires StrictTotalOrder(lt) && StrictlySorted(s, lt)
    requires i < |s|
    ensures |Below(s, s[i], lt)| == i
  {
    assert Below(s, s[i], lt) == (set y | y in s[..i]) by {
      forall y | y in s && lt(y, s[i]) ensures y in s[..i] {
        var k :| 0 <= k < |s| && s[k] == y;
        assert k < i;
      }
    }
    SortedCardinality(s[..i], lt);
  }

  /** pandas unique(): the distinct values in order of first appearance. */
  function Unique<T(==, !new)>(xs: seq<T>): (u: seq<T>)
    ensures forall i, j :: 0 <= i < j < |u| ==> u[i] != u[j]
    ensures forall x :: x in u <==> x in xs
  {
    if xs == [] then []
    else
      var u := Unique(xs[..|xs| - 1]);
      assert xs == xs[..|xs| - 1] + [xs[|xs| - 1]];
      if xs[|xs| - 1] in u then u else u + [xs[|xs| - 1]]
  }

  /** Unique keeps first-appearance order: earlier in u means first seen earlier in xs. */
  lemma {:induction false} UniqueKeepsFirstAppearanceOrder<T(!new)>(xs: seq<T>, i: nat, j: nat)
    requires i < j < |Unique(xs)|
    ensures IndexOf(xs, Unique(xs)[i]) < IndexOf(xs, Unique(xs)[j])
  {
    var u := Unique(xs);
    var pre := xs[..|xs| - 1];
    var v := Unique(pre);
    assert xs == pre + [xs[|xs| - 1]];
    if j < |v| {
      UniqueKeepsFirstAppearanceOrder(pre, i, j);
      IndexOfPrefix(pre, xs[|xs| - 1], v[i]);
      IndexOfPrefix(pre, xs[|xs| - 1], v[j]);
    } else {
      assert u[j] == xs[|xs| - 1] && u[j] !in pre;
      IndexOfPrefix(pre, xs[|xs| - 1], v[i]);
    }
  }

  lemma IndexOfPrefix<T>(pre: seq<T>, last: T, x: T)
    requires x in pre
    ensures IndexOf(pre + [last], x) == IndexOf(pre, x)
  {
    var s := pre + [last];
    var k, k' := IndexOf(s, x), IndexOf(pre, x);
    assert s[k'] == x;
  }

}
