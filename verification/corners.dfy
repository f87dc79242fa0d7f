/** Putting the four corners of the plate's rectangle in a fixed order: by
    angle around their centre, then rotated so that the corner with the
    smallest `x + y` (the top-left one in image coordinates) comes first. */
module Corners {
  import opened Geometry

  // ---------------------------------------------------------------------
  // The centre: the mean of the four corners

  /** The sum of the x coordinates, added from the left as the source's
      fold does. */
  function SumX(s: seq<Point>): (sum: real)
    decreases |s|
  {
    if |s| == 0 then 0.0 else SumX(s[..|s| - 1]) + s[|s| - 1].x
  }

  function SumY(s: seq<Point>): (sum: real)
    decreases |s|
  {
    if |s| == 0 then 0.0 else SumY(s[..|s| - 1]) + s[|s| - 1].y
  }

  function Centroid(ps: Quad): (c: Point) {
    Point(SumX(ps) / 4.0, SumY(ps) / 4.0)
  }

  lemma {:induction false} SumAppend(u: seq<Point>, v: seq<Point>)
    ensures SumX(u + v) == SumX(u) + SumX(v)
    ensures SumY(u + v) == SumY(u) + SumY(v)
    decreases |v|
  {
    if |v| > 0 {
      var w := v[..|v| - 1];
      assert (u + v)[..|u + v| - 1] == u + w;
      assert (u + v)[|u + v| - 1] == v[|v| - 1];
      SumAppend(u, w);
    } else {
      assert u + v == u;
    }
  }

  lemma SumSingle(p: Point)
    ensures SumX([p]) == p.x && SumY([p]) == p.y
  {
    assert [p][..0] == [];
  }

  /** The sums do not depend on the order of the points. */
  lemma {:induction false} SumPermutation(a: seq<Point>, b: seq<Point>)
    requires multiset(a) == multiset(b)
    ensures SumX(a) == SumX(b) && SumY(a) == SumY(b)
    decreases |a|
  {
    if |a| == 0 {
      assert |b| == |multiset(b)| == 0;
    } else {
      assert a[0] in multiset(b);
      var j :| 0 <= j < |b| && b[j] == a[0];
      var rest := b[..j] + b[j + 1..];
      assert multiset(a[1..]) == multiset(rest) by {
        MultisetRemove(a, 0);
        assert a[..0] + a[1..] == a[1..];
        MultisetRemove(b, j);
      }
      SumPermutation(a[1..], rest);
      assert b == b[..j] + [b[j]] + b[j + 1..];
      SumRemove(b[..j], b[j], b[j + 1..]);
      assert a == [a[0]] + a[1..];
      SumAppend([a[0]], a[1..]);
      SumSingle(a[0]);
    }
  }

  lemma MultisetRemove(b: seq<Point>, j: nat)
    requires j < |b|
    ensures multiset(b[..j] + b[j + 1..]) == multiset(b) - multiset{b[j]}
  {
    assert b == b[..j] + [b[j]] + b[j + 1..];
  }

  /** Taking one point out of the sum. */
  lemma SumRemove(pre: seq<Point>, p: Point, post: seq<Point>)
    ensures SumX(pre + [p] + post) == SumX(pre + post) + p.x
    ensures SumY(pre + [p] + post) == SumY(pre + post) + p.y
  {
    SumAppend(pre + [p], post);
    SumAppend(pre, [p]);
    SumAppend(pre, post);
    SumSingle(p);
  }

  /** Reordering the corners does not move the centre. */
  lemma CentroidPermutation(p: Quad, q: Quad)
    requires multiset(p) == multiset(q)
    ensures Centroid(p) == Centroid(q)
  {
    SumPermutation(p, q);
  }

  // ---------------------------------------------------------------------
  // The angle key and the stable sort

  /** The angle of `p` seen from the centre `c`; the two-argument arc
      tangent itself is a parameter of the model. */
  function AngleKey(atan2: (real, real) -> real, c: Point): (key: Point -> real) {
    (p: Point) => atan2(p.y - c.y, p.x - c.x)
  }

  /** Keys never decrease along the sequence. */
  predicate Sorted(s: seq<Point>, key: Point -> real) {
    forall i, j :: 0 <= i < j < |s| ==> key(s[i]) <= key(s[j])
  }

  /** The elements with key `v`, in their order in `s`. A sort is stable when
      it keeps this subsequence for every key. */
  function WithKey(s: seq<Point>, key: Point -> real, v: real): (r: seq<Point>)
    decreases |s|
  {
    if |s| == 0 then []
    else (if key(s[0]) == v then [s[0]] else []) + WithKey(s[1..], key, v)
  }

  /** Inserting `p` in front of the first element whose key is not smaller:
      every element it passes has a smaller key, so `p` stays ahead of the
      elements of its own key. */
  function Insert(p: Point, s: seq<Point>, key: Point -> real): (r: seq<Point>)
    decreases |s|
  {
    if |s| == 0 || key(p) <= key(s[0]) then [p] + s
    else [s[0]] + Insert(p, s[1..], key)
  }

  /** A stable ascending sort by key (`Array.prototype.sort` with the
      comparator `angleA - angleB`). */
  function SortByKey(s: seq<Point>, key: Point -> real): (sorted: seq<Point>)
    decreases |s|
  {
    if |s| == 0 then [] else Insert(s[0], SortByKey(s[1..], key), key)
  }

  lemma {:induction false} InsertPermutes(p: Point, s: seq<Point>, key: Point -> real)
    ensures multiset(Insert(p, s, key)) == multiset(s) + multiset{p}
    decreases |s|
  {
    if |s| > 0 && key(p) > key(s[0]) {
      InsertPermutes(p, s[1..], key);
      assert s == [s[0]] + s[1..];
    }
  }

  lemma {:induction false} InsertSorted(p: Point, s: seq<Point>, key: Point -> real)
    requires Sorted(s, key)
    ensures Sorted(Insert(p, s, key), key)
    decreases |s|
  {
    if |s| > 0 && key(p) > key(s[0]) {
      var t := Insert(p, s[1..], key);
      InsertSorted(p, s[1..], key);
      InsertPermutes(p, s[1..], key);
      forall j | 0 <= j < |t|
        ensures key(s[0]) <= key(t[j])
      {
        assert t[j] in multiset(s[1..]) + multiset{p};
        if t[j] != p {
          assert t[j] in s[1..];
        }
      }
    }
  }

  lemma {:induction false} InsertWithKey(p: Point, s: seq<Point>, key: Point -> real, v: real)
    ensures WithKey(Insert(p, s, key), key, v) == (if key(p) == v then [p] else []) + WithKey(s, key, v)
    decreases |s|
  {
    if |s| > 0 && key(p) > key(s[0]) {
      InsertWithKey(p, s[1..], key, v);
      assert ([s[0]] + Insert(p, s[1..], key))[1..] == Insert(p, s[1..], key);
    } else {
      assert ([p] + s)[1..] == s;
    }
  }

  /** The sort orders by key, keeps every point, and is stable. */
  lemma SortByKeySpec(s: seq<Point>, key: Point -> real)
    ensures Sorted(SortByKey(s, key), key)
    ensures multiset(SortByKey(s, key)) == multiset(s)
    ensures forall v :: WithKey(SortByKey(s, key), key, v) == WithKey(s, key, v)
  {
    SortByKeySorted(s, key);
    SortByKeyPermutes(s, key);
    forall v
      ensures WithKey(SortByKey(s, key), key, v) == WithKey(s, key, v)
    {
      SortByKeyStable(s, key, v);
    }
  }

  lemma {:induction false} SortByKeySorted(s: seq<Point>, key: Point -> real)
    ensures Sorted(SortByKey(s, key), key)
    decreases |s|
  {
    if |s| > 0 {
      SortByKeySorted(s[1..], key);
      InsertSorted(s[0], SortByKey(s[1..], key), key);
    }
  }

  lemma {:induction false} SortByKeyPermutes(s: seq<Point>, key: Point -> real)
    ensures multiset(SortByKey(s, key)) == multiset(s)
    decreases |s|
  {
    if |s| > 0 {
      SortByKeyPermutes(s[1..], key);
      InsertPermutes(s[0], SortByKey(s[1..], key), key);
      assert s == [s[0]] + s[1..];
    }
  }

  lemma {:induction false} SortByKeyStable(s: seq<Point>, key: Point -> real, v: real)
    ensures WithKey(SortByKey(s, key), key, v) == WithKey(s, key, v)
    decreases |s|
  {
    if |s| > 0 {
      SortByKeyStable(s[1..], key, v);
      InsertWithKey(s[0], SortByKey(s[1..], key), key, v);
    }
  }

  lemma {:induction false} WithKeyMembers(s: seq<Point>, key: Point -> real, v: real)
    ensures forall x :: x in WithKey(s, key, v) ==> x in s && key(x) == v
    decreases |s|
  {
    if |s| > 0 {
      WithKeyMembers(s[1..], key, v);
    }
  }

  lemma WithKeyOfHead(s: seq<Point>, key: Point -> real)
    ensures |s| > 0 ==> WithKey(s, key, key(s[0])) != []
  {
  }

  /** Two sequences that are both sorted and agree on the subsequence of
      every key are equal: the stable sort is determined by its specification,
      so any stable sort gives the same order. */
  lemma {:induction false} StableSortUnique(a: seq<Point>, b: seq<Point>, key: Point -> real)
    requires Sorted(a, key) && Sorted(b, key)
    requires forall v :: WithKey(a, key, v) == WithKey(b, key, v)
    ensures a == b
    decreases |a|
  {
    if |a| == 0 || |b| == 0 {
      if |a| + |b| > 0 {
        WithKeyOfHead(a, key);
        WithKeyOfHead(b, key);
        assert false;
      }
    } else {
      SortedHeadsAgree(a, b, key);
      forall v
        ensures WithKey(a[1..], key, v) == WithKey(b[1..], key, v)
      {
        TailsAgree(a, b, key, v);
      }
      StableSortUnique(a[1..], b[1..], key);
      assert a == [a[0]] + a[1..] && b == [b[0]] + b[1..];
    }
  }

  /** Both start with the first point of the least key. */
  lemma SortedHeadsAgree(a: seq<Point>, b: seq<Point>, key: Point -> real)
    requires |a| > 0 && |b| > 0 && Sorted(a, key) && Sorted(b, key)
    requires WithKey(a, key, key(a[0])) == WithKey(b, key, key(a[0]))
    requires WithKey(a, key, key(b[0])) == WithKey(b, key, key(b[0]))
    ensures a[0] == b[0]
  {
    var va, vb := key(a[0]), key(b[0]);
    assert WithKey(a, key, va)[0] == a[0];
    assert WithKey(b, key, vb)[0] == b[0];
    WithKeyMembers(b, key, va);
    WithKeyMembers(a, key, vb);
    var x := WithKey(b, key, va)[0];
    assert x in b && key(x) == va;
    var y := WithKey(a, key, vb)[0];
    assert y in a && key(y) == vb;
    assert vb <= va && va <= vb;
  }

  lemma TailsAgree(a: seq<Point>, b: seq<Point>, key: Point -> real, v: real)
    requires |a| > 0 && |b| > 0 && a[0] == b[0]
    requires WithKey(a, key, v) == WithKey(b, key, v)
    ensures WithKey(a[1..], key, v) == WithKey(b[1..], key, v)
  {
    var h := if key(a[0]) == v then [a[0]] else [];
    var ra, rb := WithKey(a[1..], key, v), WithKey(b[1..], key, v);
    assert WithKey(a, key, v) == h + ra;
    assert WithKey(b, key, v) == h + rb;
    assert (h + ra)[|h|..] == ra && (h + rb)[|h|..] == rb;
  }

  // ---------------------------------------------------------------------
  // Order independence when the angles are distinct

  predicate DistinctKeys(s: seq<Point>, key: Point -> real) {
    forall i, j :: 0 <= i < j < |s| ==> key(s[i]) != key(s[j])
  }

  lemma {:induction false} WithKeyCounts(s: seq<Point>, key: Point -> real, v: real)
    ensures forall x :: multiset(WithKey(s, key, v))[x] == if key(x) == v then multiset(s)[x] else 0
    decreases |s|
  {
    if |s| > 0 {
      WithKeyCounts(s[1..], key, v);
      assert s == [s[0]] + s[1..];
    }
  }

  lemma {:induction false} WithKeyOfNone(s: seq<Point>, key: Point -> real, v: real)
    requires forall i :: 0 <= i < |s| ==> key(s[i]) != v
    ensures WithKey(s, key, v) == []
    decreases |s|
  {
    if |s| > 0 {
      WithKeyOfNone(s[1..], key, v);
    }
  }

  lemma {:induction false} WithKeyOfDistinct(s: seq<Point>, key: Point -> real, v: real)
    requires DistinctKeys(s, key)
    ensures |WithKey(s, key, v)| <= 1
    decreases |s|
  {
    if |s| > 0 {
      WithKeyOfDistinct(s[1..], key, v);
      if key(s[0]) == v {
        assert forall i :: 0 <= i < |s[1..]| ==> key(s[1..][i]) != v by {
          assert forall i :: 0 <= i < |s[1..]| ==> s[1..][i] == s[i + 1];
        }
        WithKeyOfNone(s[1..], key, v);
      }
    }
  }

  /** With distinct keys the sorted order depends only on which points there
      are, not on the order in which they come. */
  lemma SortOrderIndependent(p: seq<Point>, q: seq<Point>, key: Point -> real)
    requires multiset(p) == multiset(q) && DistinctKeys(p, key)
    ensures SortByKey(p, key) == SortByKey(q, key)
  {
    SortByKeySpec(p, key);
    SortByKeySpec(q, key);
    forall v
      ensures WithKey(p, key, v) == WithKey(q, key, v)
    {
      WithKeyOfPermutation(p, q, key, v);
    }
    StableSortUnique(SortByKey(p, key), SortByKey(q, key), key);
  }

  lemma WithKeyOfPermutation(p: seq<Point>, q: seq<Point>, key: Point -> real, v: real)
    requires multiset(p) == multiset(q) && DistinctKeys(p, key)
    ensures WithKey(p, key, v) == WithKey(q, key, v)
  {
    var wp, wq := WithKey(p, key, v), WithKey(q, key, v);
    assert multiset(wp) == multiset(wq) by {
      WithKeyCounts(p, key, v);
      WithKeyCounts(q, key, v);
    }
    WithKeyOfDistinct(p, key, v);
    ShortSeqOfMultiset(wp, wq);
  }

  /** A sequence of at most one element is fixed by its multiset. */
  lemma ShortSeqOfMultiset(a: seq<Point>, b: seq<Point>)
    requires |a| <= 1 && multiset(a) == multiset(b)
    ensures a == b
  {
    assert |b| == |multiset(b)| == |multiset(a)| == |a|;
    if |a| == 1 {
      assert a == [a[0]] && b == [b[0]];
      assert a[0] in multiset(b);
    }
  }

  /** The corners sorted by angle around their centre. */
  function AngleOrder(ps: Quad, atan2: (real, real) -> real): (ordered: seq<Point>) {
    SortByKey(ps, AngleKey(atan2, Centroid(ps)))
  }

  /** When no two corners share an angle, the corner order found does not
      depend on the order in which the image library listed them. */
  lemma AngleOrderIndependent(p: Quad, q: Quad, atan2: (real, real) -> real)
    requires multiset(p) == multiset(q)
    requires DistinctKeys(p, AngleKey(atan2, Centroid(p)))
    ensures AngleOrder(p, atan2) == AngleOrder(q, atan2)
  {
    CentroidPermutation(p, q);
    SortOrderIndependent(p, q, AngleKey(atan2, Centroid(p)));
  }

  // ---------------------------------------------------------------------
  // Rotation to the top-left corner

  function Rotate(s: seq<Point>, k: nat): (r: seq<Point>)
    requires k <= |s|
  {
    s[k..] + s[..k]
  }

  /** Where the scan for the smallest `x + y` stops: the first minimum, since
      a later corner must have a strictly smaller sum to replace it. */
  predicate IsFirstMinSum(s: seq<Point>, k: nat) {
    && k < |s|
    && (forall i :: 0 <= i < |s| ==> CoordSum(s[k]) <= CoordSum(s[i]))
    && (forall i :: 0 <= i < k ==> CoordSum(s[k]) < CoordSum(s[i]))
  }

  /** `sortRectPoints`: sort by angle, find the first corner of least
      `x + y`, and start the sequence there, keeping the cyclic order. */
  method SortRectPoints(points: Quad, atan2: (real, real) -> real) returns (result: Quad)
    ensures multiset(result) == multiset(points)
    ensures forall i :: 0 <= i < 4 ==> CoordSum(result[0]) <= CoordSum(result[i])
    ensures exists k :: IsFirstMinSum(AngleOrder(points, atan2), k) && result == Rotate(AngleOrder(points, atan2), k)
  {
    var center := Centroid(points);
    var sorted := SortByKey(points, AngleKey(atan2, center));
    SortByKeySpec(points, AngleKey(atan2, center));
    assert |sorted| == |multiset(points)| == 4;

    assert sorted == AngleOrder(points, atan2);

    var minIndex := FirstMinSumIndex(sorted);
    result := RotateLeft(sorted, minIndex);
    RotatePermutes(sorted, minIndex);
    assert result[0] == sorted[minIndex];
  }

  /** The scan for the corner of least `x + y`. The source starts from an
      infinite minimum, so its first step always takes corner 0; here the
      scan starts from corner 0. */
  method FirstMinSumIndex(s: seq<Point>) returns (k: nat)
    requires |s| > 0
    ensures IsFirstMinSum(s, k)
  {
    k := 0;
    var minSum := CoordSum(s[0]);
    for i := 1 to |s|
      invariant 0 <= k < i
      invariant minSum == CoordSum(s[k])
      invariant IsFirstMinSum(s[..i], k)
    {
      var sum := CoordSum(s[i]);
      if sum < minSum {
        minSum := sum;
        k := i;
      }
    }
    assert s[..|s|] == s;
  }

  /** Builds the result corner by corner, taking for position `i` the
      sorted corner `k` places further on, modulo 4. */
  method RotateLeft(s: Quad, k: nat) returns (r: Quad)
    requires k < 4
    ensures r == Rotate(s, k)
  {
    var acc: seq<Point> := [];
    for i := 0 to 4
      invariant |acc| == i
      invariant forall j :: 0 <= j < i ==> acc[j] == s[(j + k) % 4]
    {
      acc := acc + [s[(i + k) % 4]];
    }
    r := acc;
    forall j | 0 <= j < 4
      ensures r[j] == Rotate(s, k)[j]
    {
      if j + k < 4 {
        assert (j + k) % 4 == j + k;
      } else {
        assert (j + k) % 4 == j + k - 4;
      }
    }
  }

  lemma RotatePermutes(s: seq<Point>, k: nat)
    requires k <= |s|
    ensures multiset(Rotate(s, k)) == multiset(s)
  {
    assert s == s[..k] + s[k..];
  }

  /** The scan's stopping point is fixed by the sequence. */
  lemma FirstMinSumUnique(s: seq<Point>, k1: nat, k2: nat)
    requires IsFirstMinSum(s, k1) && IsFirstMinSum(s, k2)
    ensures k1 == k2
  {
    assert CoordSum(s[k1]) <= CoordSum(s[k2]) && CoordSum(s[k2]) <= CoordSum(s[k1]);
  }

  /** When no two corners share an angle, any two listings of the same four
      corners come out of `SortRectPoints` in the same order; in particular
      the order does not change when the input is rotated cyclically. */
  lemma CornerOrderIndependent(p: Quad, q: Quad, atan2: (real, real) -> real, rp: Quad, rq: Quad)
    requires multiset(p) == multiset(q)
    requires DistinctKeys(p, AngleKey(atan2, Centroid(p)))
    requires exists k :: IsFirstMinSum(AngleOrder(p, atan2), k) && rp == Rotate(AngleOrder(p, atan2), k)
    requires exists k :: IsFirstMinSum(AngleOrder(q, atan2), k) && rq == Rotate(AngleOrder(q, atan2), k)
    ensures rp == rq
  {
    AngleOrderIndependent(p, q, atan2);
    var kp :| IsFirstMinSum(AngleOrder(p, atan2), kp) && rp == Rotate(AngleOrder(p, atan2), kp);
    var kq :| IsFirstMinSum(AngleOrder(q, atan2), kq) && rq == Rotate(AngleOrder(q, atan2), kq);
    FirstMinSumUnique(AngleOrder(p, atan2), kp, kq);
  }
}
