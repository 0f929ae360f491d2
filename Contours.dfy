/** Contours as closed polygons of integer points, and their enclosed area.
    `cv.contourArea(c)` with `oriented=False` is the absolute value of the
    shoelace sum divided by two, a multiple of one half for integer points;
    the model keeps it exact by working with twice that area. */
module Contours {

  type Point = (int, int)

  /** The point list of one boundary, in the order the extractor gives it. */
  type Contour = seq<Point>

  /** The shoelace term of the edge from `p` to `q`. */
  function Cross(p: Point, q: Point): (r: int)
  {
    p.0 * q.1 - q.0 * p.1
  }

  function Sum(s: seq<int>): (r: int)
  {
    if s == [] then 0 else s[0] + Sum(s[1..])
  }

  /** The index of the point after point `i`, wrapping to 0 after the last. */
  function Next(n: nat, i: nat): (k: nat)
    requires i < n
    ensures k < n
  {
    if i + 1 < n then i + 1 else 0
  }

  /** The shoelace term of every edge, the last point joined back to the first. */
  function EdgeTerms(c: Contour): (t: seq<int>)
    ensures |t| == |c|
    ensures forall i :: 0 <= i < |c| ==> t[i] == Cross(c[i], c[Next(|c|, i)])
  {
    seq(|c|, i requires 0 <= i < |c| => Cross(c[i], c[Next(|c|, i)]))
  }

  /** Twice the signed (orientation-dependent) enclosed area. */
  function SignedTwiceArea(c: Contour): (s: int)
  {
    Sum(EdgeTerms(c))
  }

  /** Twice `cv.contourArea(c)`: never negative, and zero for a contour of at
      most two points, which encloses nothing. */
  function TwiceArea(c: Contour): (a: int)
    ensures a >= 0
    ensures |c| <= 2 ==> a == 0
  {
    FewPointsEncloseNothing(c);
    var s := SignedTwiceArea(c);
    if s < 0 then -s else s
  }

  lemma FewPointsEncloseNothing(c: Contour)
    ensures |c| <= 2 ==> SignedTwiceArea(c) == 0
  {
    var t := EdgeTerms(c);
    if |c| == 1 {
      assert t == [Cross(c[0], c[0])];
      assert Sum(t) == t[0] + Sum([]);
    } else if |c| == 2 {
      assert t == [Cross(c[0], c[1]), Cross(c[1], c[0])];
      assert Sum(t) == t[0] + Sum([t[1]]) == t[0] + t[1];
    }
  }

  /** `c` started from its point `k` instead of its point 0. */
  function RotateBy(c: Contour, k: nat): (r: Contour)
    requires k <= |c|
    ensures |r| == |c|
  {
    c[k..] + c[..k]
  }

  lemma {:induction false} SumAppend(a: seq<int>, b: seq<int>)
    ensures Sum(a + b) == Sum(a) + Sum(b)
  {
    if a == [] {
      assert a + b == b;
    } else {
      assert (a + b)[0] == a[0];
      assert (a + b)[1..] == a[1..] + b;
      SumAppend(a[1..], b);
    }
  }

  /** Starting one point later turns the edge list by one place. */
  lemma RotateOneEdges(c: Contour)
    requires |c| > 0
    ensures EdgeTerms(RotateBy(c, 1)) == EdgeTerms(c)[1..] + [EdgeTerms(c)[0]]
  {
    var n := |c|;
    var d := RotateBy(c, 1);
    assert |d| == n;
    assert forall i :: 0 <= i < n ==> d[i] == c[Next(n, i)];
    var l, r := EdgeTerms(d), EdgeTerms(c)[1..] + [EdgeTerms(c)[0]];
    forall i | 0 <= i < n ensures l[i] == r[i] {
      assert r[i] == EdgeTerms(c)[Next(n, i)];
      assert d[Next(n, i)] == c[Next(n, Next(n, i))];
    }
  }

  /** The enclosed area does not depend on which point of the boundary the
      extractor lists first. */
  lemma {:induction false} AreaIndependentOfStart(c: Contour, k: nat)
    requires k <= |c|
    ensures SignedTwiceArea(RotateBy(c, k)) == SignedTwiceArea(c)
    ensures TwiceArea(RotateBy(c, k)) == TwiceArea(c)
  {
    if k > 0 {
      var d := RotateBy(c, k - 1);
      AreaIndependentOfStart(c, k - 1);
      assert RotateBy(d, 1) == RotateBy(c, k);
      RotateOneEdges(d);
      var t := EdgeTerms(d);
      SumAppend(t[1..], [t[0]]);
      assert Sum([t[0]]) == t[0];
    } else {
      assert RotateBy(c, 0) == c;
    }
  }

  function Reverse<T>(s: seq<T>): (r: seq<T>)
    ensures |r| == |s|
    ensures forall i :: 0 <= i < |s| ==> r[i] == s[|s| - 1 - i]
  {
    seq(|s|, i requires 0 <= i < |s| => s[|s| - 1 - i])
  }

  function Negate(s: seq<int>): (r: seq<int>)
    ensures |r| == |s|
    ensures forall i :: 0 <= i < |s| ==> r[i] == -s[i]
  {
    seq(|s|, i requires 0 <= i < |s| => -s[i])
  }

  lemma {:induction false} SumNegate(s: seq<int>)
    ensures Sum(Negate(s)) == -Sum(s)
  {
    if s != [] {
      assert Negate(s)[1..] == Negate(s[1..]);
      SumNegate(s[1..]);
    }
  }

  lemma {:induction false} SumReverse(s: seq<int>)
    ensures Sum(Reverse(s)) == Sum(s)
  {
    if s != [] {
      assert Reverse(s) == Reverse(s[1..]) + [s[0]];
      SumAppend(Reverse(s[1..]), [s[0]]);
      SumReverse(s[1..]);
      assert Sum([s[0]]) == s[0];
    }
  }

  /** Tracing the boundary backwards reverses every edge, which negates its
      shoelace term; the last edge of the reversed trace closes the polygon. */
  lemma ReverseEdges(c: Contour)
    requires |c| > 0
    ensures var t := EdgeTerms(c);
      EdgeTerms(Reverse(c)) == Negate(Reverse(t[..|c| - 1])) + [-t[|c| - 1]]
  {
    var n := |c|;
    var t := EdgeTerms(c);
    var l, r := EdgeTerms(Reverse(c)), Negate(Reverse(t[..n - 1])) + [-t[n - 1]];
    assert |l| == |r|;
    forall i | 0 <= i < n ensures l[i] == r[i] {
      if i < n - 1 {
        assert Next(n, n - 2 - i) == n - 1 - i;
        assert r[i] == -t[n - 2 - i];
      }
    }
  }

  /** `contourArea` without orientation gives the same area whichever way
      round the boundary is traced. */
  lemma AreaIndependentOfDirection(c: Contour)
    ensures SignedTwiceArea(Reverse(c)) == -SignedTwiceArea(c)
    ensures TwiceArea(Reverse(c)) == TwiceArea(c)
  {
    if c != [] {
      var n := |c|;
      var t := EdgeTerms(c);
      ReverseEdges(c);
      SumAppend(Negate(Reverse(t[..n - 1])), [-t[n - 1]]);
      SumNegate(Reverse(t[..n - 1]));
      SumReverse(t[..n - 1]);
      SumAppend(t[..n - 1], [t[n - 1]]);
      assert t == t[..n - 1] + [t[n - 1]];
      assert Sum([t[n - 1]]) == t[n - 1] && Sum([-t[n - 1]]) == -t[n - 1];
    }
  }

  /** An axis-aligned rectangle of width `w` and height `h`, traced from any
      corner, has `contourArea` `w * h`. */
  lemma RectangleArea(x: int, y: int, w: nat, h: nat)
    ensures TwiceArea([(x, y), (x + w, y), (x + w, y + h), (x, y + h)]) == 2 * w * h
  {
    var c := [(x, y), (x + w, y), (x + w, y + h), (x, y + h)];
    var t := EdgeTerms(c);
    assert t == [Cross(c[0], c[1]), Cross(c[1], c[2]), Cross(c[2], c[3]), Cross(c[3], c[0])];
    assert Sum(t) == t[0] + Sum([t[1], t[2], t[3]]);
    assert Sum([t[1], t[2], t[3]]) == t[1] + Sum([t[2], t[3]]);
    assert Sum([t[2], t[3]]) == t[2] + Sum([t[3]]);
    assert Sum([t[3]]) == t[3];
    assert t[0] == -(w * y) by { assert (x + w) * y == x * y + w * y; }
    assert t[1] == (x + w) * h by { assert (x + w) * (y + h) == (x + w) * y + (x + w) * h; }
    assert t[2] == w * (y + h) by { assert (x + w) * (y + h) == x * (y + h) + w * (y + h); }
    assert t[3] == -(x * h) by { assert x * (y + h) == x * y + x * h; }
    assert (x + w) * h == x * h + w * h;
    assert w * (y + h) == w * y + w * h;
  }
}
