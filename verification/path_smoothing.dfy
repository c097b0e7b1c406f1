/**
 The Catmull-Rom smoother that turns a tile path, lifted to world space,
 into a denser curve through the same points. Arithmetic is exact over the
 reals; the engine computes it in single precision.
 */
module PathSmoothing {
  import opened Space

  function Plus(a: Vec3, b: Vec3): Vec3 {
    Vec3(a.x + b.x, a.y + b.y, a.z + b.z)
  }

  /** The cubic of `GetCatmullRomPosition` on one coordinate. */
  function CatmullRom1(t: real, a: real, b: real, c: real, d: real): real {
    0.5 * (2.0 * b + (c - a) * t + (2.0 * a - 5.0 * b + 4.0 * c - d) * t * t
           + (-a + 3.0 * b - 3.0 * c + d) * t * t * t)
  }

  /** The point at parameter `t` of the segment from `p1` to `p2`, steered by `p0` and `p3`. */
  function GetCatmullRomPosition(t: real, p0: Vec3, p1: Vec3, p2: Vec3, p3: Vec3): Vec3 {
    Vec3(CatmullRom1(t, p0.x, p1.x, p2.x, p3.x),
         CatmullRom1(t, p0.y, p1.y, p2.y, p3.y),
         CatmullRom1(t, p0.z, p1.z, p2.z, p3.z))
  }

  // ---------------------------------------------------------------------------
  // The blending weights: the cubic is a weighted average of its four control
  // values, with weights that depend on `t` only and always sum to one.

  function W0(t: real): real { (-t + 2.0 * t * t - t * t * t) / 2.0 }
  function W1(t: real): real { (2.0 - 5.0 * t * t + 3.0 * t * t * t) / 2.0 }
  function W2(t: real): real { (t + 4.0 * t * t - 3.0 * t * t * t) / 2.0 }
  function W3(t: real): real { (-t * t + t * t * t) / 2.0 }

  lemma BlendingWeights(t: real, a: real, b: real, c: real, d: real)
    ensures CatmullRom1(t, a, b, c, d) == W0(t) * a + W1(t) * b + W2(t) * c + W3(t) * d
    ensures W0(t) + W1(t) + W2(t) + W3(t) == 1.0
  {
  }

  /** At `t = 0` the curve sits on `p1`, at `t = 1` on `p2`. */
  lemma CurveInterpolatesEnds(p0: Vec3, p1: Vec3, p2: Vec3, p3: Vec3)
    ensures GetCatmullRomPosition(0.0, p0, p1, p2, p3) == p1
    ensures GetCatmullRomPosition(1.0, p0, p1, p2, p3) == p2
  {
  }

  /** Four equal control points give that point for every `t`. */
  lemma ConstantCurve(t: real, p: Vec3)
    ensures GetCatmullRomPosition(t, p, p, p, p) == p
  {
    BlendingWeights(t, p.x, p.x, p.x, p.x);
    BlendingWeights(t, p.y, p.y, p.y, p.y);
    BlendingWeights(t, p.z, p.z, p.z, p.z);
  }

  lemma {:induction false} CatmullRom1Translates(t: real, a: real, b: real, c: real, d: real, v: real)
    ensures CatmullRom1(t, a + v, b + v, c + v, d + v) == CatmullRom1(t, a, b, c, d) + v
  {
    BlendingWeights(t, a, b, c, d);
    BlendingWeights(t, a + v, b + v, c + v, d + v);
    var w0, w1, w2, w3 := W0(t), W1(t), W2(t), W3(t);
    assert w0 * (a + v) + w1 * (b + v) + w2 * (c + v) + w3 * (d + v)
        == (w0 * a + w1 * b + w2 * c + w3 * d) + (w0 + w1 + w2 + w3) * v;
  }

  /** Shifting all four control points by `v` shifts the curve by `v`. */
  lemma CurveTranslates(t: real, p0: Vec3, p1: Vec3, p2: Vec3, p3: Vec3, v: Vec3)
    ensures GetCatmullRomPosition(t, Plus(p0, v), Plus(p1, v), Plus(p2, v), Plus(p3, v))
         == Plus(GetCatmullRomPosition(t, p0, p1, p2, p3), v)
  {
    CatmullRom1Translates(t, p0.x, p1.x, p2.x, p3.x, v.x);
    CatmullRom1Translates(t, p0.y, p1.y, p2.y, p3.y, v.y);
    CatmullRom1Translates(t, p0.z, p1.z, p2.z, p3.z, v.z);
  }

  // ---------------------------------------------------------------------------
  // Segments and samples.

  /** The four control points of segment `i`; the outer two are clamped at the ends of the path. */
  datatype Window = Window(p0: Vec3, p1: Vec3, p2: Vec3, p3: Vec3)

  function SegmentWindow(points: seq<Vec3>, i: nat): (w: Window)
    requires i + 1 < |points|
  {
    Window(if i == 0 then points[i] else points[i - 1],
           points[i],
           points[i + 1],
           if i + 2 < |points| then points[i + 2] else points[i + 1])
  }

  /**
   Each window is a run of the path with its missing outer neighbours
   replaced by the nearest end point, so the inner two are always the
   segment's end points.
   */
  lemma WindowClamped(points: seq<Vec3>, i: nat)
    requires i + 1 < |points|
    ensures SegmentWindow(points, i).p1 == points[i] && SegmentWindow(points, i).p2 == points[i + 1]
    ensures i == 0 ==> SegmentWindow(points, i).p0 == points[0]
    ensures i > 0 ==> SegmentWindow(points, i).p0 == points[i - 1]
    ensures i + 2 == |points| ==> SegmentWindow(points, i).p3 == points[|points| - 1]
    ensures i + 2 < |points| ==> SegmentWindow(points, i).p3 == points[i + 2]
  {
  }

  /** Sample `j` of segment `i`, at parameter `j / sub`. */
  function Sample(points: seq<Vec3>, i: nat, j: nat, sub: int): Vec3
    requires i + 1 < |points| && sub > 0
  {
    var w := SegmentWindow(points, i);
    GetCatmullRomPosition(j as real / sub as real, w.p0, w.p1, w.p2, w.p3)
  }

  /** The first sample of a segment is its start point; a full step along it reaches its end point. */
  lemma SampleAtKnots(points: seq<Vec3>, i: nat, sub: int)
    requires i + 1 < |points| && sub > 0
    ensures Sample(points, i, 0, sub) == points[i]
    ensures Sample(points, i, sub, sub) == points[i + 1]
  {
    var w := SegmentWindow(points, i);
    CurveInterpolatesEnds(w.p0, w.p1, w.p2, w.p3);
    assert sub as real / sub as real == 1.0;
  }

  /**
   Consecutive segments meet: sample `sub` of segment `i` (one past its last
   emitted sample) is sample 0 of segment `i + 1`.
   */
  lemma SegmentsJoin(points: seq<Vec3>, i: nat, sub: int)
    requires i + 2 < |points| && sub > 0
    ensures Sample(points, i, sub, sub) == Sample(points, i + 1, 0, sub)
  {
    SampleAtKnots(points, i, sub);
    SampleAtKnots(points, i + 1, sub);
  }

  /** On a constant path every sample is that constant. */
  lemma ConstantSample(points: seq<Vec3>, i: nat, j: nat, sub: int)
    requires i + 1 < |points| && sub > 0
    requires forall k :: 0 <= k < |points| ==> points[k] == points[0]
    ensures Sample(points, i, j, sub) == points[0]
  {
    var w := SegmentWindow(points, i);
    assert w == Window(points[0], points[0], points[0], points[0]);
    ConstantCurve(j as real / sub as real, points[0]);
  }

  function Max0(n: int): nat {
    if n > 0 then n else 0
  }

  /** The samples of segment `i`: parameters `0, 1/sub, ..., (sub-1)/sub`; none when `sub <= 0`. */
  function SegmentSamples(points: seq<Vec3>, i: nat, sub: int): (r: seq<Vec3>)
    requires i + 1 < |points|
    ensures |r| == Max0(sub)
    ensures forall j :: 0 <= j < |r| ==> r[j] == Sample(points, i, j, sub)
  {
    seq(Max0(sub), j requires 0 <= j < Max0(sub) => Sample(points, i, j, sub))
  }

  /** The samples of the first `n` segments, in order. */
  function Segments(points: seq<Vec3>, sub: int, n: nat): seq<Vec3>
    requires n < |points|
  {
    if n == 0 then [] else Segments(points, sub, n - 1) + SegmentSamples(points, n - 1, sub)
  }

  lemma {:induction false} SegmentsLength(points: seq<Vec3>, sub: int, n: nat)
    requires n < |points|
    ensures |Segments(points, sub, n)| == n * Max0(sub)
  {
    if n > 0 {
      SegmentsLength(points, sub, n - 1);
      assert n * Max0(sub) == (n - 1) * Max0(sub) + Max0(sub);
    }
  }

  lemma MulBelow(i: nat, n: nat, s: nat, j: nat)
    requires i < n && j < s
    ensures i * s + j < n * s
  {
    assert i * s + s == (i + 1) * s;
    assert (i + 1) * s <= n * s;
  }

  /** Where sample `j` of segment `i` lands in the output. */
  function Slot(i: int, j: int, sub: int): int {
    i * sub + j
  }

  /** Sample `j` of segment `i` sits at position `Slot(i, j, sub)`. */
  lemma {:induction false} SegmentsIndex(points: seq<Vec3>, sub: int, n: nat, i: nat, j: nat)
    requires n < |points| && i < n && j < sub
    ensures Slot(i, j, sub) < |Segments(points, sub, n)|
    ensures Segments(points, sub, n)[Slot(i, j, sub)] == Sample(points, i, j, sub)
  {
    SegmentsLength(points, sub, n);
    MulBelow(i, n, sub, j);
    SegmentsLength(points, sub, n - 1);
    if i < n - 1 {
      SegmentsIndex(points, sub, n - 1, i, j);
    } else {
      assert i * sub == (n - 1) * Max0(sub);
    }
  }

  /** On a constant path every sample of every segment is that constant. */
  lemma {:induction false} SegmentsConstant(points: seq<Vec3>, sub: int, n: nat)
    requires n < |points|
    requires forall k :: 0 <= k < |points| ==> points[k] == points[0]
    ensures forall k :: 0 <= k < |Segments(points, sub, n)| ==> Segments(points, sub, n)[k] == points[0]
  {
    if n > 0 {
      SegmentsConstant(points, sub, n - 1);
      var tail := SegmentSamples(points, n - 1, sub);
      forall j | 0 <= j < |tail| ensures tail[j] == points[0] {
        ConstantSample(points, n - 1, j, sub);
      }
    }
  }

  /** Every sample of every segment sits at its place in the segments followed by one more point. */
  lemma AllSamplesPlaced(points: seq<Vec3>, sub: int, r: seq<Vec3>)
    requires 2 <= |points|
    requires |r| >= 1
    requires r[..|r| - 1] == Segments(points, sub, |points| - 1)
    ensures forall i, j :: 0 <= i < |points| - 1 && 0 <= j < sub ==>
        Slot(i, j, sub) < |r| - 1 && r[Slot(i, j, sub)] == Sample(points, i, j, sub)
  {
    forall i, j | 0 <= i < |points| - 1 && 0 <= j < sub
      ensures Slot(i, j, sub) < |r| - 1 && r[Slot(i, j, sub)] == Sample(points, i, j, sub)
    {
      SegmentsIndex(points, sub, |points| - 1, i, j);
      assert r[Slot(i, j, sub)] == r[..|r| - 1][Slot(i, j, sub)];
    }
  }

  /** The segments' samples followed by the last point have the promised length, entries and ends. */
  lemma SplineShape(points: seq<Vec3>, sub: int, r: seq<Vec3>)
    requires 2 <= |points|
    requires r == Segments(points, sub, |points| - 1) + [points[|points| - 1]]
    ensures |r| == (|points| - 1) * Max0(sub) + 1
    ensures r[|r| - 1] == points[|points| - 1]
    ensures sub > 0 ==> r[0] == points[0]
    ensures (forall k :: 0 <= k < |points| ==> points[k] == points[0]) ==>
      forall k :: 0 <= k < |r| ==> r[k] == points[0]
  {
    var n := |points| - 1;
    SegmentsLength(points, sub, n);
    if sub > 0 {
      SegmentsIndex(points, sub, n, 0, 0);
      SampleAtKnots(points, 0, sub);
    }
    if forall k :: 0 <= k < |points| ==> points[k] == points[0] {
      SegmentsConstant(points, sub, n);
    }
  }

  /**
   The smoothed path: `sub` samples per segment followed by the last input
   point; paths with fewer than two points come back as they are.
   */
  method CatmullRomSpline(points: seq<Vec3>, sub: int) returns (r: seq<Vec3>)
    ensures |points| < 2 ==> r == points
    ensures |points| >= 2 ==> |r| == (|points| - 1) * Max0(sub) + 1
    ensures |points| >= 2 ==> r[|r| - 1] == points[|points| - 1]
    ensures |points| >= 2 ==>
      forall i, j :: 0 <= i < |points| - 1 && 0 <= j < sub ==>
        Slot(i, j, sub) < |r| - 1 && r[Slot(i, j, sub)] == Sample(points, i, j, sub)
    ensures |points| >= 2 && sub > 0 ==> r[0] == points[0]
    ensures (forall k :: 0 <= k < |points| ==> points[k] == points[0]) ==>
      forall k :: 0 <= k < |r| ==> r[k] == points[0]
  {
    if |points| < 2 {
      return points;
    }
    r := [];
    var i := 0;
    while i < |points| - 1
      invariant 0 <= i <= |points| - 1
      invariant r == Segments(points, sub, i)
    {
      var j := 0;
      while j < sub
        invariant 0 <= j <= Max0(sub)
        invariant r == Segments(points, sub, i) + SegmentSamples(points, i, sub)[..j]
      {
        r := r + [Sample(points, i, j, sub)];
        j := j + 1;
      }
      assert SegmentSamples(points, i, sub)[..j] == SegmentSamples(points, i, sub);
      i := i + 1;
    }
    var body := r;
    r := r + [points[|points| - 1]];
    SplineShape(points, sub, r);
    assert r[..|r| - 1] == body;
    AllSamplesPlaced(points, sub, r);
  }
}
