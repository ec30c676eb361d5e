/**
 * Backbone subdivision of a polymer: every segment between two consecutive
 * residues is cut into m samples, and positions, sizes and colours are
 * written into flat arrays, three numbers per sample for positions and
 * colours, one for sizes.  A cyclic polymer has one more segment, from its
 * last residue back to its first.
 *
 * Numbers are real; the single-precision rounding of a Float32Array is not
 * modelled.
 */
module Spline {
  import Factories

  datatype Vec3 = Vec3(x: real, y: real, z: real)

  function Coord(v: Vec3, c: nat): real
    requires c < 3
  {
    if c == 0 then v.x else if c == 1 then v.y else v.z
  }

  /** The cubic Hermite step with a tension factor on both tangents. */
  function Interpolate(p0: real, p1: real, p2: real, p3: real, t: real, tension: real): (r: real)
    ensures t == 0.0 ==> r == p1
    ensures t == 1.0 ==> r == p2
    ensures p0 == p1 == p2 == p3 ==> r == p1
  {
    var v0 := (p2 - p0) * tension;
    var v1 := (p3 - p1) * tension;
    var t2 := t * t;
    var t3 := t * t2;
    (2.0 * p1 - 2.0 * p2 + v0 + v1) * t3 + (-3.0 * p1 + 3.0 * p2 - 2.0 * v0 - v1) * t2 + v0 * t + p1
  }

  /** At tension 0.5, four evenly spaced points are followed exactly: the
      step moves linearly from p1 towards p2. */
  lemma InterpolateLinear(a: real, d: real, t: real)
    ensures Interpolate(a - d, a, a + d, a + 2.0 * d, t, 0.5) == a + d * t
  {
    var v0 := (a + d - (a - d)) * 0.5;
    var v1 := (a + 2.0 * d - a) * 0.5;
    assert v0 == d && v1 == d;
    assert 2.0 * a - 2.0 * (a + d) + v0 + v1 == 0.0;
    assert -3.0 * a + 3.0 * (a + d) - 2.0 * v0 - v1 == 0.0;
  }

  /** The number of segments: one per pair of consecutive residues, plus the
      closing one of a cyclic polymer. */
  function Segments(n: nat, cyclic: bool): nat
    requires n >= 1
  {
    n - 1 + if cyclic then 1 else 0
  }

  /** The residue that ends segment i: the next one, or the first for the closing segment. */
  function Next(n: nat, i: nat): nat
    requires i < n
  {
    if i + 1 < n then i + 1 else 0
  }

  // ---- Control points ----

  /** The index into the extended trace (entry r + 1 is residue r, for
      residues -1 .. n) of control point q of segment i: residues i-1 .. i+2,
      wrapping to residues 0 and 1 in the closing segment. */
  function ControlIndex(n: nat, i: nat, q: nat): (e: nat)
    requires n >= 1 && i < n && q < 4
    ensures e < n + 2
  {
    if i == n - 1 && i + q > n then i + q - n else i + q
  }

  /** The indices of the four control points of segment i. */
  function ControlIndices(n: nat, i: nat): (e: seq<nat>)
    requires n >= 1 && i < n
    ensures |e| == 4
  {
    [ControlIndex(n, i, 0), ControlIndex(n, i, 1), ControlIndex(n, i, 2), ControlIndex(n, i, 3)]
  }

  /** The four control points of segment i. */
  function ControlPointsOf(ext: seq<Vec3>, n: nat, i: nat): (p: seq<Vec3>)
    requires n >= 1 && |ext| == n + 2 && i < n
    ensures |p| == 4
  {
    [ext[ControlIndex(n, i, 0)], ext[ControlIndex(n, i, 1)], ext[ControlIndex(n, i, 2)], ext[ControlIndex(n, i, 3)]]
  }

  /** The control points are residues i-1 .. i+2, except in the closing
      segment of the last residue, which wraps to residues 0 and 1. */
  lemma ControlPoints(ext: seq<Vec3>, n: nat, i: nat)
    requires n >= 1 && |ext| == n + 2 && i < n
    ensures i + 1 < n ==> ControlPointsOf(ext, n, i) == [ext[i], ext[i + 1], ext[i + 2], ext[i + 3]]
    ensures i + 1 == n ==> ControlPointsOf(ext, n, i) == [ext[n - 1], ext[n], ext[1], ext[2]]
  {
  }

  /** The step parameter of sample j: j/m (only sampled for j < m, so m > 0 there). */
  function SampleT(j: nat, m: nat): (t: real)
    ensures j < m ==> 0.0 <= t < 1.0
    ensures j == 0 ==> t == 0.0
  {
    if m == 0 then 0.0 else (j as real) / (m as real)
  }

  // ---- Layout ----

  /** The segments 0 .. count-1 of a flat array, one after the other. */
  function Concat(count: nat, segment: nat -> seq<real>): seq<real>
  {
    if count == 0 then [] else Concat(count - 1, segment) + segment(count - 1)
  }

  lemma MulMono(a: nat, b: nat, m: nat)
    requires a <= b
    ensures a * m <= b * m
  {
  }

  lemma Distribute(w: nat, x: nat, y: nat)
    ensures w * (x + y) == w * x + w * y
  {
  }

  /** The source's segment arithmetic, (n - 1) * m plus m when cyclic, is
      the number of segments times m. */
  lemma SegmentsTimes(n: nat, n1: nat, m: nat, cyclic: bool)
    requires n >= 1 && n1 == n - 1
    ensures n1 * m + (if cyclic then m else 0) == Segments(n, cyclic) * m
    ensures Segments(n, cyclic) >= 1 ==> m <= Segments(n, cyclic) * m
  {
    if cyclic {
      assert Segments(n, cyclic) == n1 + 1;
      Distribute(m, n1, 1);
      assert (n1 + 1) * m == n1 * m + m;
    }
    if Segments(n, cyclic) >= 1 {
      MulMono(1, Segments(n, cyclic), m);
    }
  }

  /** Place 3 * j + c of a three-wide layout is entry c of sample j. */
  lemma DivModThree(j: nat, c: nat)
    requires c < 3
    ensures (3 * j + c) / 3 == j && (3 * j + c) % 3 == c
  {
  }

  lemma SuccTimes(i: nat, m: nat)
    ensures (i + 1) * m == i * m + m
  {
  }

  /** Every value of segments 0 .. count-1 lies below the offset of segment count. */
  lemma StrideBelow(w: nat, m: nat, count: nat, i: nat, j: nat, c: nat)
    requires i < count && j < m && c < w
    ensures w * (i * m + j) + c < w * (count * m)
  {
    MulMono(i + 1, count, m);
    var x := i * m + j;
    assert x + 1 <= count * m;
    MulMono(x + 1, count * m, w);
    assert (x + 1) * w == w * x + w;
    assert (count * m) * w == w * (count * m);
  }

  /** count segments of w * m values each make w * (count * m) values. */
  lemma {:induction false} ConcatLength(count: nat, segment: nat -> seq<real>, w: nat, m: nat)
    requires forall t :: 0 <= t < count ==> |segment(t)| == w * m
    ensures |Concat(count, segment)| == w * (count * m)
  {
    if count > 0 {
      ConcatLength(count - 1, segment, w, m);
      Distribute(w, (count - 1) * m, m);
      assert (count - 1) * m + m == count * m;
    }
  }

  /** Value c of sample j of segment i sits at w * (i * m + j) + c. */
  lemma {:induction false} ConcatIndex(count: nat, segment: nat -> seq<real>, w: nat, m: nat, i: nat, j: nat, c: nat)
    requires forall t :: 0 <= t < count ==> |segment(t)| == w * m
    requires i < count && j < m && c < w
    ensures var l := w * (i * m + j) + c;
      0 <= w * j + c < w * m && w * j + c < |segment(i)| &&
      0 <= l < w * (count * m) && l < |Concat(count, segment)| &&
      Concat(count, segment)[l] == segment(i)[w * j + c]
  {
    ConcatLength(count, segment, w, m);
    ConcatLength(count - 1, segment, w, m);
    StrideBelow(w, m, count, i, j, c);
    StrideBelow(w, m, 1, 0, j, c);
    if i < count - 1 {
      ConcatIndex(count - 1, segment, w, m, i, j, c);
    } else {
      Distribute(w, i * m, j);
    }
  }

  // ---- Positions ----

  /** Coordinate c of sample j of segment i. */
  function PositionSample(ext: seq<Vec3>, n: nat, m: nat, tension: real, i: nat, j: nat, c: nat): real
    requires n >= 1 && |ext| == n + 2 && i < n && c < 3
  {
    var p := ControlPointsOf(ext, n, i);
    Interpolate(Coord(p[0], c), Coord(p[1], c), Coord(p[2], c), Coord(p[3], c), SampleT(j, m), tension)
  }

  /** Segment i of getPosition: coordinate c of sample j at 3 * j + c. */
  function PositionSegment(ext: seq<Vec3>, n: nat, m: nat, tension: real, i: nat): (r: seq<real>)
    requires n >= 1 && |ext| == n + 2 && i < n
    ensures |r| == 3 * m
  {
    seq(3 * m, l requires 0 <= l => PositionSample(ext, n, m, tension, i, l / 3, l % 3))
  }

  /** The segments of getPosition (none past the last residue). */
  function PositionSegments(ext: seq<Vec3>, n: nat, m: nat, tension: real): nat -> seq<real>
    requires n >= 1 && |ext| == n + 2
  {
    (i: nat) => if i < n then PositionSegment(ext, n, m, tension, i) else []
  }

  /** What getPosition returns: the segments, then the closing entry. */
  function Positions(ext: seq<Vec3>, n: nat, m: nat, tension: real, cyclic: bool): seq<real>
    requires n >= 1 && |ext| == n + 2
  {
    var last := ext[if cyclic then 1 else n];
    Concat(Segments(n, cyclic), PositionSegments(ext, n, m, tension)) + [last.x, last.y, last.z]
  }

  /** Each of the first count segments of getPosition holds 3 * m numbers. */
  lemma PositionSegmentsUniform(ext: seq<Vec3>, n: nat, m: nat, tension: real, count: nat)
    requires n >= 1 && |ext| == n + 2 && count <= n
    ensures forall t :: 0 <= t < count ==> |PositionSegments(ext, n, m, tension)(t)| == 3 * m
  {
  }

  /** getPosition's result holds (n-1)*m*3 + 3 numbers, m*3 more when cyclic. */
  lemma PositionsLength(ext: seq<Vec3>, n: nat, m: nat, tension: real, cyclic: bool)
    requires n >= 1 && |ext| == n + 2
    ensures |Positions(ext, n, m, tension, cyclic)| == 3 * (Segments(n, cyclic) * m) + 3
  {
    PositionSegmentsUniform(ext, n, m, tension, Segments(n, cyclic));
    ConcatLength(Segments(n, cyclic), PositionSegments(ext, n, m, tension), 3, m);
  }

  /** Coordinate c of sample j of segment i sits at 3 * (i * m + j) + c of getPosition's result. */
  lemma PositionAt(ext: seq<Vec3>, n: nat, m: nat, tension: real, cyclic: bool, i: nat, j: nat, c: nat)
    requires n >= 1 && |ext| == n + 2
    requires i < Segments(n, cyclic) && j < m && c < 3
    ensures var l := 3 * (i * m + j) + c;
      0 <= l < 3 * (Segments(n, cyclic) * m) && l < |Positions(ext, n, m, tension, cyclic)| &&
      Positions(ext, n, m, tension, cyclic)[l] == PositionSample(ext, n, m, tension, i, j, c)
  {
    PositionSegmentsAt(ext, n, m, tension, Segments(n, cyclic), i, j, c);
  }

  /** The same place in the segments alone, before the closing entry. */
  lemma PositionSegmentsAt(ext: seq<Vec3>, n: nat, m: nat, tension: real, segs: nat, i: nat, j: nat, c: nat)
    requires n >= 1 && |ext| == n + 2 && segs <= n
    requires i < segs && j < m && c < 3
    ensures var l := 3 * (i * m + j) + c; var s := Concat(segs, PositionSegments(ext, n, m, tension));
      0 <= l < 3 * (segs * m) && l < |s| && s[l] == PositionSample(ext, n, m, tension, i, j, c)
  {
    var f := PositionSegments(ext, n, m, tension);
    PositionSegmentsUniform(ext, n, m, tension, segs);
    ConcatIndex(segs, f, 3, m, i, j, c);
    assert f(i) == PositionSegment(ext, n, m, tension, i);
    PositionSegmentAt(ext, n, m, tension, i, j, c);
  }

  /** Coordinate c of sample j sits at 3 * j + c of its segment. */
  lemma PositionSegmentAt(ext: seq<Vec3>, n: nat, m: nat, tension: real, i: nat, j: nat, c: nat)
    requires n >= 1 && |ext| == n + 2 && i < n && j < m && c < 3
    ensures 3 * j + c < 3 * m && PositionSegment(ext, n, m, tension, i)[3 * j + c] == PositionSample(ext, n, m, tension, i, j, c)
  {
    var l := 3 * j + c;
    assert PositionSegment(ext, n, m, tension, i)[l] == PositionSample(ext, n, m, tension, i, l / 3, l % 3);
    DivModThree(j, c);
  }

  /** getPosition closes with the last residue, or with the first one when cyclic. */
  lemma PositionsClose(ext: seq<Vec3>, n: nat, m: nat, tension: real, cyclic: bool, c: nat)
    requires n >= 1 && |ext| == n + 2 && c < 3
    ensures var s := Positions(ext, n, m, tension, cyclic);
      |s| >= 3 && s[|s| - 3 + c] == Coord(ext[if cyclic then 1 else n], c)
  {
  }

  /** Coordinate c of sample j of segment i sits at its place in t. */
  ghost predicate PositionEntry(t: seq<real>, ext: seq<Vec3>, n: nat, m: nat, tension: real, i: nat, j: nat, c: nat)
    requires n >= 1 && |ext| == n + 2 && i < n && c < 3
  {
    0 <= 3 * (i * m + j) + c < |t| && t[3 * (i * m + j) + c] == PositionSample(ext, n, m, tension, i, j, c)
  }

  /** t holds getPosition's samples: its length, and every sample at its place. */
  ghost predicate IsPositionTable(t: seq<real>, ext: seq<Vec3>, n: nat, m: nat, tension: real, cyclic: bool)
    requires n >= 1 && |ext| == n + 2
  {
    |t| == 3 * (Segments(n, cyclic) * m) + 3 &&
    forall i: nat, j: nat, c: nat :: i < Segments(n, cyclic) && j < m && c < 3 ==>
      PositionEntry(t, ext, n, m, tension, i, j, c)
  }

  lemma PositionsTable(ext: seq<Vec3>, n: nat, m: nat, tension: real, cyclic: bool)
    requires n >= 1 && |ext| == n + 2
    ensures IsPositionTable(Positions(ext, n, m, tension, cyclic), ext, n, m, tension, cyclic)
  {
    PositionsLength(ext, n, m, tension, cyclic);
    var t := Positions(ext, n, m, tension, cyclic);
    forall i: nat, j: nat, c: nat | i < Segments(n, cyclic) && j < m && c < 3
      ensures PositionEntry(t, ext, n, m, tension, i, j, c)
    {
      PositionAt(ext, n, m, tension, cyclic, i, j, c);
    }
  }

  /** The places k .. k + 3m - 1 of a table, for k = 3 * i * m, hold segment i. */
  lemma PositionTableSegment(t: seq<real>, ext: seq<Vec3>, n: nat, m: nat, tension: real, cyclic: bool, i: nat, k: nat)
    requires n >= 1 && |ext| == n + 2 && IsPositionTable(t, ext, n, m, tension, cyclic)
    requires i < Segments(n, cyclic) && k == 3 * (i * m)
    ensures k + 3 * m <= |t|
    ensures forall l :: k <= l < k + 3 * m ==> t[l] == PositionSample(ext, n, m, tension, i, (l - k) / 3, (l - k) % 3)
  {
    MulMono(i + 1, Segments(n, cyclic), m);
    Distribute(3, i * m, m);
    assert (i + 1) * m == i * m + m;
    forall l | k <= l < k + 3 * m
      ensures t[l] == PositionSample(ext, n, m, tension, i, (l - k) / 3, (l - k) % 3)
    {
      var j, c := (l - k) / 3, (l - k) % 3;
      Distribute(3, i * m, j);
      assert l == 3 * (i * m + j) + c && j < m;
      assert PositionEntry(t, ext, n, m, tension, i, j, c);
    }
  }

  /** The length of getPosition's array: (n-1)*m*3 + 3, and m*3 more when cyclic. */
  method PositionCount(n: nat, m: nat, cyclic: bool) returns (nPos: nat)
    requires n >= 1
    ensures nPos == 3 * (Segments(n, cyclic) * m) + 3
  {
    var n1 := n - 1;
    nPos := n1 * m * 3 + 3;
    if cyclic {
      nPos := nPos + m * 3;
    }
    SegmentsTimes(n, n1, m, cyclic);
  }

  /** The inner loop of getPosition: writes the m samples of segment i, whose
      four control points are the extended-trace entries r1 .. r4, three
      coordinates each, from offset k on. */
  method FillPositionSegment(pos: array<real>, k: nat, ext: seq<Vec3>, r1: nat, r2: nat, r3: nat, r4: nat,
                             ghost t: seq<real>, ghost n: nat, ghost i: nat, m: nat, tension: real, ghost cyclic: bool)
    requires n >= 1 && |ext| == n + 2 && i < Segments(n, cyclic)
    requires r1 == ControlIndex(n, i, 0) && r2 == ControlIndex(n, i, 1)
    requires r3 == ControlIndex(n, i, 2) && r4 == ControlIndex(n, i, 3)
    requires IsPositionTable(t, ext, n, m, tension, cyclic) && pos.Length == |t| && k == 3 * (i * m)
    modifies pos
    ensures k + 3 * m <= pos.Length
    ensures forall l :: 0 <= l < k ==> pos[l] == old(pos[l])
    ensures forall l :: k <= l < k + 3 * m ==> pos[l] == t[l]
  {
    PositionTableSegment(t, ext, n, m, tension, cyclic, i, k);
    var p1, p2, p3, p4 := ext[r1], ext[r2], ext[r3], ext[r4];
    for j := 0 to m
      invariant forall l :: 0 <= l < k ==> pos[l] == old(pos[l])
      invariant forall l :: k <= l < k + 3 * j ==> pos[l] == t[l]
    {
      var d := SampleT(j, m);
      var x := Interpolate(p1.x, p2.x, p3.x, p4.x, d, tension);
      var y := Interpolate(p1.y, p2.y, p3.y, p4.y, d, tension);
      var z := Interpolate(p1.z, p2.z, p3.z, p4.z, d, tension);
      assert t[k + 3 * j] == x && t[k + 3 * j + 1] == y && t[k + 3 * j + 2] == z;
      pos[k + 3 * j + 0] := x;
      pos[k + 3 * j + 1] := y;
      pos[k + 3 * j + 2] := z;
    }
  }

  /** The loops of getPosition: the segments between consecutive residues,
      then the closing one of a cyclic polymer, into an array laid out like
      t.  Returns where the samples end and which extended-trace entry the
      third control point last was. */
  method FillPositionSegments(a: array<real>, ghost t: seq<real>, ext: seq<Vec3>, n: nat, m: nat, tension: real,
                              cyclic: bool)
    returns (k: nat, r3: nat)
    requires n >= 1 && |ext| == n + 2
    requires IsPositionTable(t, ext, n, m, tension, cyclic) && a.Length == |t|
    modifies a
    ensures k == 3 * (Segments(n, cyclic) * m)
    ensures forall l :: 0 <= l < k ==> a[l] == t[l]
    ensures r3 == if cyclic then 1 else n
  {
    var segs := Segments(n, cyclic);
    k := 0;
    var r1, r2, r4 := 0, 0, 2;
    r3 := 1;
    for i := 0 to segs
      invariant i < n ==> r2 == i && r3 == i + 1 && r4 == i + 2
      invariant i >= n ==> r2 == n && r3 == 1 && r4 == 2
      invariant k == 3 * (i * m)
      invariant forall l :: 0 <= l < k ==> a[l] == t[l]
    {
      if i + 1 < n {
        r1, r2, r3, r4 := r2, r3, r4, i + 3;
      } else {
        r1, r2, r3, r4 := n - 1, n, 1, 2;
      }
      FillPositionSegment(a, k, ext, r1, r2, r3, r4, t, n, i, m, tension, cyclic);
      Distribute(3, i * m, m);
      SuccTimes(i, m);
      k := k + 3 * m;
    }
  }

  /** AtomProxy.positionToArray into the last three places of an array. */
  method PositionToArray(a: array<real>, k: nat, v: Vec3)
    requires k + 3 == a.Length
    modifies a
    ensures forall l :: 0 <= l < k ==> a[l] == old(a[l])
    ensures a[k] == v.x && a[k + 1] == v.y && a[k + 2] == v.z
  {
    a[k] := v.x;
    a[k + 1] := v.y;
    a[k + 2] := v.z;
  }

  /** getPosition, with the trace given extended by one residue at each end
      (entry r + 1 is residue r, for residues -1 .. n). */
  method GetPosition(ext: seq<Vec3>, n: nat, m: nat, tension: real, cyclic: bool) returns (pos: seq<real>)
    requires n >= 1 && |ext| == n + 2
    ensures pos == Positions(ext, n, m, tension, cyclic)
  {
    ghost var t := Positions(ext, n, m, tension, cyclic);
    PositionsTable(ext, n, m, tension, cyclic);
    var nPos := PositionCount(n, m, cyclic);
    var a := new real[nPos];
    var k, r3 := FillPositionSegments(a, t, ext, n, m, tension, cyclic);
    PositionToArray(a, k, ext[r3]);
    forall l | 0 <= l < a.Length
      ensures a[l] == t[l]
    {
      if l >= k {
        PositionsClose(ext, n, m, tension, cyclic, l - k);
      }
    }
    pos := a[..];
  }

  /** The subdivided trace passes through every residue's trace atom: the
      first sample of segment i is residue i itself. */
  lemma PositionStartsAtResidue(ext: seq<Vec3>, n: nat, m: nat, tension: real, i: nat, c: nat)
    requires n >= 1 && |ext| == n + 2 && i < n && c < 3
    ensures PositionSample(ext, n, m, tension, i, 0, c) == Coord(ext[i + 1], c)
  {
  }

  /** At tension 0.5 a straight, evenly spaced stretch of trace atoms is
      subdivided into evenly spaced samples along the same line. */
  lemma PositionOnEvenlySpacedTrace(ext: seq<Vec3>, n: nat, m: nat, i: nat, j: nat, c: nat, a: real, d: real)
    requires n >= 1 && |ext| == n + 2 && i + 1 < n && c < 3
    requires Coord(ext[i], c) == a && Coord(ext[i + 1], c) == a + d
    requires Coord(ext[i + 2], c) == a + 2.0 * d && Coord(ext[i + 3], c) == a + 3.0 * d
    ensures PositionSample(ext, n, m, 0.5, i, j, c) == a + d + d * SampleT(j, m)
  {
    InterpolateLinear(a + d, d, SampleT(j, m));
  }


  // ---- Sizes ----

  /** The arrow-head test: residue 1 is helix or strand and residue 2 is not of the same kind. */
  predicate IsArrowTransition(sstruc1: string, sstruc2: string)
  {
    Factories.IsHelixOrStrand(sstruc1) && sstruc2 != sstruc1
  }

  /** Size sample j of a segment from size s1 to size s2.  An arrow segment
      starts at 1.7 * s1, tapers over the first ceil(m/2) samples and then
      stays at s2. */
  function SizeSample(s1: real, s2: real, arrow: bool, j: nat, m: nat): real
  {
    if arrow then
      var m2 := (m + 1) / 2;
      if j < m2 then Lerp(1.7 * s1, s2, SampleT(j, m2)) else s2
    else
      Lerp(s1, s2, SampleT(j, m))
  }

  /** Linear interpolation from a to b. */
  function Lerp(a: real, b: real, t: real): real
  {
    (1.0 - t) * a + t * b
  }

  /** t * x lies between 0 and x for t in [0, 1]. */
  lemma ScaleBetween(t: real, x: real)
    requires 0.0 <= t <= 1.0
    ensures x >= 0.0 ==> 0.0 <= t * x <= x
    ensures x <= 0.0 ==> x <= t * x <= 0.0
  {
  }

  /** Every sample of a segment lies between its (possibly widened) start size
      and its end size; it starts at the start size, and an arrow reaches the
      end size at the half-way sample. */
  lemma SizeSampleBetween(s1: real, s2: real, arrow: bool, j: nat, m: nat)
    requires j < m
    ensures var a := if arrow then 1.7 * s1 else s1;
      (a <= SizeSample(s1, s2, arrow, j, m) <= s2) || (s2 <= SizeSample(s1, s2, arrow, j, m) <= a)
    ensures j == 0 ==> SizeSample(s1, s2, arrow, j, m) == if arrow then 1.7 * s1 else s1
    ensures arrow && j >= (m + 1) / 2 ==> SizeSample(s1, s2, arrow, j, m) == s2
  {
    var a := if arrow then 1.7 * s1 else s1;
    var d: nat := if arrow then (m + 1) / 2 else m;
    if j < d {
      LerpBetween(a, s2, SampleT(j, d));
    }
  }

  /** A linear interpolation stays between its ends, and starts at the first. */
  lemma LerpBetween(a: real, b: real, t: real)
    requires 0.0 <= t <= 1.0
    ensures (a <= Lerp(a, b, t) <= b) || (b <= Lerp(a, b, t) <= a)
    ensures t == 0.0 ==> Lerp(a, b, t) == a
  {
    assert Lerp(a, b, t) == a + t * (b - a);
    ScaleBetween(t, b - a);
  }

  /** Whether segment i of getSubdividedSize widens into an arrow head. */
  predicate SegmentArrow(sstruc: seq<string>, arrows: bool, i: nat)
    requires i < |sstruc|
  {
    arrows && IsArrowTransition(sstruc[i], sstruc[Next(|sstruc|, i)])
  }

  /** Size of segment i's sample j for per-residue radii and secondary structures. */
  function SegmentSize(radii: seq<real>, sstruc: seq<string>, arrows: bool, m: nat, i: nat, j: nat): real
    requires |radii| == |sstruc| && i < |radii|
  {
    SizeSample(radii[i], radii[Next(|radii|, i)], SegmentArrow(sstruc, arrows, i), j, m)
  }

  /** The m sizes of segment i of getSubdividedSize. */
  function SizeSegment(radii: seq<real>, sstruc: seq<string>, arrows: bool, m: nat, i: nat): (r: seq<real>)
    requires |radii| == |sstruc| && i < |radii|
    ensures |r| == m
  {
    seq(m, j requires 0 <= j => SegmentSize(radii, sstruc, arrows, m, i, j))
  }

  /** The segments of getSubdividedSize (none past the last residue). */
  function SizeSegments(radii: seq<real>, sstruc: seq<string>, arrows: bool, m: nat): nat -> seq<real>
    requires |radii| == |sstruc|
  {
    (i: nat) => if i < |radii| then SizeSegment(radii, sstruc, arrows, m, i) else []
  }

  /** What getSubdividedSize returns: the segments, then a copy of the last value. */
  function Sizes(radii: seq<real>, sstruc: seq<string>, arrows: bool, m: nat, cyclic: bool): seq<real>
    requires |radii| == |sstruc| && |radii| >= 1
  {
    var body := Concat(Segments(|radii|, cyclic), SizeSegments(radii, sstruc, arrows, m));
    if body == [] then [0.0] else body + [body[|body| - 1]]
  }

  /** Each of the first count segments of getSubdividedSize holds m numbers. */
  lemma SizeSegmentsUniform(radii: seq<real>, sstruc: seq<string>, arrows: bool, m: nat, count: nat)
    requires |radii| == |sstruc| && count <= |radii|
    ensures forall t :: 0 <= t < count ==> |SizeSegments(radii, sstruc, arrows, m)(t)| == 1 * m
  {
  }

  /** getSubdividedSize's result holds (n-1)*m + 1 values, m more when cyclic. */
  lemma SizesLength(radii: seq<real>, sstruc: seq<string>, arrows: bool, m: nat, cyclic: bool)
    requires |radii| == |sstruc| && |radii| >= 1 && m >= 1 && Segments(|radii|, cyclic) >= 1
    ensures |Sizes(radii, sstruc, arrows, m, cyclic)| == Segments(|radii|, cyclic) * m + 1
  {
    var segs := Segments(|radii|, cyclic);
    SizeSegmentsUniform(radii, sstruc, arrows, m, segs);
    ConcatLength(segs, SizeSegments(radii, sstruc, arrows, m), 1, m);
    MulMono(1, segs, m);
  }

  /** Sample j of segment i sits at i * m + j of getSubdividedSize's result. */
  lemma SizeAt(radii: seq<real>, sstruc: seq<string>, arrows: bool, m: nat, cyclic: bool, i: nat, j: nat)
    requires |radii| == |sstruc| && |radii| >= 1
    requires i < Segments(|radii|, cyclic) && j < m
    ensures var l := i * m + j;
      0 <= l < Segments(|radii|, cyclic) * m && l < |Sizes(radii, sstruc, arrows, m, cyclic)| &&
      Sizes(radii, sstruc, arrows, m, cyclic)[l] == SegmentSize(radii, sstruc, arrows, m, i, j)
  {
    SizeSegmentsAt(radii, sstruc, arrows, m, Segments(|radii|, cyclic), i, j);
  }

  /** The same place in the segments alone, before the closing copy. */
  lemma SizeSegmentsAt(radii: seq<real>, sstruc: seq<string>, arrows: bool, m: nat, segs: nat, i: nat, j: nat)
    requires |radii| == |sstruc| && segs <= |radii| && i < segs && j < m
    ensures var l := i * m + j; var s := Concat(segs, SizeSegments(radii, sstruc, arrows, m));
      0 <= l < segs * m && l < |s| && s[l] == SegmentSize(radii, sstruc, arrows, m, i, j)
  {
    var f := SizeSegments(radii, sstruc, arrows, m);
    SizeSegmentsUniform(radii, sstruc, arrows, m, segs);
    ConcatIndex(segs, f, 1, m, i, j, 0);
    assert 1 * (i * m + j) + 0 == i * m + j && 1 * j + 0 == j && 1 * (segs * m) == segs * m;
    assert f(i) == SizeSegment(radii, sstruc, arrows, m, i);
  }

  /** The last value of getSubdividedSize's result copies the one before it. */
  lemma SizesClose(radii: seq<real>, sstruc: seq<string>, arrows: bool, m: nat, cyclic: bool)
    requires |radii| == |sstruc| && |radii| >= 1 && m >= 1 && Segments(|radii|, cyclic) >= 1
    ensures var s := Sizes(radii, sstruc, arrows, m, cyclic); |s| >= 2 && s[|s| - 1] == s[|s| - 2]
  {
    SizesLength(radii, sstruc, arrows, m, cyclic);
  }

  /** Sample j of segment i sits at its place in t. */
  ghost predicate SizeEntry(t: seq<real>, radii: seq<real>, sstruc: seq<string>, arrows: bool, m: nat, i: nat, j: nat)
    requires |radii| == |sstruc| && i < |radii|
  {
    0 <= i * m + j < |t| && t[i * m + j] == SegmentSize(radii, sstruc, arrows, m, i, j)
  }

  /** t holds getSubdividedSize's samples: its length, and every sample at its place. */
  ghost predicate IsSizeTable(t: seq<real>, radii: seq<real>, sstruc: seq<string>, arrows: bool, m: nat, cyclic: bool)
    requires |radii| == |sstruc| && |radii| >= 1
  {
    |t| == Segments(|radii|, cyclic) * m + 1 &&
    forall i: nat, j: nat :: i < Segments(|radii|, cyclic) && j < m ==> SizeEntry(t, radii, sstruc, arrows, m, i, j)
  }

  lemma SizesTable(radii: seq<real>, sstruc: seq<string>, arrows: bool, m: nat, cyclic: bool)
    requires |radii| == |sstruc| && |radii| >= 1 && m >= 1 && Segments(|radii|, cyclic) >= 1
    ensures IsSizeTable(Sizes(radii, sstruc, arrows, m, cyclic), radii, sstruc, arrows, m, cyclic)
  {
    SizesLength(radii, sstruc, arrows, m, cyclic);
    var t := Sizes(radii, sstruc, arrows, m, cyclic);
    forall i: nat, j: nat | i < Segments(|radii|, cyclic) && j < m
      ensures SizeEntry(t, radii, sstruc, arrows, m, i, j)
    {
      SizeAt(radii, sstruc, arrows, m, cyclic, i, j);
    }
  }

  /** The places k .. k + m - 1 of a table, for k = i * m, hold segment i. */
  lemma SizeTableSegment(t: seq<real>, radii: seq<real>, sstruc: seq<string>, arrows: bool, m: nat, cyclic: bool,
                         i: nat, k: nat)
    requires |radii| == |sstruc| && |radii| >= 1 && IsSizeTable(t, radii, sstruc, arrows, m, cyclic)
    requires i < Segments(|radii|, cyclic) && k == i * m
    ensures k + m <= |t|
    ensures forall l :: k <= l < k + m ==> t[l] == SegmentSize(radii, sstruc, arrows, m, i, l - k)
  {
    MulMono(i + 1, Segments(|radii|, cyclic), m);
    SuccTimes(i, m);
    forall l | k <= l < k + m
      ensures t[l] == SegmentSize(radii, sstruc, arrows, m, i, l - k)
    {
      var j := l - k;
      assert l == i * m + j;
      assert SizeEntry(t, radii, sstruc, arrows, m, i, j);
    }
  }

  /** The length getSubdividedSize allocates: (n - 1) * m + 1, plus m when cyclic. */
  method SizeCount(n: nat, m: nat, cyclic: bool) returns (nSize: nat)
    requires n >= 1
    ensures nSize == Segments(n, cyclic) * m + 1
  {
    var n1 := n - 1;
    nSize := n1 * m + 1;
    if cyclic {
      nSize := nSize + m;
    }
    SegmentsTimes(n, n1, m, cyclic);
  }

  /** The inner loop of getSubdividedSize for a plain segment: m sizes
      interpolated linearly from s1 to s2, from offset k on. */
  method FillLinearSizes(size: array<real>, k: nat, s1: real, s2: real, m: nat, ghost t: seq<real>)
    requires k + m <= size.Length && k + m <= |t|
    requires forall l :: k <= l < k + m ==> t[l] == SizeSample(s1, s2, false, l - k, m)
    modifies size
    ensures forall l :: 0 <= l < k ==> size[l] == old(size[l])
    ensures forall l :: k <= l < k + m ==> size[l] == t[l]
  {
    for j := 0 to m
      invariant forall l :: 0 <= l < k ==> size[l] == old(size[l])
      invariant forall l :: k <= l < k + j ==> size[l] == t[l]
    {
      var d := SampleT(j, m);
      var v := (1.0 - d) * s1 + d * s2;
      assert t[k + j] == SizeSample(s1, s2, false, j, m);
      size[k + j] := v;
    }
  }

  /** The inner loops of getSubdividedSize for an arrow segment: the first
      ceil(m/2) sizes interpolated from 1.7 * s1 to s2, the rest s2, from
      offset k on. */
  method FillArrowSizes(size: array<real>, k: nat, s1: real, s2: real, m: nat, ghost t: seq<real>)
    requires k + m <= size.Length && k + m <= |t|
    requires forall l :: k <= l < k + m ==> t[l] == SizeSample(s1, s2, true, l - k, m)
    modifies size
    ensures forall l :: 0 <= l < k ==> size[l] == old(size[l])
    ensures forall l :: k <= l < k + m ==> size[l] == t[l]
  {
    var w1 := s1 * 1.7;
    var m2 := (m + 1) / 2;
    for j := 0 to m2
      invariant forall l :: 0 <= l < k ==> size[l] == old(size[l])
      invariant forall l :: k <= l < k + j ==> size[l] == t[l]
    {
      var d := SampleT(j, m2);
      var v := (1.0 - d) * w1 + d * s2;
      assert t[k + j] == SizeSample(s1, s2, true, j, m);
      size[k + j] := v;
    }
    for j := m2 to m
      invariant forall l :: 0 <= l < k ==> size[l] == old(size[l])
      invariant forall l :: k <= l < k + j ==> size[l] == t[l]
    {
      assert t[k + j] == SizeSample(s1, s2, true, j, m);
      size[k + j] := s2;
    }
  }

  /** The loops of getSubdividedSize: the segments between consecutive
      residues, then the closing one of a cyclic polymer, into an array laid
      out like t.  Returns where the samples end. */
  method FillSizeSegments(a: array<real>, ghost t: seq<real>, radii: seq<real>, sstruc: seq<string>, arrows: bool,
                          m: nat, cyclic: bool)
    returns (k: nat)
    requires |radii| == |sstruc| && |radii| >= 1
    requires IsSizeTable(t, radii, sstruc, arrows, m, cyclic) && a.Length == |t|
    modifies a
    ensures k == Segments(|radii|, cyclic) * m
    ensures forall l :: 0 <= l < k ==> a[l] == t[l]
  {
    var n := |radii|;
    var segs := Segments(n, cyclic);
    k := 0;
    var r1, r2 := 0, 0;
    for i := 0 to segs
      invariant i < segs ==> r2 == i
      invariant k == i * m
      invariant forall l :: 0 <= l < k ==> a[l] == t[l]
    {
      r1, r2 := r2, if i + 1 < n then i + 1 else 0;
      SizeTableSegment(t, radii, sstruc, arrows, m, cyclic, i, k);
      if arrows && IsArrowTransition(sstruc[r1], sstruc[r2]) {
        FillArrowSizes(a, k, radii[r1], radii[r2], m, t);
      } else {
        FillLinearSizes(a, k, radii[r1], radii[r2], m, t);
      }
      SuccTimes(i, m);
      k := k + m;
    }
  }

  /** The last statement of getSubdividedSize: the final place repeats the one before it. */
  method CopyLastSize(a: array<real>)
    requires a.Length >= 2
    modifies a
    ensures forall l :: 0 <= l < a.Length - 1 ==> a[l] == old(a[l])
    ensures a[a.Length - 1] == old(a[a.Length - 2])
  {
    a[a.Length - 1] := a[a.Length - 2];
  }

  /** getSubdividedSize with the radius of each residue's trace atom given. */
  method GetSubdividedSize(radii: seq<real>, sstruc: seq<string>, arrows: bool, m: nat, cyclic: bool)
    returns (size: seq<real>)
    requires |radii| == |sstruc| && |radii| >= 1 && m >= 1 && Segments(|radii|, cyclic) >= 1
    ensures size == Sizes(radii, sstruc, arrows, m, cyclic)
  {
    ghost var t := Sizes(radii, sstruc, arrows, m, cyclic);
    SizesTable(radii, sstruc, arrows, m, cyclic);
    SizesClose(radii, sstruc, arrows, m, cyclic);
    var nSize := SizeCount(|radii|, m, cyclic);
    var a := new real[nSize];
    var k := FillSizeSegments(a, t, radii, sstruc, arrows, m, cyclic);
    CopyLastSize(a);
    forall l | 0 <= l < a.Length
      ensures a[l] == t[l]
    {
      if l == k {
        assert a[l] == t[l - 1];
      }
    }
    size := a[..];
  }

  // ---- Colours ----

  /** Channel c (0 red, 1 green, 2 blue) of a colour number, scaled to [0, 1]. */
  function ChannelValue(colour: int, c: nat): real
    requires c < 3
  {
    Factories.Channel(colour, 16 - 8 * c) as real / 255.0
  }

  /** The residue whose colour sample j of segment i takes: the first
      ceil(m/2) samples take the segment's first residue, the rest its next. */
  function ColourResidue(n: nat, m: nat, i: nat, j: nat): nat
    requires i < n
  {
    if j < (m + 1) / 2 then i else Next(n, i)
  }

  /** Channel c of colour sample j of segment i: the colour of residue ColourResidue. */
  function ColourSample(colours: seq<int>, m: nat, i: nat, j: nat, c: nat): real
    requires i < |colours| && c < 3
  {
    ChannelValue(colours[ColourResidue(|colours|, m, i, j)], c)
  }

  /** Segment i of getSubdividedColor: channel c of sample j at 3 * j + c. */
  function ColourSegment(colours: seq<int>, m: nat, i: nat): (r: seq<real>)
    requires i < |colours|
    ensures |r| == 3 * m
  {
    seq(3 * m, l requires 0 <= l => ColourSample(colours, m, i, l / 3, l % 3))
  }

  /** The segments of getSubdividedColor (none past the last residue). */
  function ColourSegments(colours: seq<int>, m: nat): nat -> seq<real>
  {
    (i: nat) => if i < |colours| then ColourSegment(colours, m, i) else []
  }

  /** What getSubdividedColor returns: the segments, then a copy of the last triple. */
  function Colours(colours: seq<int>, m: nat, cyclic: bool): seq<real>
    requires |colours| >= 1
  {
    var body := Concat(Segments(|colours|, cyclic), ColourSegments(colours, m));
    if |body| < 3 then [0.0, 0.0, 0.0] else body + body[|body| - 3..]
  }

  /** Each of the first count segments of getSubdividedColor holds 3 * m numbers. */
  lemma ColourSegmentsUniform(colours: seq<int>, m: nat, count: nat)
    requires count <= |colours|
    ensures forall t :: 0 <= t < count ==> |ColourSegments(colours, m)(t)| == 3 * m
  {
  }

  /** getSubdividedColor's result holds (n-1)*m*3 + 3 numbers, m*3 more when cyclic. */
  lemma ColoursLength(colours: seq<int>, m: nat, cyclic: bool)
    requires |colours| >= 1 && m >= 1 && Segments(|colours|, cyclic) >= 1
    ensures |Colours(colours, m, cyclic)| == 3 * (Segments(|colours|, cyclic) * m) + 3
  {
    var segs := Segments(|colours|, cyclic);
    ColourSegmentsUniform(colours, m, segs);
    ConcatLength(segs, ColourSegments(colours, m), 3, m);
    MulMono(1, segs, m);
  }

  /** Channel c of sample j of segment i sits at 3 * (i * m + j) + c of
      getSubdividedColor's result. */
  lemma ColourAt(colours: seq<int>, m: nat, cyclic: bool, i: nat, j: nat, c: nat)
    requires |colours| >= 1
    requires i < Segments(|colours|, cyclic) && j < m && c < 3
    ensures var l := 3 * (i * m + j) + c;
      0 <= l < 3 * (Segments(|colours|, cyclic) * m) && l < |Colours(colours, m, cyclic)| &&
      Colours(colours, m, cyclic)[l] == ColourSample(colours, m, i, j, c)
  {
    ColourSegmentsAt(colours, m, Segments(|colours|, cyclic), i, j, c);
  }

  /** The same place in the segments alone, before the closing triple. */
  lemma ColourSegmentsAt(colours: seq<int>, m: nat, segs: nat, i: nat, j: nat, c: nat)
    requires segs <= |colours| && i < segs && j < m && c < 3
    ensures var l := 3 * (i * m + j) + c; var s := Concat(segs, ColourSegments(colours, m));
      0 <= l < 3 * (segs * m) && l < |s| && s[l] == ColourSample(colours, m, i, j, c)
  {
    var f := ColourSegments(colours, m);
    ColourSegmentsUniform(colours, m, segs);
    ConcatIndex(segs, f, 3, m, i, j, c);
    assert f(i) == ColourSegment(colours, m, i);
    ColourSegmentAt(colours, m, i, j, c);
  }

  /** Channel c of sample j sits at 3 * j + c of its segment. */
  lemma ColourSegmentAt(colours: seq<int>, m: nat, i: nat, j: nat, c: nat)
    requires i < |colours| && j < m && c < 3
    ensures 3 * j + c < 3 * m && ColourSegment(colours, m, i)[3 * j + c] == ColourSample(colours, m, i, j, c)
  {
    var l := 3 * j + c;
    assert ColourSegment(colours, m, i)[l] == ColourSample(colours, m, i, l / 3, l % 3);
    DivModThree(j, c);
  }

  /** The closing triple of getSubdividedColor's result copies the one before it. */
  lemma ColoursClose(colours: seq<int>, m: nat, cyclic: bool)
    requires |colours| >= 1 && m >= 1 && Segments(|colours|, cyclic) >= 1
    ensures var s := Colours(colours, m, cyclic);
      |s| >= 6 && s[|s| - 3] == s[|s| - 6] && s[|s| - 2] == s[|s| - 5] && s[|s| - 1] == s[|s| - 4]
  {
    ColoursLength(colours, m, cyclic);
  }

  /** Channel c of sample j of segment i sits at its place in t. */
  ghost predicate ColourEntry(t: seq<real>, colours: seq<int>, m: nat, i: nat, j: nat, c: nat)
    requires i < |colours| && c < 3
  {
    0 <= 3 * (i * m + j) + c < |t| && t[3 * (i * m + j) + c] == ColourSample(colours, m, i, j, c)
  }

  /** t holds getSubdividedColor's samples: its length, and every sample at its place. */
  ghost predicate IsColourTable(t: seq<real>, colours: seq<int>, m: nat, cyclic: bool)
    requires |colours| >= 1
  {
    |t| == 3 * (Segments(|colours|, cyclic) * m) + 3 &&
    forall i: nat, j: nat, c: nat :: i < Segments(|colours|, cyclic) && j < m && c < 3 ==>
      ColourEntry(t, colours, m, i, j, c)
  }

  lemma ColoursTable(colours: seq<int>, m: nat, cyclic: bool)
    requires |colours| >= 1 && m >= 1 && Segments(|colours|, cyclic) >= 1
    ensures IsColourTable(Colours(colours, m, cyclic), colours, m, cyclic)
  {
    ColoursLength(colours, m, cyclic);
    var t := Colours(colours, m, cyclic);
    forall i: nat, j: nat, c: nat | i < Segments(|colours|, cyclic) && j < m && c < 3
      ensures ColourEntry(t, colours, m, i, j, c)
    {
      ColourAt(colours, m, cyclic, i, j, c);
    }
  }

  /** The places k .. k + 3m - 1 of a table, for k = 3 * i * m, hold segment i. */
  lemma ColourTableSegment(t: seq<real>, colours: seq<int>, m: nat, cyclic: bool, i: nat, k: nat)
    requires |colours| >= 1 && IsColourTable(t, colours, m, cyclic)
    requires i < Segments(|colours|, cyclic) && k == 3 * (i * m)
    ensures k + 3 * m <= |t|
    ensures forall l :: k <= l < k + 3 * m ==> t[l] == ColourSample(colours, m, i, (l - k) / 3, (l - k) % 3)
  {
    MulMono(i + 1, Segments(|colours|, cyclic), m);
    SuccTimes(i, m);
    Distribute(3, i * m, m);
    forall l | k <= l < k + 3 * m
      ensures t[l] == ColourSample(colours, m, i, (l - k) / 3, (l - k) % 3)
    {
      var j, c := (l - k) / 3, (l - k) % 3;
      Distribute(3, i * m, j);
      assert l == 3 * (i * m + j) + c && j < m;
      assert ColourEntry(t, colours, m, i, j, c);
    }
  }

  /** One of the two inner loops of getSubdividedColor: samples lo .. hi-1
      of the segment at offset k, all in one colour. */
  method FillColour(col: array<real>, k: nat, lo: nat, hi: nat, colour: int, ghost t: seq<real>)
    requires lo <= hi && k + 3 * hi <= col.Length && k + 3 * hi <= |t|
    requires forall l :: k + 3 * lo <= l < k + 3 * hi ==> t[l] == ChannelValue(colour, (l - k) % 3)
    modifies col
    ensures forall l :: 0 <= l < k + 3 * lo ==> col[l] == old(col[l])
    ensures forall l :: k + 3 * lo <= l < k + 3 * hi ==> col[l] == t[l]
  {
    for j := lo to hi
      invariant forall l :: 0 <= l < k + 3 * lo ==> col[l] == old(col[l])
      invariant forall l :: k + 3 * lo <= l < k + 3 * j ==> col[l] == t[l]
    {
      var o := k + 3 * j;
      assert t[o] == ChannelValue(colour, 0) && t[o + 1] == ChannelValue(colour, 1) && t[o + 2] == ChannelValue(colour, 2);
      Factories.AtomColorToArray(colour, col, o);
    }
  }

  /** One pass of the outer loop of getSubdividedColor: the segment from
      residue r1 to residue r2, which is segment i, at offset k; its first
      ceil(m/2) samples take r1's colour, the rest r2's. */
  method FillColourSegment(a: array<real>, k: nat, colours: seq<int>, m: nat, r1: nat, r2: nat, ghost i: nat,
                           ghost t: seq<real>, ghost cyclic: bool)
    requires |colours| >= 1 && i < Segments(|colours|, cyclic) && r1 == i && r2 == Next(|colours|, i)
    requires IsColourTable(t, colours, m, cyclic) && a.Length == |t| && k == 3 * (i * m)
    modifies a
    ensures k + 3 * m <= a.Length
    ensures forall l :: 0 <= l < k ==> a[l] == old(a[l])
    ensures forall l :: k <= l < k + 3 * m ==> a[l] == t[l]
  {
    ColourTableSegment(t, colours, m, cyclic, i, k);
    var mh := (m + 1) / 2;
    FillColour(a, k, 0, mh, colours[r1], t);
    FillColour(a, k, mh, m, colours[r2], t);
  }

  /** The loops of getSubdividedColor: the segments between consecutive
      residues, then the closing one of a cyclic polymer, into an array laid
      out like t.  Returns where the samples end. */
  method FillColourSegments(a: array<real>, ghost t: seq<real>, colours: seq<int>, m: nat, cyclic: bool)
    returns (k: nat)
    requires |colours| >= 1
    requires IsColourTable(t, colours, m, cyclic) && a.Length == |t|
    modifies a
    ensures k == 3 * (Segments(|colours|, cyclic) * m)
    ensures forall l :: 0 <= l < k ==> a[l] == t[l]
  {
    var n := |colours|;
    var segs := Segments(n, cyclic);
    k := 0;
    var r1, r2 := 0, 0;
    for i := 0 to segs
      invariant i < segs ==> r2 == i
      invariant k == 3 * (i * m)
      invariant forall l :: 0 <= l < k ==> a[l] == t[l]
    {
      r1, r2 := r2, if i + 1 < n then i + 1 else 0;
      FillColourSegment(a, k, colours, m, r1, r2, i, t, cyclic);
      Distribute(3, i * m, m);
      SuccTimes(i, m);
      k := k + 3 * m;
    }
  }

  /** The length getSubdividedColor allocates: (n - 1) * m * 3 + 3, plus m * 3 when cyclic. */
  method ColourCount(n: nat, m: nat, cyclic: bool) returns (nCol: nat)
    requires n >= 1
    ensures nCol == 3 * (Segments(n, cyclic) * m) + 3
  {
    var n1 := n - 1;
    nCol := n1 * m * 3 + 3;
    if cyclic {
      nCol := nCol + m * 3;
    }
    SegmentsTimes(n, n1, m, cyclic);
  }

  /** The closing triple of getSubdividedColor repeats the one before it. */
  method CopyLastTriple(col: array<real>)
    requires col.Length >= 6
    modifies col
    ensures forall l :: 0 <= l < col.Length - 3 ==> col[l] == old(col[l])
    ensures forall l :: col.Length - 3 <= l < col.Length ==> col[l] == old(col[l - 3])
  {
    var nCol := col.Length;
    col[nCol - 3] := col[nCol - 6];
    col[nCol - 2] := col[nCol - 5];
    col[nCol - 1] := col[nCol - 4];
  }

  /** getSubdividedColor for one colour scheme; the picking colours are the
      same routine over the picking scheme's colours. */
  method GetSubdividedColor(colours: seq<int>, m: nat, cyclic: bool) returns (col: seq<real>)
    requires |colours| >= 1 && m >= 1 && Segments(|colours|, cyclic) >= 1
    ensures col == Colours(colours, m, cyclic)
  {
    ghost var t := Colours(colours, m, cyclic);
    ColoursTable(colours, m, cyclic);
    ColoursClose(colours, m, cyclic);
    var nCol := ColourCount(|colours|, m, cyclic);
    var a := new real[nCol];
    var k := FillColourSegments(a, t, colours, m, cyclic);
    CopyLastTriple(a);
    forall l | 0 <= l < a.Length
      ensures a[l] == t[l]
    {
      if l >= k {
        assert a[l] == t[l - 3];
      }
    }
    col := a[..];
  }

  /** Each segment starts in its own residue's colour and, when it has at
      least two samples, ends in the next residue's colour. */
  lemma ColourSwitchesAtHalf(n: nat, m: nat, i: nat)
    requires i < n && m >= 1
    ensures ColourResidue(n, m, i, 0) == i
    ensures m >= 2 ==> ColourResidue(n, m, i, m - 1) == Next(n, i)
    ensures forall j :: 0 <= j < m ==> (ColourResidue(n, m, i, j) == i || ColourResidue(n, m, i, j) == Next(n, i))
  {
  }
}
