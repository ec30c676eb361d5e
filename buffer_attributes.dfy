/**
 * The vertex attributes of the line, trace, ribbon and mapped buffers.
 *
 * Each setAttributes copies the per-item input arrays (three numbers per point)
 * into the buffer's per-vertex attribute arrays: a line is split at its
 * midpoint into two halves stored in the two halves of the arrays, a trace is
 * drawn as one segment per pair of consecutive points, a ribbon segment is a
 * quad of four vertices, and a mapped item repeats its data on each of its
 * mappingSize vertices.  Numbers are modelled as reals (Float32 rounding is
 * not modelled).
 */
module BufferAttributes {
  import opened Wrappers
  import opened IndexTypes
  import opened Seqs

  // ---- blocks in an array ----

  /** The first count blocks of bs, w entries each, sit in s one after the other from lo. */
  ghost predicate Placed(s: seq<real>, lo: nat, bs: seq<seq<real>>, w: nat, count: nat)
  {
    && count <= |bs| && lo + w * count <= |s|
    && (forall v :: 0 <= v < count ==> |bs[v]| == w)
    && forall v, c :: 0 <= v < count && 0 <= c < w && lo + w * v + c < |s| ==>
      s[lo + w * v + c] == bs[v][c]
  }

  /** Placed, for the contents of an array. */
  ghost predicate Filled(a: array<real>, lo: nat, bs: seq<seq<real>>, w: nat, count: nat)
    reads a
  {
    Placed(a[..], lo, bs, w, count)
  }

  /** Blocks in place are their flattening in place. */
  lemma {:induction false} FilledFlatten(a: array<real>, lo: nat, bs: seq<seq<real>>, w: nat)
    requires Uniform(bs, w) && Filled(a, lo, bs, w, |bs|)
    ensures forall p :: lo <= p < lo + |Flatten(bs)| ==> p < a.Length && a[p] == Flatten(bs)[p - lo]
  {
    FlattenLength(bs, w);
    if bs != [] {
      var init := bs[..|bs| - 1];
      var last := |bs| - 1;
      assert w * |bs| == w * last + w;
      assert Filled(a, lo, init, w, |init|) by {
        forall v, c | 0 <= v < |init| && 0 <= c < w && lo + w * v + c < a.Length
          ensures a[lo + w * v + c] == init[v][c]
        {
          assert init[v] == bs[v];
        }
      }
      FilledFlatten(a, lo, init, w);
      FlattenLength(init, w);
      assert Flatten(bs) == Flatten(init) + bs[last];
      forall p | lo <= p < lo + |Flatten(bs)|
        ensures p < a.Length && a[p] == Flatten(bs)[p - lo]
      {
        if p >= lo + |Flatten(init)| {
          var c := p - lo - w * last;
          assert a[lo + w * last + c] == bs[last][c];
        }
      }
    }
  }

  /** An array holding all the blocks and nothing else is their flattening. */
  lemma FilledAll(a: array<real>, bs: seq<seq<real>>, w: nat)
    requires Uniform(bs, w) && Filled(a, 0, bs, w, |bs|) && a.Length == w * |bs|
    ensures a[..] == Flatten(bs)
  {
    FilledFlatten(a, 0, bs, w);
    FlattenLength(bs, w);
  }

  /** The consecutive writes `a[i] = b[0]`, …, `a[i + |b| - 1] = b[|b| - 1]`. */
  method Write(a: array<real>, i: nat, b: seq<real>)
    requires i + |b| <= a.Length
    modifies a
    ensures forall c :: 0 <= c < |b| ==> a[i + c] == b[c]
    ensures forall p :: 0 <= p < a.Length && !(i <= p < i + |b|) ==> a[p] == old(a[p])
  {
    for c := 0 to |b|
      invariant forall c' :: 0 <= c' < c ==> a[i + c'] == b[c']
      invariant forall p :: 0 <= p < a.Length && !(i <= p < i + c) ==> a[p] == old(a[p])
    {
      a[i + c] := b[c];
    }
  }

  /** Writing b right after the first count blocks, with bs[count] == b, puts count + 1
      blocks in place. */
  lemma PlacedGrow(s0: seq<real>, s1: seq<real>, lo: nat, bs: seq<seq<real>>, count: nat, i: nat,
                   b: seq<real>)
    requires Placed(s0, lo, bs, |b|, count) && count < |bs| && bs[count] == b
    requires |s1| == |s0| && i == lo + |b| * count && i + |b| <= |s1|
    requires forall c :: 0 <= c < |b| ==> s1[i + c] == b[c]
    requires forall p :: 0 <= p < |s1| && !(i <= p < i + |b|) ==> s1[p] == s0[p]
    ensures Placed(s1, lo, bs, |b|, count + 1)
  {
    var w := |b|;
    assert lo + w * (count + 1) == i + w;
    forall v, c | 0 <= v < count + 1 && 0 <= c < w && lo + w * v + c < |s1|
      ensures s1[lo + w * v + c] == bs[v][c]
    {
      if v == count {
        assert s1[i + c] == b[c];
      } else {
        MulLe(v + 1, count, w);
        assert w * (v + 1) == w * v + w;
        assert s0[lo + w * v + c] == bs[v][c];
      }
    }
  }

  /** Writes outside the blocks in place leave them in place. */
  lemma PlacedKept(s0: seq<real>, s1: seq<real>, lo: nat, bs: seq<seq<real>>, w: nat, count: nat,
                   i: nat, k: nat)
    requires Placed(s0, lo, bs, w, count) && |s1| == |s0|
    requires forall p :: 0 <= p < |s1| && !(i <= p < i + k) ==> s1[p] == s0[p]
    requires lo + w * count <= i || i + k <= lo
    ensures Placed(s1, lo, bs, w, count)
  {
    forall v, c | 0 <= v < count && 0 <= c < w && lo + w * v + c < |s1|
      ensures s1[lo + w * v + c] == bs[v][c]
    {
      MulLe(v + 1, count, w);
      assert w * (v + 1) == w * v + w;
      assert s0[lo + w * v + c] == bs[v][c];
    }
  }

  /** Writes block count of bs right after the blocks already in place from lo, keeping
      the blocks of bs' in place from lo', which the write does not overlap. */
  method PutBlock(a: array<real>, i: nat, b: seq<real>, ghost lo: nat, ghost bs: seq<seq<real>>,
                  ghost count: nat, ghost lo': nat, ghost bs': seq<seq<real>>, ghost w': nat,
                  ghost count': nat)
    requires count < |bs| && bs[count] == b && i == lo + |b| * count && i + |b| <= a.Length
    requires Filled(a, lo, bs, |b|, count) && Filled(a, lo', bs', w', count')
    requires lo' + w' * count' <= i || i + |b| <= lo'
    modifies a
    ensures Filled(a, lo, bs, |b|, count + 1) && Filled(a, lo', bs', w', count')
  {
    ghost var before := a[..];
    Write(a, i, b);
    PlacedGrow(before, a[..], lo, bs, count, i, b);
    PlacedKept(before, a[..], lo', bs', w', count', i, |b|);
  }

  // ---- line buffer ----

  /** Coordinate j of the midpoint between from and to. */
  function Mid(from: seq<real>, to: seq<real>, j: nat): real
    requires j < |from| && j < |to|
  {
    (from[j] + to[j]) / 2.0
  }

  /** The first half of line v: its start, then its midpoint. */
  function LineFirstHalf(from: seq<real>, to: seq<real>, v: nat): (b: seq<real>)
    requires 3 * v + 3 <= |from| && 3 * v + 3 <= |to|
    ensures |b| == 6
  {
    var j := 3 * v;
    [from[j], from[j + 1], from[j + 2], Mid(from, to, j), Mid(from, to, j + 1), Mid(from, to, j + 2)]
  }

  /** The second half of line v: its midpoint, then its end. */
  function LineSecondHalf(from: seq<real>, to: seq<real>, v: nat): (b: seq<real>)
    requires 3 * v + 3 <= |from| && 3 * v + 3 <= |to|
    ensures |b| == 6
  {
    var j := 3 * v;
    [Mid(from, to, j), Mid(from, to, j + 1), Mid(from, to, j + 2), to[j], to[j + 1], to[j + 2]]
  }

  /** The first halves of n lines. */
  function LineFirstHalves(from: seq<real>, to: seq<real>, n: nat): (bs: seq<seq<real>>)
    requires 3 * n <= |from| && 3 * n <= |to|
    ensures |bs| == n && Uniform(bs, 6)
  {
    seq(n, v requires 0 <= v < n => LineFirstHalf(from, to, v))
  }

  /** The second halves of n lines. */
  function LineSecondHalves(from: seq<real>, to: seq<real>, n: nat): (bs: seq<seq<real>>)
    requires 3 * n <= |from| && 3 * n <= |to|
    ensures |bs| == n && Uniform(bs, 6)
  {
    seq(n, v requires 0 <= v < n => LineSecondHalf(from, to, v))
  }

  /** A LineBuffer's position array for n lines: the first halves, then the second halves. */
  function LinePositions(from: seq<real>, to: seq<real>, n: nat): (r: seq<real>)
    requires 3 * n <= |from| && 3 * n <= |to|
    ensures |r| == 12 * n
  {
    FlattenLength(LineFirstHalves(from, to, n), 6);
    FlattenLength(LineSecondHalves(from, to, n), 6);
    Flatten(LineFirstHalves(from, to, n)) + Flatten(LineSecondHalves(from, to, n))
  }

  /** The color of point v on two vertices. */
  function Twice(color: seq<real>, v: nat): (b: seq<real>)
    requires 3 * v + 3 <= |color|
    ensures |b| == 6
  {
    var j := 3 * v;
    [color[j], color[j + 1], color[j + 2], color[j], color[j + 1], color[j + 2]]
  }

  /** The color of each of n points on two vertices. */
  function ColorPairs(color: seq<real>, n: nat): (bs: seq<seq<real>>)
    requires 3 * n <= |color|
    ensures |bs| == n && Uniform(bs, 6)
  {
    seq(n, v requires 0 <= v < n => Twice(color, v))
  }

  /** A LineBuffer's color array: color on both vertices of each first half, color2 on
      both vertices of each second half. */
  function LineColors(color: seq<real>, color2: seq<real>, n: nat): (r: seq<real>)
    requires 3 * n <= |color| && 3 * n <= |color2|
    ensures |r| == 12 * n
  {
    FlattenLength(ColorPairs(color, n), 6);
    FlattenLength(ColorPairs(color2, n), 6);
    Flatten(ColorPairs(color, n)) + Flatten(ColorPairs(color2, n))
  }

  /** Line v is drawn from its start at offset 6v to its midpoint, and on from that midpoint
      at offset 6n + 6v to its end; both halves share the midpoint. */
  lemma LineHalvesMeet(from: seq<real>, to: seq<real>, n: nat, v: nat, x: nat)
    requires 3 * n <= |from| && 3 * n <= |to| && v < n && x < 3
    ensures var ps := LinePositions(from, to, n);
      |ps| == 12 * n &&
      ps[6 * v + x] == from[3 * v + x] &&
      ps[6 * v + 3 + x] == ps[6 * n + 6 * v + x] == (from[3 * v + x] + to[3 * v + x]) / 2.0 &&
      ps[6 * n + 6 * v + 3 + x] == to[3 * v + x]
  {
    var first := LineFirstHalves(from, to, n);
    var second := LineSecondHalves(from, to, n);
    FlattenLength(first, 6);
    FlattenAt(first, 6, v, x);
    FlattenAt(first, 6, v, 3 + x);
    FlattenAt(second, 6, v, x);
    FlattenAt(second, 6, v, 3 + x);
  }

  /** Both vertices of the first half of line v carry color, both of the second color2. */
  lemma LineColorsAt(color: seq<real>, color2: seq<real>, n: nat, v: nat, x: nat)
    requires 3 * n <= |color| && 3 * n <= |color2| && v < n && x < 3
    ensures var cs := LineColors(color, color2, n);
      |cs| == 12 * n &&
      cs[6 * v + x] == cs[6 * v + 3 + x] == color[3 * v + x] &&
      cs[6 * n + 6 * v + x] == cs[6 * n + 6 * v + 3 + x] == color2[3 * v + x]
  {
    var first := ColorPairs(color, n);
    var second := ColorPairs(color2, n);
    FlattenLength(first, 6);
    FlattenAt(first, 6, v, x);
    FlattenAt(first, 6, v, 3 + x);
    FlattenAt(second, 6, v, x);
    FlattenAt(second, 6, v, 3 + x);
  }

  /** The position part of LineBuffer.setAttributes (run when from and to are both given). */
  method LineSetPositions(aPosition: array<real>, from: seq<real>, to: seq<real>, n: nat)
    requires 3 * n <= |from| && 3 * n <= |to| && aPosition.Length == 12 * n
    modifies aPosition
    ensures aPosition[..] == LinePositions(from, to, n)
  {
    ghost var first := LineFirstHalves(from, to, n);
    ghost var second := LineSecondHalves(from, to, n);
    var n6 := n * 6;
    for v := 0 to n
      invariant Filled(aPosition, 0, first, 6, v) && Filled(aPosition, n6, second, 6, v)
    {
      var j := v * 3;
      var i := v * 2 * 3;
      var i2 := i + n6;
      var x1, y1, z1 := from[j], from[j + 1], from[j + 2];
      var x2, y2, z2 := to[j], to[j + 1], to[j + 2];
      var x, y, z := (x1 + x2) / 2.0, (y1 + y2) / 2.0, (z1 + z2) / 2.0;
      PutBlock(aPosition, i, [x1, y1, z1, x, y, z], 0, first, v, n6, second, 6, v);
      PutBlock(aPosition, i2, [x, y, z, x2, y2, z2], n6, second, v, 0, first, 6, v + 1);
    }
    FilledFlatten(aPosition, 0, first, 6);
    FilledFlatten(aPosition, n6, second, 6);
    FlattenLength(first, 6);
  }

  /** The color part of LineBuffer.setAttributes (run when color and color2 are both given):
      `aColor[i] = aColor[i + 3] = color[j]` and so on. */
  method LineSetColors(aColor: array<real>, color: seq<real>, color2: seq<real>, n: nat)
    requires 3 * n <= |color| && 3 * n <= |color2| && aColor.Length == 12 * n
    modifies aColor
    ensures aColor[..] == LineColors(color, color2, n)
  {
    ghost var first := ColorPairs(color, n);
    ghost var second := ColorPairs(color2, n);
    var n6 := n * 6;
    for v := 0 to n
      invariant Filled(aColor, 0, first, 6, v) && Filled(aColor, n6, second, 6, v)
    {
      var j := v * 3;
      var i := v * 2 * 3;
      var i2 := i + n6;
      var r, g, b := color[j], color[j + 1], color[j + 2];
      var r2, g2, b2 := color2[j], color2[j + 1], color2[j + 2];
      PutBlock(aColor, i, [r, g, b, r, g, b], 0, first, v, n6, second, 6, v);
      PutBlock(aColor, i2, [r2, g2, b2, r2, g2, b2], n6, second, v, 0, first, 6, v + 1);
    }
    FilledFlatten(aColor, 0, first, 6);
    FilledFlatten(aColor, n6, second, 6);
    FlattenLength(first, 6);
  }

  // ---- trace buffer ----

  /** Segment i of a trace: from point i to point i + 1. */
  function TraceSegment(position: seq<real>, i: nat): (b: seq<real>)
    requires 3 * i + 6 <= |position|
    ensures |b| == 6
  {
    var v := 3 * i;
    [position[v], position[v + 1], position[v + 2], position[v + 3], position[v + 4], position[v + 5]]
  }

  /** The n1 segments joining n1 + 1 points. */
  function TraceSegments(position: seq<real>, n1: nat): (bs: seq<seq<real>>)
    requires 3 * n1 + 3 <= |position|
    ensures |bs| == n1 && Uniform(bs, 6)
  {
    seq(n1, i requires 0 <= i < n1 => TraceSegment(position, i))
  }

  /** A TraceBuffer's line array for n1 + 1 points. */
  function TraceLine(position: seq<real>, n1: nat): (r: seq<real>)
    requires 3 * n1 + 3 <= |position|
    ensures |r| == 6 * n1
  {
    FlattenLength(TraceSegments(position, n1), 6);
    Flatten(TraceSegments(position, n1))
  }

  /** Segment i runs from point i to point i + 1, so it ends where segment i + 1 starts. */
  lemma TraceSegmentsJoin(position: seq<real>, n1: nat, i: nat, x: nat)
    requires 3 * n1 + 3 <= |position| && i < n1 && x < 3
    ensures var line := TraceLine(position, n1);
      line[6 * i + x] == position[3 * i + x] &&
      line[6 * i + 3 + x] == position[3 * i + 3 + x] &&
      (i + 1 < n1 ==> line[6 * (i + 1) + x] == line[6 * i + 3 + x])
  {
    var segs := TraceSegments(position, n1);
    FlattenAt(segs, 6, i, x);
    FlattenAt(segs, 6, i, 3 + x);
    if i + 1 < n1 {
      FlattenAt(segs, 6, i + 1, x);
    }
  }

  /** One iteration of TraceBuffer.setAttributes' loop for one attribute: copies points
      i and i + 1 of s to the entries 6i to 6i + 5 of a. */
  method TraceStep(a: array<real>, s: seq<real>, n1: nat, i: nat, ghost bs: seq<seq<real>>)
    requires 3 * n1 + 3 <= |s| && i < n1 && a.Length == 6 * n1
    requires bs == TraceSegments(s, n1) && Filled(a, 0, bs, 6, i)
    modifies a
    ensures Filled(a, 0, bs, 6, i + 1)
  {
    var v := 3 * i;
    var v2 := 3 * i * 2;
    PutBlock(a, v2, [s[v], s[v + 1], s[v + 2], s[v + 3], s[v + 4], s[v + 5]], 0, bs, i, 0, [], 6, 0);
  }

  /** TraceBuffer.setAttributes: each attribute given is laid out segment by segment;
      with neither given the call only warns. */
  method TraceSetAttributes(linePosition: array<real>, lineColor: array<real>, size: nat,
                            position: Option<seq<real>>, color: Option<seq<real>>)
    returns (warned: bool)
    requires size >= 1 && linePosition != lineColor
    requires linePosition.Length == 6 * (size - 1) && lineColor.Length == 6 * (size - 1)
    requires position.Some? ==> 3 * size <= |position.value|
    requires color.Some? ==> 3 * size <= |color.value|
    modifies linePosition, lineColor
    ensures warned <==> position.None? && color.None?
    ensures position.Some? ==> linePosition[..] == TraceLine(position.value, size - 1)
    ensures position.None? ==> unchanged(linePosition)
    ensures color.Some? ==> lineColor[..] == TraceLine(color.value, size - 1)
    ensures color.None? ==> unchanged(lineColor)
  {
    if position.None? && color.None? {
      return true;
    }
    var n1 := size - 1;
    ghost var ps := if position.Some? then TraceSegments(position.value, n1) else [];
    ghost var cs := if color.Some? then TraceSegments(color.value, n1) else [];
    for i := 0 to n1
      invariant position.Some? ==> Filled(linePosition, 0, ps, 6, i)
      invariant position.None? ==> unchanged(linePosition)
      invariant color.Some? ==> Filled(lineColor, 0, cs, 6, i)
      invariant color.None? ==> unchanged(lineColor)
    {
      if position.Some? {
        TraceStep(linePosition, position.value, n1, i, ps);
      }
      if color.Some? {
        TraceStep(lineColor, color.value, n1, i, cs);
      }
    }
    if position.Some? {
      FilledAll(linePosition, ps, 6);
    }
    if color.Some? {
      FilledAll(lineColor, cs, 6);
    }
    return false;
  }

  // ---- ribbon buffer ----

  /** The quad of segment v: both vertices of point v, then both of point v + 1. */
  function PositionQuad(p: seq<real>, v: nat): (b: seq<real>)
    requires 3 * v + 6 <= |p|
    ensures |b| == 12
  {
    var j := 3 * v;
    [p[j], p[j + 1], p[j + 2], p[j], p[j + 1], p[j + 2],
     p[j + 3], p[j + 4], p[j + 5], p[j + 3], p[j + 4], p[j + 5]]
  }

  /** The normals of segment v's quad: the given normals, negated. */
  function NormalQuad(m: seq<real>, v: nat): (b: seq<real>)
    requires 3 * v + 6 <= |m|
    ensures |b| == 12
  {
    var j := 3 * v;
    [-m[j], -m[j + 1], -m[j + 2], -m[j], -m[j + 1], -m[j + 2],
     -m[j + 3], -m[j + 4], -m[j + 5], -m[j + 3], -m[j + 4], -m[j + 5]]
  }

  /** The directions of segment v's quad: each point's direction on one vertex and its
      opposite on the other. */
  function DirQuad(d: seq<real>, v: nat): (b: seq<real>)
    requires 3 * v + 6 <= |d|
    ensures |b| == 12
  {
    var j := 3 * v;
    [d[j], d[j + 1], d[j + 2], -d[j], -d[j + 1], -d[j + 2],
     d[j + 3], d[j + 4], d[j + 5], -d[j + 3], -d[j + 4], -d[j + 5]]
  }

  /** The sizes of segment v's quad: the previous point's size (the first point's for the
      first segment) on the first two vertices, point v's on the last two. */
  function SizeQuad(s: seq<real>, v: nat): (b: seq<real>)
    requires v < |s|
    ensures |b| == 4
  {
    var prev := if v == 0 then s[0] else s[v - 1];
    [prev, prev, s[v], s[v]]
  }

  /** Point q / 4's color, for vertex q. */
  function VertexColor(c: seq<real>, q: nat): (b: seq<real>)
    requires 3 * (q / 4) + 3 <= |c|
    ensures |b| == 3
  {
    var j := 3 * (q / 4);
    [c[j], c[j + 1], c[j + 2]]
  }

  function PositionQuads(p: seq<real>, n: nat): (bs: seq<seq<real>>)
    requires 3 * n + 3 <= |p|
    ensures |bs| == n && Uniform(bs, 12)
  {
    seq(n, v requires 0 <= v < n => PositionQuad(p, v))
  }

  function NormalQuads(m: seq<real>, n: nat): (bs: seq<seq<real>>)
    requires 3 * n + 3 <= |m|
    ensures |bs| == n && Uniform(bs, 12)
  {
    seq(n, v requires 0 <= v < n => NormalQuad(m, v))
  }

  function DirQuads(d: seq<real>, n: nat): (bs: seq<seq<real>>)
    requires 3 * n + 3 <= |d|
    ensures |bs| == n && Uniform(bs, 12)
  {
    seq(n, v requires 0 <= v < n => DirQuad(d, v))
  }

  function SizeQuads(s: seq<real>, n: nat): (bs: seq<seq<real>>)
    requires n <= |s|
    ensures |bs| == n && Uniform(bs, 4)
  {
    seq(n, v requires 0 <= v < n => SizeQuad(s, v))
  }

  function VertexColors(c: seq<real>, n: nat): (bs: seq<seq<real>>)
    requires 3 * n <= |c|
    ensures |bs| == 4 * n && Uniform(bs, 3)
  {
    seq(4 * n, q requires 0 <= q < 4 * n => VertexColor(c, q))
  }

  /** Both vertices of a ribbon point share its position: segment v's quad runs from
      point v to point v + 1. */
  lemma RibbonPositionsAt(p: seq<real>, n: nat, v: nat, x: nat)
    requires 3 * n + 3 <= |p| && v < n && x < 3
    ensures var r := Flatten(PositionQuads(p, n));
      |r| == 12 * n &&
      r[12 * v + x] == r[12 * v + 3 + x] == p[3 * v + x] &&
      r[12 * v + 6 + x] == r[12 * v + 9 + x] == p[3 * v + 3 + x]
  {
    var bs := PositionQuads(p, n);
    FlattenLength(bs, 12);
    FlattenAt(bs, 12, v, x);
    FlattenAt(bs, 12, v, 3 + x);
    FlattenAt(bs, 12, v, 6 + x);
    FlattenAt(bs, 12, v, 9 + x);
  }

  /** Segment v's quad ends where segment v + 1's begins. */
  lemma RibbonPositionsJoin(p: seq<real>, n: nat, v: nat, x: nat)
    requires 3 * n + 3 <= |p| && v + 1 < n && x < 3
    ensures var r := Flatten(PositionQuads(p, n));
      |r| == 12 * n && r[12 * (v + 1) + x] == r[12 * v + 9 + x]
  {
    RibbonPositionsAt(p, n, v, x);
    RibbonPositionsAt(p, n, v + 1, x);
  }

  /** Every vertex carries the negated normal of its point. */
  lemma RibbonNormalsNegated(m: seq<real>, n: nat, v: nat, x: nat)
    requires 3 * n + 3 <= |m| && v < n && x < 3
    ensures var r := Flatten(NormalQuads(m, n));
      |r| == 12 * n && r[12 * v + x] == r[12 * v + 3 + x] == -m[3 * v + x] &&
      r[12 * v + 6 + x] == r[12 * v + 9 + x] == -m[3 * v + 3 + x]
  {
    var bs := NormalQuads(m, n);
    FlattenLength(bs, 12);
    FlattenAt(bs, 12, v, x);
    FlattenAt(bs, 12, v, 3 + x);
    FlattenAt(bs, 12, v, 6 + x);
    FlattenAt(bs, 12, v, 9 + x);
  }

  /** The two vertices of a ribbon point get opposite directions, the first one the
      point's own. */
  lemma RibbonDirsOpposite(d: seq<real>, n: nat, v: nat, x: nat)
    requires 3 * n + 3 <= |d| && v < n && x < 3
    ensures var r := Flatten(DirQuads(d, n));
      |r| == 12 * n && r[12 * v + x] == d[3 * v + x] && r[12 * v + 3 + x] == -r[12 * v + x] &&
      r[12 * v + 6 + x] == d[3 * v + 3 + x] && r[12 * v + 9 + x] == -r[12 * v + 6 + x]
  {
    var bs := DirQuads(d, n);
    FlattenLength(bs, 12);
    FlattenAt(bs, 12, v, x);
    FlattenAt(bs, 12, v, 3 + x);
    FlattenAt(bs, 12, v, 6 + x);
    FlattenAt(bs, 12, v, 9 + x);
  }

  /** Segment v's quad widens from the previous point's size to point v's, and the next
      quad starts at the size this one ends with. */
  lemma RibbonSizesJoin(s: seq<real>, n: nat, v: nat)
    requires n <= |s| && v < n
    ensures var r := Flatten(SizeQuads(s, n));
      |r| == 4 * n && r[4 * v] == r[4 * v + 1] == (if v == 0 then s[0] else s[v - 1]) &&
      r[4 * v + 2] == r[4 * v + 3] == s[v] &&
      (v + 1 < n ==> r[4 * (v + 1)] == r[4 * v + 3])
  {
    var bs := SizeQuads(s, n);
    FlattenLength(bs, 4);
    FlattenAt(bs, 4, v, 0);
    FlattenAt(bs, 4, v, 1);
    FlattenAt(bs, 4, v, 2);
    FlattenAt(bs, 4, v, 3);
    if v + 1 < n {
      FlattenAt(bs, 4, v + 1, 0);
    }
  }

  /** All four vertices of segment v take point v's color. */
  lemma RibbonColorsConstant(c: seq<real>, n: nat, v: nat, i: nat, x: nat)
    requires 3 * n <= |c| && v < n && i < 4 && x < 3
    ensures var r := Flatten(VertexColors(c, n));
      |r| == 12 * n && r[12 * v + 3 * i + x] == c[3 * v + x]
  {
    FlattenLength(VertexColors(c, n), 3);
    assert (4 * v + i) / 4 == v;
    FlattenAt(VertexColors(c, n), 3, 4 * v + i, x);
  }

  /** The position writes of RibbonBuffer.setAttributes for segment v. */
  method PositionStep(a: array<real>, p: seq<real>, n: nat, v: nat, ghost bs: seq<seq<real>>)
    requires 3 * n + 3 <= |p| && v < n && a.Length == 12 * n
    requires bs == PositionQuads(p, n) && Filled(a, 0, bs, 12, v)
    modifies a
    ensures Filled(a, 0, bs, 12, v + 1)
  {
    var v3 := v * 3;
    var k := v * 3 * 4;
    PutBlock(a, k, [p[v3], p[v3 + 1], p[v3 + 2], p[v3], p[v3 + 1], p[v3 + 2],
                    p[v3 + 3], p[v3 + 4], p[v3 + 5], p[v3 + 3], p[v3 + 4], p[v3 + 5]],
             0, bs, v, 0, [], 12, 0);
  }

  /** The normal writes of RibbonBuffer.setAttributes for segment v. */
  method NormalStep(a: array<real>, m: seq<real>, n: nat, v: nat, ghost bs: seq<seq<real>>)
    requires 3 * n + 3 <= |m| && v < n && a.Length == 12 * n
    requires bs == NormalQuads(m, n) && Filled(a, 0, bs, 12, v)
    modifies a
    ensures Filled(a, 0, bs, 12, v + 1)
  {
    var v3 := v * 3;
    var k := v * 3 * 4;
    PutBlock(a, k, [-m[v3], -m[v3 + 1], -m[v3 + 2], -m[v3], -m[v3 + 1], -m[v3 + 2],
                    -m[v3 + 3], -m[v3 + 4], -m[v3 + 5], -m[v3 + 3], -m[v3 + 4], -m[v3 + 5]],
             0, bs, v, 0, [], 12, 0);
  }

  /** The direction writes of RibbonBuffer.setAttributes for segment v. */
  method DirStep(a: array<real>, d: seq<real>, n: nat, v: nat, ghost bs: seq<seq<real>>)
    requires 3 * n + 3 <= |d| && v < n && a.Length == 12 * n
    requires bs == DirQuads(d, n) && Filled(a, 0, bs, 12, v)
    modifies a
    ensures Filled(a, 0, bs, 12, v + 1)
  {
    var v3 := v * 3;
    var k := v * 3 * 4;
    PutBlock(a, k, [d[v3], d[v3 + 1], d[v3 + 2], -d[v3], -d[v3 + 1], -d[v3 + 2],
                    d[v3 + 3], d[v3 + 4], d[v3 + 5], -d[v3 + 3], -d[v3 + 4], -d[v3 + 5]],
             0, bs, v, 0, [], 12, 0);
  }

  /** The size writes of RibbonBuffer.setAttributes for segment v, given the size the
      previous segment ended with: `(prev, prev, curr, curr)` when they differ, four
      times `curr` when they agree. */
  method SizeStep(a: array<real>, s: seq<real>, n: nat, v: nat, prevSize: real, ghost bs: seq<seq<real>>)
    returns (currSize: real)
    requires n <= |s| && v < n && a.Length == 4 * n
    requires prevSize == (if v == 0 then s[0] else s[v - 1])
    requires bs == SizeQuads(s, n) && Filled(a, 0, bs, 4, v)
    modifies a
    ensures currSize == s[v] && Filled(a, 0, bs, 4, v + 1)
  {
    var l := v * 4;
    currSize := s[v];
    if prevSize != s[v] {
      PutBlock(a, l, [prevSize, prevSize, currSize, currSize], 0, bs, v, 0, [], 4, 0);
    } else {
      PutBlock(a, l, [currSize, currSize, currSize, currSize], 0, bs, v, 0, [], 4, 0);
    }
  }

  /** The color (or picking color) writes of RibbonBuffer.setAttributes for vertex i of
      segment v. */
  method ColorStep(a: array<real>, c: seq<real>, n: nat, v: nat, i: nat, ghost bs: seq<seq<real>>)
    requires 3 * n <= |c| && v < n && i < 4 && a.Length == 12 * n
    requires bs == VertexColors(c, n) && Filled(a, 0, bs, 3, 4 * v + i)
    modifies a
    ensures Filled(a, 0, bs, 3, 4 * v + i + 1)
  {
    var v3 := v * 3;
    var k := v * 3 * 4;
    var p := k + 3 * i;
    assert (4 * v + i) / 4 == v;
    PutBlock(a, p, [c[v3], c[v3 + 1], c[v3 + 2]], 0, bs, 4 * v + i, 0, [], 3, 0);
  }

  /** The data a RibbonBuffer's setAttributes is given; absent entries are left alone. */
  datatype RibbonData = RibbonData(position: Option<seq<real>>, normal: Option<seq<real>>,
                                   size: Option<seq<real>>, dir: Option<seq<real>>,
                                   color: Option<seq<real>>, pickingColor: Option<seq<real>>)

  /** The attribute arrays of a ribbon of size / 4 segments, four vertices each. */
  class RibbonBuffer {
    const size: nat
    const aPosition: array<real>
    const aNormal: array<real>
    const aSize: array<real>
    const aDir: array<real>
    const aColor: array<real>
    const aPickingColor: array<real>

    ghost predicate Valid()
    {
      && size % 4 == 0
      && aPosition != aNormal && aPosition != aSize && aPosition != aDir
      && aPosition != aColor && aPosition != aPickingColor
      && aNormal != aSize && aNormal != aDir && aNormal != aColor && aNormal != aPickingColor
      && aSize != aDir && aSize != aColor && aSize != aPickingColor
      && aDir != aColor && aDir != aPickingColor && aColor != aPickingColor
      && aPosition.Length == 3 * size && aNormal.Length == 3 * size && aDir.Length == 3 * size
      && aColor.Length == 3 * size && aPickingColor.Length == 3 * size && aSize.Length == size
    }

    /** Each entry given has the points the loop reads: one more than there are segments
        for the per-point data the quads join, one per segment for the rest. */
    predicate Fits(d: RibbonData)
    {
      var n := size / 4;
      && (d.position.Some? ==> 3 * n + 3 <= |d.position.value|)
      && (d.normal.Some? ==> 3 * n + 3 <= |d.normal.value|)
      && (d.dir.Some? ==> 3 * n + 3 <= |d.dir.value|)
      && (d.size.Some? ==> n <= |d.size.value|)
      && (d.color.Some? ==> 3 * n <= |d.color.value|)
      && (d.pickingColor.Some? ==> 3 * n <= |d.pickingColor.value|)
    }

    /** The first v segments of the position and normal entries given are in place. */
    ghost predicate FrontLaidOut(d: RibbonData, v: nat)
      requires Fits(d)
      reads aPosition, aNormal
    {
      var n := size / 4;
      && (d.position.Some? ==> Filled(aPosition, 0, PositionQuads(d.position.value, n), 12, v))
      && (d.normal.Some? ==> Filled(aNormal, 0, NormalQuads(d.normal.value, n), 12, v))
    }

    /** The first count vertices of the color and picking color entries given are in place. */
    ghost predicate ColorsLaidOut(d: RibbonData, count: nat)
      requires Fits(d)
      reads aColor, aPickingColor
    {
      var n := size / 4;
      && (d.color.Some? ==> Filled(aColor, 0, VertexColors(d.color.value, n), 3, count))
      && (d.pickingColor.Some? ==> Filled(aPickingColor, 0, VertexColors(d.pickingColor.value, n), 3, count))
    }

    /** The first v segments of the size and direction entries given are in place. */
    ghost predicate BackLaidOut(d: RibbonData, v: nat)
      requires Fits(d)
      reads aSize, aDir
    {
      var n := size / 4;
      && (d.size.Some? ==> Filled(aSize, 0, SizeQuads(d.size.value, n), 4, v))
      && (d.dir.Some? ==> Filled(aDir, 0, DirQuads(d.dir.value, n), 12, v))
    }

    /** The first v segments of every entry given are in place. */
    ghost predicate LaidOut(d: RibbonData, v: nat)
      requires Fits(d)
      reads aPosition, aNormal, aSize, aDir, aColor, aPickingColor
    {
      FrontLaidOut(d, v) && ColorsLaidOut(d, 4 * v) && BackLaidOut(d, v)
    }

    function FrontArrays(d: RibbonData): set<array<real>>
    {
      (if d.position.Some? then {aPosition} else {}) + (if d.normal.Some? then {aNormal} else {})
    }

    function ColorArrays(d: RibbonData): set<array<real>>
    {
      (if d.color.Some? then {aColor} else {}) + (if d.pickingColor.Some? then {aPickingColor} else {})
    }

    function BackArrays(d: RibbonData): set<array<real>>
    {
      (if d.size.Some? then {aSize} else {}) + (if d.dir.Some? then {aDir} else {})
    }

    /** The arrays of the entries given: the only ones setAttributes writes. */
    function Touched(d: RibbonData): set<array<real>>
    {
      FrontArrays(d) + ColorArrays(d) + BackArrays(d)
    }

    /** The position and normal writes of setAttributes for segment v. */
    method FrontSegment(d: RibbonData, v: nat)
      requires Valid() && Fits(d) && v < size / 4 && FrontLaidOut(d, v)
      modifies FrontArrays(d)
      ensures FrontLaidOut(d, v + 1) && unchanged(aColor, aPickingColor, aSize, aDir)
    {
      var n := size / 4;
      if d.position.Some? {
        PositionStep(aPosition, d.position.value, n, v, PositionQuads(d.position.value, n));
      }
      if d.normal.Some? {
        NormalStep(aNormal, d.normal.value, n, v, NormalQuads(d.normal.value, n));
      }
    }

    /** The inner loop of setAttributes: the color and picking color of point v on each
        of the four vertices of segment v. */
    method SegmentColors(d: RibbonData, v: nat)
      requires Valid() && Fits(d) && v < size / 4 && ColorsLaidOut(d, 4 * v)
      modifies ColorArrays(d)
      ensures ColorsLaidOut(d, 4 * v + 4) && unchanged(aSize, aDir)
    {
      var n := size / 4;
      for i := 0 to 4
        invariant ColorsLaidOut(d, 4 * v + i)
      {
        if d.color.Some? {
          ColorStep(aColor, d.color.value, n, v, i, VertexColors(d.color.value, n));
        }
        if d.pickingColor.Some? {
          ColorStep(aPickingColor, d.pickingColor.value, n, v, i, VertexColors(d.pickingColor.value, n));
        }
      }
    }

    /** The size and direction writes of setAttributes for segment v. */
    method BackSegment(d: RibbonData, v: nat, prevSize: real) returns (currSize: real)
      requires Valid() && Fits(d) && v < size / 4 && BackLaidOut(d, v)
      requires d.size.Some? ==> prevSize == (if v == 0 then d.size.value[0] else d.size.value[v - 1])
      modifies BackArrays(d)
      ensures BackLaidOut(d, v + 1) && unchanged(aColor, aPickingColor)
      ensures d.size.Some? ==> currSize == d.size.value[v]
    {
      var n := size / 4;
      currSize := prevSize;
      if d.size.Some? {
        currSize := SizeStep(aSize, d.size.value, n, v, prevSize, SizeQuads(d.size.value, n));
      }
      if d.dir.Some? {
        DirStep(aDir, d.dir.value, n, v, DirQuads(d.dir.value, n));
      }
    }

    /** The writes of setAttributes for segment v that follow the normals. */
    method RearSegment(d: RibbonData, v: nat, prevSize: real) returns (currSize: real)
      requires Valid() && Fits(d) && v < size / 4 && ColorsLaidOut(d, 4 * v) && BackLaidOut(d, v)
      requires d.size.Some? ==> prevSize == (if v == 0 then d.size.value[0] else d.size.value[v - 1])
      modifies ColorArrays(d) + BackArrays(d)
      ensures ColorsLaidOut(d, 4 * v + 4) && BackLaidOut(d, v + 1) && unchanged(aPosition, aNormal)
      ensures d.size.Some? ==> currSize == d.size.value[v]
    {
      SegmentColors(d, v);
      currSize := BackSegment(d, v, prevSize);
    }

    /** One iteration of setAttributes' loop: segment v of every entry given. */
    method SetSegment(d: RibbonData, v: nat, prevSize: real) returns (currSize: real)
      requires Valid() && Fits(d) && v < size / 4 && LaidOut(d, v)
      requires d.size.Some? ==> prevSize == (if v == 0 then d.size.value[0] else d.size.value[v - 1])
      modifies Touched(d)
      ensures LaidOut(d, v + 1)
      ensures d.size.Some? ==> currSize == d.size.value[v]
    {
      FrontSegment(d, v);
      currSize := RearSegment(d, v, prevSize);
    }

    /** RibbonBuffer.setAttributes: each entry given is laid out quad by quad over the
        whole of its array, and only the arrays of the entries given are written. */
    method SetAttributes(d: RibbonData)
      requires Valid() && Fits(d)
      modifies Touched(d)
      ensures d.position.Some? ==> aPosition[..] == Flatten(PositionQuads(d.position.value, size / 4))
      ensures d.normal.Some? ==> aNormal[..] == Flatten(NormalQuads(d.normal.value, size / 4))
      ensures d.size.Some? ==> aSize[..] == Flatten(SizeQuads(d.size.value, size / 4))
      ensures d.dir.Some? ==> aDir[..] == Flatten(DirQuads(d.dir.value, size / 4))
      ensures d.color.Some? ==> aColor[..] == Flatten(VertexColors(d.color.value, size / 4))
      ensures d.pickingColor.Some? ==> aPickingColor[..] == Flatten(VertexColors(d.pickingColor.value, size / 4))
    {
      var n := size / 4;
      var prevSize := if d.size.Some? && 0 < |d.size.value| then d.size.value[0] else 0.0;
      for v := 0 to n
        invariant LaidOut(d, v)
        invariant d.size.Some? && v < n ==> prevSize == (if v == 0 then d.size.value[0] else d.size.value[v - 1])
      {
        prevSize := SetSegment(d, v, prevSize);
      }
      Finish(d);
    }

    /** Every segment in place is every array in place. */
    lemma Finish(d: RibbonData)
      requires Valid() && Fits(d) && LaidOut(d, size / 4)
      ensures d.position.Some? ==> aPosition[..] == Flatten(PositionQuads(d.position.value, size / 4))
      ensures d.normal.Some? ==> aNormal[..] == Flatten(NormalQuads(d.normal.value, size / 4))
      ensures d.size.Some? ==> aSize[..] == Flatten(SizeQuads(d.size.value, size / 4))
      ensures d.dir.Some? ==> aDir[..] == Flatten(DirQuads(d.dir.value, size / 4))
      ensures d.color.Some? ==> aColor[..] == Flatten(VertexColors(d.color.value, size / 4))
      ensures d.pickingColor.Some? ==> aPickingColor[..] == Flatten(VertexColors(d.pickingColor.value, size / 4))
    {
      var n := size / 4;
      if d.position.Some? {
        FilledAll(aPosition, PositionQuads(d.position.value, n), 12);
      }
      if d.normal.Some? {
        FilledAll(aNormal, NormalQuads(d.normal.value, n), 12);
      }
      if d.size.Some? {
        FilledAll(aSize, SizeQuads(d.size.value, n), 4);
      }
      if d.dir.Some? {
        FilledAll(aDir, DirQuads(d.dir.value, n), 12);
      }
      if d.color.Some? {
        FilledAll(aColor, VertexColors(d.color.value, n), 3);
      }
      if d.pickingColor.Some? {
        FilledAll(aPickingColor, VertexColors(d.pickingColor.value, n), 3);
      }
    }
  }

  // ---- mapped buffer ----

  /** Item k of the data: its itemSize numbers. */
  function Item(d: seq<real>, k: nat, itemSize: nat): (b: seq<real>)
    requires k * itemSize + itemSize <= |d|
    ensures |b| == itemSize && forall m :: 0 <= m < itemSize ==> b[m] == d[k * itemSize + m]
  {
    d[k * itemSize .. k * itemSize + itemSize]
  }

  /** Vertex q of a mapped buffer belongs to item q / mappingSize, which is one of the
      count items. */
  lemma MappedItemBound(count: nat, mappingSize: nat, itemSize: nat, q: nat)
    requires q < count * mappingSize
    ensures mappingSize > 0 && q / mappingSize < count
    ensures q / mappingSize * itemSize + itemSize <= count * itemSize
  {
    if q / mappingSize >= count {
      MulLe(count, q / mappingSize, mappingSize);
    }
    MulLe(q / mappingSize + 1, count, itemSize);
  }

  /** The item vertex q of a mapped buffer carries. */
  function VertexItem(d: seq<real>, count: nat, mappingSize: nat, itemSize: nat, q: nat): (b: seq<real>)
    requires count * itemSize <= |d| && q < count * mappingSize
    ensures |b| == itemSize
  {
    MappedItemBound(count, mappingSize, itemSize, q);
    Item(d, q / mappingSize, itemSize)
  }

  /** One block per vertex of a mapped buffer: each of the count items on mappingSize
      vertices in a row. */
  function MappedItems(d: seq<real>, count: nat, mappingSize: nat, itemSize: nat): (bs: seq<seq<real>>)
    requires count * itemSize <= |d|
    ensures |bs| == count * mappingSize && Uniform(bs, itemSize)
  {
    seq(count * mappingSize, q requires 0 <= q < count * mappingSize =>
      VertexItem(d, count, mappingSize, itemSize, q))
  }

  /** Vertex l of item k is vertex q = k mappingSize + l of the buffer, whose block starts
      at the offset the source computes. */
  lemma MappedIndex(count: nat, mappingSize: nat, itemSize: nat, k: nat, l: nat)
    requires k < count && l < mappingSize
    ensures var q := k * mappingSize + l;
      && q < count * mappingSize && q / mappingSize == k
      && k * itemSize * mappingSize + itemSize * l == itemSize * q
      && itemSize * q + itemSize <= count * mappingSize * itemSize
      && k * itemSize + itemSize <= count * itemSize
  {
    var q := k * mappingSize + l;
    MulLe(k + 1, count, mappingSize);
    assert q < count * mappingSize by {
      assert (k + 1) * mappingSize == k * mappingSize + mappingSize;
    }
    DivMod(q, mappingSize, k, l);
    assert k * itemSize * mappingSize + itemSize * l == itemSize * q by {
      assert k * itemSize * mappingSize == itemSize * (k * mappingSize);
      assert itemSize * q == itemSize * (k * mappingSize) + itemSize * l;
    }
    assert itemSize * q + itemSize <= count * mappingSize * itemSize by {
      MulLe(q + 1, count * mappingSize, itemSize);
      assert (q + 1) * itemSize == itemSize * q + itemSize;
    }
    MulLe(k + 1, count, itemSize);
  }

  /** Where MappedBuffer.setAttributes writes number m of item k for its vertex l. */
  function MappedOffset(itemSize: nat, mappingSize: nat, k: nat, l: nat, m: nat): nat
  {
    k * itemSize * mappingSize + itemSize * l + m
  }

  /** A mapped attribute array: the entry at MappedOffset(…, k, l, m) is number m of
      item k, for each of the item's vertices l. */
  lemma MappedAt(d: seq<real>, count: nat, mappingSize: nat, itemSize: nat, k: nat, l: nat, m: nat)
    requires count * itemSize <= |d| && k < count && l < mappingSize && m < itemSize
    ensures var r := Flatten(MappedItems(d, count, mappingSize, itemSize));
      && MappedOffset(itemSize, mappingSize, k, l, m) < |r| && k * itemSize + itemSize <= |d|
      && r[MappedOffset(itemSize, mappingSize, k, l, m)] == Item(d, k, itemSize)[m]
  {
    var bs := MappedItems(d, count, mappingSize, itemSize);
    FlattenLength(bs, itemSize);
    MappedIndex(count, mappingSize, itemSize, k, l);
    var q := k * mappingSize + l;
    FlattenAt(bs, itemSize, q, m);
  }

  /** The two inner loops of MappedBuffer.setAttributes for item k and its vertex l:
      item k's numbers, written one by one from `k * itemSize * mappingSize + itemSize * l`. */
  method MappedStep(a: array<real>, d: seq<real>, count: nat, mappingSize: nat, itemSize: nat,
                    k: nat, l: nat, ghost bs: seq<seq<real>>)
    requires count * itemSize <= |d| && k < count && l < mappingSize
    requires a.Length == count * mappingSize * itemSize
    requires bs == MappedItems(d, count, mappingSize, itemSize)
    requires Filled(a, 0, bs, itemSize, k * mappingSize + l)
    modifies a
    ensures Filled(a, 0, bs, itemSize, k * mappingSize + l + 1)
  {
    var n := k * itemSize;
    var i := n * mappingSize;
    var j := i + (itemSize * l);
    MappedIndex(count, mappingSize, itemSize, k, l);
    ghost var q := k * mappingSize + l;
    PutBlock(a, j, d[n .. n + itemSize], 0, bs, q, 0, [], itemSize, 0);
  }

  /** MappedBuffer.setAttributes for one attribute: every item's numbers repeated on each
      of its mappingSize vertices, over the whole array. */
  method MappedSetAttribute(a: array<real>, d: seq<real>, count: nat, mappingSize: nat, itemSize: nat)
    requires count * itemSize <= |d| && a.Length == count * mappingSize * itemSize
    modifies a
    ensures a[..] == Flatten(MappedItems(d, count, mappingSize, itemSize))
  {
    ghost var bs := MappedItems(d, count, mappingSize, itemSize);
    for k := 0 to count
      invariant Filled(a, 0, bs, itemSize, k * mappingSize)
    {
      for l := 0 to mappingSize
        invariant Filled(a, 0, bs, itemSize, k * mappingSize + l)
      {
        MappedStep(a, d, count, mappingSize, itemSize, k, l, bs);
      }
      assert k * mappingSize + mappingSize == (k + 1) * mappingSize;
    }
    FilledAll(a, bs, itemSize);
  }
}
