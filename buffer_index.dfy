/**
 * The triangle indices of the mapped, geometry, ribbon and tube-mesh buffers.
 *
 * Each buffer allocates a typed index array (16-bit while the mesh has at most
 * 65535 vertices, 32-bit beyond) and its makeIndex fills it: the mapped,
 * geometry and ribbon buffers copy one index pattern per item, shifted by the
 * item's first vertex; the tube mesh writes two triangles per quad between
 * consecutive rings and, when capped, a fan-like strip over each end ring.
 */
module BufferIndex {
  import opened IndexTypes
  import opened Wrappers

  // ---- replicated index patterns ----

  /** The pattern with every entry increased by d. */
  function Shifted(pattern: seq<nat>, d: nat): (r: seq<nat>)
    ensures |r| == |pattern|
  {
    seq(|pattern|, s requires 0 <= s < |pattern| => pattern[s] + d)
  }

  /** count copies of the pattern, copy v shifted by v * stride. */
  function Replicated(pattern: seq<nat>, stride: nat, count: nat): (r: seq<nat>)
    ensures |r| == count * |pattern|
  {
    if count == 0 then []
    else Replicated(pattern, stride, count - 1) + Shifted(pattern, (count - 1) * stride)
  }

  /** Entry s of copy v sits at offset v * |pattern| + s and is pattern[s] + v * stride. */
  lemma {:induction false} ReplicatedAt(pattern: seq<nat>, stride: nat, count: nat, v: nat, s: nat)
    requires v < count && s < |pattern|
    ensures v * |pattern| + s < count * |pattern|
    ensures Replicated(pattern, stride, count)[v * |pattern| + s] == pattern[s] + v * stride
  {
    if v < count - 1 {
      ReplicatedAt(pattern, stride, count - 1, v, s);
    } else {
      assert count * |pattern| == (count - 1) * |pattern| + |pattern|;
    }
  }

  /** When every pattern entry is below the stride, every entry is a vertex of the
      count * stride vertices. */
  lemma {:induction false} ReplicatedBelow(pattern: seq<nat>, stride: nat, count: nat, k: nat)
    requires forall s :: 0 <= s < |pattern| ==> pattern[s] < stride
    requires k < count * |pattern|
    ensures Replicated(pattern, stride, count)[k] < count * stride
  {
    var prefix := (count - 1) * |pattern|;
    assert count * stride == (count - 1) * stride + stride;
    assert count * |pattern| == prefix + |pattern|;
    if k < prefix {
      ReplicatedBelow(pattern, stride, count - 1, k);
    } else {
      assert Replicated(pattern, stride, count)[k] == pattern[k - prefix] + (count - 1) * stride;
    }
  }

  /** ... and the index type chosen for that many vertices stores it unchanged. */
  lemma ReplicatedFits(pattern: seq<nat>, stride: nat, count: nat, k: nat)
    requires forall s :: 0 <= s < |pattern| ==> pattern[s] < stride
    requires k < count * |pattern| && count * stride <= 0x1_0000_0000
    ensures Stored(ForVertexCount(count * stride), Replicated(pattern, stride, count)[k]) == Replicated(pattern, stride, count)[k]
  {
    ReplicatedBelow(pattern, stride, count, k);
  }

  /** `index.set(pattern, ix)` followed by `index[ix + s] += d` for every s. */
  method PlaceShifted(index: array<int>, t: IndexType, pattern: seq<nat>, ix: nat, d: nat)
    requires ix + |pattern| <= index.Length
    modifies index
    ensures forall s :: 0 <= s < |pattern| ==> index[ix + s] == Stored(t, pattern[s] + d)
    ensures forall p :: 0 <= p < index.Length && !(ix <= p < ix + |pattern|) ==> index[p] == old(index[p])
  {
    forall s | 0 <= s < |pattern| {
      index[ix + s] := Stored(t, pattern[s]);
    }
    for s := 0 to |pattern|
      invariant forall s' :: 0 <= s' < s ==> index[ix + s'] == Stored(t, pattern[s'] + d)
      invariant forall s' :: s <= s' < |pattern| ==> index[ix + s'] == Stored(t, pattern[s'])
      invariant forall p :: 0 <= p < index.Length && !(ix <= p < ix + |pattern|) ==> index[p] == old(index[p])
    {
      StoredAdd(t, pattern[s], d);
      index[ix + s] := Stored(t, index[ix + s] + d);
    }
  }

  /** The makeIndex loop shared by the mapped, geometry and ribbon buffers: copy v of
      the pattern at offset v * |pattern|, shifted by v * stride, for v < count. */
  method ReplicateIndex(index: array<int>, t: IndexType, pattern: seq<nat>, stride: nat, count: nat)
    requires count * |pattern| <= index.Length
    modifies index
    ensures forall k :: 0 <= k < count * |pattern| ==> index[k] == Stored(t, Replicated(pattern, stride, count)[k])
    ensures forall k :: count * |pattern| <= k < index.Length ==> index[k] == old(index[k])
  {
    for v := 0 to count
      invariant forall k :: 0 <= k < v * |pattern| ==> index[k] == Stored(t, Replicated(pattern, stride, v)[k])
      invariant forall k :: v * |pattern| <= k < index.Length ==> index[k] == old(index[k])
    {
      var ix := v * |pattern|;
      var it := v * stride;
      MulLe(v + 1, count, |pattern|);
      assert ix + |pattern| == (v + 1) * |pattern|;
      ghost var next := Replicated(pattern, stride, v + 1);
      assert next == Replicated(pattern, stride, v) + Shifted(pattern, it);
      PlaceShifted(index, t, pattern, ix, it);
      assert forall k :: ix <= k < ix + |pattern| ==> next[k] == pattern[k - ix] + it;
    }
  }

  // ---- mapped, geometry and ribbon buffers ----

  /** The MappedBuffer constructor's index array, filled by makeIndex: count items of
      mappingSize vertices, each drawn with the pattern mappingIndices. */
  method MappedBufferIndex(mappingIndices: seq<nat>, mappingSize: nat, count: nat)
    returns (index: array<int>, t: IndexType)
    ensures fresh(index) && index.Length == count * |mappingIndices|
    ensures t == ForVertexCount(count * mappingSize)
    ensures forall k :: 0 <= k < index.Length ==> index[k] == Stored(t, Replicated(mappingIndices, mappingSize, count)[k])
  {
    t := ForVertexCount(count * mappingSize);
    index := new int[count * |mappingIndices|](_ => 0);
    ReplicateIndex(index, t, mappingIndices, mappingSize, count);
  }

  /** The GeometryBuffer constructor's meshIndex, filled by makeIndex: one copy of
      the geometry's face index (three entries per face) per position, shifted by
      the geometry's vertex count. */
  method GeometryBufferIndex(geoIndex: seq<nat>, geoVertices: nat, faces: nat, positions: nat)
    returns (meshIndex: array<int>, t: IndexType)
    requires |geoIndex| == faces * 3
    ensures fresh(meshIndex) && meshIndex.Length == positions * faces * 3
    ensures t == ForVertexCount(positions * geoVertices)
    ensures forall k :: 0 <= k < meshIndex.Length ==> meshIndex[k] == Stored(t, Replicated(geoIndex, geoVertices, positions)[k])
  {
    t := ForVertexCount(positions * geoVertices);
    meshIndex := new int[positions * faces * 3](_ => 0);
    assert positions * faces * 3 == positions * |geoIndex|;
    ReplicateIndex(meshIndex, t, geoIndex, geoVertices, positions);
  }

  /** The two triangles of a ribbon quad over its four vertices. */
  const QuadIndices: seq<nat> := [0, 1, 2, 1, 3, 2]

  /** The RibbonBuffer constructor's meshIndex for a ribbon of the given number of
      segments (four vertices each), filled by makeIndex: the array is sized like
      the position array (twelve entries per segment), makeIndex takes a twelfth
      of its length as the quad count, so only the first half is written and the
      rest stays 0. */
  method RibbonBufferIndex(segments: nat) returns (meshIndex: array<int>, t: IndexType)
    ensures fresh(meshIndex) && meshIndex.Length == 12 * segments
    ensures t == ForVertexCount(4 * segments)
    ensures forall k :: 0 <= k < 6 * segments ==> meshIndex[k] == Stored(t, Replicated(QuadIndices, 4, segments)[k])
    ensures forall k :: 6 * segments <= k < meshIndex.Length ==> meshIndex[k] == 0
  {
    t := ForVertexCount(4 * segments);
    meshIndex := new int[12 * segments](_ => 0);
    var n := meshIndex.Length / 4 / 3;
    assert n == segments && n * |QuadIndices| == 6 * segments;
    ReplicateIndex(meshIndex, t, QuadIndices, 4, n);
  }

  /** Quad v of a ribbon is drawn as the triangles (4v, 4v+1, 4v+2) and (4v+1, 4v+3, 4v+2). */
  lemma RibbonQuad(segments: nat, v: nat)
    requires v < segments
    ensures var r := Replicated(QuadIndices, 4, segments);
      6 * v + 5 < |r| &&
      r[6 * v] == 4 * v && r[6 * v + 1] == 4 * v + 1 && r[6 * v + 2] == 4 * v + 2 &&
      r[6 * v + 3] == 4 * v + 1 && r[6 * v + 4] == 4 * v + 3 && r[6 * v + 5] == 4 * v + 2
  {
    ReplicatedAt(QuadIndices, 4, segments, v, 0);
    ReplicatedAt(QuadIndices, 4, segments, v, 1);
    ReplicatedAt(QuadIndices, 4, segments, v, 2);
    ReplicatedAt(QuadIndices, 4, segments, v, 3);
    ReplicatedAt(QuadIndices, 4, segments, v, 4);
    ReplicatedAt(QuadIndices, 4, segments, v, 5);
  }

  /** Every written ribbon entry names one of the ribbon's 4 * segments vertices and is stored unchanged. */
  lemma RibbonIndexFits(segments: nat, k: nat)
    requires k < 6 * segments && 4 * segments <= 0x1_0000_0000
    ensures Stored(ForVertexCount(4 * segments), Replicated(QuadIndices, 4, segments)[k]) == Replicated(QuadIndices, 4, segments)[k] < 4 * segments
  {
    ReplicatedFits(QuadIndices, 4, segments, k);
    ReplicatedBelow(QuadIndices, 4, segments, k);
  }

  // ---- tube mesh ----

  /** The six entries for the quad between ring i and ring i + 1 at radial segment j. */
  function TubeQuad(rs: nat, i: nat, j: nat): (q: seq<nat>)
    requires j < rs
    ensures |q| == 6
  {
    var irs, irs1, j1 := i * rs, (i + 1) * rs, (j + 1) % rs;
    [irs + j, irs + j1, irs1 + j, irs1 + j, irs + j1, irs1 + j1]
  }

  /** The quads of ring i for the radial segments 0 .. jEnd - 1. */
  function TubeRing(rs: nat, i: nat, jEnd: nat): (r: seq<nat>)
    requires jEnd <= rs
    ensures |r| == 6 * jEnd
  {
    if jEnd == 0 then [] else TubeRing(rs, i, jEnd - 1) + TubeQuad(rs, i, jEnd - 1)
  }

  /** The body of the tube: the quads of rings 0 .. rings - 1. */
  function TubeBody(rs: nat, rings: nat): (r: seq<nat>)
    ensures |r| == 6 * rs * rings
  {
    if rings == 0 then [] else TubeBody(rs, rings - 1) + TubeRing(rs, rings - 1, rs)
  }

  lemma {:induction false} TubeRingAt(rs: nat, i: nat, jEnd: nat, j: nat, c: nat)
    requires j < jEnd <= rs && c < 6
    ensures TubeRing(rs, i, jEnd)[6 * j + c] == TubeQuad(rs, i, j)[c]
  {
    if j < jEnd - 1 {
      TubeRingAt(rs, i, jEnd - 1, j, c);
    }
  }

  lemma {:induction false} TubeBodyEntry(rs: nat, rings: nat, i: nat, j: nat, c: nat)
    requires i < rings && j < rs && c < 6
    ensures 6 * (i * rs + j) + c < |TubeBody(rs, rings)|
    ensures TubeBody(rs, rings)[6 * (i * rs + j) + c] == TubeQuad(rs, i, j)[c]
  {
    var prefix := 6 * rs * (rings - 1);
    var l := 6 * (i * rs + j);
    if i < rings - 1 {
      TubeBodyEntry(rs, rings - 1, i, j, c);
    } else {
      assert l == prefix + 6 * j by {
        assert i * rs == rs * (rings - 1);
      }
      TubeRingAt(rs, i, rs, j, c);
    }
  }

  /** The quad of ring i at radial segment j sits at offset 6 (i rs + j): the triangles
      (irs + j, irs + (j + 1) % rs, irs1 + j) and (irs1 + j, irs + (j + 1) % rs, irs1 + (j + 1) % rs),
      with irs = i rs and irs1 = (i + 1) rs. */
  lemma TubeBodyAt(rs: nat, rings: nat, i: nat, j: nat)
    requires i < rings && j < rs
    ensures var l := 6 * (i * rs + j); var b := TubeBody(rs, rings);
      var irs, irs1, j1 := i * rs, (i + 1) * rs, (j + 1) % rs;
      l + 5 < |b| &&
      b[l] == irs + j && b[l + 1] == irs + j1 && b[l + 2] == irs1 + j &&
      b[l + 3] == irs1 + j && b[l + 4] == irs + j1 && b[l + 5] == irs1 + j1
  {
    TubeBodyEntry(rs, rings, i, j, 0);
    TubeBodyEntry(rs, rings, i, j, 1);
    TubeBodyEntry(rs, rings, i, j, 2);
    TubeBodyEntry(rs, rings, i, j, 3);
    TubeBodyEntry(rs, rings, i, j, 4);
    TubeBodyEntry(rs, rings, i, j, 5);
  }

  /** Every body entry names a vertex of the first rings + 1 rings. */
  lemma {:induction false} TubeBodyBelow(rs: nat, rings: nat, p: nat)
    requires p < |TubeBody(rs, rings)|
    ensures TubeBody(rs, rings)[p] < (rings + 1) * rs
  {
    var prefix := 6 * rs * (rings - 1);
    if p < prefix {
      TubeBodyBelow(rs, rings - 1, p);
    } else {
      TubeRingBelow(rs, rings - 1, rs, p - prefix);
    }
  }

  lemma {:induction false} TubeRingBelow(rs: nat, i: nat, jEnd: nat, p: nat)
    requires jEnd <= rs && p < 6 * jEnd
    ensures TubeRing(rs, i, jEnd)[p] < (i + 2) * rs
  {
    if p < 6 * (jEnd - 1) {
      TubeRingBelow(rs, i, jEnd - 1, p);
    }
  }

  /** With at least two radial segments, both triangles of every quad have three different vertices. */
  lemma TubeQuadNonDegenerate(rs: nat, i: nat, j: nat)
    requires 2 <= rs && j < rs
    ensures var q := TubeQuad(rs, i, j);
      q[0] != q[1] && q[1] != q[2] && q[0] != q[2] && q[3] != q[4] && q[4] != q[5] && q[3] != q[5]
  {
    var irs1 := (i + 1) * rs;
    assert irs1 == i * rs + rs;
  }

  /** Entry p of the cap strip 0, 1, rs - 1, 2, rs - 2, ... */
  function StripAt(rs: nat, p: nat): (v: nat)
    requires p < rs || p == 0
  {
    if p == 0 then 0 else if p % 2 == 1 then (p + 1) / 2 else rs - p / 2
  }

  /** The cap strip of a tube with rs radial segments: rs entries, or [0] when rs is 0. */
  function Strip(rs: nat): (strip: seq<nat>)
    ensures |strip| == if rs == 0 then 1 else rs
  {
    if rs == 0 then [0] else seq(rs, p requires 0 <= p < rs => StripAt(rs, p))
  }

  /** The strip visits every vertex of the end ring ... */
  lemma StripBelow(rs: nat, p: nat)
    requires 0 < rs && p < rs
    ensures Strip(rs)[p] < rs
  {
  }

  /** ... exactly once. */
  lemma StripInjective(rs: nat, p: nat, q: nat)
    requires p < q < rs
    ensures Strip(rs)[p] != Strip(rs)[q]
  {
  }

  /** The strip loop of TubeMeshBuffer.makeIndex: 0, then j and (unless it is the same
      vertex) rs - j for 1 <= j < (rs + 1) / 2. */
  method CapStrip(rs: nat) returns (strip: seq<nat>)
    ensures strip == Strip(rs)
  {
    strip := [0];
    var j := 1;
    while (j as real) < (rs + 1) as real / 2.0
      invariant 1 <= j && 2 * j <= rs + 2
      invariant |strip| == if 2 * j - 1 <= rs then 2 * j - 1 else if rs == 0 then 1 else rs
      invariant forall p :: 0 <= p < |strip| ==> (p < rs || p == 0) && strip[p] == StripAt(rs, p)
      decreases rs + 1 - j
    {
      strip := strip + [j];
      if rs - j != j {
        strip := strip + [rs - j];
      }
      j := j + 1;
    }
    assert forall p :: 0 <= p < |strip| ==> strip[p] == Strip(rs)[p];
  }

  /** The number of cap triangles the strip loop draws: |strip| - 2, or none. */
  function CapCount(strip: seq<nat>): nat
  {
    if |strip| >= 2 then |strip| - 2 else 0
  }

  /** Cap triangle j over the strip, its vertices offset by base: even triangles follow
      the strip and odd ones are reversed, so that all face the same way. */
  function CapTriangle(strip: seq<nat>, base: nat, j: nat): (tri: seq<nat>)
    requires j < CapCount(strip)
    ensures |tri| == 3
  {
    if j % 2 == 0 then [base + strip[j], base + strip[j + 1], base + strip[j + 2]]
    else [base + strip[j + 2], base + strip[j + 1], base + strip[j]]
  }

  /** The cap triangles 0 .. jEnd - 1. */
  function Cap(strip: seq<nat>, base: nat, jEnd: nat): (r: seq<nat>)
    requires jEnd <= CapCount(strip)
    ensures |r| == 3 * jEnd
  {
    if jEnd == 0 then [] else Cap(strip, base, jEnd - 1) + CapTriangle(strip, base, jEnd - 1)
  }

  lemma {:induction false} CapAt(strip: seq<nat>, base: nat, jEnd: nat, j: nat, c: nat)
    requires j < jEnd <= CapCount(strip) && c < 3
    ensures Cap(strip, base, jEnd)[3 * j + c] == CapTriangle(strip, base, j)[c]
  {
    if j < jEnd - 1 {
      CapAt(strip, base, jEnd - 1, j, c);
    }
  }

  /** Every cap triangle uses three different vertices of the end ring base .. base + rs - 1. */
  lemma CapTriangleVertices(rs: nat, base: nat, j: nat)
    requires j < CapCount(Strip(rs))
    ensures var tri := CapTriangle(Strip(rs), base, j);
      tri[0] != tri[1] && tri[1] != tri[2] && tri[0] != tri[2] &&
      base <= tri[0] < base + rs && base <= tri[1] < base + rs && base <= tri[2] < base + rs
  {
    var strip := Strip(rs);
    assert strip[j] != strip[j + 1] && strip[j + 1] != strip[j + 2] && strip[j] != strip[j + 2] by {
      StripInjective(rs, j, j + 1);
      StripInjective(rs, j + 1, j + 2);
      StripInjective(rs, j, j + 2);
    }
    assert strip[j] < rs && strip[j + 1] < rs && strip[j + 2] < rs by {
      StripBelow(rs, j);
      StripBelow(rs, j + 1);
      StripBelow(rs, j + 2);
    }
  }

  /** The index TubeMeshBuffer builds for n rings of rs radial segments: the body, then
      (when capped) the front cap over ring n and the back cap over ring n + 1. */
  function TubeIndex(n: nat, rs: nat, capped: bool): seq<nat>
    requires n >= 1
  {
    TubeBody(rs, n - 1) + (if capped then FrontCap(n, rs) + BackCap(n, rs) else [])
  }

  /** The front cap: the strip over ring n (the first ring's copy). */
  function FrontCap(n: nat, rs: nat): seq<nat>
  {
    Cap(Strip(rs), n * rs, CapCount(Strip(rs)))
  }

  /** The back cap: the strip over ring n + 1 (the last ring's copy). */
  function BackCap(n: nat, rs: nat): seq<nat>
  {
    Cap(Strip(rs), n * rs + rs, CapCount(Strip(rs)))
  }

  /** `array[p] = v` on a typed array: stored modulo 2^bits, and dropped when p is past the end. */
  method Put(arr: array<int>, t: IndexType, p: nat, v: nat)
    modifies arr
    ensures p < arr.Length ==> arr[p] == Stored(t, v)
    ensures forall q :: 0 <= q < arr.Length && q != p ==> arr[q] == old(arr[q])
  {
    if p < arr.Length {
      arr[p] := Stored(t, v);
    }
  }

  /** The inner body loop of makeIndex: the quads of ring i, written from offset k;
      writes past the end of the array are dropped. */
  method FillRing(arr: array<int>, t: IndexType, rs: nat, i: nat, k: nat)
    modifies arr
    ensures forall c :: 0 <= c < 6 * rs && k + c < arr.Length ==> arr[k + c] == Stored(t, TubeRing(rs, i, rs)[c])
    ensures forall p :: 0 <= p < arr.Length && !(k <= p < k + 6 * rs) ==> arr[p] == old(arr[p])
  {
    var irs := i * rs;
    var irs1 := (i + 1) * rs;
    for j := 0 to rs
      invariant forall c :: 0 <= c < 6 * j && k + c < arr.Length ==> arr[k + c] == Stored(t, TubeRing(rs, i, j)[c])
      invariant forall p :: 0 <= p < arr.Length && !(k <= p < k + 6 * j) ==> arr[p] == old(arr[p])
    {
      var l := k + j * 3 * 2;
      WriteQuad(arr, t, rs, i, j, irs, irs1, l);
      assert TubeRing(rs, i, j + 1) == TubeRing(rs, i, j) + TubeQuad(rs, i, j);
    }
  }

  /** The six writes of one quad at offset l; those past the end of the array are dropped. */
  method WriteQuad(arr: array<int>, t: IndexType, rs: nat, i: nat, j: nat, irs: nat, irs1: nat, l: nat)
    requires j < rs && irs == i * rs && irs1 == (i + 1) * rs
    modifies arr
    ensures forall c :: 0 <= c < 6 && l + c < arr.Length ==> arr[l + c] == Stored(t, TubeQuad(rs, i, j)[c])
    ensures forall p :: 0 <= p < arr.Length && !(l <= p < l + 6) ==> arr[p] == old(arr[p])
  {
    Put(arr, t, l, irs + j);
    Put(arr, t, l + 1, irs + ((j + 1) % rs));
    Put(arr, t, l + 2, irs1 + j);
    Put(arr, t, l + 3, irs1 + j);
    Put(arr, t, l + 4, irs + ((j + 1) % rs));
    Put(arr, t, l + 5, irs1 + ((j + 1) % rs));
  }

  /** The three writes of cap triangle j at offset l + 3 j, reversed for odd j. */
  method PutCapTriangle(arr: array<int>, t: IndexType, strip: seq<nat>, l: nat, base: nat, j: nat)
    requires j < CapCount(strip)
    modifies arr
    ensures forall c :: 0 <= c < 3 && l + j * 3 + c < arr.Length ==>
      arr[l + j * 3 + c] == Stored(t, CapTriangle(strip, base, j)[c])
    ensures forall p :: 0 <= p < arr.Length && !(l + j * 3 <= p < l + j * 3 + 3) ==> arr[p] == old(arr[p])
  {
    if j % 2 == 0 {
      Put(arr, t, l + j * 3 + 0, base + strip[j + 0]);
      Put(arr, t, l + j * 3 + 1, base + strip[j + 1]);
      Put(arr, t, l + j * 3 + 2, base + strip[j + 2]);
    } else {
      Put(arr, t, l + j * 3 + 0, base + strip[j + 2]);
      Put(arr, t, l + j * 3 + 1, base + strip[j + 1]);
      Put(arr, t, l + j * 3 + 2, base + strip[j + 0]);
    }
  }

  /** A cap loop of makeIndex: the strip triangles over the ring starting at vertex base,
      written from offset l; writes past the end of the array are dropped. */
  method FillCap(arr: array<int>, t: IndexType, strip: seq<nat>, l: nat, base: nat)
    modifies arr
    ensures forall c :: 0 <= c < 3 * CapCount(strip) && l + c < arr.Length ==>
      arr[l + c] == Stored(t, Cap(strip, base, CapCount(strip))[c])
    ensures forall p :: 0 <= p < arr.Length && !(l <= p < l + 3 * CapCount(strip)) ==> arr[p] == old(arr[p])
  {
    var j := 0;
    while j < |strip| - 2
      invariant j <= CapCount(strip)
      invariant forall c :: 0 <= c < 3 * j && l + c < arr.Length ==> arr[l + c] == Stored(t, Cap(strip, base, j)[c])
      invariant forall p :: 0 <= p < arr.Length && !(l <= p < l + 3 * j) ==> arr[p] == old(arr[p])
      decreases |strip| - j
    {
      PutCapTriangle(arr, t, strip, l, base, j);
      assert Cap(strip, base, j + 1) == Cap(strip, base, j) + CapTriangle(strip, base, j);
      j := j + 1;
    }
  }

  /** TubeMeshBuffer.makeIndex over an index array of the constructor's size. The array
      holds the body followed by the caps, except that a capped tube of one radial segment
      gets an array 6 entries short, whose last quad's writes are dropped. With no point
      the only array the constructor can allocate is the empty one. */
  method TubeMakeIndex(meshIndex: array<int>, t: IndexType, n: nat, rs: nat, capped: bool)
    requires meshIndex.Length == TubeIndexLength(n, rs, capped)
    modifies meshIndex
    ensures n >= 1 ==> meshIndex.Length == |TubeIndex(n, rs, capped)| - (if capped && rs == 1 then 6 else 0)
    ensures n >= 1 ==> forall p :: 0 <= p < meshIndex.Length ==>
      meshIndex[p] == Stored(t, TubeIndex(n, rs, capped)[p])
    ensures n == 0 ==> meshIndex.Length == 0
  {
    var n1: int := n - 1;
    TubeIndexLengthValid(n, rs, capped);
    var rings: nat := if n1 > 0 then n1 else 0;  // the body loop runs for i < n1
    FillBody(meshIndex, t, rs, rings);
    assert n >= 1 ==> rings == n - 1 && |TubeBody(rs, n - 1)| == 6 * rs * rings;
    FillCaps(meshIndex, t, n, rs, capped);
    if n >= 1 {
      TubeIndexParts(n, rs, capped);
      assert meshIndex.Length <= |TubeIndex(n, rs, capped)|;
      TubeAssemble(meshIndex, t, n, rs, capped);
    }
  }

  /** The capping part of makeIndex: the strip, then the front cap's triangles after the
      body and the back cap's after those (all dropped when uncapped: they lie past the end). */
  method FillCaps(meshIndex: array<int>, t: IndexType, n: nat, rs: nat, capped: bool)
    requires meshIndex.Length == TubeIndexLength(n, rs, capped)
    requires n >= 1 ==> forall p :: 0 <= p < |TubeBody(rs, n - 1)| && p < meshIndex.Length ==>
      meshIndex[p] == Stored(t, TubeBody(rs, n - 1)[p])
    modifies meshIndex
    ensures n >= 1 ==> forall p :: 0 <= p < |TubeBody(rs, n - 1)| && p < meshIndex.Length ==>
      meshIndex[p] == Stored(t, TubeBody(rs, n - 1)[p])
    ensures n >= 1 && capped ==> forall c :: 0 <= c < |FrontCap(n, rs)| && |TubeBody(rs, n - 1)| + c < meshIndex.Length ==>
      meshIndex[|TubeBody(rs, n - 1)| + c] == Stored(t, FrontCap(n, rs)[c])
    ensures n >= 1 && capped ==> forall c ::
      (0 <= c < |BackCap(n, rs)| && |TubeBody(rs, n - 1)| + |FrontCap(n, rs)| + c < meshIndex.Length) ==>
      meshIndex[|TubeBody(rs, n - 1)| + |FrontCap(n, rs)| + c] == Stored(t, BackCap(n, rs)[c])
  {
    var strip := CapStrip(rs);
    var l1, k1, l2, k2 := CapStarts(n, rs, capped);
    FillCap(meshIndex, t, strip, l1, k1);
    FillCap(meshIndex, t, strip, l2, k2);
  }

  /** The offsets and ring starts of makeIndex's two cap loops, l = n1 rs 3 2 and k = n rs
      for the front cap, l + 3 capTriangles and n rs + rs for the back cap: for every length
      the constructor can allocate, the front cap goes right after the body and the back
      cap right after the front cap whenever the caps have triangles. */
  method CapStarts(n: nat, rs: nat, capped: bool) returns (l1: nat, k1: nat, l2: nat, k2: nat)
    requires TubeIndexLength(n, rs, capped) >= 0
    ensures n >= 1 ==> l1 == |TubeBody(rs, n - 1)|
    ensures CapCount(Strip(rs)) > 0 ==> l2 == l1 + (if capped then |FrontCap(n, rs)| else 0)
    ensures FrontCap(n, rs) == Cap(Strip(rs), k1, CapCount(Strip(rs)))
    ensures BackCap(n, rs) == Cap(Strip(rs), k2, CapCount(Strip(rs)))
  {
    var n1: int := n - 1;
    var capTriangles: int := if capped then rs - 2 else 0;
    CapOffsets(n, rs, capped);
    l1 := n1 * rs * 3 * 2;
    k1 := n * rs;
    l2 := n1 * rs * 3 * 2 + 3 * capTriangles;
    k2 := n * rs + rs;
  }

  /** The body and both caps, each where makeIndex writes it, make up the whole index. */
  lemma TubeAssemble(a: array<int>, t: IndexType, n: nat, rs: nat, capped: bool)
    requires n >= 1 && a.Length <= |TubeIndex(n, rs, capped)|
    requires forall p :: 0 <= p < |TubeBody(rs, n - 1)| && p < a.Length ==> a[p] == Stored(t, TubeBody(rs, n - 1)[p])
    requires capped ==> forall c :: 0 <= c < |FrontCap(n, rs)| && |TubeBody(rs, n - 1)| + c < a.Length ==>
      a[|TubeBody(rs, n - 1)| + c] == Stored(t, FrontCap(n, rs)[c])
    requires capped ==> forall c ::
      (0 <= c < |BackCap(n, rs)| && |TubeBody(rs, n - 1)| + |FrontCap(n, rs)| + c < a.Length) ==>
      a[|TubeBody(rs, n - 1)| + |FrontCap(n, rs)| + c] == Stored(t, BackCap(n, rs)[c])
    ensures forall p :: 0 <= p < a.Length ==> a[p] == Stored(t, TubeIndex(n, rs, capped)[p])
  {
    var body, front, back := TubeBody(rs, n - 1), FrontCap(n, rs), BackCap(n, rs);
    var whole := TubeIndex(n, rs, capped);
    forall p | 0 <= p < a.Length
      ensures a[p] == Stored(t, whole[p])
    {
      if p >= |body| {
        if p < |body| + |front| {
          assert whole[p] == front[p - |body|];
          assert a[|body| + (p - |body|)] == Stored(t, front[p - |body|]);
        } else {
          assert whole[p] == back[p - |body| - |front|];
          assert a[|body| + |front| + (p - |body| - |front|)] == Stored(t, back[p - |body| - |front|]);
        }
      }
    }
  }

  /** The body loop of makeIndex: ring i's quads at offset 6 i rs, for i < rings. */
  method FillBody(arr: array<int>, t: IndexType, rs: nat, rings: nat)
    modifies arr
    ensures forall p :: 0 <= p < 6 * rs * rings && p < arr.Length ==> arr[p] == Stored(t, TubeBody(rs, rings)[p])
    ensures forall p :: 6 * rs * rings <= p < arr.Length ==> arr[p] == old(arr[p])
  {
    for i := 0 to rings
      invariant forall p :: 0 <= p < |TubeBody(rs, i)| && p < arr.Length ==> arr[p] == Stored(t, TubeBody(rs, i)[p])
      invariant forall p :: |TubeBody(rs, i)| <= p < arr.Length ==> arr[p] == old(arr[p])
    {
      var k := i * rs * 3 * 2;
      BodyStep(rs, i, rings);
      FillRing(arr, t, rs, i, k);
      assert TubeBody(rs, i + 1) == TubeBody(rs, i) + TubeRing(rs, i, rs);
    }
  }

  /** The offset of ring i's quads, and the room left for them. */
  lemma BodyStep(rs: nat, i: nat, rings: nat)
    requires i < rings
    ensures i * rs * 3 * 2 == |TubeBody(rs, i)|
    ensures |TubeBody(rs, i)| + 6 * rs == |TubeBody(rs, i + 1)| <= |TubeBody(rs, rings)|
  {
    BodyOffset(i, rs);
    MulLe(i + 1, rings, 6 * rs);
  }

  /** makeIndex's offset of the caps is the length of the body. */
  lemma BodyOffset(rings: nat, rs: nat)
    ensures rings * rs * 3 * 2 == 6 * rs * rings
  {
  }

  /** The lengths of the parts of a tube's index, and how the constructor's array length
      compares with the whole. */
  lemma TubeIndexParts(n: nat, rs: nat, capped: bool)
    requires n >= 1
    ensures |TubeBody(rs, n - 1)| == 6 * rs * (n - 1)
    ensures CapCount(Strip(rs)) == if rs >= 2 then rs - 2 else 0
    ensures |FrontCap(n, rs)| == |BackCap(n, rs)| == 3 * CapCount(Strip(rs))
    ensures TubeIndexLength(n, rs, capped) >= 0 ==>
      TubeIndexLength(n, rs, capped) == |TubeIndex(n, rs, capped)| - (if capped && rs == 1 then 6 else 0)
  {
    var body := 6 * rs * (n - 1);
    assert |TubeBody(rs, n - 1)| == body;
    assert (n - 1) * 2 * rs * 3 == body;
    assert |Strip(rs)| == if rs == 0 then 1 else rs;
    var caps := 3 * CapCount(Strip(rs));
    assert |FrontCap(n, rs)| == caps && |BackCap(n, rs)| == caps;
    assert |TubeIndex(n, rs, capped)| == body + (if capped then 2 * caps else 0);
  }

  /** Where makeIndex starts the front cap (l1) and the back cap (l2), for every length
      the constructor can allocate: never before the start, the front cap right after the
      body, and the back cap right after the front cap whenever the caps have triangles. */
  lemma CapOffsets(n: nat, rs: nat, capped: bool)
    requires TubeIndexLength(n, rs, capped) >= 0
    ensures var l1 := (n - 1) * rs * 3 * 2;
      var l2 := l1 + 3 * (if capped then rs - 2 else 0);
      l1 >= 0 && l2 >= 0 &&
      (n >= 1 ==> l1 == |TubeBody(rs, n - 1)|) &&
      (CapCount(Strip(rs)) > 0 ==> l2 == l1 + (if capped then |FrontCap(n, rs)| else 0))
  {
    TubeIndexLengthValid(n, rs, capped);
    var l1 := (n - 1) * rs * 3 * 2;
    if n == 0 {
      assert rs == 0;
    } else {
      MulLe(0, n - 1, 6 * rs);
      assert l1 == 6 * rs * (n - 1);
    }
    assert |Strip(rs)| == if rs == 0 then 1 else rs;
    assert |FrontCap(n, rs)| == 3 * CapCount(Strip(rs));
  }

  /** The length the TubeMeshBuffer constructor asks for its index: n1 2 rs 3 + 2 capTriangles 3,
      where n1 = n - 1 and capTriangles = rs - 2 when capped and 0 otherwise. It is
      negative for some inputs, and then the typed array constructor throws a RangeError. */
  function TubeIndexLength(n: nat, rs: nat, capped: bool): int
  {
    (n - 1) * 2 * rs * 3 + 2 * (if capped then rs - 2 else 0) * 3
  }

  /** The constructor can allocate the index exactly when the tube has a point and is
      uncapped, or has at least two radial segments, or has one radial segment and at
      least two points; with no point, only when it is uncapped and has no segment. */
  lemma TubeIndexLengthValid(n: nat, rs: nat, capped: bool)
    ensures TubeIndexLength(n, rs, capped) >= 0 <==>
      (n >= 1 && (!capped || rs >= 2 || (rs == 1 && n >= 2))) || (n == 0 && !capped && rs == 0)
  {
    if n >= 1 {
      MulLe(0, n - 1, 6 * rs);
    }
  }

  /** The vertices of a tube mesh: rs per point, and rs more for each cap ring. */
  function TubeVertexCount(n: nat, rs: nat, capped: bool): nat
  {
    n * rs + (if capped then 2 * rs else 0)
  }

  /** Every entry of the tube's index names one of its n rs body vertices or, when
      capped, of the 2 rs cap vertices after them. */
  lemma TubeIndexBelow(n: nat, rs: nat, capped: bool, p: nat)
    requires n >= 1 && p < |TubeIndex(n, rs, capped)|
    ensures TubeIndex(n, rs, capped)[p] < TubeVertexCount(n, rs, capped)
  {
    var body, front, back := TubeBody(rs, n - 1), FrontCap(n, rs), BackCap(n, rs);
    var whole := TubeIndex(n, rs, capped);
    MulLe(0, n, rs);
    if p < |body| {
      assert whole[p] == body[p];
      TubeBodyBelow(rs, n - 1, p);
    } else if p < |body| + |front| {
      assert whole[p] == front[p - |body|];
      CapEntryBelow(rs, n * rs, p - |body|);
    } else {
      assert whole[p] == back[p - |body| - |front|];
      CapEntryBelow(rs, n * rs + rs, p - |body| - |front|);
    }
  }

  /** ... so the element type chosen for the tube's vertex count stores every entry unchanged. */
  lemma TubeIndexFits(n: nat, rs: nat, capped: bool, p: nat)
    requires n >= 1 && p < |TubeIndex(n, rs, capped)|
    requires TubeVertexCount(n, rs, capped) <= 0x1_0000_0000
    ensures var v := TubeIndex(n, rs, capped)[p];
      Stored(ForVertexCount(TubeVertexCount(n, rs, capped)), v) == v
  {
    TubeIndexBelow(n, rs, capped, p);
  }

  lemma CapEntryBelow(rs: nat, base: nat, c: nat)
    requires c < 3 * CapCount(Strip(rs))
    ensures Cap(Strip(rs), base, CapCount(Strip(rs)))[c] < base + rs
  {
    var j := c / 3;
    CapAt(Strip(rs), base, CapCount(Strip(rs)), j, c % 3);
    CapTriangleVertices(rs, base, j);
    assert c == 3 * j + c % 3;
  }

  /** The TubeMeshBuffer constructor's meshIndex for a trace of n points and rs radial
      segments, with its element type chosen from the vertex count, filled by makeIndex.
      When the length the constructor computes is negative, allocating the typed array
      fails: the result is that RangeError, carrying the length. */
  method TubeMeshIndex(n: nat, rs: nat, capped: bool) returns (r: Result<array<int>, int>, t: IndexType)
    ensures t == ForVertexCount(TubeVertexCount(n, rs, capped))
    ensures r.Err? <==> TubeIndexLength(n, rs, capped) < 0
    ensures r.Err? ==> r.error == TubeIndexLength(n, rs, capped)
    ensures r.Ok? ==> fresh(r.value)
    ensures r.Ok? && n >= 1 ==>
      r.value.Length == |TubeIndex(n, rs, capped)| - (if capped && rs == 1 then 6 else 0)
    ensures r.Ok? && n >= 1 ==> forall p :: 0 <= p < r.value.Length ==>
      r.value[p] == Stored(t, TubeIndex(n, rs, capped)[p])
    ensures r.Ok? && n == 0 ==> r.value.Length == 0
  {
    var capVertices := if capped then rs else 0;
    var capTriangles: int := if capped then rs - 2 else 0;
    var n1: int := n - 1;
    var x := n * rs * 3 + 2 * capVertices * 3;
    var xi := n1 * 2 * rs * 3 + 2 * capTriangles * 3;
    t := ForVertexCount(x / 3);
    if xi < 0 {
      return Err(xi), t;
    }
    var meshIndex := new int[xi](_ => 0);
    TubeMakeIndex(meshIndex, t, n, rs, capped);
    r := Ok(meshIndex);
  }
}
