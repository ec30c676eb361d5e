/**
 * Buffer.makeWireframeIndex: the line index of a triangle mesh's wireframe.
 *
 * For every triangle (a, b, c) of the geometry's index, in order, the edges
 * (a, b), (b, c) and (c, a) are tested against a table of the edges seen so far
 * (keyed by the smaller vertex); an edge not seen yet is written to the
 * wireframe index as two entries.  The index array is reused when it is longer
 * than twice the draw count, and otherwise a new typed array of exactly that
 * length is made.
 */
module Wireframe {
  import opened Wrappers
  import opened IndexTypes

  // ---- typed index arrays ----

  /** The element type for a geometry whose position array has the given length
      (three numbers per vertex): 32 bits once there are more than 65535 vertices. */
  function IndexTypeFor(positionLength: nat): (t: IndexType)
    ensures t == Uint32 <==> positionLength > 3 * 65535
  {
    if positionLength as real / 3.0 > 65535.0 then Uint32 else Uint16
  }

  /** The element type holds every vertex index of the geometry unchanged. */
  lemma IndexTypeHoldsVertices(positionLength: nat, v: nat)
    requires 3 * v < positionLength <= 3 * 0x1_0000_0000
    ensures Stored(IndexTypeFor(positionLength), v) == v
  {
  }

  /** The element type as written: the test reads `this.position`, which no
      buffer sets, so `this.position / 3 > 65535` compares NaN and is false. */
  function IndexTypeAsWritten(positionLength: nat): IndexType
  {
    Uint16
  }

  /** As written, every vertex index is stored modulo 65536, whatever the geometry. */
  lemma IndexTypeAsWrittenStores(positionLength: nat, v: nat)
    ensures Stored(IndexTypeAsWritten(positionLength), v) == v % 65536
  {
  }

  /** As written, every vertex from 65536 on is stored as another vertex; the intended
      type stores it unchanged. */
  lemma IndexTypeAsWrittenWraps(positionLength: nat, v: nat)
    requires 65536 <= v && 3 * v < positionLength <= 3 * 0x1_0000_0000
    ensures Stored(IndexTypeAsWritten(positionLength), v) != v
    ensures Stored(IndexTypeFor(positionLength), v) == v
  {
  }

  // ---- edges ----

  type Edge = (nat, nat)

  /** checkEdge's normal form of an edge: the smaller vertex first. */
  function Key(e: Edge): (k: Edge)
    ensures k.0 <= k.1 && {k.0, k.1} == {e.0, e.1}
  {
    if e.0 > e.1 then (e.1, e.0) else e
  }

  /** The undirected edges of a list. */
  function Keys(es: seq<Edge>): set<Edge>
  {
    set e | e in es :: Key(e)
  }

  /** The edges of the triangles 0 .. t - 1 in the order makeWireframeIndex tests them. */
  function Candidates(idx: seq<nat>, t: nat): (c: seq<Edge>)
    requires 3 * t <= |idx|
    ensures |c| == 3 * t
  {
    if t == 0 then []
    else
      var a, b, c := idx[3 * t - 3], idx[3 * t - 2], idx[3 * t - 1];
      Candidates(idx, t - 1) + [(a, b), (b, c), (c, a)]
  }

  /** The edges of a list whose undirected edge has not occurred earlier in it. */
  function FirstOccurrences(es: seq<Edge>): (r: seq<Edge>)
    ensures |r| <= |es|
  {
    if es == [] then []
    else
      var init := es[..|es| - 1];
      var e := es[|es| - 1];
      if Key(e) in Keys(init) then FirstOccurrences(init) else FirstOccurrences(init) + [e]
  }

  /** Every edge tested joins two vertices of the index. */
  lemma {:induction false} CandidatesFrom(idx: seq<nat>, t: nat, e: Edge)
    requires 3 * t <= |idx| && e in Candidates(idx, t)
    ensures e.0 in idx && e.1 in idx
  {
    if e !in Candidates(idx, t - 1) {
      assert e.0 in idx[3 * t - 3 .. 3 * t] && e.1 in idx[3 * t - 3 .. 3 * t];
    } else {
      CandidatesFrom(idx, t - 1, e);
    }
  }

  /** Every edge emitted was tested. */
  lemma {:induction false} FirstOccurrencesFrom(es: seq<Edge>, e: Edge)
    requires e in FirstOccurrences(es)
    ensures e in es
  {
    var init := es[..|es| - 1];
    assert es == init + [es[|es| - 1]];
    if e in FirstOccurrences(init) {
      FirstOccurrencesFrom(init, e);
    }
  }

  lemma KeysSnoc(es: seq<Edge>, e: Edge)
    ensures Keys(es + [e]) == Keys(es) + {Key(e)}
  {
    assert forall x :: x in es + [e] <==> x in es || x == e;
  }

  /** No undirected edge is lost: the first occurrences cover every edge tested. */
  lemma {:induction false} FirstOccurrencesKeys(es: seq<Edge>)
    ensures Keys(FirstOccurrences(es)) == Keys(es)
  {
    if es != [] {
      var init := es[..|es| - 1];
      var e := es[|es| - 1];
      assert es == init + [e];
      FirstOccurrencesKeys(init);
      KeysSnoc(init, e);
      if Key(e) !in Keys(init) {
        KeysSnoc(FirstOccurrences(init), e);
      }
    }
  }

  /** No undirected edge is emitted twice. */
  lemma {:induction false} FirstOccurrencesUnique(es: seq<Edge>, k: nat, l: nat)
    requires k < l < |FirstOccurrences(es)|
    ensures Key(FirstOccurrences(es)[k]) != Key(FirstOccurrences(es)[l])
  {
    var init := es[..|es| - 1];
    var e := es[|es| - 1];
    var r := FirstOccurrences(init);
    if Key(e) in Keys(init) || l < |r| {
      FirstOccurrencesUnique(init, k, l);
    } else {
      FirstOccurrencesKeys(init);
      assert r[k] in r;
    }
  }

  /** The wireframe holds as many lines as there are distinct undirected edges. */
  lemma {:induction false} FirstOccurrencesCount(es: seq<Edge>)
    ensures |FirstOccurrences(es)| == |Keys(es)|
  {
    if es != [] {
      var init := es[..|es| - 1];
      var e := es[|es| - 1];
      assert es == init + [e];
      FirstOccurrencesCount(init);
      KeysSnoc(init, e);
      if Key(e) !in Keys(init) {
        assert |Keys(init) + {Key(e)}| == |Keys(init)| + 1;
      }
    }
  }

  // ---- the edge table ----

  /** The edges table of checkEdge: for a vertex a, the larger vertices seen with it. */
  type EdgeTable = map<nat, seq<nat>>

  /** The undirected edges a table records. */
  function Seen(edges: EdgeTable): set<Edge>
  {
    set a, b | a in edges && b in edges[a] :: (a, b)
  }

  /** checkEdge(a, b): records the edge and tells whether it was new. */
  method CheckEdge(edges: EdgeTable, a: nat, b: nat) returns (edges': EdgeTable, isNew: bool)
    ensures isNew <==> Key((a, b)) !in Seen(edges)
    ensures Seen(edges') == Seen(edges) + {Key((a, b))}
  {
    var lo, hi := a, b;
    if lo > hi {
      lo, hi := b, a;
    }
    assert (lo, hi) == Key((a, b));
    if lo !in edges {
      edges', isNew := edges[lo := [hi]], true;
      assert hi in edges'[lo];
    } else if hi !in edges[lo] {
      edges', isNew := edges[lo := edges[lo] + [hi]], true;
      assert hi in edges'[lo];
    } else {
      edges', isNew := edges, false;
    }
  }

  // ---- the wireframe index ----

  /** The first 2|es| entries of arr hold the edges es, one vertex per entry. */
  ghost predicate Holds(arr: array<int>, t: IndexType, es: seq<Edge>)
    reads arr
  {
    2 * |es| <= arr.Length &&
    forall k :: 0 <= k < |es| ==> arr[2 * k] == Stored(t, es[k].0) && arr[2 * k + 1] == Stored(t, es[k].1)
  }

  /** One checkEdge test and, for a new edge, its two writes at offset j. */
  method EmitEdge(arr: array<int>, t: IndexType, edges: EdgeTable, j: nat, a: nat, b: nat, ghost tested: seq<Edge>)
    returns (edges': EdgeTable, j': nat)
    requires Seen(edges) == Keys(tested) && j == 2 * |FirstOccurrences(tested)|
    requires 2 * (|tested| + 1) <= arr.Length && Holds(arr, t, FirstOccurrences(tested))
    modifies arr
    ensures Seen(edges') == Keys(tested + [(a, b)]) && j' == 2 * |FirstOccurrences(tested + [(a, b)])|
    ensures Holds(arr, t, FirstOccurrences(tested + [(a, b)]))
    ensures forall p :: j' <= p < arr.Length ==> arr[p] == old(arr[p])
  {
    var isNew;
    edges', isNew := CheckEdge(edges, a, b);
    KeysSnoc(tested, (a, b));
    assert (tested + [(a, b)])[..|tested|] == tested;
    j' := j;
    if isNew {
      arr[j] := Stored(t, a);
      arr[j + 1] := Stored(t, b);
      j' := j + 2;
    }
  }

  /** The three checkEdge tests of triangle tri: (a, b), (b, c) and (c, a). */
  method EmitTriangle(arr: array<int>, t: IndexType, edges: EdgeTable, j: nat, idx: seq<nat>, tri: nat)
    returns (edges': EdgeTable, j': nat)
    requires 3 * tri + 3 <= |idx| && 6 * tri + 6 <= arr.Length
    requires Seen(edges) == Keys(Candidates(idx, tri)) && j == 2 * |FirstOccurrences(Candidates(idx, tri))|
    requires Holds(arr, t, FirstOccurrences(Candidates(idx, tri)))
    modifies arr
    ensures Seen(edges') == Keys(Candidates(idx, tri + 1)) && j' == 2 * |FirstOccurrences(Candidates(idx, tri + 1))|
    ensures Holds(arr, t, FirstOccurrences(Candidates(idx, tri + 1)))
    ensures j <= j' && forall p :: j' <= p < arr.Length ==> arr[p] == old(arr[p])
  {
    var a, b, c := idx[3 * tri], idx[3 * tri + 1], idx[3 * tri + 2];
    ghost var c0 := Candidates(idx, tri);
    ghost var c1 := c0 + [(a, b)];
    ghost var c2 := c1 + [(b, c)];
    assert c2 + [(c, a)] == Candidates(idx, tri + 1);
    edges', j' := EmitEdge(arr, t, edges, j, a, b, c0);
    edges', j' := EmitEdge(arr, t, edges', j', b, c, c1);
    edges', j' := EmitEdge(arr, t, edges', j', c, a, c2);
  }

  /** The triangle loop of makeWireframeIndex over the first n index entries,
      writing the lines into arr from offset 0; returns the number of entries written. */
  method FillWireframe(arr: array<int>, t: IndexType, idx: seq<nat>, n: nat) returns (j: nat)
    requires n % 3 == 0 && n <= |idx| && 2 * n <= arr.Length
    modifies arr
    ensures j == 2 * |FirstOccurrences(Candidates(idx, n / 3))|
    ensures Holds(arr, t, FirstOccurrences(Candidates(idx, n / 3)))
    ensures forall p :: j <= p < arr.Length ==> arr[p] == old(arr[p])
  {
    j := 0;
    var edges: EdgeTable := map[];
    var triangles := n / 3;
    assert n == 3 * triangles;
    for tri := 0 to triangles
      invariant Seen(edges) == Keys(Candidates(idx, tri)) && j == 2 * |FirstOccurrences(Candidates(idx, tri))|
      invariant Holds(arr, t, FirstOccurrences(Candidates(idx, tri)))
      invariant forall p :: j <= p < arr.Length ==> arr[p] == old(arr[p])
    {
      edges, j := EmitTriangle(arr, t, edges, j, idx, tri);
    }
  }

  /** The fields of a buffer that makeWireframeIndex sets. */
  class WireframeBuffer {
    var wireframeIndex: array?<int>
    var wireframeIndexType: IndexType
    var wireframeIndexCount: nat

    /** The edges the wireframe of the first n index entries holds, in order. */
    static function Lines(idx: seq<nat>, n: nat): seq<Edge>
      requires n % 3 == 0 && n <= |idx|
    {
      FirstOccurrences(Candidates(idx, n / 3))
    }

    /** The draw count: drawRange.count when finite, else the whole index. */
    static function DrawCount(idx: seq<nat>, drawCount: Option<nat>): nat
    {
      if drawCount.Some? then drawCount.value else |idx|
    }

    /** makeWireframeIndex for a geometry with the given index (if any), draw
        range count (None for Infinity) and position-array length, as written: a new
        index array is always 16 bits wide, so its entries are the vertices modulo 65536. */
    method MakeWireframeIndex(geometryIndex: Option<seq<nat>>, drawCount: Option<nat>, positionLength: nat)
      requires geometryIndex.Some? ==>
        var n := DrawCount(geometryIndex.value, drawCount); n % 3 == 0 && n <= |geometryIndex.value|
      modifies this, wireframeIndex
      ensures geometryIndex.None? ==>
        wireframeIndex == old(wireframeIndex) && wireframeIndexCount == old(wireframeIndexCount) &&
        wireframeIndexType == old(wireframeIndexType) && (old(wireframeIndex) != null ==> unchanged(old(wireframeIndex)))
      ensures geometryIndex.Some? ==>
        var idx := geometryIndex.value;
        var n := DrawCount(idx, drawCount);
        var lines := Lines(idx, n);
        var reused := old(wireframeIndex) != null && old(wireframeIndex).Length > 2 * n;
        wireframeIndex != null &&
        (reused ==> wireframeIndex == old(wireframeIndex) && wireframeIndexType == old(wireframeIndexType)) &&
        (!reused ==> fresh(wireframeIndex) && wireframeIndex.Length == 2 * n && wireframeIndexType == Uint16) &&
        (!reused ==> forall k :: 0 <= k < |lines| ==>
          wireframeIndex[2 * k] == lines[k].0 % 65536 && wireframeIndex[2 * k + 1] == lines[k].1 % 65536) &&
        wireframeIndexCount == 2 * |lines| &&
        Holds(wireframeIndex, wireframeIndexType, lines) &&
        forall p :: 2 * |lines| <= p < wireframeIndex.Length ==> wireframeIndex[p] == (if reused then old(wireframeIndex[p]) else 0)
    {
      Rebuild(geometryIndex, drawCount, IndexTypeAsWritten(positionLength));
    }

    /** makeWireframeIndex as intended: a new index array is 32 bits wide once the
        geometry has more than 65535 vertices, so it holds every vertex unchanged. */
    method MakeWireframeIndexIntended(geometryIndex: Option<seq<nat>>, drawCount: Option<nat>, positionLength: nat)
      requires geometryIndex.Some? ==>
        var n := DrawCount(geometryIndex.value, drawCount); n % 3 == 0 && n <= |geometryIndex.value|
      requires positionLength <= 3 * 0x1_0000_0000
      requires geometryIndex.Some? ==> forall v :: v in geometryIndex.value ==> 3 * v < positionLength
      modifies this, wireframeIndex
      ensures geometryIndex.None? ==>
        wireframeIndex == old(wireframeIndex) && wireframeIndexCount == old(wireframeIndexCount) &&
        wireframeIndexType == old(wireframeIndexType) && (old(wireframeIndex) != null ==> unchanged(old(wireframeIndex)))
      ensures geometryIndex.Some? ==>
        var idx := geometryIndex.value;
        var n := DrawCount(idx, drawCount);
        var lines := Lines(idx, n);
        var reused := old(wireframeIndex) != null && old(wireframeIndex).Length > 2 * n;
        wireframeIndex != null &&
        (reused ==> wireframeIndex == old(wireframeIndex) && wireframeIndexType == old(wireframeIndexType)) &&
        (!reused ==> fresh(wireframeIndex) && wireframeIndex.Length == 2 * n && wireframeIndexType == IndexTypeFor(positionLength)) &&
        (!reused ==> forall k :: 0 <= k < |lines| ==>
          wireframeIndex[2 * k] == lines[k].0 && wireframeIndex[2 * k + 1] == lines[k].1) &&
        wireframeIndexCount == 2 * |lines| &&
        Holds(wireframeIndex, wireframeIndexType, lines) &&
        forall p :: 2 * |lines| <= p < wireframeIndex.Length ==> wireframeIndex[p] == (if reused then old(wireframeIndex[p]) else 0)
    {
      Rebuild(geometryIndex, drawCount, IndexTypeFor(positionLength));
      if geometryIndex.Some? {
        ghost var lines := Lines(geometryIndex.value, DrawCount(geometryIndex.value, drawCount));
        forall k | 0 <= k < |lines|
          ensures lines[k].0 in geometryIndex.value && lines[k].1 in geometryIndex.value
        {
          FirstOccurrencesFrom(Candidates(geometryIndex.value, DrawCount(geometryIndex.value, drawCount) / 3), lines[k]);
          CandidatesFrom(geometryIndex.value, DrawCount(geometryIndex.value, drawCount) / 3, lines[k]);
          IndexTypeHoldsVertices(positionLength, lines[k].0);
          IndexTypeHoldsVertices(positionLength, lines[k].1);
        }
      }
    }

    /** The body of makeWireframeIndex, with t the element type of a new index array. */
    method Rebuild(geometryIndex: Option<seq<nat>>, drawCount: Option<nat>, t: IndexType)
      requires geometryIndex.Some? ==>
        var n := DrawCount(geometryIndex.value, drawCount); n % 3 == 0 && n <= |geometryIndex.value|
      modifies this, wireframeIndex
      ensures geometryIndex.None? ==>
        wireframeIndex == old(wireframeIndex) && wireframeIndexCount == old(wireframeIndexCount) &&
        wireframeIndexType == old(wireframeIndexType) && (old(wireframeIndex) != null ==> unchanged(old(wireframeIndex)))
      ensures geometryIndex.Some? ==>
        var idx := geometryIndex.value;
        var n := DrawCount(idx, drawCount);
        var lines := Lines(idx, n);
        var reused := old(wireframeIndex) != null && old(wireframeIndex).Length > 2 * n;
        wireframeIndex != null &&
        (reused ==> wireframeIndex == old(wireframeIndex) && wireframeIndexType == old(wireframeIndexType)) &&
        (!reused ==> fresh(wireframeIndex) && wireframeIndex.Length == 2 * n && wireframeIndexType == t) &&
        wireframeIndexCount == 2 * |lines| &&
        Holds(wireframeIndex, wireframeIndexType, lines) &&
        forall p :: 2 * |lines| <= p < wireframeIndex.Length ==> wireframeIndex[p] == (if reused then old(wireframeIndex[p]) else 0)
    {
      if geometryIndex.None? {
        return;
      }
      var idx := geometryIndex.value;
      var n := |idx|;
      if drawCount.Some? {
        n := drawCount.value;
      }
      var arr: array<int>;
      if wireframeIndex != null && wireframeIndex.Length > n * 2 {
        arr := wireframeIndex;
      } else {
        wireframeIndexType := t;
        arr := new int[n * 2](_ => 0);
      }
      var j := FillWireframe(arr, wireframeIndexType, idx, n);
      wireframeIndex := arr;
      wireframeIndexCount := j;
    }
  }
}
