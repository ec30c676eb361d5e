/**
 * Helixbundle.getAxis and HelixCrossing.getCrossing.
 *
 * getAxis walks the residues of a polymer and splits the walk after every
 * residue where the helix axis breaks; every stretch between two splits that
 * is long enough becomes one helix segment.  The geometry of a segment (mean
 * axis and centre, the projection of its ends) is floating-point work on the
 * Helixorient positions and is not modelled: a segment is the pair of residue
 * indices that bound it.  getCrossing enumerates the unordered pairs of
 * helices and keeps those in contact closer than a minimum distance; the
 * crossing geometry of a pair is an input function.
 */
module Helix {
  import opened Wrappers
  import Spline
  import Decimal

  // ---- getAxis ----

  /** The thresholds of getAxis after its defaults are applied. */
  datatype AxisParams = AxisParams(localAngle: real, centerDist: real, ssBorder: bool)

  /** getAxis's defaults: a local angle of 30, a centre distance of 2.5, no split at secondary-structure borders. */
  function AxisDefaults(localAngle: Option<real>, centerDist: Option<real>, ssBorder: Option<bool>): (p: AxisParams)
    ensures Falsy(localAngle) ==> p.localAngle == 30.0
    ensures !Falsy(localAngle) ==> p.localAngle == localAngle.value
    ensures Falsy(centerDist) ==> p.centerDist == 2.5
    ensures !Falsy(centerDist) ==> p.centerDist == centerDist.value
    ensures ssBorder.None? ==> !p.ssBorder
    ensures ssBorder.Some? ==> p.ssBorder == ssBorder.value
  {
    AxisParams(OrDefault(localAngle, 30.0), OrDefault(centerDist, 2.5), if ssBorder.None? then false else ssBorder.value)
  }

  /** The defaults are settled once: feeding the thresholds back in as given values
      leaves them as they are (a threshold is never 0 after its default). */
  lemma AxisDefaultsSettled(localAngle: Option<real>, centerDist: Option<real>, ssBorder: Option<bool>)
    ensures var p := AxisDefaults(localAngle, centerDist, ssBorder);
      p.localAngle != 0.0 && p.centerDist != 0.0 &&
      AxisDefaults(Some(p.localAngle), Some(p.centerDist), Some(p.ssBorder)) == p
  {
  }

  /** What getAxis reads per residue: the secondary structure, the distance
      from the residue's helix centre to the next one's (the square root of
      the distance is taken by the caller), the bending angle and the trace
      atom. */
  datatype Trace = Trace(sstruc: seq<string>, gap: seq<real>, bending: seq<real>, traceAtom: seq<nat>)

  predicate TraceFits(t: Trace, n: nat)
  {
    |t.sstruc| == n && |t.bending| == n && |t.traceAtom| == n && |t.gap| + 1 >= n
  }

  /** Whether getAxis splits after residue i: at the last residue, at a
      secondary-structure border when asked to, when the next helix centre is
      too far, or when the axis bends too much. */
  predicate SplitsAfter(p: AxisParams, t: Trace, n: nat, i: nat)
    requires TraceFits(t, n) && i < n
  {
    i == n - 1 ||
    (p.ssBorder && t.sstruc[i] != t.sstruc[i + 1]) ||
    t.gap[i] > p.centerDist ||
    t.bending[i] > p.localAngle
  }

  /** A helix segment from residue `first` to residue `last` (polymer-relative). */
  datatype Run = Run(first: nat, last: nat)

  /** The segments getAxis emits from residue i on, when the current stretch started at j. */
  function RunsFrom(p: AxisParams, t: Trace, n: nat, i: nat, j: nat): seq<Run>
    requires TraceFits(t, n) && j <= i <= n
    decreases n - i
  {
    if i == n then []
    else if SplitsAfter(p, t, n, i) then
      (if i - j < 4 then [] else [Run(j, i)]) + RunsFrom(p, t, n, i + 1, i)
    else RunsFrom(p, t, n, i + 1, j)
  }

  /** The segments getAxis emits for a polymer of n residues. */
  function Runs(p: AxisParams, t: Trace, n: nat): seq<Run>
    requires TraceFits(t, n)
  {
    RunsFrom(p, t, n, 0, 0)
  }

  /** No split strictly between residues lo and hi. */
  ghost predicate NoSplitIn(p: AxisParams, t: Trace, n: nat, lo: nat, hi: nat)
    requires TraceFits(t, n) && hi <= n
  {
    forall x: nat :: lo < x < hi ==> !SplitsAfter(p, t, n, x)
  }

  /** A segment getAxis emits from residue i on, the current stretch having started at j:
      it ends at a split, has no split inside, has last - first >= 4 (at least five
      residues) and starts at j or at a later split. */
  ghost predicate IsRunFrom(p: AxisParams, t: Trace, n: nat, i: nat, j: nat, r: Run)
    requires TraceFits(t, n)
  {
    i <= r.last < n && r.last - r.first >= 4 && SplitsAfter(p, t, n, r.last) &&
    NoSplitIn(p, t, n, r.first, r.last) &&
    (r.first == j || (i <= r.first && SplitsAfter(p, t, n, r.first)))
  }

  /** The segments from residue i on are exactly those IsRunFrom describes. */
  lemma {:induction false} RunsFromMembers(p: AxisParams, t: Trace, n: nat, i: nat, j: nat, r: Run)
    requires TraceFits(t, n) && j <= i <= n && NoSplitIn(p, t, n, j, i)
    ensures r in RunsFrom(p, t, n, i, j) <==> IsRunFrom(p, t, n, i, j, r)
    decreases n - i
  {
    if i < n {
      if SplitsAfter(p, t, n, i) {
        RunsFromMembers(p, t, n, i + 1, i, r);
        if r.last == i && IsRunFrom(p, t, n, i, j, r) {
          assert r.first == j;
        }
        if r.first == j && j < i && i < r.last < n {
          assert !NoSplitIn(p, t, n, r.first, r.last);
        }
      } else {
        assert NoSplitIn(p, t, n, j, i + 1);
        RunsFromMembers(p, t, n, i + 1, j, r);
      }
    }
  }

  /** Every segment getAxis emits ends at a split, has no split inside, has
      last - first >= 4 (at least five residues), and starts at residue 0 or at a split; and every
      stretch like that is emitted. */
  lemma RunsCharacterised(p: AxisParams, t: Trace, n: nat, r: Run)
    requires TraceFits(t, n)
    ensures r in Runs(p, t, n) <==>
      r.last < n && r.last - r.first >= 4 && SplitsAfter(p, t, n, r.last) &&
      NoSplitIn(p, t, n, r.first, r.last) && (r.first == 0 || SplitsAfter(p, t, n, r.first))
  {
    RunsFromMembers(p, t, n, 0, 0, r);
  }

  /** Each segment ends no later than the next one begins. */
  ghost predicate RunsInOrder(rs: seq<Run>)
  {
    forall a, b :: 0 <= a < b < |rs| ==> rs[a].last <= rs[b].first
  }

  /** A segment emitted from residue i on, with the stretch started at j, lies after both. */
  lemma {:induction false} RunsFromBounds(p: AxisParams, t: Trace, n: nat, i: nat, j: nat, r: Run)
    requires TraceFits(t, n) && j <= i <= n && r in RunsFrom(p, t, n, i, j)
    ensures j <= r.first && i <= r.last
    decreases n - i
  {
    if SplitsAfter(p, t, n, i) {
      var head := if i - j < 4 then [] else [Run(j, i)];
      assert r in head + RunsFrom(p, t, n, i + 1, i);
      if r !in head {
        RunsFromBounds(p, t, n, i + 1, i, r);
      }
    } else {
      RunsFromBounds(p, t, n, i + 1, j, r);
    }
  }

  lemma {:induction false} RunsFromOrdered(p: AxisParams, t: Trace, n: nat, i: nat, j: nat, a: nat, b: nat)
    requires TraceFits(t, n) && j <= i <= n && a < b < |RunsFrom(p, t, n, i, j)|
    ensures RunsFrom(p, t, n, i, j)[a].last <= RunsFrom(p, t, n, i, j)[b].first
    decreases n - i
  {
    if SplitsAfter(p, t, n, i) {
      var head := if i - j < 4 then [] else [Run(j, i)];
      var tail := RunsFrom(p, t, n, i + 1, i);
      var rs := head + tail;
      assert rs == RunsFrom(p, t, n, i, j);
      assert rs[b] == tail[b - |head|];
      if a >= |head| {
        assert rs[a] == tail[a - |head|];
        RunsFromOrdered(p, t, n, i + 1, i, a - |head|, b - |head|);
      } else {
        assert rs[a] == Run(j, i);
        RunsFromBounds(p, t, n, i + 1, i, tail[b - |head|]);
      }
    } else {
      RunsFromOrdered(p, t, n, i + 1, j, a, b);
    }
  }

  /** The segments getAxis emits come in order along the polymer. */
  lemma RunsOrdered(p: AxisParams, t: Trace, n: nat)
    requires TraceFits(t, n)
    ensures RunsInOrder(Runs(p, t, n))
  {
    var rs := Runs(p, t, n);
    forall a, b | 0 <= a < b < |rs|
      ensures rs[a].last <= rs[b].first
    {
      RunsFromOrdered(p, t, n, 0, 0, a, b);
    }
  }

  /** residueCount as written: the start index of the polymer is added to the count. */
  function ResidueCountAsWritten(residueIndexStart: int, r: Run): int
  {
    residueIndexStart + r.last + 1 - r.first
  }

  /** residueCount as evidently intended: the number of residues of the segment. */
  function ResidueCount(r: Run): int
  {
    r.last + 1 - r.first
  }

  /** The corrected count covers exactly the segment's residues from its offset:
      residues residueIndexStart + first .. residueIndexStart + last. */
  lemma ResidueCountCoversRun(residueIndexStart: int, r: Run)
    requires r.first <= r.last
    ensures (residueIndexStart + r.first) + ResidueCount(r) - 1 == residueIndexStart + r.last
    ensures ResidueCount(r) >= 1
  {
  }

  /** The count as written overshoots the segment by the polymer's start index:
      for a polymer starting at residue 10, the five-residue segment 0 .. 4 is
      reported with a count of 15. */
  lemma ResidueCountAsWrittenOvershoots()
    ensures ResidueCountAsWritten(10, Run(0, 4)) == 15 && ResidueCount(Run(0, 4)) == 5
    ensures forall s: int, r: Run :: ResidueCountAsWritten(s, r) == ResidueCount(r) + s
  {
  }

  /** Helixbundle.getAxis: the per-segment outputs that are not floating-point
      geometry.  The axis, center, begin and end arrays get one triple per
      segment at offset k, so k ends at three times the number of segments;
      the colour and size of a segment are those of its last residue's trace atom. */
  method GetAxis(p: AxisParams, t: Trace, n: nat, residueIndexStart: int)
    returns (residueOffset: seq<int>, residueCount: seq<int>, traceAtoms: seq<nat>, k: nat)
    requires TraceFits(t, n)
    ensures var runs := Runs(p, t, n);
      |residueOffset| == |runs| && |residueCount| == |runs| && |traceAtoms| == |runs| && k == 3 * |runs| &&
      forall r :: 0 <= r < |runs| ==>
        residueOffset[r] == residueIndexStart + runs[r].first &&
        residueCount[r] == ResidueCountAsWritten(residueIndexStart, runs[r]) &&
        runs[r].last < n && traceAtoms[r] == t.traceAtom[runs[r].last]
  {
    var j := 0;
    k := 0;
    var split := false;
    residueOffset, residueCount, traceAtoms := [], [], [];
    ghost var runs: seq<Run> := [];
    for i := 0 to n
      invariant j <= i && !split
      invariant runs + RunsFrom(p, t, n, i, j) == Runs(p, t, n)
      invariant |residueOffset| == |runs| && |residueCount| == |runs| && |traceAtoms| == |runs| && k == 3 * |runs|
      invariant forall r :: 0 <= r < |runs| ==>
        residueOffset[r] == residueIndexStart + runs[r].first &&
        residueCount[r] == ResidueCountAsWritten(residueIndexStart, runs[r]) &&
        runs[r].last < n && traceAtoms[r] == t.traceAtom[runs[r].last]
    {
      if i == n - 1 {
        split := true;
      } else {
        if p.ssBorder && t.sstruc[i] != t.sstruc[i + 1] {
          split := true;
        } else if t.gap[i] > p.centerDist {
          split := true;
        } else if t.bending[i] > p.localAngle {
          split := true;
        }
      }
      if split {
        if i - j < 4 {
          j := i;
          split := false;
        } else {
          runs := runs + [Run(j, i)];
          residueOffset := residueOffset + [residueIndexStart + j];
          residueCount := residueCount + [residueIndexStart + i + 1 - j];
          traceAtoms := traceAtoms + [t.traceAtom[i]];
          k := k + 3;
          j := i;
          split := false;
        }
      }
    }
  }

  // ---- getCrossing ----

  /** What Helix.crossing reports for a pair of helices (its geometry is not modelled). */
  datatype Crossing = Crossing(contact: bool, distance: real, angle: real, maxOverlap: real, p1: Spline.Vec3, p2: Spline.Vec3)

  /** One entry of getCrossing's info list; helices are numbered from 1. */
  datatype CrossingInfo = CrossingInfo(helix1: nat, helix2: nat, angle: real, distance: real, overlap: real)

  /** A pair is recorded when the helices are in contact closer than minDistance. */
  predicate Accepts(c: Crossing, minDistance: real)
  {
    c.contact && c.distance < minDistance
  }

  /** The label of helix i: "H" followed by i + 1. */
  function HelixLabel(i: nat): string
  {
    "H" + Decimal.NatToString(i + 1)
  }

  /** The labels of helices 0 .. n - 1. */
  function Labels(n: nat): seq<string>
  {
    if n == 0 then [] else Labels(n - 1) + [HelixLabel(n - 1)]
  }

  lemma {:induction false} LabelsAre(n: nat)
    ensures |Labels(n)| == n && forall i :: 0 <= i < n ==> Labels(n)[i] == HelixLabel(i)
  {
    if n > 0 {
      LabelsAre(n - 1);
    }
  }

  /** Different helices get different labels. */
  lemma HelixLabelsDistinct(a: nat, b: nat)
    requires a != b
    ensures HelixLabel(a) != HelixLabel(b)
  {
    if HelixLabel(a) == HelixLabel(b) {
      assert HelixLabel(a)[1..] == Decimal.NatToString(a + 1);
      assert HelixLabel(b)[1..] == Decimal.NatToString(b + 1);
      Decimal.NatToStringInjective(a + 1, b + 1);
    }
  }

  /** The accepted pairs (i, j) with i < j < jEnd, in order of j. */
  function RowPairs(cross: (nat, nat) -> Crossing, minDistance: real, i: nat, jEnd: nat): seq<(nat, nat)>
    decreases jEnd
  {
    if jEnd <= i + 1 then []
    else
      var last: seq<(nat, nat)> := if Accepts(cross(i, jEnd - 1), minDistance) then [(i, jEnd - 1)] else [];
      RowPairs(cross, minDistance, i, jEnd - 1) + last
  }

  /** The accepted pairs whose first helix is below iEnd, among h helices, in the order getCrossing visits them. */
  function PairsUpTo(cross: (nat, nat) -> Crossing, minDistance: real, h: nat, iEnd: nat): seq<(nat, nat)>
  {
    if iEnd == 0 then []
    else PairsUpTo(cross, minDistance, h, iEnd - 1) + RowPairs(cross, minDistance, iEnd - 1, h)
  }

  /** The pairs getCrossing records among h helices. */
  function CrossingPairs(cross: (nat, nat) -> Crossing, minDistance: real, h: nat): seq<(nat, nat)>
  {
    PairsUpTo(cross, minDistance, h, h)
  }

  /** Pairs in strictly increasing lexicographic order. */
  ghost predicate LexIncreasing(ps: seq<(nat, nat)>)
  {
    forall a, b :: 0 <= a < b < |ps| ==> ps[a].0 < ps[b].0 || (ps[a].0 == ps[b].0 && ps[a].1 < ps[b].1)
  }

  lemma {:induction false} RowPairsMember(cross: (nat, nat) -> Crossing, minDistance: real, i: nat, jEnd: nat, q: (nat, nat))
    ensures q in RowPairs(cross, minDistance, i, jEnd) <==>
      q.0 == i && i < q.1 < jEnd && Accepts(cross(q.0, q.1), minDistance)
    decreases jEnd
  {
    if jEnd > i + 1 {
      RowPairsMember(cross, minDistance, i, jEnd - 1, q);
    }
  }

  /** One more column of row i adds the pair (i, j) exactly when it is accepted. */
  lemma RowPairsStep(cross: (nat, nat) -> Crossing, minDistance: real, i: nat, j: nat)
    requires i < j
    ensures RowPairs(cross, minDistance, i, j + 1) ==
      RowPairs(cross, minDistance, i, j) + (if Accepts(cross(i, j), minDistance) then [(i, j)] else [])
  {
  }

  lemma {:induction false} RowPairsOrdered(cross: (nat, nat) -> Crossing, minDistance: real, i: nat, jEnd: nat, a: nat, b: nat)
    requires a < b < |RowPairs(cross, minDistance, i, jEnd)|
    ensures RowPairs(cross, minDistance, i, jEnd)[a].1 < RowPairs(cross, minDistance, i, jEnd)[b].1
    decreases jEnd
  {
    var prev := RowPairs(cross, minDistance, i, jEnd - 1);
    var last: seq<(nat, nat)> := if Accepts(cross(i, jEnd - 1), minDistance) then [(i, jEnd - 1)] else [];
    var row := prev + last;
    assert row == RowPairs(cross, minDistance, i, jEnd);
    assert row[a] == prev[a];
    if b < |prev| {
      assert row[b] == prev[b];
      RowPairsOrdered(cross, minDistance, i, jEnd - 1, a, b);
    } else {
      assert row[b] == (i, jEnd - 1);
      RowPairsMember(cross, minDistance, i, jEnd - 1, prev[a]);
    }
  }

  lemma {:induction false} PairsUpToMember(cross: (nat, nat) -> Crossing, minDistance: real, h: nat, iEnd: nat, q: (nat, nat))
    ensures q in PairsUpTo(cross, minDistance, h, iEnd) <==>
      q.0 < iEnd && q.0 < q.1 < h && Accepts(cross(q.0, q.1), minDistance)
  {
    if iEnd > 0 {
      var ps := PairsUpTo(cross, minDistance, h, iEnd - 1);
      var row := RowPairs(cross, minDistance, iEnd - 1, h);
      assert PairsUpTo(cross, minDistance, h, iEnd) == ps + row;
      var inPs, inRow := q in ps, q in row;
      assert q in ps + row <==> inPs || inRow;
      PairsUpToMember(cross, minDistance, h, iEnd - 1, q);
      RowPairsMember(cross, minDistance, iEnd - 1, h, q);
      assert inPs <==> q.0 < iEnd - 1 && q.0 < q.1 < h && Accepts(cross(q.0, q.1), minDistance);
      assert inRow <==> q.0 == iEnd - 1 && q.0 < q.1 < h && Accepts(cross(q.0, q.1), minDistance);
    }
  }

  lemma RowPairsFirst(cross: (nat, nat) -> Crossing, minDistance: real, i: nat, jEnd: nat, q: (nat, nat))
    requires q in RowPairs(cross, minDistance, i, jEnd)
    ensures q.0 == i
  {
    RowPairsMember(cross, minDistance, i, jEnd, q);
  }

  lemma PairsUpToFirst(cross: (nat, nat) -> Crossing, minDistance: real, h: nat, iEnd: nat, q: (nat, nat))
    requires q in PairsUpTo(cross, minDistance, h, iEnd)
    ensures q.0 < iEnd
  {
    PairsUpToMember(cross, minDistance, h, iEnd, q);
  }

  lemma {:induction false} PairsUpToOrdered(cross: (nat, nat) -> Crossing, minDistance: real, h: nat, iEnd: nat, a: nat, b: nat)
    requires a < b < |PairsUpTo(cross, minDistance, h, iEnd)|
    ensures var ps := PairsUpTo(cross, minDistance, h, iEnd);
      ps[a].0 < ps[b].0 || (ps[a].0 == ps[b].0 && ps[a].1 < ps[b].1)
  {
    var ps := PairsUpTo(cross, minDistance, h, iEnd - 1);
    var all := ps + RowPairs(cross, minDistance, iEnd - 1, h);
    assert all == PairsUpTo(cross, minDistance, h, iEnd);
    if b < |ps| {
      assert all[a] == ps[a] && all[b] == ps[b];
      PairsUpToOrdered(cross, minDistance, h, iEnd - 1, a, b);
    } else {
      PairsUpToOrderedInRow(cross, minDistance, h, iEnd, a, b);
    }
  }

  /** Where two positions of a concatenation land: b in the second part, a in either. */
  lemma InRow(ps: seq<(nat, nat)>, row: seq<(nat, nat)>, a: nat, b: nat, x: (nat, nat), y: (nat, nat))
    requires a < b && |ps| <= b < |ps| + |row| && y == row[b - |ps|]
    requires a < |ps| ==> x == ps[a]
    requires a >= |ps| ==> x == row[a - |ps|]
    ensures (ps + row)[a] == x && (ps + row)[b] == y
  {
  }

  /** The case where the later pair is in the last row. */
  lemma PairsUpToOrderedInRow(cross: (nat, nat) -> Crossing, minDistance: real, h: nat, iEnd: nat, a: nat, b: nat)
    requires iEnd > 0 && |PairsUpTo(cross, minDistance, h, iEnd - 1)| <= b
    requires a < b < |PairsUpTo(cross, minDistance, h, iEnd)|
    ensures var ps := PairsUpTo(cross, minDistance, h, iEnd);
      ps[a].0 < ps[b].0 || (ps[a].0 == ps[b].0 && ps[a].1 < ps[b].1)
  {
    var ps := PairsUpTo(cross, minDistance, h, iEnd - 1);
    var row := RowPairs(cross, minDistance, iEnd - 1, h);
    assert PairsUpTo(cross, minDistance, h, iEnd) == ps + row;
    var y := row[b - |ps|];
    assert y.0 == iEnd - 1 by {
      RowPairsFirst(cross, minDistance, iEnd - 1, h, y);
    }
    if a < |ps| {
      var x := ps[a];
      assert x.0 < iEnd - 1 by {
        PairsUpToFirst(cross, minDistance, h, iEnd - 1, x);
      }
      InRow(ps, row, a, b, x, y);
    } else {
      var x := row[a - |ps|];
      assert x.0 == iEnd - 1 && x.1 < y.1 by {
        RowPairsFirst(cross, minDistance, iEnd - 1, h, x);
        RowPairsOrdered(cross, minDistance, iEnd - 1, h, a - |ps|, b - |ps|);
      }
      InRow(ps, row, a, b, x, y);
    }
  }

  /** getCrossing records exactly the unordered pairs of distinct helices in
      contact closer than minDistance, each once, in lexicographic order. */
  lemma CrossingPairsExact(cross: (nat, nat) -> Crossing, minDistance: real, h: nat)
    ensures forall q :: q in CrossingPairs(cross, minDistance, h) <==>
      q.0 < q.1 < h && Accepts(cross(q.0, q.1), minDistance)
    ensures LexIncreasing(CrossingPairs(cross, minDistance, h))
  {
    forall q: (nat, nat)
      ensures q in CrossingPairs(cross, minDistance, h) <==> q.0 < q.1 < h && Accepts(cross(q.0, q.1), minDistance)
    {
      PairsUpToMember(cross, minDistance, h, h, q);
    }
    var ps := CrossingPairs(cross, minDistance, h);
    forall a, b | 0 <= a < b < |ps|
      ensures ps[a].0 < ps[b].0 || (ps[a].0 == ps[b].0 && ps[a].1 < ps[b].1)
    {
      PairsUpToOrdered(cross, minDistance, h, h, a, b);
    }
  }

  /** Vector3.toArray at the end of a flat array. */
  function Triple(v: Spline.Vec3): seq<real>
  {
    [v.x, v.y, v.z]
  }

  /** A list of points written one after the other with Vector3.toArray(array, 3 * index). */
  function Flat(vs: seq<Spline.Vec3>): (r: seq<real>)
    ensures |r| == 3 * |vs|
  {
    if vs == [] then [] else Flat(vs[..|vs| - 1]) + Triple(vs[|vs| - 1])
  }

  lemma FlatSnoc(vs: seq<Spline.Vec3>, v: Spline.Vec3)
    ensures Flat(vs + [v]) == Flat(vs) + Triple(v)
  {
    assert (vs + [v])[..|vs|] == vs;
  }

  /** Flattening one more point of a list appends its triple. */
  lemma FlatPrefixStep(vs: seq<Spline.Vec3>, i: nat)
    requires i < |vs|
    ensures Flat(vs[..i + 1]) == Flat(vs[..i]) + Triple(vs[i])
  {
    assert vs[..i + 1] == vs[..i] + [vs[i]];
    FlatSnoc(vs[..i], vs[i]);
  }

  /** Point q of the list is the q-th triple of the flat array. */
  lemma {:induction false} FlatAt(vs: seq<Spline.Vec3>, q: nat)
    requires q < |vs|
    ensures Flat(vs)[3 * q..3 * q + 3] == Triple(vs[q])
    decreases |vs|
  {
    var init := vs[..|vs| - 1];
    if q < |init| {
      FlatAt(init, q);
      assert Flat(vs)[..3 * |init|] == Flat(init);
    }
  }

  /** The info entry of the pair of helices i and j. */
  function InfoOf(cross: (nat, nat) -> Crossing, i: nat, j: nat): CrossingInfo
  {
    var c := cross(i, j);
    CrossingInfo(i + 1, j + 1, c.angle, c.distance, c.maxOverlap)
  }

  /** The three lists getCrossing fills for the recorded pairs: info, begin and end. */
  datatype PairLists = PairLists(info: seq<CrossingInfo>, begin: seq<real>, end: seq<real>)

  /** The lists after recording the pairs ps in order. */
  function Recorded(cross: (nat, nat) -> Crossing, ps: seq<(nat, nat)>): (r: PairLists)
    ensures |r.info| == |ps| && |r.begin| == 3 * |ps| && |r.end| == 3 * |ps|
  {
    if ps == [] then PairLists([], [], [])
    else
      var r := Recorded(cross, ps[..|ps| - 1]);
      var q := ps[|ps| - 1];
      PairLists(r.info + [InfoOf(cross, q.0, q.1)], r.begin + Triple(cross(q.0, q.1).p1), r.end + Triple(cross(q.0, q.1).p2))
  }

  lemma RecordedSnoc(cross: (nat, nat) -> Crossing, ps: seq<(nat, nat)>, q: (nat, nat))
    ensures var r := Recorded(cross, ps);
      Recorded(cross, ps + [q]) ==
      PairLists(r.info + [InfoOf(cross, q.0, q.1)], r.begin + Triple(cross(q.0, q.1).p1), r.end + Triple(cross(q.0, q.1).p2))
  {
    assert (ps + [q])[..|ps|] == ps;
  }

  /** Entry k of info, and triple k of begin and end, belong to the k-th recorded pair. */
  lemma {:induction false} RecordedAt(cross: (nat, nat) -> Crossing, ps: seq<(nat, nat)>, k: nat)
    requires k < |ps|
    ensures var r := Recorded(cross, ps); var c := cross(ps[k].0, ps[k].1);
      r.info[k] == InfoOf(cross, ps[k].0, ps[k].1) &&
      r.begin[3 * k..3 * k + 3] == Triple(c.p1) && r.end[3 * k..3 * k + 3] == Triple(c.p2)
  {
    var init := ps[..|ps| - 1];
    if k < |init| {
      RecordedAt(cross, init, k);
      var r := Recorded(cross, ps);
      var r0 := Recorded(cross, init);
      assert r.info[..|init|] == r0.info;
      assert r.begin[..3 * |init|] == r0.begin;
      assert r.end[..3 * |init|] == r0.end;
    }
  }

  /** HelixCrossing.getCrossing over the given helices' centres; minDistance
      defaults to 12.  Labels and centres come one per helix; info, begin and
      end hold what is recorded for the pairs in contact. */
  method GetCrossing(cross: (nat, nat) -> Crossing, centers: seq<Spline.Vec3>, minDistance: Option<real>)
    returns (labels: seq<string>, helixCenter: seq<real>, begin: seq<real>, end: seq<real>, info: seq<CrossingInfo>)
    ensures labels == Labels(|centers|) && helixCenter == Flat(centers)
    ensures PairLists(info, begin, end) == Recorded(cross, CrossingPairs(cross, OrDefault(minDistance, 12.0), |centers|))
  {
    var md := OrDefault(minDistance, 12.0);
    var h := |centers|;
    labels, helixCenter, begin, end, info := [], [], [], [], [];
    ghost var ps: seq<(nat, nat)> := [];
    for i := 0 to h
      invariant ps == PairsUpTo(cross, md, h, i)
      invariant labels == Labels(i) && helixCenter == Flat(centers[..i])
      invariant PairLists(info, begin, end) == Recorded(cross, ps)
    {
      labels := labels + [HelixLabel(i)];
      FlatPrefixStep(centers, i);
      helixCenter := helixCenter + Triple(centers[i]);
      ps, info, begin, end := CrossRow(cross, md, h, i, ps, info, begin, end);
    }
    assert centers[..h] == centers;
  }

  /** The inner loop of getCrossing: helix i against every later helix,
      appending to the lists recorded so far for the pairs ps. */
  method CrossRow(cross: (nat, nat) -> Crossing, md: real, h: nat, i: nat, ghost ps: seq<(nat, nat)>,
                  info: seq<CrossingInfo>, begin: seq<real>, end: seq<real>)
    returns (ghost ps': seq<(nat, nat)>, info': seq<CrossingInfo>, begin': seq<real>, end': seq<real>)
    requires i < h
    requires PairLists(info, begin, end) == Recorded(cross, ps)
    ensures ps' == ps + RowPairs(cross, md, i, h)
    ensures PairLists(info', begin', end') == Recorded(cross, ps')
  {
    ps', info', begin', end' := ps, info, begin, end;
    ghost var row: seq<(nat, nat)> := [];
    for j := i + 1 to h
      invariant row == RowPairs(cross, md, i, j) && ps' == ps + row
      invariant PairLists(info', begin', end') == Recorded(cross, ps')
    {
      var c := cross(i, j);
      RowPairsStep(cross, md, i, j);
      if c.contact && c.distance < md {
        RecordedSnoc(cross, ps', (i, j));
        info' := info' + [CrossingInfo(i + 1, j + 1, c.angle, c.distance, c.maxOverlap)];
        begin' := begin' + Triple(c.p1);
        end' := end' + Triple(c.p2);
        ps' := ps' + [(i, j)];
        row := row + [(i, j)];
      }
    }
  }
}
