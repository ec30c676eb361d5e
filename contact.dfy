/**
 * Contact.within and the bond filter of polarContacts.
 *
 * within visits the atoms of the first view; for each it asks the k-d tree of
 * the second view for the atoms within maxDistance and records a bond to every
 * neighbour in another residue (and, when minDistance is truthy, farther than
 * minDistance).  The k-d tree search is an input: for an atom index and a
 * maximum distance it gives the neighbour list in the tree's order.
 * polarContacts then switches off the bonds between backbone O and N atoms and
 * the bonds whose hydrogen-bond angle is out of range; the angle tests are
 * floating-point geometry and are inputs too.
 */
module Contact {
  import opened Wrappers

  /** One entry of the neighbour list: an atom of the second view and its distance. */
  datatype Neighbour = Neighbour(index: nat, distance: real)

  /** What within reads: the atoms of the first view in visiting order, the
      k-d tree search over the second view, and the residue of every atom. */
  datatype Views = Views(atoms: seq<nat>, nearest: (nat, real) -> seq<Neighbour>, residueOf: nat -> int)

  /** A bond of the bond store: atomIndex1, atomIndex2 (the bond order is always 1). */
  type Bond = (nat, nat)

  /** Whether within records a bond from probe to neighbour d. */
  predicate Accepts(v: Views, minDistance: Option<real>, probe: nat, d: Neighbour)
  {
    v.residueOf(probe) != v.residueOf(d.index) && (Falsy(minDistance) || d.distance > minDistance.value)
  }

  /** The bonds recorded for one probe atom from its neighbour list ns, in order. */
  function ProbeBonds(v: Views, minDistance: Option<real>, probe: nat, ns: seq<Neighbour>): seq<Bond>
  {
    if ns == [] then []
    else
      var last: seq<Bond> := if Accepts(v, minDistance, probe, ns[|ns| - 1]) then [(probe, ns[|ns| - 1].index)] else [];
      ProbeBonds(v, minDistance, probe, ns[..|ns| - 1]) + last
  }

  /** The bonds recorded for the probe atoms in order. */
  function Bonds(v: Views, maxDistance: real, minDistance: Option<real>, atoms: seq<nat>): seq<Bond>
  {
    if atoms == [] then []
    else
      var probe := atoms[|atoms| - 1];
      Bonds(v, maxDistance, minDistance, atoms[..|atoms| - 1]) + ProbeBonds(v, minDistance, probe, v.nearest(probe, maxDistance))
  }

  /** The atoms a list of bonds touches. */
  function Ends(bs: seq<Bond>): set<nat>
  {
    (set b | b in bs :: b.0) + (set b | b in bs :: b.1)
  }

  /** The second atoms of a list of bonds. */
  function Targets(bs: seq<Bond>): set<nat>
  {
    set b | b in bs :: b.1
  }

  lemma {:induction false} ProbeBondsMember(v: Views, minDistance: Option<real>, probe: nat, ns: seq<Neighbour>, b: Bond)
    ensures b in ProbeBonds(v, minDistance, probe, ns) <==>
      b.0 == probe && exists d :: d in ns && d.index == b.1 && Accepts(v, minDistance, probe, d)
  {
    if ns != [] {
      var init := ns[..|ns| - 1];
      ProbeBondsMember(v, minDistance, probe, init, b);
      var d := ns[|ns| - 1];
      assert ns == init + [d];
      if b in ProbeBonds(v, minDistance, probe, ns) && b !in ProbeBonds(v, minDistance, probe, init) {
        assert d in ns && d.index == b.1;
      }
      if b.0 == probe && exists d' :: d' in ns && d'.index == b.1 && Accepts(v, minDistance, probe, d') {
        var d' :| d' in ns && d'.index == b.1 && Accepts(v, minDistance, probe, d');
        if d' != d {
          assert d' in init;
        }
      }
    }
  }

  /** within records a bond (a, b) exactly when a is an atom of the first view and
      b is one of its neighbours, in another residue and beyond a truthy minDistance. */
  lemma {:induction false} BondsMember(v: Views, maxDistance: real, minDistance: Option<real>, atoms: seq<nat>, b: Bond)
    ensures b in Bonds(v, maxDistance, minDistance, atoms) <==>
      b.0 in atoms && exists d :: d in v.nearest(b.0, maxDistance) && d.index == b.1 && Accepts(v, minDistance, b.0, d)
  {
    if atoms != [] {
      var init := atoms[..|atoms| - 1];
      var probe := atoms[|atoms| - 1];
      BondsMember(v, maxDistance, minDistance, init, b);
      ProbeBondsMember(v, minDistance, probe, v.nearest(probe, maxDistance), b);
      assert atoms == init + [probe];
    }
  }

  lemma TargetsAppend(bs: seq<Bond>, cs: seq<Bond>)
    ensures Targets(bs + cs) == Targets(bs) + Targets(cs)
    ensures Ends(bs + cs) == Ends(bs) + Ends(cs)
  {
  }

  /** The atoms one probe adds: its accepted neighbours, and itself when it accepted any. */
  lemma ProbeEnds(v: Views, minDistance: Option<real>, probe: nat, ns: seq<Neighbour>)
    ensures var pb := ProbeBonds(v, minDistance, probe, ns);
      Ends(pb) == (if pb == [] then {} else {probe}) + Targets(pb)
  {
    var pb := ProbeBonds(v, minDistance, probe, ns);
    forall b | b in pb
      ensures b.0 == probe
    {
      ProbeBondsMember(v, minDistance, probe, ns, b);
    }
    if pb != [] {
      assert pb[0] in pb;
    }
  }

  /** Contact.within(maxDistance, minDistance): the bond store, the atom set
      (every atom a recorded bond touches) and a bond set with every bond on. */
  method Within(v: Views, maxDistance: real, minDistance: Option<real>)
    returns (bonds: seq<Bond>, atomSet: set<nat>, bondSet: array<bool>)
    ensures bonds == Bonds(v, maxDistance, minDistance, v.atoms)
    ensures atomSet == Ends(bonds)
    ensures fresh(bondSet) && bondSet.Length == |bonds| && forall i :: 0 <= i < bondSet.Length ==> bondSet[i]
  {
    bonds, atomSet := [], {};
    for i := 0 to |v.atoms|
      invariant bonds == Bonds(v, maxDistance, minDistance, v.atoms[..i])
      invariant atomSet == Ends(bonds)
    {
      var probe := v.atoms[i];
      assert v.atoms[..i + 1][..i] == v.atoms[..i];
      var pb, targets, found := ProbeContacts(v, minDistance, probe, v.nearest(probe, maxDistance));
      ProbeEnds(v, minDistance, probe, v.nearest(probe, maxDistance));
      TargetsAppend(bonds, pb);
      bonds := bonds + pb;
      atomSet := atomSet + targets;
      if found {
        atomSet := atomSet + {probe};
      }
    }
    assert v.atoms[..|v.atoms|] == v.atoms;
    bondSet := new bool[|bonds|](_ => true);
  }

  /** The inner loop of within over one probe's neighbour list. */
  method ProbeContacts(v: Views, minDistance: Option<real>, probe: nat, ns: seq<Neighbour>)
    returns (pb: seq<Bond>, targets: set<nat>, found: bool)
    ensures pb == ProbeBonds(v, minDistance, probe, ns)
    ensures targets == Targets(pb)
    ensures found <==> pb != []
  {
    pb, targets, found := [], {}, false;
    for j := 0 to |ns|
      invariant pb == ProbeBonds(v, minDistance, probe, ns[..j])
      invariant targets == Targets(pb)
      invariant found <==> pb != []
    {
      var d := ns[j];
      assert ns[..j + 1][..j] == ns[..j];
      if v.residueOf(probe) != v.residueOf(d.index) && (Falsy(minDistance) || d.distance > minDistance.value) {
        TargetsAppend(pb, [(probe, d.index)]);
        pb := pb + [(probe, d.index)];
        targets := targets + {d.index};
        found := true;
      }
    }
    assert ns[..|ns|] == ns;
  }

  // ---- polarContacts ----

  /** The names of an atom that the bond filter reads. */
  datatype AtomNames = AtomNames(atomname: string, resname: string)

  /** The angle tests of polarContacts for bond i under maxAngle (floating-point
      geometry, given as inputs): whether the donor-N test flips the bond, and
      whether the tyrosine OH test passes. */
  datatype AngleTests = AngleTests(nFlips: (nat, real) -> bool, tyrOk: (nat, real) -> bool)

  predicate IsTyrOH(a: AtomNames)
  {
    a.atomname == "OH" && a.resname == "TYR"
  }

  /** A contact between a backbone O and a backbone N (in either order). */
  predicate BackbonePair(a1: AtomNames, a2: AtomNames)
  {
    (a1.atomname == "O" && a2.atomname == "N") || (a1.atomname == "N" && a2.atomname == "O")
  }

  /** Whether polarContacts flips the bit of bond i. */
  predicate Flips(names: nat -> AtomNames, tests: AngleTests, maxAngle: real, bonds: seq<Bond>, i: nat)
    requires i < |bonds|
  {
    var a1 := names(bonds[i].0);
    var a2 := names(bonds[i].1);
    if BackbonePair(a1, a2) then true
    else if a1.atomname == "N" || a2.atomname == "N" then tests.nFlips(i, maxAngle)
    else if IsTyrOH(a1) || IsTyrOH(a2) then !tests.tyrOk(i, maxAngle)
    else false
  }

  /** The flip loop of polarContacts over the bond set. */
  method FlipBonds(bondSet: array<bool>, names: nat -> AtomNames, tests: AngleTests, maxAngle: real, bonds: seq<Bond>)
    requires bondSet.Length == |bonds|
    modifies bondSet
    ensures forall i :: 0 <= i < |bonds| ==> bondSet[i] == (old(bondSet[i]) != Flips(names, tests, maxAngle, bonds, i))
  {
    for i := 0 to |bonds|
      invariant forall l :: 0 <= l < i ==> bondSet[l] == (old(bondSet[l]) != Flips(names, tests, maxAngle, bonds, l))
      invariant forall l :: i <= l < |bonds| ==> bondSet[l] == old(bondSet[l])
    {
      var a1 := names(bonds[i].0);
      var a2 := names(bonds[i].1);
      if (a1.atomname == "O" && a2.atomname == "N") || (a1.atomname == "N" && a2.atomname == "O") {
        bondSet[i] := !bondSet[i];
      } else if a1.atomname == "N" || a2.atomname == "N" {
        if tests.nFlips(i, maxAngle) {
          bondSet[i] := !bondSet[i];
        }
      } else if (a1.atomname == "OH" && a1.resname == "TYR") || (a2.atomname == "OH" && a2.resname == "TYR") {
        if !tests.tyrOk(i, maxAngle) {
          bondSet[i] := !bondSet[i];
        }
      }
    }
  }

  /** polarContacts: maxDistance defaults to 3.5 and maxAngle to 40; within is
      run without a minimum distance, and a bond stays on exactly when it is not flipped. */
  method PolarContacts(v: Views, names: nat -> AtomNames, tests: AngleTests, maxDistance: Option<real>, maxAngle: Option<real>)
    returns (bonds: seq<Bond>, atomSet: set<nat>, bondSet: array<bool>)
    ensures bonds == Bonds(v, OrDefault(maxDistance, 3.5), None, v.atoms) && atomSet == Ends(bonds)
    ensures bondSet.Length == |bonds|
    ensures forall i :: 0 <= i < |bonds| ==> (bondSet[i] <==> !Flips(names, tests, OrDefault(maxAngle, 40.0), bonds, i))
  {
    var md := OrDefault(maxDistance, 3.5);
    var ma := OrDefault(maxAngle, 40.0);
    bonds, atomSet, bondSet := Within(v, md, None);
    FlipBonds(bondSet, names, tests, ma, bonds);
  }

  /** Backbone O–N contacts are always switched off, whatever the angles. */
  lemma BackboneContactsDropped(names: nat -> AtomNames, tests: AngleTests, maxAngle: real, bonds: seq<Bond>, i: nat)
    requires i < |bonds| && BackbonePair(names(bonds[i].0), names(bonds[i].1))
    ensures Flips(names, tests, maxAngle, bonds, i)
  {
  }

  /** A contact with no N atom and no tyrosine OH is always kept. */
  lemma OtherContactsKept(names: nat -> AtomNames, tests: AngleTests, maxAngle: real, bonds: seq<Bond>, i: nat)
    requires i < |bonds|
    requires var a1 := names(bonds[i].0); var a2 := names(bonds[i].1);
      a1.atomname != "N" && a2.atomname != "N" && !IsTyrOH(a1) && !IsTyrOH(a2)
    ensures !Flips(names, tests, maxAngle, bonds, i)
  {
  }
}
