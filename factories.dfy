/**
 * The per-atom radius and colour factories of a structure.
 *
 * RadiusFactory.atomRadius is a switch over the factory type; a JavaScript
 * NaN result is modelled as None.  The colour split extracts the three
 * 8-bit channels of a colour number the way the 32-bit shift-and-mask
 * operators do.  Picking colours are the global ids of the GidPool.
 */
module Factories {
  import opened Wrappers
  import GidPool

  const MaxRadius: real := 10.0

  /** The factory's type.  A number becomes Fixed; any other string is Named. */
  datatype RadiusType = Vdw | Covalent | Bfactor | Sstruc | Fixed(value: real) | Named(name: string)

  /** The atom columns the factory reads. */
  datatype AtomInfo = AtomInfo(element: string, bfactor: real, sstruc: string, atomname: string)

  /** An element-radius table with its "" entry as default. */
  datatype RadiusTable = RadiusTable(radii: map<string, real>, default: real)

  datatype RadiusFactory = RadiusFactory(radiusType: RadiusType, scale: real)

  /** The constructor: a falsy scale (0 or absent) becomes 1.0. */
  function NewRadiusFactory(radiusType: RadiusType, scale: Option<real>): (f: RadiusFactory)
    ensures f.radiusType == radiusType
    ensures f.scale != 0.0
    ensures scale.Some? && scale.value != 0.0 ==> f.scale == scale.value
    ensures scale.None? || scale.value == 0.0 ==> f.scale == 1.0
  {
    RadiusFactory(radiusType, if scale.Some? && scale.value != 0.0 then scale.value else 1.0)
  }

  /** `table[element] || default`: a missing entry or a zero falls back to the default. */
  function Lookup(t: RadiusTable, element: string): (r: real)
    ensures element !in t.radii ==> r == t.default
    ensures element in t.radii && t.radii[element] != 0.0 ==> r == t.radii[element]
  {
    if element in t.radii && t.radii[element] != 0.0 then t.radii[element] else t.default
  }

  predicate IsHelixOrStrand(sstruc: string)
  {
    sstruc in ["h", "g", "i", "e", "b"]
  }

  predicate IsNucleicBackbone(atomname: string)
  {
    atomname in ["C3'", "C3*", "C4'", "C4*", "P"]
  }

  /** Math.min(r * scale, max). */
  function Scaled(r: real, scale: real): (v: real)
    ensures v <= MaxRadius
  {
    if r * scale <= MaxRadius then r * scale else MaxRadius
  }

  /** The radius before scaling, None where JavaScript computes NaN. */
  function BaseRadius(f: RadiusFactory, a: AtomInfo, vdw: RadiusTable, covalent: RadiusTable): Option<real>
  {
    match f.radiusType
    case Vdw => Some(Lookup(vdw, a.element))
    case Covalent => Some(Lookup(covalent, a.element))
    case Bfactor => Some(if a.bfactor != 0.0 then a.bfactor else 1.0)
    case Sstruc =>
      if IsHelixOrStrand(a.sstruc) then Some(0.25)
      else if IsNucleicBackbone(a.atomname) then Some(0.4)
      else Some(0.1)
    case Fixed(v) => Some(if v != 0.0 then v else 1.0)
    case Named(name) => if name == "" then Some(1.0) else None
  }

  /** atomRadius: min(r * scale, 10). */
  function AtomRadius(f: RadiusFactory, a: AtomInfo, vdw: RadiusTable, covalent: RadiusTable): (r: Option<real>)
    ensures r.Some? ==> r.value <= MaxRadius
    ensures f.radiusType == Sstruc && IsHelixOrStrand(a.sstruc) ==> r == Some(Scaled(0.25, f.scale))
    ensures f.radiusType == Sstruc && !IsHelixOrStrand(a.sstruc) && IsNucleicBackbone(a.atomname) ==>
      r == Some(Scaled(0.4, f.scale))
    ensures f.radiusType == Sstruc && !IsHelixOrStrand(a.sstruc) && !IsNucleicBackbone(a.atomname) ==>
      r == Some(Scaled(0.1, f.scale))
    ensures f.radiusType == Bfactor && a.bfactor == 0.0 ==> r == Some(Scaled(1.0, f.scale))
    ensures f.radiusType == Bfactor && a.bfactor != 0.0 ==> r == Some(Scaled(a.bfactor, f.scale))
    ensures f.radiusType.Vdw? ==> r == Some(Scaled(Lookup(vdw, a.element), f.scale))
    ensures f.radiusType.Covalent? ==> r == Some(Scaled(Lookup(covalent, a.element), f.scale))
    ensures f.radiusType.Fixed? && f.radiusType.value != 0.0 ==> r == Some(Scaled(f.radiusType.value, f.scale))
    ensures f.radiusType == Fixed(0.0) ==> r == Some(Scaled(1.0, f.scale))
    ensures f.radiusType == Named("") ==> r == Some(Scaled(1.0, f.scale))
    ensures f.radiusType.Named? && f.radiusType.name != "" ==> r.None?
  {
    var b := BaseRadius(f, a, vdw, covalent);
    if b.Some? then Some(Scaled(b.value, f.scale)) else None
  }

  /** With positive tables, a non-negative fixed size and a positive scale,
      every recognised type yields a radius in (0, 10]. */
  lemma RadiusInRange(f: RadiusFactory, a: AtomInfo, vdw: RadiusTable, covalent: RadiusTable)
    requires f.scale > 0.0
    requires vdw.default > 0.0 && covalent.default > 0.0
    requires forall e :: e in vdw.radii ==> vdw.radii[e] >= 0.0
    requires forall e :: e in covalent.radii ==> covalent.radii[e] >= 0.0
    requires f.radiusType == Bfactor ==> a.bfactor >= 0.0
    requires f.radiusType.Fixed? ==> f.radiusType.value >= 0.0
    requires f.radiusType.Named? ==> f.radiusType.name == ""
    ensures AtomRadius(f, a, vdw, covalent).Some?
    ensures 0.0 < AtomRadius(f, a, vdw, covalent).value <= MaxRadius
  {
    var b := BaseRadius(f, a, vdw, covalent);
    assert b.Some? && b.value > 0.0;
    assert b.value * f.scale > 0.0;
  }

  // ---- Colours ----

  const TwoTo32: int := 0x1_0000_0000

  /** (c >> shift) & 255 on the 32-bit integer that JavaScript converts c to. */
  function Channel(c: int, shift: nat): (v: int)
    requires shift == 0 || shift == 8 || shift == 16
    ensures 0 <= v < 256
  {
    var d := if shift == 0 then 1 else if shift == 8 then 0x100 else 0x1_0000;
    (c % TwoTo32) / d % 256
  }

  function Red(c: int): int { Channel(c, 16) }
  function Green(c: int): int { Channel(c, 8) }
  function Blue(c: int): int { Channel(c, 0) }

  /** A 24-bit colour is recovered from its three channels. */
  lemma ChannelsRecompose(c: int)
    requires 0 <= c < 0x100_0000
    ensures 0x1_0000 * Red(c) + 0x100 * Green(c) + Blue(c) == c
  {
    assert c % TwoTo32 == c;
    var r, g, b := c / 0x1_0000, c / 0x100 % 256, c % 256;
    assert Red(c) == r;
    assert c / 0x100 == 0x100 * r + g;
    assert c == 0x100 * (c / 0x100) + b;
  }

  /** The channels of a colour number depend only on its low 24 bits, so two
      colours below 2^24 with equal channels are equal. */
  lemma ChannelsDetermineColour(c1: int, c2: int)
    requires 0 <= c1 < 0x100_0000 && 0 <= c2 < 0x100_0000
    requires Red(c1) == Red(c2) && Green(c1) == Green(c2) && Blue(c1) == Blue(c2)
    ensures c1 == c2
  {
    ChannelsRecompose(c1);
    ChannelsRecompose(c2);
  }

  /** ColorMaker.atomColorToArray with the colour already computed:
      writes the three channels, each divided by 255, at offset..offset+2. */
  method AtomColorToArray(c: int, arr: array<real>, offset: nat)
    requires offset + 3 <= arr.Length
    modifies arr
    ensures arr[offset] == Red(c) as real / 255.0
    ensures arr[offset + 1] == Green(c) as real / 255.0
    ensures arr[offset + 2] == Blue(c) as real / 255.0
    ensures forall k :: 0 <= k < arr.Length && !(offset <= k < offset + 3) ==> arr[k] == old(arr[k])
  {
    arr[offset + 0] := Red(c) as real / 255.0;
    arr[offset + 1] := Green(c) as real / 255.0;
    arr[offset + 2] := Blue(c) as real / 255.0;
  }

  // ---- Picking colours ----

  /** PickingColorMaker.atomColor: the gid of the structure at the atom's index. */
  function PickingAtomColor(s: GidPool.PoolState, structure: nat, atomIndex: nat): int
    requires |s.objectList| == |s.rangeList|
  {
    GidPool.GidOf(s, structure, Some(atomIndex))
  }

  /** PickingColorMaker.bondColor: bonds are numbered after the atoms. */
  function PickingBondColor(s: GidPool.PoolState, structure: nat, atomCount: nat, bondIndex: nat): int
    requires |s.objectList| == |s.rangeList|
  {
    GidPool.GidOf(s, structure, Some(atomCount + bondIndex))
  }

  /** PickingColorMaker.volumeColor. */
  function PickingVolumeColor(s: GidPool.PoolState, volume: nat, i: nat): int
    requires |s.objectList| == |s.rangeList|
  {
    GidPool.GidOf(s, volume, Some(i))
  }

  /** In a registered structure whose range covers its atoms and bonds, no
      atom and no bond share a picking colour, every colour is a non-zero id
      below nextGid, and below the 2^24 ceiling its channels decode back to it. */
  lemma PickingColorsDistinct(s: GidPool.PoolState, structure: nat, atomCount: nat, bondCount: nat,
                              i: nat, j: nat, b: nat)
    requires GidPool.Inv(s) && structure in s.objectList
    requires GidPool.Len(s.rangeList[GidPool.IndexOf(s.objectList, structure)]) == atomCount + bondCount
    requires i < atomCount && j < atomCount && b < bondCount
    ensures i != j ==> PickingAtomColor(s, structure, i) != PickingAtomColor(s, structure, j)
    ensures PickingAtomColor(s, structure, i) != PickingBondColor(s, structure, atomCount, b)
    ensures 1 <= PickingAtomColor(s, structure, i) < s.nextGid
    ensures 1 <= PickingBondColor(s, structure, atomCount, b) < s.nextGid
    ensures s.nextGid <= GidPool.GidCeiling ==>
      0x1_0000 * Red(PickingAtomColor(s, structure, i)) + 0x100 * Green(PickingAtomColor(s, structure, i))
        + Blue(PickingAtomColor(s, structure, i)) == PickingAtomColor(s, structure, i)
  {
    var r := s.rangeList[GidPool.IndexOf(s.objectList, structure)];
    assert GidPool.NonEmpty(r);
    if s.nextGid <= GidPool.GidCeiling {
      ChannelsRecompose(PickingAtomColor(s, structure, i));
    }
  }

  /** Two different registered objects never share a picking colour. */
  lemma PickingColorsDistinctAcrossObjects(s: GidPool.PoolState, o1: nat, k1: nat, o2: nat, k2: nat)
    requires GidPool.Inv(s) && o1 in s.objectList && o2 in s.objectList && o1 != o2
    requires k1 < GidPool.Len(s.rangeList[GidPool.IndexOf(s.objectList, o1)])
    requires k2 < GidPool.Len(s.rangeList[GidPool.IndexOf(s.objectList, o2)])
    ensures PickingVolumeColor(s, o1, k1) != PickingAtomColor(s, o2, k2)
  {
    GidPool.GidsAreUnique(s, o1, k1, o2, k2);
  }
}
