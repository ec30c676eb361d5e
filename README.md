# NGL and Indigo core, modelled in Dafny

This project models the index-heavy core of the NGL molecular viewer (the JavaScript
under `js/ngl/`) and of Indigo's reaction SMILES loader
(`reaction/src/rsmiles_loader.cpp`), and proves what that code promises. It is split
into one module per component:

- **GidPool** (`gid_pool.dfy`): the global-id allocator. It is a class over
  `nextGid`, the object list and the range list. Its methods are proved against pure
  state functions (`Add`, `Remove`, `Update`), and lemmas show that those functions
  keep the ranges parallel, disjoint and below `nextGid`.
- **Selection** (`selection.dfy`): the atom and bond bitsets of a selection, the
  `eachAtom` visitor, and the sliding-window visitors `eachResidueN` and
  `Fiber.eachAtomN`.
- **Factories** (`factories.dfy`): `RadiusFactory.atomRadius` with its clamp, the
  24-bit colour split of `atomColorToArray`, and the picking colours built on the
  gid pool.
- **Spline** (`spline.dfy`): `Spline.interpolate` over reals, and the layout of
  `getPosition`, `getSubdividedSize` and `getSubdividedColor`. Each fill method is
  proved against a table function whose entries are given by lemmas.
- **Helix** and **Contact** (`helix.dfy`, `contact.dfy`):
  - the segmentation loop of `Helixbundle.getAxis`;
  - the pair enumeration of `HelixCrossing.getCrossing`;
  - the neighbour acceptance rule of `Contact.within`, and the bond flipping of
    `polarContacts`.
- **BufferIndex** and **BufferAttributes** (`buffer_index.dfy`,
  `buffer_attributes.dfy`): the index arrays of the mapped, geometry, ribbon and tube
  buffers, and the attribute arrays of the line, trace, ribbon and mapped buffers. All
  of them are filled in place in Dafny arrays.
- **Wireframe** (`wireframe.dfy`): the edge de-duplication of `makeWireframeIndex`
  and the width of the index array it allocates.
- **Atlas** (`text_atlas.dfy`): the memoised row packing of `TextAtlas.map`.
- **Streamer** (`streamer.dfy`): chunking and the line splitting with a carried
  partial line, `nextChunk`, `nextChunkOfLines`, `eachChunk`, `eachChunkOfLines`,
  `lineCount` and the JSON round trip. Lemmas prove that the lines rebuild the data.
- **Loader** (`loader.dfy`):
  - the case-insensitive datasource registry with its pass-through;
  - the RCSB URL mapping;
  - the `Loader` constructor defaults;
  - `loaderMap`.
- **Decimal**, **Scanning**, **RSmiles**, **RSmilesExtensions**, **RSmilesMerge**
  (`decimal.dfy`, `scanner.dfy`, `rsmiles.dfy`, `rsmiles_extensions.dfy`,
  `rsmiles_merge.dfy`):
  - the character scanner the loader reads from;
  - the split of `reactants>agents>products`;
  - `_selectGroupByPair` and `_selectGroup`;
  - the ChemAxon `|...|` extension block and its error cases;
  - the fragment-merge loop that emits each component once.
- **Wrappers**, **IndexTypes**, **Seqs** (`wrappers.dfy`, `index_types.dfy`,
  `seqs.dfy`): `Option` and `Result`, typed-array element widths, and sequence
  flattening.

Molecules are abstracted to their atom (vertex) and bond (edge) counts per reaction
group. Floating-point geometry is replaced by reals, or left out where the source
computes normals, angles or distances.

## Model

| member | source | states |
|---|---|---|
| `GidPool.IndexOf` | js/ngl/structure.js:30-47 | the position of the first occurrence of an id, -1 exactly when the id is absent (`indexOf` on the object list) |
| `GidPool.AddPreservesInv` | js/ngl/structure.js:20-28 | adding an object keeps the lists parallel and the live ranges disjoint and below `nextGid`; the new range is [nextGid, nextGid + count) at the appended position and `nextGid` advances by exactly the count |
| `GidPool.RemoveEffect` | js/ngl/structure.js:30-47 | removing an unregistered object changes nothing; removing a registered one drops one entry from both lists, resets `nextGid` to 1 only when the list becomes empty, and keeps the invariant |
| `GidPool.UpdatePreservesInv` | js/ngl/structure.js:49-81 | updating keeps the invariant and the object list, leaves every other object's range alone, gives the updated object a range of its new count that ends at the new `nextGid`, and changes nothing for an unknown object |
| `GidPool.GidsAreUnique` | js/ngl/structure.js:20-117 | under the invariant, ids handed to two different registered objects never coincide and lie in [1, nextGid) |
| `GidPool.GidAfterAdd` | js/ngl/structure.js:131-153 | after adding an object, its k-th id is the old `nextGid` + k, and a missing offset counts as 0 |
| `GidPool.GidOfUnregistered` | js/ngl/structure.js:131-153 | an object that is not registered gets id 0 |
| `GidPool.GidPool.constructor` | js/ngl/structure.js:10-18 | a fresh pool starts at `nextGid` 1 with empty lists |
| `GidPool.GidPool.AllocateGidRange` | js/ngl/structure.js:105-117 | returns [nextGid, nextGid + count), advances `nextGid` by the count, reports overflow exactly when the new `nextGid` exceeds 2^24, and leaves the lists alone |
| `GidPool.GidPool.AddObject` | js/ngl/structure.js:20-28 | the pool's new state is `Add` of the old one, the invariant holds, and overflow is reported exactly when the new `nextGid` passes the ceiling |
| `GidPool.GidPool.RemoveObject` | js/ngl/structure.js:30-47 | the pool's new state is `Remove` of the old one and the invariant holds |
| `GidPool.GidPool.UpdateObject` | js/ngl/structure.js:49-81 | the pool's new state is `Update` of the old one; it warns exactly for an unknown object when not silent, and reports overflow as the reallocation does |
| `GidPool.GidPool.GetNextGid` | js/ngl/structure.js:125-129 | returns the current `nextGid` and advances it by one, with the lists unchanged |
| `GidPool.GidPool.GetGid` | js/ngl/structure.js:131-153 | the range start plus the offset (0 when absent) for a registered object; 0 with a warning for an unregistered one |
| `Selection.Intersection` | js/ngl/structure.js:1358-1370 | the result keeps the receiver's size and holds bit k iff both sets hold it |
| `Selection.GetAtomBitSet` | js/ngl/structure.js:1248-1300 | a bitset of `atomCount` bits in which bit i is set iff the selection accepts atom i, all bits without a selection |
| `Selection.GetBondBitSet` | js/ngl/structure.js:1302-1331 | one bit per bond, set iff there is no selection or both of the bond's atoms are selected |
| `Selection.EachAtom` | js/ngl/structure.js:1358-1370 | visits, in increasing order, exactly the atoms that the selection picks and the structure's atom set holds |
| `Selection.EachResidueN` | js/ngl/structure.js:1416-1434 | no call when fewer than n residues; otherwise residueCount - n + 1 calls, the k-th with residues k .. k+n-1 |
| `Selection.EachAtomN` | js/ngl/structure.js:2228-2256 | slides a window of n atoms over the fiber: call k sees atoms[k .. k+n], and with n = 0 the window lags one atom behind |
| `Selection.SlideWindow` | js/ngl/structure.js:2228-2256 | shifting the window by one atom (drop the first, push the next) gives the next slice |
| `Factories.NewRadiusFactory` | js/ngl/structure.js:974-981 | keeps the radius type and replaces a missing or zero scale by 1.0 |
| `Factories.Lookup` | js/ngl/structure.js:998-1059 | an element missing from the table (or mapped to 0) gets the table's default, otherwise its own radius |
| `Factories.Scaled` | js/ngl/structure.js:1058 | a scaled radius never exceeds the clamp of 10 |
| `Factories.AtomRadius` | js/ngl/structure.js:998-1059 | one case per radius type: sstruc gives 0.25 for helix and strand, 0.4 for nucleic backbone atoms, 0.1 otherwise; a zero bfactor becomes 1; vdw and covalent look up the element; a numeric type is the radius itself, 0 becoming 1.0 (`type || 1.0`); every result is scaled and clamped to 10 |
| `Factories.RadiusInRange` | js/ngl/structure.js:998-1059 | with positive tables and scale, every radius is defined and in (0, 10] |
| `Factories.Channel` | js/ngl/structure.js:495-508 | a shifted and masked channel lies in [0, 256) |
| `Factories.ChannelsRecompose` | js/ngl/structure.js:495-508 | for a 24-bit colour the red, green and blue channels recompose to the colour |
| `Factories.ChannelsDetermineColour` | js/ngl/structure.js:495-508 | two 24-bit colours with the same three channels are equal |
| `Factories.AtomColorToArray` | js/ngl/structure.js:495-508 | writes red/255, green/255, blue/255 at offset .. offset+2 and leaves every other slot of the array alone |
| `Factories.PickingColorsDistinct` | js/ngl/structure.js:574-597 | picking colours of two different atoms, and of an atom and a bond, of one structure differ, lie in [1, nextGid), and survive the channel split below the ceiling |
| `Factories.PickingColorsDistinctAcrossObjects` | js/ngl/structure.js:574-597 | a volume's picking colour never equals another registered object's |
| `Spline.Interpolate` | js/ngl/geometry.js:27-37 | the cubic equals p1 at t = 0 and p2 at t = 1, and is the constant when all four control values are equal |
| `Spline.InterpolateLinear` | js/ngl/geometry.js:27-37 | with tension 0.5 on evenly spaced control values the cubic is the straight line a + d*t |
| `Spline.ControlIndex` | js/ngl/geometry.js:300-314 | every control point the four proxies visit lies within the trace extended by one residue at each end |
| `Spline.ControlPoints` | js/ngl/geometry.js:300-314 | segment i reads residues i-1 .. i+2; the closing segment of a cyclic polymer wraps round to residues 0 and 1 |
| `Spline.SampleT` | js/ngl/geometry.js:317-320 | sample j of m sits at t = j/m, in [0, 1) and 0 for the first sample |
| `Spline.PositionsLength` | js/ngl/geometry.js:289-293 | (n-1)*m*3 + 3 numbers, plus m*3 when cyclic |
| `Spline.PositionAt` | js/ngl/geometry.js:310-331 | sample j of segment i sits at offset 3(i*m + j) and interpolates that segment's four control points at t = j/m |
| `Spline.PositionsClose` | js/ngl/geometry.js:354 | the closing sample is residue n-1's trace atom, or residue 0's when cyclic |
| `Spline.PositionsTable` | js/ngl/geometry.js:310-354 | the whole position array, entry by entry, is the sampled spline followed by the closing point |
| `Spline.PositionCount` | js/ngl/geometry.js:289-293 | computes the array length stated by `PositionsLength` |
| `Spline.FillPositionSegments` | js/ngl/geometry.js:310-352 | the nested loop fills offsets [0, 3*segments*m) with the sampled spline and ends with the running offset at that length |
| `Spline.PositionToArray` | js/ngl/geometry.js:354 | writes one atom's x, y, z at k .. k+2 and leaves the prefix alone |
| `Spline.GetPosition` | js/ngl/geometry.js:280-358 | returns exactly the specification `Positions` (length, samples and closing point as stated above) |
| `Spline.PositionStartsAtResidue` | js/ngl/geometry.js:317-325 | the first sample of segment i is residue i's own trace atom |
| `Spline.PositionOnEvenlySpacedTrace` | js/ngl/geometry.js:317-325 | on an evenly spaced trace the samples lie on the straight line through it |
| `Spline.SizeSampleBetween` | js/ngl/geometry.js:191-211 | a size sample lies between the (arrow-scaled) start size and the end size, starts at s1 (times 1.7 on an arrow) and, on an arrow, equals s2 from ceil(m/2) on |
| `Spline.LerpBetween` | js/ngl/geometry.js:213-218 | the linear blend (1-t)*s1 + t*s2 lies between its ends and starts at s1 |
| `Spline.SizesLength` | js/ngl/geometry.js:168-170 | (n-1)*m + 1 sizes, plus m when cyclic |
| `Spline.SizeAt` | js/ngl/geometry.js:182-270 | value j of segment i sits at i*m + j and is the arrow taper or the linear blend of residues i and i+1 |
| `Spline.SizesClose` | js/ngl/geometry.js:272 | the final size copies the one before it |
| `Spline.SizesTable` | js/ngl/geometry.js:182-272 | the whole size array, entry by entry |
| `Spline.SizeCount` | js/ngl/geometry.js:168-170 | computes the length stated by `SizesLength` |
| `Spline.FillLinearSizes` | js/ngl/geometry.js:213-218 | writes the m blended sizes of one segment at k and leaves the prefix alone |
| `Spline.FillArrowSizes` | js/ngl/geometry.js:199-211 | writes the m tapered sizes of an arrow segment at k and leaves the prefix alone |
| `Spline.FillSizeSegments` | js/ngl/geometry.js:182-270 | the segment loop fills [0, segments*m) with the specified sizes |
| `Spline.CopyLastSize` | js/ngl/geometry.js:272 | the last slot copies the one before it; nothing else changes |
| `Spline.GetSubdividedSize` | js/ngl/geometry.js:159-278 | returns exactly the specification `Sizes` |
| `Spline.ColoursLength` | js/ngl/geometry.js:49-52 | (n-1)*m*3 + 3 colour components, plus m*3 when cyclic |
| `Spline.ColourAt` | js/ngl/geometry.js:69-112 | component c of sample j of segment i sits at 3(i*m + j) + c and is the channel of residue i's or residue i+1's colour |
| `Spline.ColoursClose` | js/ngl/geometry.js:114-116 | the last RGB triple copies the previous triple |
| `Spline.ColoursTable` | js/ngl/geometry.js:69-116 | the whole colour array, entry by entry |
| `Spline.FillColour` | js/ngl/geometry.js:77-88 | writes one colour's channels into the samples lo .. hi of a segment and leaves the prefix alone |
| `Spline.FillColourSegments` | js/ngl/geometry.js:69-112 | the segment loop fills [0, 3*segments*m) with the specified colours |
| `Spline.ColourCount` | js/ngl/geometry.js:49-52 | computes the length stated by `ColoursLength` |
| `Spline.CopyLastTriple` | js/ngl/geometry.js:114-116 | the last three slots copy the three before them; nothing else changes |
| `Spline.GetSubdividedColor` | js/ngl/geometry.js:39-123 | returns exactly the specification `Colours` |
| `Spline.ColourSwitchesAtHalf` | js/ngl/geometry.js:77-88 | a segment's first sample takes residue i's colour, its last (for m >= 2) residue i+1's, and every sample one of the two |
| `Helix.AxisDefaults` | js/ngl/geometry.js:1440-1442 | a local angle that is missing or 0 becomes 30 and any other is kept; a centre distance that is missing or 0 becomes 2.5 and any other is kept; a missing ssBorder is false and a given one is kept |
| `Helix.AxisDefaultsSettled` | js/ngl/geometry.js:1440-1442 | the defaulted angle and distance are never 0, so applying the defaults again to their result changes nothing |
| `Helix.RunsFromMembers` | js/ngl/geometry.js:1486-1560 | a run is produced by the scan from (i, j) exactly when it starts at j or at a later residue where a split fired, ends at a split, has no split strictly inside and has last - first >= 4 (at least five residues) |
| `Helix.RunsCharacterised` | js/ngl/geometry.js:1486-1560 | the kept runs of getAxis are exactly the stretches [first, last] that end at a split, start at residue 0 or at the residue where the previous split fired (j = i), contain no other split, and have last - first >= 4 (at least five residues) |
| `Helix.RunsOrdered` | js/ngl/geometry.js:1486-1560 | the kept runs come out in order along the polymer and do not overlap |
| `Helix.ResidueCountCoversRun` | js/ngl/geometry.js:1546-1547 | the intended count, last - first + 1, is at least 1 and makes offset + count - 1 the run's last residue |
| `Helix.ResidueCountAsWrittenOvershoots` | js/ngl/geometry.js:1546-1547 | the count as written exceeds the intended one by exactly residueIndexStart, for every run (10 + run 0..4 gives 15 instead of 5) |
| `Helix.GetAxis` | js/ngl/geometry.js:1438-1568 | one entry per kept run, in order: residueOffset = residueIndexStart + first, residueCount as written, the run's last trace atom, and three vector components per run |
| `Helix.LabelsAre` | js/ngl/geometry.js:1604-1605 | helix i is labelled "H" followed by i + 1, one label per helix |
| `Helix.HelixLabelsDistinct` | js/ngl/geometry.js:1604-1605 | two different helices never get the same label |
| `Helix.RowPairsMember` | js/ngl/geometry.js:1607-1625 | row i records pair (i, j) exactly for i < j < jEnd whose crossing is a contact closer than minDistance |
| `Helix.PairsUpToMember` | js/ngl/geometry.js:1600-1629 | the pairs recorded before row iEnd are exactly the accepted unordered pairs i < j with i < iEnd |
| `Helix.PairsUpToOrdered` | js/ngl/geometry.js:1600-1629 | recorded pairs are in lexicographic order, so each unordered pair is visited once |
| `Helix.CrossingPairsExact` | js/ngl/geometry.js:1586-1639 | the recorded pairs are exactly the accepted pairs i < j < h, in lexicographic order |
| `Helix.FlatAt` | js/ngl/geometry.js:1605 | helix q's centre sits at offsets 3q .. 3q+2 of the flat centre array |
| `Helix.RecordedAt` | js/ngl/geometry.js:1613-1622 | the k-th recorded pair's info is {helix1: i+1, helix2: j+1, angle, distance, overlap} and its begin and end points sit at 3k .. 3k+2 |
| `Helix.GetCrossing` | js/ngl/geometry.js:1586-1639 | labels "H1".."Hn", the flat centres, and info/begin/end recorded for exactly the accepted pairs in visiting order, with minDistance defaulting to 12 |
| `Helix.CrossRow` | js/ngl/geometry.js:1607-1625 | the inner loop appends row i's accepted pairs and their records to what was recorded so far |
| `Contact.ProbeBondsMember` | js/ngl/geometry.js:1773-1786 | a bond from a probe atom is recorded iff its neighbour is in another residue and either no minimum distance is set or the neighbour is farther than it |
| `Contact.BondsMember` | js/ngl/geometry.js:1765-1792 | the bonds of within are exactly the accepted (probe, neighbour) pairs over the first view's atoms |
| `Contact.ProbeEnds` | js/ngl/geometry.js:1786-1790 | the atoms one probe adds are its accepted neighbours, plus the probe itself iff something was accepted |
| `Contact.Within` | js/ngl/geometry.js:1755-1804 | returns the specified bond list, the atom set of all bond ends, and a bond set with every bit on |
| `Contact.ProbeContacts` | js/ngl/geometry.js:1773-1790 | the loop over one neighbour list records the probe's bonds and targets and `found` iff a bond was recorded |
| `Contact.FlipBonds` | js/ngl/geometry.js:1876-1930 | bit i of the bond set is flipped exactly when bond i is a backbone O-N pair, an N contact whose angle test fails, or a tyrosine OH contact whose angle test fails |
| `Contact.PolarContacts` | js/ngl/geometry.js:1809-1935 | the contacts of within with distance 3.5 by default, and every bond bit on except those `FlipBonds` flips: backbone O–N pairs, and N contacts and tyrosine OH contacts whose angle test fails (angle 40 by default) |
| `Contact.BackboneContactsDropped` | js/ngl/geometry.js:1882-1888 | a backbone O-N pair is always flipped off |
| `Contact.OtherContactsKept` | js/ngl/geometry.js:1876-1930 | a contact with no backbone N and no tyrosine OH keeps its bit |
| `BufferIndex.Shifted` | js/ngl/buffer.js:1043-1048 | the pattern copied and shifted keeps its length |
| `BufferIndex.Replicated` | js/ngl/buffer.js:1038-1050 | count copies of the pattern, so count * |pattern| entries |
| `BufferIndex.ReplicatedAt` | js/ngl/buffer.js:1038-1050 | entry v*|pattern| + s is pattern[s] + v*stride |
| `BufferIndex.ReplicatedBelow` | js/ngl/buffer.js:953-954 | every replicated entry names a vertex below count * stride when the pattern stays below the stride |
| `BufferIndex.ReplicatedFits` | js/ngl/buffer.js:953-954 | the index type chosen for count * stride vertices stores every replicated entry unchanged |
| `BufferIndex.PlaceShifted` | js/ngl/buffer.js:1043-1048 | `set` followed by the `+=` loop writes pattern[s] + d at ix + s and nothing else |
| `BufferIndex.ReplicateIndex` | js/ngl/buffer.js:1038-1050 | the loop over v writes the replicated pattern into the first count * |pattern| slots and leaves the rest |
| `BufferIndex.MappedBufferIndex` | js/ngl/buffer.js:939-954 | a fresh index of count * mappingIndicesSize entries, typed by the attribute size, holding mappingIndices[s] + v*mappingSize at v*mappingIndicesSize + s |
| `BufferIndex.GeometryBufferIndex` | js/ngl/buffer.js:1593-1615 | a fresh mesh index of positions * faces * 3 entries holding geoIndex[p] + i*m at i*3o + p |
| `BufferIndex.RibbonBufferIndex` | js/ngl/buffer.js:2401-2425 | a fresh index of 12 * segments entries whose first half is the quad pattern 0,1,2,1,3,2 offset by 4v and whose second half stays zero (the loop runs over length / 12 quads) |
| `BufferIndex.RibbonQuad` | js/ngl/buffer.js:2405-2422 | quad v is 4v, 4v+1, 4v+2, 4v+1, 4v+3, 4v+2 |
| `BufferIndex.RibbonIndexFits` | js/ngl/buffer.js:2216-2217 | every ribbon entry names one of the 4 * segments vertices and is stored unchanged |
| `BufferIndex.TubeBodyAt` | js/ngl/buffer.js:2749-2770 | the six entries of quad (i, j) are irs+j, irs+(j+1)%rs, irs1+j, irs1+j, irs+(j+1)%rs, irs1+(j+1)%rs |
| `BufferIndex.TubeBodyBelow` | js/ngl/buffer.js:2749-2770 | body entries name vertices of the rings 0 .. rings |
| `BufferIndex.TubeQuadNonDegenerate` | js/ngl/buffer.js:2760-2768 | with at least 2 radial segments the two triangles of a quad have three distinct corners |
| `BufferIndex.Strip` | js/ngl/buffer.js:2774-2783 | the cap strip has rs entries (1 for rs = 0) |
| `BufferIndex.StripBelow` | js/ngl/buffer.js:2774-2783 | every strip entry is a radial segment below rs |
| `BufferIndex.StripInjective` | js/ngl/buffer.js:2774-2783 | the strip 0, 1, rs-1, 2, rs-2, ... repeats no vertex, so the middle one is not duplicated |
| `BufferIndex.CapStrip` | js/ngl/buffer.js:2774-2783 | the push loop builds exactly `Strip` |
| `BufferIndex.CapAt` | js/ngl/buffer.js:2790-2802 | cap triangle j occupies entries 3j .. 3j+2 |
| `BufferIndex.CapTriangleVertices` | js/ngl/buffer.js:2790-2802 | each cap triangle has three distinct corners on its own cap ring |
| `BufferIndex.Put` | js/ngl/buffer.js:2760-2768 | a typed-array store: writes the stored value when the slot is inside the array, and nothing else |
| `BufferIndex.FillRing` | js/ngl/buffer.js:2754-2769 | the j loop writes ring i's 6*rs entries at k, those past the end of the array being dropped, and changes nothing else |
| `BufferIndex.WriteQuad` | js/ngl/buffer.js:2756-2767 | writes quad (i, j)'s six entries at l, dropping those past the end of the array, and changes nothing else |
| `BufferIndex.PutCapTriangle` | js/ngl/buffer.js:2792-2800 | writes cap triangle j, in alternating orientation, and nothing else (stores past the end are dropped) |
| `BufferIndex.FillCap` | js/ngl/buffer.js:2790-2820 | writes the strip's rs - 2 cap triangles from l and nothing else |
| `BufferIndex.FillBody` | js/ngl/buffer.js:2747-2771 | every entry of the first 6*rs*rings that lies inside the array holds the tube body, and the entries after them are left as they were |
| `BufferIndex.FillCaps` | js/ngl/buffer.js:2773-2822 | for an array of any length the constructor allocates: keeps the body, and when capped writes the front cap right after it and the back cap right after that, dropping entries past the end |
| `BufferIndex.CapStarts` | js/ngl/buffer.js:2786-2808 | makeIndex's front cap starts at the body's length, its back cap right after the front cap whenever the caps have triangles, and the ring starts n rs and n rs + rs give exactly the front and back caps |
| `BufferIndex.CapOffsets` | js/ngl/buffer.js:2788-2807 | for every length the constructor can allocate, the two cap offsets are never negative, the first is the body's length and the second follows the front cap |
| `BufferIndex.TubeMakeIndex` | js/ngl/buffer.js:2735-2824 | for every length the constructor allocates: with at least one point the array holds the body followed by the front and back caps, cut 6 entries short for a capped tube of one radial segment; with no point the array is empty |
| `BufferIndex.TubeIndexParts` | js/ngl/buffer.js:2456 | the body has 6 rs (n - 1) entries, each cap 3 (rs - 2) or none, and the constructor's length is the whole index's, less 6 for a capped tube of one radial segment |
| `BufferIndex.TubeIndexLengthValid` | js/ngl/buffer.js:2456-2458 | the constructor's length is non-negative exactly when the tube has a point and is uncapped or has two radial segments, or one segment and two points; or has no point, no segment and no cap |
| `BufferIndex.TubeIndexBelow` | js/ngl/buffer.js:2735-2824 | every tube entry names one of the n*rs ring vertices or the 2*rs cap vertices |
| `BufferIndex.TubeIndexFits` | js/ngl/buffer.js:2457-2458 | the index type chosen for the tube's vertex count stores every entry unchanged |
| `BufferIndex.TubeMeshIndex` | js/ngl/buffer.js:2431-2459 | the index type follows the vertex count; a negative length is the typed array's RangeError, carrying that length, and happens exactly when the length is negative; otherwise a fresh index holding the body followed by the caps (6 short for capped rs = 1), or empty with no point |
| `BufferAttributes.LinePositions` | js/ngl/buffer.js:1995-2072 | 12 numbers per line: the first halves, then the second halves |
| `BufferAttributes.LineHalvesMeet` | js/ngl/buffer.js:2030-2060 | line v's first half runs from `from` to the midpoint at 6v, its second half from the midpoint to `to` at 6n + 6v, and both halves share the midpoint |
| `BufferAttributes.LineColorsAt` | js/ngl/buffer.js:2060-2070 | both ends of the first half carry color, both ends of the second half carry color2 |
| `BufferAttributes.LineSetPositions` | js/ngl/buffer.js:2030-2060 | the loop leaves the position array equal to `LinePositions` |
| `BufferAttributes.LineSetColors` | js/ngl/buffer.js:2060-2070 | the loop leaves the colour array equal to `LineColors` |
| `BufferAttributes.TraceSegmentsJoin` | js/ngl/buffer.js:2135-2160 | segment i runs from point i to point i+1 at offset 6i, so consecutive segments share an end |
| `BufferAttributes.TraceSetAttributes` | js/ngl/buffer.js:2107-2166 | warns exactly when neither position nor colour is given; each given array becomes the (i, i+1) pairs for i < n-1, and a missing one is untouched |
| `BufferAttributes.RibbonPositionsAt` | js/ngl/buffer.js:2306-2315 | quad v repeats point v twice and then point v+1 twice |
| `BufferAttributes.RibbonPositionsJoin` | js/ngl/buffer.js:2306-2315 | quad v+1 starts where quad v ends |
| `BufferAttributes.RibbonNormalsNegated` | js/ngl/buffer.js:2318-2327 | the normals are written negated, twice per point |
| `BufferAttributes.RibbonDirsOpposite` | js/ngl/buffer.js:2376-2394 | each point's direction is written and then its negation |
| `BufferAttributes.RibbonSizesJoin` | js/ngl/buffer.js:2353-2375 | quad v's sizes are (previous, previous, current, current), previous being the size before it (the first one for v = 0), so quad v+1 starts at quad v's end size |
| `BufferAttributes.RibbonColorsConstant` | js/ngl/buffer.js:2331-2350 | all four vertices of quad v carry colour v |
| `BufferAttributes.RibbonBuffer.SetSegment` | js/ngl/buffer.js:2300-2396 | one pass of the loop lays out quad v in every given array |
| `BufferAttributes.RibbonBuffer.SetAttributes` | js/ngl/buffer.js:2250-2399 | every given array ends equal to its per-quad specification (positions, negated normals, sizes, opposite directions, constant colours); missing ones are left alone |
| `BufferAttributes.MappedIndex` | js/ngl/buffer.js:985-1000 | slot l of vertex k is item number k*mappingSize + l, whose block starts at k*itemSize*mappingSize + itemSize*l |
| `BufferAttributes.MappedAt` | js/ngl/buffer.js:985-1000 | array[k*itemSize*mappingSize + itemSize*l + m] = d[k*itemSize + m] |
| `BufferAttributes.MappedSetAttribute` | js/ngl/buffer.js:969-1007 | the loop copies item k into all mappingSize slots of vertex k, so the array equals `MappedItems` |
| `Wireframe.IndexTypeFor` | js/ngl/buffer.js:373 | the intended choice: 32-bit indices exactly when there are more than 65535 vertices |
| `Wireframe.IndexTypeHoldsVertices` | js/ngl/buffer.js:373 | the intended index type stores every vertex number of the geometry unchanged |
| `Wireframe.IndexTypeAsWrittenStores` | js/ngl/buffer.js:373-374 | as written, the test reads a `position` field that is never set, so the array is always 16-bit and every stored vertex number is taken modulo 65536 |
| `Wireframe.IndexTypeAsWrittenWraps` | js/ngl/buffer.js:373-374 | for more than 65535 vertices the as-written array corrupts every vertex number v >= 65536 that the intended type keeps |
| `Wireframe.Key` | js/ngl/buffer.js:336-340 | checkEdge's normalised pair: the same two endpoints, smaller first |
| `Wireframe.Candidates` | js/ngl/buffer.js:381-401 | the edges a, b / b, c / c, a of the first t triangles, in order |
| `Wireframe.FirstOccurrencesKeys` | js/ngl/buffer.js:381-404 | the emitted edges cover every unordered edge of the triangles |
| `Wireframe.FirstOccurrencesUnique` | js/ngl/buffer.js:381-404 | no unordered edge is emitted twice |
| `Wireframe.FirstOccurrencesCount` | js/ngl/buffer.js:381-406 | the number of emitted edges is the number of distinct unordered edges |
| `Wireframe.CheckEdge` | js/ngl/buffer.js:334-354 | true exactly when the normalised edge has not been seen, and afterwards it has |
| `Wireframe.EmitEdge` | js/ngl/buffer.js:387-391 | one checkEdge-and-write step: the table holds all edges tested so far, the written prefix is their first occurrences and the rest of the array is untouched |
| `Wireframe.EmitTriangle` | js/ngl/buffer.js:381-401 | one triangle's three steps keep the same invariant |
| `Wireframe.FillWireframe` | js/ngl/buffer.js:381-404 | the triangle loop writes the first occurrences of the candidate edges, two entries per edge, and returns their count |
| `Wireframe.WireframeBuffer.MakeWireframeIndex` | js/ngl/buffer.js:357-411 | as written: no index changes nothing; otherwise n is the draw count, the old array is reused only when longer than 2n, a new one is 16-bit, its pairs hold the distinct edges modulo 65536, and the count is twice the number of edges |
| `Wireframe.WireframeBuffer.MakeWireframeIndexIntended` | js/ngl/buffer.js:357-411 | the same with the index type chosen by vertex count, so the pairs hold the distinct edges exactly |
| `Atlas.NatOrDefault` | js/ngl/buffer.js:2917-2923 | `p || d`: a missing or zero parameter takes the default |
| `Atlas.LineHeight` | js/ngl/buffer.js:2948 | size + 2*outline + round(size/4) |
| `Atlas.PlaceFits` | js/ngl/buffer.js:3000-3005 | a placed glyph keeps its size, starts inside the atlas width when it fits, and either stays at the cursor or wraps to x = 0 one line down |
| `Atlas.PlaceApart` | js/ngl/buffer.js:3000-3033 | a newly placed glyph does not overlap any glyph placed before the cursor |
| `Atlas.PackedAdd` | js/ngl/buffer.js:3000-3033 | adding a glyph keeps the table packed: all glyphs pairwise apart and before the new cursor |
| `Atlas.TextAtlas.constructor` | js/ngl/buffer.js:2909-2940 | size 36, width and height 1024 and outline 0 by default, an empty table and the cursor at the origin |
| `Atlas.TextAtlas.Draw` | js/ngl/buffer.js:3039-3116 | sets the scratch size to the clipped text width and the line height, and changes nothing else |
| `Atlas.TextAtlas.Map` | js/ngl/buffer.js:2997-3037 | memoised: a known text returns its rectangle and changes nothing; a new one is placed at the cursor (wrapping when it would pass the width), recorded, advances the cursor by its width, and warns when it passes the height |
| `Decimal.DigitChar` | reaction/src/rsmiles_loader.cpp:245-247 | the character of a decimal digit is a digit of that value |
| `Decimal.ParseNatToString` | reaction/src/rsmiles_loader.cpp:245-247 | the decimal numeral of n is all digits and reads back as n |
| `Decimal.NatToStringInjective` | reaction/src/rsmiles_loader.cpp:245-247 | different numbers have different numerals |
| `Scanning.DigitRunDigits` | reaction/src/rsmiles_loader.cpp:245-247 | the digit run that readUnsigned consumes is all digits and stops at a non-digit or the end |
| `Scanning.Unsigned` | reaction/src/rsmiles_loader.cpp:245-247 | reading an unsigned number fails exactly at the end of input or on a non-digit, and otherwise consumes at least one character |
| `Scanning.UnsignedNumeral` | reaction/src/rsmiles_loader.cpp:245-247 | reading the numeral of n followed by a non-digit gives n and stops just after it |
| `Scanning.Scanner.constructor` | reaction/src/rsmiles_loader.cpp:101 | a scanner over the text, at position 0, as the `BufferScanner` built over each part (also :136 and :171) |
| `Scanning.Scanner.LookNext` | reaction/src/rsmiles_loader.cpp:245 | the next character, or none at the end, without moving |
| `Scanning.Scanner.ReadChar` | reaction/src/rsmiles_loader.cpp:93-99 | returns the next character and advances one, or fails with "end of input" and stays put |
| `Scanning.Scanner.Skip` | reaction/src/rsmiles_loader.cpp:252-253 | advances one character |
| `Scanning.Scanner.ReadUnsigned` | reaction/src/rsmiles_loader.cpp:245-247 | the digit loop returns `Unsigned` of the text and moves past the digits, or fails without moving |
| `Scanning.Scanner.ReadDigit` | reaction/src/rsmiles_loader.cpp:308-316 | one character: its value when it is a digit, "invalid number" otherwise, "end of input" at the end |
| `RSmiles.GroupOf` | reaction/src/rsmiles_loader.cpp:35-48 | a lead index has a group exactly when it is below the total; the group is the one whose range [offset, offset + count) holds it |
| `RSmiles.GroupOfOffset` | reaction/src/rsmiles_loader.cpp:35-48 | offset(g) + local lands in group g for every local below g's count |
| `RSmiles.SelectGroupByPair` | reaction/src/rsmiles_loader.cpp:35-48 | succeeds exactly when lead has a group; then lead and idx are both reduced by that group's offset and lead lies in [0, count); otherwise "Index out of range" |
| `RSmiles.SelectGroup` | reaction/src/rsmiles_loader.cpp:50-54 | succeeds exactly when idx is below the total; then offset(group) + local = idx with local below the group's count |
| `RSmiles.GlobalIndex` | reaction/src/rsmiles_loader.cpp:491-497 | offset of the earlier groups plus the local index, which lies in group v when the local is below v's count |
| `RSmiles.BeforeSplits` | reaction/src/rsmiles_loader.cpp:91-99 | reading up to a separator succeeds exactly when the separator occurs; the text read does not contain it and text = read + separator + rest |
| `RSmiles.BeforeSep` | reaction/src/rsmiles_loader.cpp:91-99 | reading a + sep + b up to sep gives a and leaves b, when a has no sep |
| `RSmiles.SplitReactionFails` | reaction/src/rsmiles_loader.cpp:91-129 | splitting fails exactly when the text has fewer than two '>', and then with "end of input" |
| `RSmiles.SplitReactionSplits` | reaction/src/rsmiles_loader.cpp:91-169 | reactants hold no '>', agents no '>', products no '|'; no vertical bar means nothing is left; and the parts with their separators join back to the text |
| `RSmiles.SplitReactionJoin` | reaction/src/rsmiles_loader.cpp:91-169 | the inverse direction: splitting the join of three valid texts gives them back |
| `RSmiles.ReadUpToGt` | reaction/src/rsmiles_loader.cpp:91-99 | the scanner loop returns the text before the next '>' and moves past it, or fails with "end of input" |
| `RSmiles.ReadProducts` | reaction/src/rsmiles_loader.cpp:157-169 | the loop returns the text before the next '|' and sets vbar, or the rest of the input without vbar |
| `RSmiles.ReadTexts` | reaction/src/rsmiles_loader.cpp:91-169 | the three loops together compute `SplitReaction` of the remaining input and leave the scanner at its rest |
| `RSmilesExtensions.InitialValid` | reaction/src/rsmiles_loader.cpp:203-224 | the fragment tables start as the identity, the highlight arrays zero-filled with the total vertex and edge counts, and the tables are valid |
| `RSmilesExtensions.IndexListNumerals` | reaction/src/rsmiles_loader.cpp:245-254 | reading a comma-separated list of numerals gives the list back and stops just after the last numeral |
| `RSmilesExtensions.Place` | reaction/src/rsmiles_loader.cpp:247-249 | a global index below the total maps to the group and local index whose offset + local is that index |
| `RSmilesExtensions.MarksMeaning` | reaction/src/rsmiles_loader.cpp:245-305 | marking a list succeeds exactly when every index is below the total atom count ("Index out of range" otherwise), and then each mark names the group and local index of its global index |
| `RSmilesExtensions.SetOnesMeaning` | reaction/src/rsmiles_loader.cpp:427-438 | setting highlights succeeds exactly when every index is inside the array ("invalid index" otherwise), and then exactly the listed entries become 1 and the rest keep their value |
| `RSmilesExtensions.AssignPairValid` | reaction/src/rsmiles_loader.cpp:353-364 | 'f:' with lead and member in the same group sets fragments[group][member-local] = lead-local and keeps the tables valid |
| `RSmilesExtensions.AssignValid` | reaction/src/rsmiles_loader.cpp:346-369 | a whole 'f:' list keeps the fragment tables valid |
| `RSmilesExtensions.LabelRead` | reaction/src/rsmiles_loader.cpp:379-386 | a label is the text up to the next ';' or '$', which is consumed |
| `RSmilesExtensions.LabelsRead` | reaction/src/rsmiles_loader.cpp:370-410 | k labels separated by ';' and closed by '$' read back as those labels |
| `RSmilesExtensions.LabelsTooFew` | reaction/src/rsmiles_loader.cpp:388-389 | a '$' before the last label fails with "only n atoms found" |
| `RSmilesExtensions.PseudoMarks` | reaction/src/rsmiles_loader.cpp:390-405 | every non-empty label i becomes a pseudo-atom mark on atom i of its group, and every mark is such a label placed on such an atom; empty labels mark nothing |
| `RSmilesExtensions.PseudoAt` | reaction/src/rsmiles_loader.cpp:394-395 | the mark for label i is a valid pseudo-atom mark with that label, on the atom whose place in the whole reaction is i |
| `RSmilesExtensions.PseudoMarksUpToMeaning` | reaction/src/rsmiles_loader.cpp:390-405 | after the first n labels, each non-empty label among them has its mark, and each mark comes from a non-empty label among them placed on its own atom |
| `RSmilesExtensions.RadicalOf` | reaction/src/rsmiles_loader.cpp:308-320 | '^' accepts exactly the numbers 1, 3 and 4 |
| `RSmilesExtensions.MarkListValid` | reaction/src/rsmiles_loader.cpp:245-305 | a mark list keeps the extension valid and only adds marks |
| `RSmilesExtensions.HighlightValid` | reaction/src/rsmiles_loader.cpp:411-439 | 'ha:'/'hb:' keep the extension valid, turn highlighting on and add no marks |
| `RSmilesExtensions.PseudoValid` | reaction/src/rsmiles_loader.cpp:370-410 | '$' keeps the extension valid and only adds marks |
| `RSmilesExtensions.FragmentValid` | reaction/src/rsmiles_loader.cpp:346-369 | 'f:' keeps the extension valid and adds no marks |
| `RSmilesExtensions.DirectiveValid` | reaction/src/rsmiles_loader.cpp:238-440 | every directive that succeeds keeps the extension valid and only adds marks |
| `RSmilesExtensions.BlockValid` | reaction/src/rsmiles_loader.cpp:233-440 | a block read without error keeps the extension valid and only adds marks |
| `RSmilesExtensions.BlockEndsAtBar` | reaction/src/rsmiles_loader.cpp:233-238 | a block read without error ends just after a '|' within the text |
| `RSmilesExtensions.ReadBlock` | reaction/src/rsmiles_loader.cpp:233-440 | the scanner loop returns exactly what `Block` denotes, with the error it names, and stops where `Block` stops |
| `RSmilesMerge.GatherFlags` | reaction/src/rsmiles_loader.cpp:491-500 | the highlight flag of each atom of a component is read at the global index offset(v) + local, which lies in group v |
| `RSmilesMerge.MembersInComplete` | reaction/src/rsmiles_loader.cpp:477-485 | every component whose entry names the key is collected |
| `RSmilesMerge.AddComponent` | reaction/src/rsmiles_loader.cpp:484-515 | one component merged into the molecule appends its atoms' and bonds' flags |
| `RSmilesMerge.CollectGroup` | reaction/src/rsmiles_loader.cpp:477-517 | the inner loop collects exactly the components j >= lo whose entry is the key, clears their entries to -1 and builds the molecule from them |
| `RSmilesMerge.CollectStep` | reaction/src/rsmiles_loader.cpp:487-491 | one step of the inner loop: an entry equal to the key is cleared to -1 and its component added to the molecule, any other entry is left and nothing is added |
| `RSmilesMerge.GroupedDistinct` | reaction/src/rsmiles_loader.cpp:464-521 | the intended groups have pairwise different keys |
| `RSmilesMerge.GroupedCovers` | reaction/src/rsmiles_loader.cpp:464-521 | every entry's key has a group |
| `RSmilesMerge.MergedPartition` | reaction/src/rsmiles_loader.cpp:464-521 | the intended merge partitions the components: group g holds exactly the components whose entry is its key, no group is empty, keys differ, and every component has its group |
| `RSmilesMerge.Merge` | reaction/src/rsmiles_loader.cpp:464-521 | the corrected loop emits one molecule per intended group, in order, and clears every entry to -1 |
| `RSmilesMerge.MergeAsWritten` | reaction/src/rsmiles_loader.cpp:464-521 | the loop as written: its groups and its final table are those of `AsWrittenRun`, each group a molecule of its members |
| `RSmilesMerge.AsWrittenLosesComponent` | reaction/src/rsmiles_loader.cpp:477-485 | on the table [1, 1] (from "f:1.0") the loop as written emits an empty molecule and then only component 1, losing component 0, where the intended merge emits {0, 1} |
| `RSmilesMerge.AsWrittenCanonical` | reaction/src/rsmiles_loader.cpp:464-521 | when every entry names a lead no later than itself that names itself, the loop as written emits exactly the intended groups |
| `Streamer.ChunkSlice` | js/ngl/streamer.js:95-113 | `_chunk(start, end)` is the slice of the data from `start` to `end`, both clamped to the data length, whether it returns the data itself, a substring or a sub-array |
| `Streamer.StringChunkOverlaps` | js/ngl/streamer.js:587-591 | the string streamer's chunk, read with `substr(start, end)`, always contains the base chunk; it equals it for chunk 0, and for every later chunk that is not the tail it runs past `end` into the next chunk's first character |
| `Streamer.ChunkCountStarts` | js/ngl/streamer.js:166-170 | `chunkCount()` = floor(n / chunkSize) + 1 is exactly the number of chunk starts `k * chunkSize` that are at most the data length |
| `Streamer.JoinSplit` | js/ngl/streamer.js:186-191 | splitting on the newline gives pieces without newlines that join back to the input |
| `Streamer.SplitJoin` | js/ngl/streamer.js:186-191 | splitting the join of newline-free lines gives back those lines |
| `Streamer.LastIndexOfFound` | js/ngl/streamer.js:193-194 | `lastIndexOf` returns a position holding the newline with no newline after it, or -1 exactly when there is no newline |
| `Streamer.ChunkToLinesJoin` | js/ngl/streamer.js:182-223 | for a partial chunk, the emitted lines each followed by a newline, then the new partial line, are the old partial line followed by the chunk; no emitted line and no partial line holds a newline; `isLast` only adds the non-empty partial line as a final line |
| `Streamer.WholeChunkToLines` | js/ngl/streamer.js:186-191 | a chunk that is the whole text is split into lines that join back to it, and the partial line is emptied |
| `Streamer.LineCountSplit` | js/ngl/streamer.js:148-164 | `lineCount()` is the number of pieces of the newline split, minus one when the data ends with a newline |
| `Streamer.ChunksCover` | js/ngl/streamer.js:115-121 | the first m chunks of size `chunkSize` concatenate to the first `m * chunkSize` characters of the data |
| `Streamer.FeedJoin` | js/ngl/streamer.js:272-287 | feeding chunks through `chunkToLines` with `isLast` false delivers newline-free lines that, each followed by a newline and then the carried partial line, rebuild the fed text |
| `Streamer.StreamLines` | js/ngl/streamer.js:272-287 | when the last chunk is flagged as last, the delivered lines rebuild the whole data: joined by newlines when it does not end with one, each followed by one when it does |
| `Streamer.ReadStateNext` | js/ngl/streamer.js:225-253 | one `nextChunkOfLines()` call extends the delivered lines and the carried partial line exactly as feeding one more chunk would, and flags it as last once the pointer passes the data |
| `Streamer.ReadDone` | js/ngl/streamer.js:225-253 | once the pointer has passed the data, `chunkCount()` chunks have been delivered and their lines rebuild the data as in `StreamLines` |
| `Streamer.AsWrittenIsLastNever` | js/ngl/streamer.js:278 | the test `chunkNo === chunkCount + 1` is false for every chunk number `eachChunk` can pass |
| `Streamer.AsWrittenDropsLastLine` | js/ngl/streamer.js:272-287 | with the test as written, for binary or compressed data, or text longer than one chunk, the delivered lines stop at the data's last newline and the text after it is left in the partial line, never delivered; text that fits in one chunk is split whole and loses nothing |
| `Streamer.AsWrittenLosesLastLine` | js/ngl/streamer.js:272-287 | on "a\nb" with chunk size 2 the code as written delivers only "a", while flagging the last chunk delivers "a" and "b" |
| `Streamer.FeedCalls` | js/ngl/streamer.js:272-287 | the intended callback loop: one call per chunk with the same chunk number and count, delivering what feeding the chunks with the last one flagged delivers |
| `Streamer.FeedCallsAsWritten` | js/ngl/streamer.js:272-287 | the callback loop as written: one call per chunk, delivering what feeding the chunks with no chunk flagged delivers |
| `Streamer.CallsBelowCount` | js/ngl/streamer.js:255-270 | every chunk number passed to the callback is below the chunk count |
| `Streamer.Capitalized` | js/ngl/streamer.js:317-318 | the type with its first character upper-cased (ASCII) and the rest unchanged |
| `Streamer.ChunkCalls` | js/ngl/streamer.js:255-270 | the k-th callback gets chunk number k and the count `chunkCount()` |
| `Streamer.Streamer.constructor` | js/ngl/streamer.js:10-38 | `compressed` and `binary` default to false, the chunk size is 10 MiB (10485760), the newline is "\n", pointer 0 and empty partial line |
| `Streamer.Streamer.Read` | js/ngl/streamer.js:46 | reading stores the data |
| `Streamer.Streamer.NextChunk` | js/ngl/streamer.js:225-236 | undefined, pointer unchanged, once the pointer is past the data; otherwise the chunk at the pointer, and the pointer moves on by `chunkSize` |
| `Streamer.Streamer.NextChunkOfLines` | js/ngl/streamer.js:238-253 | undefined past the data; otherwise the lines `chunkToLines` makes of the next chunk and the carried partial line, flagged last when the pointer passes the data, and the new partial line is kept |
| `Streamer.Streamer.LineCount` | js/ngl/streamer.js:148-164 | the loop counts the newlines, plus one when the data does not end with a newline (see `LineCountSplit`) |
| `Streamer.Streamer.EachChunk` | js/ngl/streamer.js:255-270 | one call per chunk start below the data length, the k-th with chunk k, number k and the chunk count |
| `Streamer.Streamer.EachChunkOfLines` | js/ngl/streamer.js:272-287 | as written: the calls deliver the lines of feeding every chunk with none flagged last, so for binary or compressed data, or text longer than one chunk, the text after the last newline stays in the partial line; text that fits in one chunk is split whole |
| `Streamer.Streamer.EachChunkOfLinesIntended` | js/ngl/streamer.js:272-287 | corrected: the last chunk is flagged, so by `StreamLines` the delivered lines rebuild the data |
| `Streamer.Streamer.ToJson` | js/ngl/streamer.js:315-344 | restoring from the output gives back src, compressed, binary, chunk size and newline; metadata version 0.1, type "<Type>Streamer", generator "<Type>StreamerExporter" |
| `Streamer.Streamer.FromJson` | js/ngl/streamer.js:346-360 | the settings become those of the input |
| `Loader.Lower` | js/ngl/loader.js:24 | lower-casing keeps the length |
| `Loader.LowerIsLower` | js/ngl/loader.js:24 | the lower-cased name holds no upper-case ASCII letter, and lower-casing twice is lower-casing once |
| `Loader.Find` | js/ngl/loader.js:31-43 | the registered datasource under the lower-cased name; otherwise the pass-through for "http", "https", "ftp" and the empty or missing name; otherwise the error "no datasource named '<name>' found", and an error exactly when neither applies |
| `Loader.FindIgnoresCase` | js/ngl/loader.js:31-43 | looking up a name and its lower-cased form give the same answer |
| `Loader.FindAfterAdd` | js/ngl/loader.js:23-43 | after adding a datasource, a lookup of the same name in any case finds it and every other lookup is unchanged |
| `Loader.PassThroughKeepsPath` | js/ngl/loader.js:17-21 | a protocol that finds the pass-through keeps the path as the URL |
| `Loader.DatasourceRegistry.constructor` | js/ngl/loader.js:114-116 | the registry starts with "rcsb" mapped to the RCSB datasource |
| `Loader.DatasourceRegistry.Add` | js/ngl/loader.js:23-29 | the datasource is stored under the lower-cased name, and the warning is due exactly when that name was already registered |
| `Loader.DatasourceRegistry.Get` | js/ngl/loader.js:31-43 | the answer is `Find` on the current registry |
| `Loader.RcsbFound` | js/ngl/loader.js:114-116 | in the initial registry "rcsb" is found in any letter case |
| `Loader.RcsbGetUrl` | js/ngl/loader.js:81-103 | pdb and cif files, uncompressed or gzip, map to the RCSB files URL plus the path; everything else maps to an MMTF URL, and is flagged unsupported exactly when its extension is neither "mmtf" nor empty |
| `Loader.RcsbBackbone` | js/ngl/loader.js:89-94 | the backbone MMTF URL is chosen exactly for an ".mmtf" file whose base name ends in ".bb" |
| `Loader.RcsbGetExt` | js/ngl/loader.js:105-110 | "mmtf" exactly for an "mmtf" or empty extension, undefined otherwise |
| `Loader.RcsbExtMatchesUrl` | js/ngl/loader.js:81-110 | when `getExt` answers "mmtf", `getUrl` gave a supported MMTF URL and not the files URL |
| `Loader.DatasourceUrl` | js/ngl/loader.js:17-21 | the pass-through returns the path unchanged; an RCSB URL is supported only for pdb, cif, mmtf or no extension |
| `Loader.Binary` | js/ngl/loader.js:126-128 | an explicit `binary` parameter wins; otherwise binary exactly for the extensions mmtf, dcd, mrc, ccp4, map and dxbin |
| `Loader.Compression` | js/ngl/loader.js:127 | compressed exactly when a non-empty compression was given, and then that one |
| `Loader.Loader.constructor` | js/ngl/loader.js:122-156 | the flags follow `Binary` and `Compression`, the names default to "", and a fresh file or network streamer gets the same flags with its pointer at 0 |
| `Loader.LoaderFor` | js/ngl/loader.js:339-375 | a loader exists exactly for the extensions in the map |
| `Loader.LoaderForParsers` | js/ngl/loader.js:339-375 | the parser loader exactly for the parser extensions, the script loader for "ngl", the plugin loader for "plugin", and every binary extension is parsed |

## Left out

- Rendering in `js/ngl/buffer.js` is not modelled: materials, shaders, uniforms, meshes, `DoubleSidedBuffer`, `makePointTexture`, the matrix transforms of `GeometryBuffer.setAttributes` and the cos/sin normals of `TubeMeshBuffer`. It is THREE.js plumbing and floating-point work.
- `src/buffer/hyperballstickimpostor-buffer.ts` only registers uniforms and attributes and holds no logic.
- Float geometry is not modelled: `Spline.getTangent`/`getNormals`, `Helixorient.getPosition`, and the axis, centre and crossing geometry of helices. Numbers are reals, and Float32 rounding and NaN are not modelled.
- Helix.GetAxis: the split tests on centre distance and bending angle take their outcomes as inputs, and the axis, centre, begin and end triples are reduced to their offset `k`.
- Contact.Within: the k-d tree search (`THREE.TypedArrayUtils.Kdtree`) is an input function returning each atom's neighbour list; the hydrogen-bond angle tests of `polarContacts` are inputs too.
- Colour and structure plumbing is not modelled: chroma colour scales, `RandomColorMaker` (randomness), registry UUIDs, `StructureView` signals, `Structure.toJSON`/`fromJSON` (their stores are not part of this model) and `LabelFactory`.
- GidPool.GidPool: `getByGid` is not modelled (its Structure branch clones proxies from stores that are not part of this model), and `freeGidRange` has an empty body in the source. The "unknown object type" warning of `getGidCount` is not reported; such an object just counts 0. Objects are identities with a kind and their atom, bond or data counts.
- Streamer I/O is not modelled: `NetworkStreamer`, `FileStreamer`, the decompression worker, `eachChunkOfLinesAsync` (timers), `Uint8ToString` and `peekLines`. `toJSON` does not copy the source object stored under `__srcName` (the data itself), only the settings. Binary chunks are modelled as character sequences, and the newline is a single character, as the source's own FIXME says it must be.
- Loader orchestration is not modelled: promises, `autoLoad`, `getDataInfo`, and the dispatch of `ParserLoader`/`PluginLoader` into parsers. `getFileInfo` is not part of this model, so its result is an input record (`FileInfo`). A static datasource's URL needs `getAbsolutePath`, which is not part of this model, so `DatasourceUrl` answers None for it.
- Chemistry in `rsmiles_loader.cpp` is not modelled: SMILES parsing of the three texts, `MoleculeDecomposer`, the stereo, radical and pseudo-atom setters, query-molecule atom trees and the highlighting objects, and the atom-atom mapping the merge loop gathers (`aam.push`, reaction/src/rsmiles_loader.cpp:496) and copies onto each merged molecule (`getAAMArray(idx).copy(aam)`, :531). Molecules are their atom and bond counts per group, a fragment table and the marks the extension block records.
- Scanning.Scanner: Indigo's `Scanner` and `Array` classes are not part of this model. The error texts "end of input", "readUnsigned(): no digits" and "readIntFix(): invalid number", and the `Array` bound error "invalid index", are reconstructions, not quotations.
- Scanning.Scanner.ReadUnsigned: reads into an unbounded `nat`; the C `int` overflow of a very long digit run is not modelled.
- Spline.Interpolate: the tension is always an explicit argument. The spline's own default (0.9, or 0.5 for a nucleic polymer) and `getSubdividedPosition`'s fallback to it for a NaN tension are not modelled.
- Spline.GetPosition: requires at least one residue (n >= 1). On an empty trace the source reads past the empty arrays and throws.
- Spline.GetSubdividedSize: requires m >= 1 and at least one segment. A one-residue non-cyclic polymer has no segment, and there the source writes NaN/undefined into the closing entry.
- Spline.GetSubdividedColor: requires m >= 1 and at least one segment, for the same reason as `GetSubdividedSize`.
- Wireframe.WireframeBuffer.MakeWireframeIndex: requires the draw count to be a multiple of 3 within the index. A partial last triangle makes the source read past the count, and typed-array writes past the end are dropped.
- Wireframe.WireframeBuffer.MakeWireframeIndexIntended: the same multiple-of-3 requirement. Every vertex must also exist (3v < position length) and there must be at most 2^32 vertices, since a Uint32 index cannot hold more.
- Wireframe.WireframeBuffer.Rebuild: the same multiple-of-3 requirement.
- Wireframe.FillWireframe: the same multiple-of-3 requirement.
- Factories.BaseRadius: for a radius type given as a non-empty name the model answers None. The source's `type || 1.0` passes the value itself on as a radius, which this model does not follow.
- Atlas.TextAtlas.Map: the `mapped` cache is a Dafny map. The source's `{}` object also answers for prototype keys such as "toString" or "constructor", which this model does not follow.
- Loader.DatasourceRegistry: `sourceDict` is a Dafny map, so prototype keys such as "toString" or "constructor" are not registered names, unlike in the source's `{}` object.
- Loader.Lower: lower-cases ASCII letters only; JavaScript's `toLowerCase` also maps other Unicode letters.
- Streamer.Capitalized: upper-cases an ASCII first letter only; JavaScript's `toUpperCase` also maps other Unicode letters.
- Atlas.TextAtlas.Draw: canvas drawing, outlines and gamma are not modelled; drawing a text yields only the scratch size it leaves behind.

## Findings

| source | as written | input that shows it | evidently intended | confidence | as-written member | corrected member |
|---|---|---|---|---|---|---|
| js/ngl/geometry.js:1546 | `residueCount` adds the polymer's `residueIndexStart` to the run length `i + 1 - j` | a polymer starting at residue 10 whose run is residues 0 .. 4: count 15 | the run length `i + 1 - j`, here 5 | not executed | `Helix.GetAxis`, `Helix.ResidueCountAsWrittenOvershoots` | `Helix.ResidueCountCoversRun` |
| js/ngl/buffer.js:373 | the index type tests `this.position / 3 > 65535`, and `this.position` is never assigned, so the wireframe index is always a Uint16Array | position length 3 * 65537 with a triangle using vertex 65536: the index stores 0 | a Uint32Array once the geometry has more than 65535 vertices | not executed | `Wireframe.WireframeBuffer.MakeWireframeIndex`, `Wireframe.IndexTypeAsWrittenWraps` | `Wireframe.WireframeBuffer.MakeWireframeIndexIntended`, `Wireframe.IndexTypeHoldsVertices` |
| js/ngl/streamer.js:278 | `isLast = chunkNo === chunkCount + 1` is never true, so for binary or compressed data, or text longer than one chunk, the text after the last newline is never delivered (text that fits in one chunk is split whole) | "a\nb" with chunk size 2: only "a" is delivered | the last chunk flagged, delivering "a" and "b" | not executed | `Streamer.Streamer.EachChunkOfLines`, `Streamer.AsWrittenDropsLastLine` | `Streamer.Streamer.EachChunkOfLinesIntended`, `Streamer.StreamLines` |
| js/ngl/streamer.js:587-591 | `StringStreamer._chunk` calls `substr(start, end)`, whose second argument is a length, so every later chunk that is not the tail reaches into the next | "abcdef" with chunk size 2: chunk 1 is "cdef" instead of "cd" | `substring(start, end)`, giving consecutive non-overlapping chunks | not executed | `Streamer.StringChunkOverlaps` | `Streamer.ChunkSlice`, `Streamer.ChunksCover` |
| reaction/src/rsmiles_loader.cpp:477-487 | for each unused component i the inner loop collects the components j >= i whose entry equals the index i (`(*fragments[v])[j] == i`), not the entry `fragments[i]`; a component whose group key is a later index is never collected, and a molecule is emitted for i even when nothing matches | "f:1.0" on a two-component reactant gives the table [1, 1]: an empty molecule is emitted for key 0 and component 0 is never emitted | each component emitted once, in the group its entry names | not executed | `RSmilesMerge.MergeAsWritten`, `RSmilesMerge.AsWrittenLosesComponent` | `RSmilesMerge.Merge`, `RSmilesMerge.MergedPartition` |
