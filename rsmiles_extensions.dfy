/** The extension block of a reaction SMILES ("|...|" after the products), as
 * RSmilesLoader::_loadReaction reads it: stereo marks (w, a, o, &), radicals (^),
 * fragment groupings (f), pseudo-atom labels ($...$) and highlighting (ha, hb).
 * Functions give what each directive and the whole block denote, read from a text and
 * a position; ReadBlock is the loader's loop over the scanner, which reads a character
 * and hands the directive it starts to those functions, and is proved to agree with
 * Block.  Every directive keeps the tables valid (DirectiveValid), and a block read
 * whole ends just after its closing '|' (BlockEndsAtBar). */
module RSmilesExtensions {
  import opened Wrappers
  import opened Decimal
  import opened Scanning
  import opened RSmiles

  // The state the block changes

  datatype StereoKind = AnyStereo | Absolute | OrGroup(groupno: nat) | AndGroup(groupno: nat)

  datatype Radical = Doublet | Singlet | Triplet

  /** What a directive asks of one atom: the part it is in and its index there.  The
      molecule setters themselves are outside this model; the marks record their calls. */
  datatype Mark =
    | Stereo(kind: StereoKind, group: nat, idx: nat)
    | RadicalMark(radical: Radical, group: nat, idx: nat)
    | Pseudo(name: string, group: nat, idx: nat)

  /** The atom, bond and component counts of the reactant, agent and product molecules. */
  datatype Sizes = Sizes(atoms: Counts, bonds: Counts, components: Counts)

  /** The loader's tables: for each part, the component each component is merged into
      (fragments); the atom and bond highlight flags over the whole reaction; whether an
      'h' directive was seen; and the marks made so far. */
  datatype Ext = Ext(fragments: seq<seq<int>>, hlAtoms: seq<int>, hlBonds: seq<int>,
                     highlighted: bool, marks: seq<Mark>)

  /** A mark names an atom of the part it is in. */
  predicate MarkValid(m: Mark, atoms: Counts)
  {
    m.group < 3 && m.idx < Count(atoms, m.group)
  }

  /** Every fragment entry names a component of its own part, the highlight tables have
      one 0/1 flag per atom and per bond of the reaction, and every mark names an atom. */
  ghost predicate ExtValid(ext: Ext, sizes: Sizes)
  {
    && |ext.fragments| == 3
    && (forall g :: 0 <= g < 3 ==> |ext.fragments[g]| == Count(sizes.components, g))
    && (forall g, i :: 0 <= g < 3 && 0 <= i < |ext.fragments[g]| ==>
          0 <= ext.fragments[g][i] < Count(sizes.components, g))
    && |ext.hlAtoms| == Total(sizes.atoms) && |ext.hlBonds| == Total(sizes.bonds)
    && (forall i :: 0 <= i < |ext.hlAtoms| ==> ext.hlAtoms[i] in {0, 1})
    && (forall i :: 0 <= i < |ext.hlBonds| ==> ext.hlBonds[i] in {0, 1})
    && (forall k :: 0 <= k < |ext.marks| ==> MarkValid(ext.marks[k], sizes.atoms))
  }

  /** The tables before the block: each component on its own, nothing highlighted, no
      marks. */
  function Initial(sizes: Sizes): (ext: Ext)
  {
    Ext([seq(sizes.components.reactants, i => i), seq(sizes.components.catalysts, i => i),
         seq(sizes.components.products, i => i)],
        seq(Total(sizes.atoms), i => 0), seq(Total(sizes.bonds), i => 0), false, [])
  }

  lemma InitialValid(sizes: Sizes)
    ensures ExtValid(Initial(sizes), sizes)
    ensures forall g, i :: 0 <= g < 3 && 0 <= i < Count(sizes.components, g) ==>
      Initial(sizes).fragments[g][i] == i
  {
  }

  /** The error the loader's Array raises on an index outside it. */
  const InvalidIndex := "invalid index"

  // Index lists

  /** The comma-separated unsigned numbers at pos, and where they end: numbers are read
      while a digit follows, each optionally followed by one ','. */
  function IndexList(text: string, pos: nat): (r: (seq<nat>, nat))
    requires pos <= |text|
    ensures pos <= r.1 <= |text|
    decreases |text| - pos
  {
    match Unsigned(text, pos)
    case None => ([], pos)
    case Some(u) =>
      var next := if u.1 < |text| && text[u.1] == ',' then u.1 + 1 else u.1;
      var rest := IndexList(text, next);
      ([u.0] + rest.0, rest.1)
  }

  /** Words from index i on, separated by commas. */
  function JoinedFrom(words: seq<string>, i: nat): string
    requires i <= |words|
    decreases |words| - i
  {
    if i == |words| then ""
    else if i + 1 == |words| then words[i]
    else words[i] + "," + JoinedFrom(words, i + 1)
  }

  /** The numeral of each number. */
  function NumeralWords(list: seq<nat>): (ws: seq<string>)
    ensures |ws| == |list|
  {
    seq(|list|, k requires 0 <= k < |list| => NatToString(list[k]))
  }

  /** The numbers written in decimal, separated by commas. */
  function Numerals(list: seq<nat>): string
  {
    JoinedFrom(NumeralWords(list), 0)
  }

  /** Nothing at p continues a list: the end, or neither a digit nor a comma. */
  predicate EndsList(text: string, p: nat)
    requires p <= |text|
  {
    p == |text| || (!IsDigit(text[p]) && text[p] != ',')
  }

  /** The string w stands in text at pos, character by character. */
  predicate At(text: string, pos: nat, w: string)
  {
    pos + |w| <= |text| && forall k :: 0 <= k < |w| ==> text[pos + k] == w[k]
  }

  /** From pos on, the numbers of list from index i on are read one by one, the k-th
      taking widths[k] characters and all but the last followed by a comma, and nothing
      continues the list after the last. */
  predicate Chain(text: string, pos: nat, list: seq<nat>, widths: seq<nat>, i: nat)
    requires i <= |list| == |widths|
    decreases |list| - i
  {
    pos <= |text| &&
    if i == |list| then EndsList(text, pos)
    else
      var e := pos + widths[i];
      e <= |text| && Unsigned(text, pos) == Some((list[i], e)) &&
      if i + 1 == |list| then EndsList(text, e)
      else e < |text| && text[e] == ',' && Chain(text, e + 1, list, widths, i + 1)
  }

  /** Where a chain of numbers of the given widths, starting at pos, ends. */
  function ChainEnd(pos: nat, widths: seq<nat>, i: nat): nat
    requires i <= |widths|
    decreases |widths| - i
  {
    if i == |widths| then pos
    else if i + 1 == |widths| then pos + widths[i]
    else ChainEnd(pos + widths[i] + 1, widths, i + 1)
  }

  /** The width of each number written in decimal. */
  function Widths(list: seq<nat>): (ws: seq<nat>)
    ensures |ws| == |list|
  {
    seq(|list|, k requires 0 <= k < |list| => |NatToString(list[k])|)
  }

  /** A non-empty word of digits that reads as n. */
  predicate Reads(w: string, n: nat)
  {
    |w| > 0 && (forall k :: 0 <= k < |w| ==> IsDigit(w[k])) && ParseNat(w) == n
  }

  /** A word reading as n, standing at pos and followed by the end or by a non-digit, is
      read as n. */
  lemma WordAt(text: string, pos: nat, w: string, n: nat)
    requires Reads(w, n) && At(text, pos, w)
    requires pos + |w| == |text| || !IsDigit(text[pos + |w|])
    ensures Unsigned(text, pos) == Some((n, pos + |w|))
  {
    assert text[pos..pos + |w|] == w;
    UnsignedDigits(text, pos, w);
  }

  /** The width of each word. */
  function WordWidths(words: seq<string>): (ws: seq<nat>)
    ensures |ws| == |words|
  {
    seq(|words|, k requires 0 <= k < |words| => |words[k]|)
  }

  /** A number followed by neither a comma nor a digit ends a list. */
  lemma IndexListLast(text: string, pos: nat, n: nat, e: nat)
    requires pos <= e <= |text| && Unsigned(text, pos) == Some((n, e))
    requires EndsList(text, e)
    ensures IndexList(text, pos) == ([n], e)
  {
    assert IndexList(text, e) == ([], e);
    assert [n] + [] == [n];
  }

  /** A number followed by a comma, then a list, makes a longer list. */
  lemma IndexListCons(text: string, pos: nat, n: nat, e: nat, tail: seq<nat>, end: nat)
    requires pos <= e < |text| && text[e] == ',' && Unsigned(text, pos) == Some((n, e))
    requires IndexList(text, e + 1) == (tail, end)
    ensures IndexList(text, pos) == ([n] + tail, end)
  {
  }

  /** A chain of numbers is read back as those numbers, ending where the chain ends. */
  lemma {:induction false} IndexListChain(text: string, pos: nat, list: seq<nat>, widths: seq<nat>, i: nat)
    requires i <= |list| == |widths| && Chain(text, pos, list, widths, i)
    ensures IndexList(text, pos) == (list[i..], ChainEnd(pos, widths, i))
    decreases |list| - i
  {
    if i == |list| {
      assert Unsigned(text, pos) == None;
      assert IndexList(text, pos) == ([], pos);
      assert list[i..] == [];
    } else {
      var e := pos + widths[i];
      if i + 1 == |list| {
        IndexListLast(text, pos, list[i], e);
        assert [list[i]] == list[i..];
        assert ChainEnd(pos, widths, i) == e;
      } else {
        IndexListChain(text, e + 1, list, widths, i + 1);
        IndexListCons(text, pos, list[i], e, list[i + 1..], ChainEnd(e + 1, widths, i + 1));
        assert [list[i]] + list[i + 1..] == list[i..];
        assert ChainEnd(pos, widths, i) == ChainEnd(e + 1, widths, i + 1);
      }
    }
  }

  /** The last number of a chain. */
  lemma ChainLast(text: string, pos: nat, list: seq<nat>, widths: seq<nat>, i: nat)
    requires i + 1 == |list| == |widths| && pos + widths[i] <= |text|
    requires Unsigned(text, pos) == Some((list[i], pos + widths[i])) && EndsList(text, pos + widths[i])
    ensures Chain(text, pos, list, widths, i) && ChainEnd(pos, widths, i) == pos + widths[i]
  {
  }

  /** A number followed by a comma and a chain. */
  lemma ChainCons(text: string, pos: nat, list: seq<nat>, widths: seq<nat>, i: nat)
    requires i + 1 < |list| == |widths| && pos + widths[i] < |text| && text[pos + widths[i]] == ','
    requires Unsigned(text, pos) == Some((list[i], pos + widths[i]))
    requires Chain(text, pos + widths[i] + 1, list, widths, i + 1)
    ensures Chain(text, pos, list, widths, i)
    ensures ChainEnd(pos, widths, i) == ChainEnd(pos + widths[i] + 1, widths, i + 1)
  {
  }

  /** Words reading as the numbers of a list, standing at pos separated by commas and
      followed by nothing that continues a list, form a chain that ends right after them. */
  lemma {:induction false} WordsChain(text: string, pos: nat, list: seq<nat>, words: seq<string>, i: nat)
    requires i <= |list| == |words| && forall k :: 0 <= k < |list| ==> Reads(words[k], list[k])
    requires At(text, pos, JoinedFrom(words, i)) && EndsList(text, pos + |JoinedFrom(words, i)|)
    ensures Chain(text, pos, list, WordWidths(words), i)
    ensures ChainEnd(pos, WordWidths(words), i) == pos + |JoinedFrom(words, i)|
    decreases |list| - i
  {
    if i < |list| {
      var w, all := words[i], JoinedFrom(words, i);
      var widths := WordWidths(words);
      assert widths[i] == |w|;
      if i + 1 < |list| {
        var rest := JoinedFrom(words, i + 1);
        assert all == w + "," + rest;
        assert At(text, pos, w) by {
          forall k | 0 <= k < |w|
            ensures text[pos + k] == w[k]
          {
            assert all[k] == w[k];
          }
        }
        assert text[pos + |w|] == ',' by {
          assert all[|w|] == ',';
        }
        WordAt(text, pos, w, list[i]);
        assert At(text, pos + |w| + 1, rest) by {
          forall k | 0 <= k < |rest|
            ensures text[pos + |w| + 1 + k] == rest[k]
          {
            assert all[|w| + 1 + k] == rest[k];
          }
        }
        WordsChain(text, pos + |w| + 1, list, words, i + 1);
        ChainCons(text, pos, list, widths, i);
      } else {
        WordAt(text, pos, w, list[i]);
        ChainLast(text, pos, list, widths, i);
      }
    }
  }

  /** The numerals of a list read as its numbers and have its widths. */
  lemma NumeralWordsRead(list: seq<nat>)
    ensures forall k :: 0 <= k < |list| ==> Reads(NumeralWords(list)[k], list[k])
    ensures Widths(list) == WordWidths(NumeralWords(list))
  {
    var words := NumeralWords(list);
    forall k | 0 <= k < |list|
      ensures Reads(words[k], list[k])
    {
      ParseNatToString(list[k]);
    }
  }

  /** A written list followed by neither a digit nor a comma is read back as that list,
      ending right after it. */
  lemma IndexListNumerals(text: string, pos: nat, list: seq<nat>)
    requires pos + |Numerals(list)| <= |text| && text[pos..pos + |Numerals(list)|] == Numerals(list)
    requires EndsList(text, pos + |Numerals(list)|)
    ensures IndexList(text, pos) == (list, pos + |Numerals(list)|)
  {
    var w := Numerals(list);
    assert At(text, pos, w) by {
      forall k | 0 <= k < |w|
        ensures text[pos + k] == w[k]
      {
        assert text[pos + k] == text[pos..pos + |w|][k];
      }
    }
    NumeralsChain(text, pos, list);
    IndexListWhole(text, pos, list, Widths(list));
  }

  /** Written numbers standing at pos, followed by nothing that continues a list, form a
      chain that ends right after them. */
  lemma NumeralsChain(text: string, pos: nat, list: seq<nat>)
    requires At(text, pos, Numerals(list)) && EndsList(text, pos + |Numerals(list)|)
    ensures Chain(text, pos, list, Widths(list), 0)
    ensures ChainEnd(pos, Widths(list), 0) == pos + |Numerals(list)|
  {
    NumeralWordsRead(list);
    WordsChain(text, pos, list, NumeralWords(list), 0);
  }

  /** A whole chain is read back as its numbers. */
  lemma IndexListWhole(text: string, pos: nat, list: seq<nat>, widths: seq<nat>)
    requires |list| == |widths| && Chain(text, pos, list, widths, 0)
    ensures IndexList(text, pos) == (list, ChainEnd(pos, widths, 0))
  {
    IndexListChain(text, pos, list, widths, 0);
    assert list[0..] == list;
  }

  // Placing reaction-wide atom indices

  /** The part a reaction-wide index is in and its index there. */
  function Place(counts: Counts, idx: nat): (p: (nat, nat))
    requires idx < Total(counts)
    ensures p.0 < 3 && p.1 < Count(counts, p.0) && Offset(counts, p.0) + p.1 == idx
  {
    var g := GroupOf(counts, idx).value;
    (g, idx - Offset(counts, g))
  }

  /** What a list directive sets on each atom it names. */
  datatype Setter = SetStereo(kind: StereoKind) | SetRadical(radical: Radical)

  function MarkOf(setter: Setter, g: nat, idx: nat): Mark
  {
    match setter
    case SetStereo(kind) => Stereo(kind, g, idx)
    case SetRadical(radical) => RadicalMark(radical, g, idx)
  }

  /** The marks a list directive makes, one per index in order, or the selection error
      when an index is past the atoms of the reaction. */
  function Marks(list: seq<nat>, atoms: Counts, setter: Setter): Result<seq<Mark>, string>
  {
    if |list| == 0 then Ok([])
    else match Marks(list[..|list| - 1], atoms, setter)
      case Err(e) => Err(e)
      case Ok(marks) =>
        var idx := list[|list| - 1];
        if idx < Total(atoms) then Ok(marks + [MarkOf(setter, Place(atoms, idx).0, Place(atoms, idx).1)])
        else Err(IndexOutOfRange)
  }

  /** The marks succeed exactly when every index is an atom of the reaction; mark k is
      then set on the atom that index k names, in its part. */
  lemma {:induction false} MarksMeaning(list: seq<nat>, atoms: Counts, setter: Setter)
    ensures var r := Marks(list, atoms, setter);
      && (r.Ok? <==> forall k :: 0 <= k < |list| ==> list[k] < Total(atoms))
      && (r.Err? ==> r.error == IndexOutOfRange)
      && (r.Ok? ==> |r.value| == |list| && forall k :: 0 <= k < |list| ==>
            && MarkValid(r.value[k], atoms)
            && Offset(atoms, r.value[k].group) + r.value[k].idx == list[k]
            && r.value[k] == MarkOf(setter, r.value[k].group, r.value[k].idx))
    decreases |list|
  {
    if |list| > 0 {
      var init := list[..|list| - 1];
      MarksMeaning(init, atoms, setter);
      assert forall k :: 0 <= k < |init| ==> init[k] == list[k];
    }
  }

  /** The highlight table with every listed flag set, or the Array's error when an index
      is outside the table. */
  function SetOnes(hl: seq<int>, list: seq<nat>): (r: Result<seq<int>, string>)
    ensures r.Ok? ==> |r.value| == |hl|
  {
    if |list| == 0 then Ok(hl)
    else match SetOnes(hl, list[..|list| - 1])
      case Err(e) => Err(e)
      case Ok(h) =>
        var idx := list[|list| - 1];
        if idx < |h| then Ok(h[idx := 1]) else Err(InvalidIndex)
  }

  /** Setting flags succeeds exactly when every index is inside the table; a flag is then
      1 when listed and unchanged otherwise. */
  lemma {:induction false} SetOnesMeaning(hl: seq<int>, list: seq<nat>)
    ensures var r := SetOnes(hl, list);
      && (r.Ok? <==> forall k :: 0 <= k < |list| ==> list[k] < |hl|)
      && (r.Err? ==> r.error == InvalidIndex)
      && (r.Ok? ==> forall i :: 0 <= i < |hl| ==> r.value[i] == if i in list then 1 else hl[i])
    decreases |list|
  {
    if |list| > 0 {
      var init := list[..|list| - 1];
      SetOnesMeaning(hl, init);
      assert forall k :: 0 <= k < |init| ==> init[k] == list[k];
      assert forall i :: i in list <==> i in init || i == list[|list| - 1] by {
        assert list == init + [list[|list| - 1]];
      }
    }
  }

  // Fragment groupings

  /** The (lead, member) index pairs an 'f' list gives, in reading order; the error that
      stopped the reading, if one did; and where the reading ended. */
  datatype Pairs = Pairs(pairs: seq<(nat, nat)>, err: Option<string>, end: nat)

  /** The ".member" suffixes after a lead index. */
  function DotMembers(text: string, pos: nat, lead: nat): (r: Pairs)
    requires pos <= |text|
    ensures pos <= r.end <= |text|
    decreases |text| - pos
  {
    if pos < |text| && text[pos] == '.' then
      match Unsigned(text, pos + 1)
      case None => Pairs([], Some(NoDigits), pos + 1)
      case Some(u) =>
        var rest := DotMembers(text, u.1, lead);
        Pairs([(lead, u.0)] + rest.pairs, rest.err, rest.end)
    else Pairs([], None, pos)
  }

  /** The pairs of an 'f' list: lead indices, each with its ".member" suffixes, each group
      optionally followed by one ','. */
  function FragmentPairs(text: string, pos: nat): (r: Pairs)
    requires pos <= |text|
    ensures pos <= r.end <= |text|
    decreases |text| - pos
  {
    match Unsigned(text, pos)
    case None => Pairs([], None, pos)
    case Some(u) =>
      var members := DotMembers(text, u.1, u.0);
      if members.err.Some? then members
      else
        var next := if members.end < |text| && text[members.end] == ',' then members.end + 1 else members.end;
        var rest := FragmentPairs(text, next);
        Pairs(members.pairs + rest.pairs, rest.err, rest.end)
  }

  /** One pair: the lead selects the part and, relative to it, is stored at the member's
      index relative to the same part. */
  function AssignPair(tables: seq<seq<int>>, pair: (nat, nat), components: Counts): (r: Result<seq<seq<int>>, string>)
    requires |tables| == 3
    ensures r.Ok? ==> |r.value| == 3 && forall g :: 0 <= g < 3 ==> |r.value[g]| == |tables[g]|
  {
    if pair.0 >= Total(components) then Err(IndexOutOfRange)
    else
      var g := GroupOf(components, pair.0).value;
      var member := pair.1 - Offset(components, g);
      if 0 <= member < |tables[g]| then Ok(tables[g := tables[g][member := pair.0 - Offset(components, g)]])
      else Err(InvalidIndex)
  }

  /** All pairs in order; the first one that fails gives the error. */
  function Assign(tables: seq<seq<int>>, pairs: seq<(nat, nat)>, components: Counts): (r: Result<seq<seq<int>>, string>)
    requires |tables| == 3
    ensures r.Ok? ==> |r.value| == 3 && forall g :: 0 <= g < 3 ==> |r.value[g]| == |tables[g]|
  {
    if |pairs| == 0 then Ok(tables)
    else match Assign(tables, pairs[..|pairs| - 1], components)
      case Err(e) => Err(e)
      case Ok(t) => AssignPair(t, pairs[|pairs| - 1], components)
  }

  /** Fragment tables whose entries name components of their own part. */
  ghost predicate TablesValid(tables: seq<seq<int>>, components: Counts)
  {
    && |tables| == 3
    && (forall g :: 0 <= g < 3 ==> |tables[g]| == Count(components, g))
    && (forall g, i :: 0 <= g < 3 && 0 <= i < |tables[g]| ==> 0 <= tables[g][i] < Count(components, g))
  }

  /** Groupings keep every entry a component of its own part, and a successful pair puts
      the lead's part and index where the member's index points. */
  lemma AssignPairValid(tables: seq<seq<int>>, pair: (nat, nat), components: Counts)
    requires TablesValid(tables, components)
    ensures var r := AssignPair(tables, pair, components);
      && (r.Ok? ==> TablesValid(r.value, components))
      && (r.Ok? ==> var p := Place(components, pair.0);
            && GroupOf(components, pair.1) == Some(p.0)
            && r.value[p.0][pair.1 - Offset(components, p.0)] == p.1)
  {
    var r := AssignPair(tables, pair, components);
    if r.Ok? {
      var g := GroupOf(components, pair.0).value;
      var member := pair.1 - Offset(components, g);
      GroupOfOffset(components, g, member);
      assert Offset(components, g) + member == pair.1;
    }
  }

  lemma {:induction false} AssignValid(tables: seq<seq<int>>, pairs: seq<(nat, nat)>, components: Counts)
    requires TablesValid(tables, components)
    ensures Assign(tables, pairs, components).Ok? ==> TablesValid(Assign(tables, pairs, components).value, components)
    decreases |pairs|
  {
    if |pairs| > 0 {
      AssignValid(tables, pairs[..|pairs| - 1], components);
      var prev := Assign(tables, pairs[..|pairs| - 1], components);
      if prev.Ok? {
        AssignPairValid(prev.value, pairs[|pairs| - 1], components);
      }
    }
  }

  // Pseudo-atom labels

  /** The characters up to the next ';' or '$', that terminator, and the position after
      it; none when the input ends first. */
  function Label(text: string, pos: nat): (r: Option<(string, char, nat)>)
    requires pos <= |text|
    ensures r.Some? ==> pos < r.value.2 <= |text| && (r.value.1 == ';' || r.value.1 == '$')
    decreases |text| - pos
  {
    if pos == |text| then None
    else if text[pos] == ';' || text[pos] == '$' then Some(([], text[pos], pos + 1))
    else match Label(text, pos + 1)
      case None => None
      case Some(l) => Some(([text[pos]] + l.0, l.1, l.2))
  }

  predicate LabelText(l: string)
  {
    ';' !in l && '$' !in l
  }

  /** A label followed by its terminator is read back. */
  lemma {:induction false} LabelRead(pre: string, l: string, c: char, tail: string)
    requires LabelText(l) && (c == ';' || c == '$')
    ensures Label(pre + l + [c] + tail, |pre|) == Some((l, c, |pre| + |l| + 1))
    decreases |l|
  {
    var text := pre + l + [c] + tail;
    if |l| == 0 {
      assert text[|pre|] == c;
    } else {
      assert text[|pre|] == l[0];
      assert text == (pre + [l[0]]) + l[1..] + [c] + tail;
      LabelRead(pre + [l[0]], l[1..], c, tail);
      assert [l[0]] + l[1..] == l;
    }
  }

  const PseudoEnd := "end of input while reading $...$ block"

  function TooFewLabels(found: nat): string
  {
    "only " + NatToString(found) + " atoms found in pseudo-atoms $...$ block"
  }

  /** Labels i..k-1 of a '$' block: each ends at ';' or '$', and a '$' before the last
      label is an error; the input ending first is an error too. */
  function Labels(text: string, pos: nat, i: nat, k: nat): (r: Result<(seq<string>, nat), string>)
    requires pos <= |text| && i <= k
    ensures r.Ok? ==> |r.value.0| == k - i && pos <= r.value.1 <= |text|
    decreases k - i
  {
    if i >= k then Ok(([], pos))
    else match Label(text, pos)
      case None => Err(PseudoEnd)
      case Some(l) =>
        if l.1 == '$' && i != k - 1 then Err(TooFewLabels(i + 1))
        else match Labels(text, l.2, i + 1, k)
          case Err(e) => Err(e)
          case Ok(rest) => Ok(([l.0] + rest.0, rest.1))
  }

  /** Labels joined with ';'. */
  function JoinLabels(ls: seq<string>): string
  {
    if |ls| == 0 then "" else if |ls| == 1 then ls[0] else ls[0] + ";" + JoinLabels(ls[1..])
  }

  /** A '$' block holding one label per atom, closed by '$', is read back as those
      labels, ending after the '$'. */
  lemma {:induction false} LabelsRead(pre: string, ls: seq<string>, tail: string, i: nat, k: nat)
    requires i < k && |ls| == k - i && forall j :: 0 <= j < |ls| ==> LabelText(ls[j])
    ensures Labels(pre + JoinLabels(ls) + "$" + tail, |pre|, i, k)
      == Ok((ls, |pre| + |JoinLabels(ls)| + 1))
    decreases k - i
  {
    var text := pre + JoinLabels(ls) + "$" + tail;
    if |ls| == 1 {
      assert text == pre + ls[0] + ['$'] + tail;
      LabelRead(pre, ls[0], '$', tail);
      assert Labels(text, |pre| + |ls[0]| + 1, i + 1, k) == Ok(([], |pre| + |ls[0]| + 1));
      assert [ls[0]] + [] == ls;
    } else {
      var after := JoinLabels(ls[1..]) + "$" + tail;
      assert text == pre + ls[0] + [';'] + after;
      LabelRead(pre, ls[0], ';', after);
      var pre2 := pre + ls[0] + ";";
      assert text == pre2 + JoinLabels(ls[1..]) + "$" + tail;
      LabelsRead(pre2, ls[1..], tail, i + 1, k);
      assert [ls[0]] + ls[1..] == ls;
    }
  }

  /** A block closed by '$' after m labels, when k > m are due, names the count found. */
  lemma {:induction false} LabelsTooFew(pre: string, ls: seq<string>, tail: string, i: nat, k: nat)
    requires |ls| >= 1 && i + |ls| < k && forall j :: 0 <= j < |ls| ==> LabelText(ls[j])
    ensures Labels(pre + JoinLabels(ls) + "$" + tail, |pre|, i, k) == Err(TooFewLabels(i + |ls|))
    decreases |ls|
  {
    var text := pre + JoinLabels(ls) + "$" + tail;
    if |ls| == 1 {
      assert text == pre + ls[0] + ['$'] + tail;
      LabelRead(pre, ls[0], '$', tail);
    } else {
      var after := JoinLabels(ls[1..]) + "$" + tail;
      assert text == pre + ls[0] + [';'] + after;
      LabelRead(pre, ls[0], ';', after);
      var pre2 := pre + ls[0] + ";";
      assert text == pre2 + JoinLabels(ls[1..]) + "$" + tail;
      LabelsTooFew(pre2, ls[1..], tail, i + 1, k);
    }
  }

  /** The mark label i sets: its name on the atom at position i. */
  function PseudoAt(labels: seq<string>, i: nat, atoms: Counts): (m: Mark)
    requires i < |labels| <= Total(atoms)
    ensures m.Pseudo? && MarkValid(m, atoms) && m.name == labels[i] && Offset(atoms, m.group) + m.idx == i
  {
    Pseudo(labels[i], Place(atoms, i).0, Place(atoms, i).1)
  }

  /** Mark m is the one label i sets, and that label is non-empty. */
  predicate MadeFrom(m: Mark, labels: seq<string>, i: nat, atoms: Counts)
    requires i < |labels| <= Total(atoms)
  {
    labels[i] != [] && m == PseudoAt(labels, i, atoms)
  }

  /** Mark m sits on an atom below n whose label is non-empty, and is that label's mark. */
  predicate MadeFromAtom(m: Mark, labels: seq<string>, n: nat, atoms: Counts)
    requires n <= |labels| <= Total(atoms)
  {
    MarkValid(m, atoms) && Offset(atoms, m.group) + m.idx < n &&
    MadeFrom(m, labels, Offset(atoms, m.group) + m.idx, atoms)
  }

  /** The pseudo-atom marks of labels 0..n-1: one for each non-empty label, on the atom
      the label's position names. */
  function PseudoMarksUpTo(labels: seq<string>, n: nat, atoms: Counts): (r: seq<Mark>)
    requires n <= |labels| <= Total(atoms)
    ensures forall k :: 0 <= k < |r| ==> MarkValid(r[k], atoms) && r[k].Pseudo? && r[k].name != []
    ensures |r| <= n
  {
    if n == 0 then []
    else
      var prev := PseudoMarksUpTo(labels, n - 1, atoms);
      if labels[n - 1] == [] then prev
      else prev + [PseudoAt(labels, n - 1, atoms)]
  }

  /** The pseudo-atom marks of all the labels read. */
  function PseudoMarks(labels: seq<string>, atoms: Counts): (r: seq<Mark>)
    requires |labels| <= Total(atoms)
    ensures forall k :: 0 <= k < |r| ==> MarkValid(r[k], atoms) && r[k].Pseudo? && r[k].name != []
    ensures |r| <= |labels|
    ensures forall i :: 0 <= i < |labels| && labels[i] != [] ==> PseudoAt(labels, i, atoms) in r
    ensures forall k :: 0 <= k < |r| ==> MadeFromAtom(r[k], labels, |labels|, atoms)
  {
    PseudoMarksUpToMeaning(labels, |labels|, atoms);
    PseudoMarksUpTo(labels, |labels|, atoms)
  }

  /** The marks of labels 0..n-1 are exactly those of its non-empty labels: each such
      label's mark is there, and each mark sits on the atom of a non-empty label with
      that label's name. */
  lemma {:induction false} PseudoMarksUpToMeaning(labels: seq<string>, n: nat, atoms: Counts)
    requires n <= |labels| <= Total(atoms)
    ensures forall i :: 0 <= i < n && labels[i] != [] ==>
      PseudoAt(labels, i, atoms) in PseudoMarksUpTo(labels, n, atoms)
    ensures forall k :: 0 <= k < |PseudoMarksUpTo(labels, n, atoms)| ==>
      MadeFromAtom(PseudoMarksUpTo(labels, n, atoms)[k], labels, n, atoms)
  {
    if n > 0 {
      PseudoMarksUpToMeaning(labels, n - 1, atoms);
      var prev := PseudoMarksUpTo(labels, n - 1, atoms);
      var r := PseudoMarksUpTo(labels, n, atoms);
      assert forall k :: 0 <= k < |prev| ==> r[k] == prev[k];
      forall k | 0 <= k < |r|
        ensures MadeFromAtom(r[k], labels, n, atoms)
      {
        if k < |prev| {
          assert MadeFromAtom(prev[k], labels, n - 1, atoms);
        }
      }
      forall i | 0 <= i < n && labels[i] != []
        ensures PseudoAt(labels, i, atoms) in r
      {
        if i < n - 1 {
          assert PseudoAt(labels, i, atoms) in prev;
        } else {
          assert r[|r| - 1] == PseudoAt(labels, i, atoms);
        }
      }
    }
  }

  // Radicals

  /** The radical a '^' digit stands for: 1 doublet, 3 singlet, 4 triplet. */
  function RadicalOf(d: nat): (r: Option<Radical>)
    ensures r.Some? <==> d in {1, 3, 4}
  {
    if d == 1 then Some(Doublet) else if d == 3 then Some(Singlet) else if d == 4 then Some(Triplet) else None
  }

  function UnsupportedRadical(d: nat): string
  {
    "unsupported radical number: " + NatToString(d)
  }

  // Directives

  /** The ':' a directive needs at pos: the position after it, or an error naming what it
      should have followed. */
  function Colon(text: string, pos: nat, after: string): (r: Result<nat, string>)
    requires pos <= |text|
  {
    if pos == |text| then Err(EndOfInput)
    else if text[pos] != ':' then Err("colon expected after " + after)
    else Ok(pos + 1)
  }

  /** A list directive after its ':': marks on the listed atoms. */
  function MarkList(text: string, pos: nat, ext: Ext, sizes: Sizes, setter: Setter): (r: Result<(Ext, nat), string>)
    requires pos <= |text|
    ensures r.Ok? ==> pos <= r.value.1 <= |text|
  {
    var list := IndexList(text, pos);
    match Marks(list.0, sizes.atoms, setter)
    case Err(e) => Err(e)
    case Ok(marks) => Ok((ext.(marks := ext.marks + marks), list.1))
  }

  function Quoted(c: char): string
  {
    "'" + [c] + "'"
  }

  /** A stereo directive after its letter: 'w' and 'a' take ':' and a list, 'o' and '&'
      a group number, ':' and a list. */
  function StereoDirective(text: string, pos: nat, c: char, ext: Ext, sizes: Sizes): (r: Result<(Ext, nat), string>)
    requires pos <= |text| && c in "wao&"
    ensures r.Ok? ==> pos <= r.value.1 <= |text|
  {
    if c == 'w' || c == 'a' then
      match Colon(text, pos, Quoted(c))
      case Err(e) => Err(e)
      case Ok(p) => MarkList(text, p, ext, sizes, SetStereo(if c == 'w' then AnyStereo else Absolute))
    else
      match Unsigned(text, pos)
      case None => Err(NoDigits)
      case Some(u) =>
        match Colon(text, u.1, Quoted(c))
        case Err(e) => Err(e)
        case Ok(p) => MarkList(text, p, ext, sizes, SetStereo(if c == 'o' then OrGroup(u.0) else AndGroup(u.0)))
  }

  /** '^': one digit naming the radical, ':' and a list. */
  function RadicalDirective(text: string, pos: nat, ext: Ext, sizes: Sizes): (r: Result<(Ext, nat), string>)
    requires pos <= |text|
    ensures r.Ok? ==> pos <= r.value.1 <= |text|
  {
    if pos == |text| then Err(EndOfInput)
    else if !IsDigit(text[pos]) then Err(InvalidNumber)
    else
      var d := DigitValue(text[pos]);
      match RadicalOf(d)
      case None => Err(UnsupportedRadical(d))
      case Some(radical) =>
        match Colon(text, pos + 1, "radical number")
        case Err(e) => Err(e)
        case Ok(p) => MarkList(text, p, ext, sizes, SetRadical(radical))
  }

  /** 'f': ':' and a grouping list, stored pair by pair in the fragment tables. */
  function FragmentDirective(text: string, pos: nat, ext: Ext, sizes: Sizes): (r: Result<(Ext, nat), string>)
    requires pos <= |text| && |ext.fragments| == 3
    ensures r.Ok? ==> pos <= r.value.1 <= |text| && |r.value.0.fragments| == 3
  {
    match Colon(text, pos, "'f'")
    case Err(e) => Err(e)
    case Ok(p) =>
      var read := FragmentPairs(text, p);
      match Assign(ext.fragments, read.pairs, sizes.components)
      case Err(e) => Err(e)
      case Ok(tables) =>
        if read.err.Some? then Err(read.err.value) else Ok((ext.(fragments := tables), read.end))
  }

  /** '$': one label per atom of the reaction; each non-empty one marks its atom. */
  function PseudoDirective(text: string, pos: nat, ext: Ext, sizes: Sizes): (r: Result<(Ext, nat), string>)
    requires pos <= |text|
    ensures r.Ok? ==> pos <= r.value.1 <= |text|
  {
    match Labels(text, pos, 0, Total(sizes.atoms))
    case Err(e) => Err(e)
    case Ok(ls) => Ok((ext.(marks := ext.marks + PseudoMarks(ls.0, sizes.atoms)), ls.1))
  }

  /** 'h': 'a' or 'b', ':' and a list of atom or bond flags to set. */
  function HighlightDirective(text: string, pos: nat, ext: Ext): (r: Result<(Ext, nat), string>)
    requires pos <= |text|
    ensures r.Ok? ==> pos <= r.value.1 <= |text|
  {
    if pos == |text| then Err(EndOfInput)
    else
      var c := text[pos];
      if c != 'a' && c != 'b' then Err("expected 'a' or 'b' after 'h', got " + Quoted(c))
      else match Colon(text, pos + 1, "'h" + [c] + "'")
        case Err(e) => Err(e)
        case Ok(p) =>
          var list := IndexList(text, p);
          match SetOnes(if c == 'a' then ext.hlAtoms else ext.hlBonds, list.0)
          case Err(e) => Err(e)
          case Ok(hl) =>
            Ok((if c == 'a' then ext.(hlAtoms := hl, highlighted := true)
                else ext.(hlBonds := hl, highlighted := true), list.1))
  }

  /** The directive a character starts, read from pos (just after it); any other
      character is skipped. */
  function Directive(text: string, pos: nat, c: char, ext: Ext, sizes: Sizes): (r: Result<(Ext, nat), string>)
    requires pos <= |text| && |ext.fragments| == 3
    ensures r.Ok? ==> pos <= r.value.1 <= |text| && |r.value.0.fragments| == 3
  {
    if c in "wao&" then StereoDirective(text, pos, c, ext, sizes)
    else if c == '^' then RadicalDirective(text, pos, ext, sizes)
    else if c == 'f' then FragmentDirective(text, pos, ext, sizes)
    else if c == '$' then PseudoDirective(text, pos, ext, sizes)
    else if c == 'h' then HighlightDirective(text, pos, ext)
    else Ok((ext, pos))
  }

  /** The block from pos: directives until a '|', the tables they leave and the position
      after the '|'; reaching the end of the input first is the scanner's error. */
  function Block(text: string, pos: nat, ext: Ext, sizes: Sizes): (r: Result<(Ext, nat), string>)
    requires pos <= |text| && |ext.fragments| == 3
    decreases |text| - pos
  {
    if pos == |text| then Err(EndOfInput)
    else if text[pos] == '|' then Ok((ext, pos + 1))
    else match Directive(text, pos + 1, text[pos], ext, sizes)
      case Err(e) => Err(e)
      case Ok(d) => Block(text, d.1, d.0, sizes)
  }

  // Validity of the tables

  lemma TablesOfExt(ext: Ext, sizes: Sizes)
    requires ExtValid(ext, sizes)
    ensures TablesValid(ext.fragments, sizes.components)
  {
  }

  /** A list directive adds valid marks and changes nothing else. */
  lemma MarkListValid(text: string, pos: nat, ext: Ext, sizes: Sizes, setter: Setter)
    requires pos <= |text| && ExtValid(ext, sizes)
    ensures var r := MarkList(text, pos, ext, sizes, setter);
      r.Ok? ==> (ExtValid(r.value.0, sizes) && ext.marks <= r.value.0.marks
                 && r.value.0 == ext.(marks := r.value.0.marks))
  {
    var list := IndexList(text, pos);
    MarksMeaning(list.0, sizes.atoms, setter);
    var r := MarkList(text, pos, ext, sizes, setter);
    if r.Ok? {
      var marks := Marks(list.0, sizes.atoms, setter).value;
      assert r.value.0.marks == ext.marks + marks;
      forall k | 0 <= k < |r.value.0.marks|
        ensures MarkValid(r.value.0.marks[k], sizes.atoms)
      {
        if k >= |ext.marks| {
          assert r.value.0.marks[k] == marks[k - |ext.marks|];
        }
      }
    }
  }

  /** A highlight directive sets flags to 1 in the table it names; the flags stay 0/1. */
  lemma HighlightValid(text: string, pos: nat, ext: Ext, sizes: Sizes)
    requires pos <= |text| && ExtValid(ext, sizes)
    ensures var r := HighlightDirective(text, pos, ext);
      r.Ok? ==> ExtValid(r.value.0, sizes) && r.value.0.highlighted && r.value.0.marks == ext.marks
  {
    var r := HighlightDirective(text, pos, ext);
    if r.Ok? {
      var c := text[pos];
      var p := Colon(text, pos + 1, "'h" + [c] + "'").value;
      var list := IndexList(text, p);
      SetOnesMeaning(if c == 'a' then ext.hlAtoms else ext.hlBonds, list.0);
    }
  }

  /** A pseudo-atom block adds one valid mark per non-empty label. */
  lemma PseudoValid(text: string, pos: nat, ext: Ext, sizes: Sizes)
    requires pos <= |text| && ExtValid(ext, sizes)
    ensures var r := PseudoDirective(text, pos, ext, sizes);
      r.Ok? ==> ExtValid(r.value.0, sizes) && ext.marks <= r.value.0.marks
  {
    var r := PseudoDirective(text, pos, ext, sizes);
    if r.Ok? {
      var ls := Labels(text, pos, 0, Total(sizes.atoms)).value;
      var marks := PseudoMarks(ls.0, sizes.atoms);
      assert r.value.0.marks == ext.marks + marks;
      forall k | 0 <= k < |r.value.0.marks|
        ensures MarkValid(r.value.0.marks[k], sizes.atoms)
      {
        if k >= |ext.marks| {
          assert r.value.0.marks[k] == marks[k - |ext.marks|];
        }
      }
    }
  }

  /** A grouping directive keeps every entry a component of its own part. */
  lemma FragmentValid(text: string, pos: nat, ext: Ext, sizes: Sizes)
    requires pos <= |text| && ExtValid(ext, sizes)
    ensures var r := FragmentDirective(text, pos, ext, sizes);
      r.Ok? ==> ExtValid(r.value.0, sizes) && r.value.0.marks == ext.marks
  {
    var r := FragmentDirective(text, pos, ext, sizes);
    if r.Ok? {
      var p := Colon(text, pos, "'f'").value;
      TablesOfExt(ext, sizes);
      AssignValid(ext.fragments, FragmentPairs(text, p).pairs, sizes.components);
    }
  }

  /** Every directive keeps the tables valid and only adds marks. */
  lemma DirectiveValid(text: string, pos: nat, c: char, ext: Ext, sizes: Sizes)
    requires pos <= |text| && ExtValid(ext, sizes)
    ensures var r := Directive(text, pos, c, ext, sizes);
      r.Ok? ==> ExtValid(r.value.0, sizes) && ext.marks <= r.value.0.marks
  {
    if c in "wao&" {
      if c == 'w' || c == 'a' {
        var p := Colon(text, pos, Quoted(c));
        if p.Ok? {
          MarkListValid(text, p.value, ext, sizes, SetStereo(if c == 'w' then AnyStereo else Absolute));
        }
      } else {
        var u := Unsigned(text, pos);
        if u.Some? {
          var p := Colon(text, u.value.1, Quoted(c));
          if p.Ok? {
            var kind := if c == 'o' then OrGroup(u.value.0) else AndGroup(u.value.0);
            MarkListValid(text, p.value, ext, sizes, SetStereo(kind));
          }
        }
      }
    } else if c == '^' {
      if pos < |text| && IsDigit(text[pos]) {
        var radical := RadicalOf(DigitValue(text[pos]));
        if radical.Some? {
          var p := Colon(text, pos + 1, "radical number");
          if p.Ok? {
            MarkListValid(text, p.value, ext, sizes, SetRadical(radical.value));
          }
        }
      }
    } else if c == 'f' {
      FragmentValid(text, pos, ext, sizes);
    } else if c == '$' {
      PseudoValid(text, pos, ext, sizes);
    } else if c == 'h' {
      HighlightValid(text, pos, ext, sizes);
    }
  }

  /** A block read whole leaves valid tables and keeps the marks made before it. */
  lemma {:induction false} BlockValid(text: string, pos: nat, ext: Ext, sizes: Sizes)
    requires pos <= |text| && ExtValid(ext, sizes)
    ensures var r := Block(text, pos, ext, sizes);
      r.Ok? ==> ExtValid(r.value.0, sizes) && ext.marks <= r.value.0.marks
    decreases |text| - pos
  {
    if pos < |text| && text[pos] != '|' {
      DirectiveValid(text, pos + 1, text[pos], ext, sizes);
      var d := Directive(text, pos + 1, text[pos], ext, sizes);
      if d.Ok? {
        BlockValid(text, d.value.1, d.value.0, sizes);
        assert Block(text, pos, ext, sizes) == Block(text, d.value.1, d.value.0, sizes);
      }
    }
  }

  /** A block read whole ends just after its closing '|'. */
  lemma {:induction false} BlockEndsAtBar(text: string, pos: nat, ext: Ext, sizes: Sizes)
    requires pos <= |text| && |ext.fragments| == 3
    ensures var r := Block(text, pos, ext, sizes);
      r.Ok? ==> pos < r.value.1 <= |text| && text[r.value.1 - 1] == '|'
    decreases |text| - pos
  {
    if pos < |text| && text[pos] != '|' {
      var d := Directive(text, pos + 1, text[pos], ext, sizes);
      if d.Ok? {
        BlockEndsAtBar(text, d.value.1, d.value.0, sizes);
        assert Block(text, pos, ext, sizes) == Block(text, d.value.1, d.value.0, sizes);
      }
    }
  }

  /** The loader's block loop: a character is read; '|' ends the block, and any other
      character has the directive it starts read from the scanner's position, which then
      moves past it.  It reads exactly the block Block denotes. */
  method ReadBlock(s: Scanner, ext: Ext, sizes: Sizes) returns (r: Result<Ext, string>)
    requires s.Valid() && |ext.fragments| == 3
    modifies s`pos
    ensures s.Valid()
    ensures var b := Block(s.text, old(s.pos), ext, sizes);
      && (b.Err? ==> r == Err(b.error))
      && (b.Ok? ==> r == Ok(b.value.0) && s.pos == b.value.1)
  {
    ghost var b := Block(s.text, s.pos, ext, sizes);
    var cur := ext;
    while true
      invariant s.Valid() && |cur.fragments| == 3
      invariant Block(s.text, s.pos, cur, sizes) == b
      decreases |s.text| - s.pos
    {
      var c := s.ReadChar();
      if c.Err? {
        return Err(c.error);
      }
      if c.value == '|' {
        return Ok(cur);
      }
      match Directive(s.text, s.pos, c.value, cur, sizes)
      case Err(e) =>
        return Err(e);
      case Ok(d) =>
        cur := d.0;
        s.pos := d.1;
    }
  }
}
