/** Indigo's reaction SMILES loader (RSmilesLoader): splitting "reactants>agents>products"
 * into its three texts, mapping the indices of the extended-SMILES block, which count
 * atoms (or components) over the whole reaction, to a part and an index within it, and
 * reading that block.  The molecules themselves are represented by their counts. */
module RSmiles {
  import opened Wrappers
  import opened Decimal
  import opened Scanning

  // Parts and indices

  /** One number for each part of a reaction: reactants, catalysts (agents), products. */
  datatype Counts = Counts(reactants: nat, catalysts: nat, products: nat)

  /** The number for part g. */
  function Count(counts: Counts, g: nat): nat
    requires g < 3
  {
    if g == 0 then counts.reactants else if g == 1 then counts.catalysts else counts.products
  }

  /** How many come before part g: the numbers of the parts before it. */
  function Offset(counts: Counts, g: nat): nat
    requires g < 3
  {
    if g == 0 then 0 else Offset(counts, g - 1) + Count(counts, g - 1)
  }

  /** The number over the whole reaction. */
  function Total(counts: Counts): nat
  {
    counts.reactants + counts.catalysts + counts.products
  }

  /** The part a reaction-wide index falls in; none past the total. */
  function GroupOf(counts: Counts, lead: nat): (g: Option<nat>)
    ensures g.Some? <==> lead < Total(counts)
    ensures g.Some? ==> g.value < 3 && Offset(counts, g.value) <= lead < Offset(counts, g.value) + Count(counts, g.value)
  {
    if lead < counts.reactants then Some(0)
    else if lead < counts.reactants + counts.catalysts then Some(1)
    else if lead < Total(counts) then Some(2)
    else None
  }

  /** An index within a part, offset by the parts before it, falls back in that part:
      the reaction-wide numbering and the numbering within parts are inverse. */
  lemma GroupOfOffset(counts: Counts, g: nat, local: nat)
    requires g < 3 && local < Count(counts, g)
    ensures GroupOf(counts, Offset(counts, g) + local) == Some(g)
  {
  }

  /** A part chosen for a lead index, with the lead and a second index both made
      relative to that part. */
  datatype Selected = Selected(group: nat, lead: int, idx: int)

  const IndexOutOfRange := "RSmilesLoader::_selectGroup(): Index out of range"

  /** _selectGroupByPair: the part is the one the lead index falls in; the lead and idx
      are both reduced by the sizes of the parts skipped; a lead past all parts is an
      error. */
  method SelectGroupByPair(lead: nat, idx: int, counts: Counts) returns (r: Result<Selected, string>)
    ensures r.Ok? <==> GroupOf(counts, lead).Some?
    ensures r.Ok? ==> var g := GroupOf(counts, lead).value;
      r.value == Selected(g, lead - Offset(counts, g), idx - Offset(counts, g))
    ensures r.Ok? ==> 0 <= r.value.lead < Count(counts, r.value.group)
    ensures r.Err? ==> r.error == IndexOutOfRange
  {
    var leadIdx: int, i := lead, idx;
    if leadIdx < counts.reactants {
      return Ok(Selected(0, leadIdx, i));
    }
    leadIdx, i := leadIdx - counts.reactants, i - counts.reactants;
    if leadIdx < counts.catalysts {
      return Ok(Selected(1, leadIdx, i));
    }
    leadIdx, i := leadIdx - counts.catalysts, i - counts.catalysts;
    assert Offset(counts, 1) == counts.reactants;
    assert Offset(counts, 2) == counts.reactants + counts.catalysts;
    if leadIdx < counts.products {
      return Ok(Selected(2, leadIdx, i));
    }
    r := Err(IndexOutOfRange);
  }

  /** _selectGroup: the part an index falls in and the index within it. */
  method SelectGroup(idx: nat, counts: Counts) returns (r: Result<Selected, string>)
    ensures r.Ok? <==> idx < Total(counts)
    ensures r.Ok? ==> r.value.group < 3 && 0 <= r.value.idx < Count(counts, r.value.group)
    ensures r.Ok? ==> Offset(counts, r.value.group) + r.value.idx == idx
    ensures r.Err? ==> r.error == IndexOutOfRange
  {
    var lead := idx;
    r := SelectGroupByPair(lead, idx, counts);
  }

  /** The reaction-wide index of an index within part v: the loader adds the sizes of the
      parts before it, one by one. */
  method GlobalIndex(counts: Counts, v: nat, local: nat) returns (idx: nat)
    requires v < 3
    ensures idx == Offset(counts, v) + local
    ensures local < Count(counts, v) ==> idx < Total(counts) && GroupOf(counts, idx) == Some(v)
  {
    idx := local;
    var w := 0;
    while w < v
      invariant w <= v && idx == Offset(counts, w) + local
    {
      idx := idx + Count(counts, w);
      w := w + 1;
    }
    if local < Count(counts, v) {
      GroupOfOffset(counts, v, local);
    }
  }

  // The three texts

  /** The text before the first sep and the text after it; none when there is no sep. */
  function Before(t: string, sep: char): (r: Option<(string, string)>)
    ensures r.Some? ==> |r.value.0| < |t|
  {
    if |t| == 0 then None
    else if t[0] == sep then Some(([], t[1..]))
    else match Before(t[1..], sep)
      case None => None
      case Some(p) => Some(([t[0]] + p.0, p.1))
  }

  /** There is a split exactly when sep occurs; its first text has no sep, and the two
      texts around sep make up the input. */
  lemma {:induction false} BeforeSplits(t: string, sep: char)
    ensures Before(t, sep).Some? <==> sep in t
    ensures Before(t, sep).Some? ==> var p := Before(t, sep).value;
      sep !in p.0 && t == p.0 + [sep] + p.1
  {
    if |t| > 0 && t[0] != sep {
      BeforeSplits(t[1..], sep);
      assert t == [t[0]] + t[1..];
    }
  }

  /** Text without sep, then sep: the text is read back up to sep. */
  lemma {:induction false} BeforeSep(a: string, sep: char, b: string)
    requires sep !in a
    ensures Before(a + [sep] + b, sep) == Some((a, b))
  {
    if |a| > 0 {
      assert (a + [sep] + b)[1..] == a[1..] + [sep] + b;
      BeforeSep(a[1..], sep, b);
      assert [a[0]] + a[1..] == a;
    }
  }

  /** The reactant, agent and product texts, and whether a '|' ended the products. */
  datatype Texts = Texts(reactants: string, agents: string, products: string, vbar: bool)

  /** How _loadReaction splits the input: the reactants up to the first '>', the agents
      up to the second, the products up to '|' or the end; what follows '|' is the
      extension block.  Fewer than two '>' is an error (the scanner's, at the end of the
      input). */
  function SplitReaction(t: string): (r: Result<(Texts, string), string>)
  {
    match Before(t, '>')
    case None => Err(EndOfInput)
    case Some(p1) =>
      match Before(p1.1, '>')
      case None => Err(EndOfInput)
      case Some(p2) =>
        match Before(p2.1, '|')
        case None => Ok((Texts(p1.0, p2.0, p2.1, false), ""))
        case Some(p3) => Ok((Texts(p1.0, p2.0, p3.0, true), p3.1))
  }

  /** The input the texts and the extension block were split from. */
  function Joined(x: Texts, rest: string): string
  {
    x.reactants + ">" + x.agents + ">" + x.products + (if x.vbar then "|" + rest else "")
  }

  /** The joined input, grouped the way the split takes it apart. */
  lemma JoinedSplit(x: Texts, rest: string)
    ensures var tail := x.products + (if x.vbar then "|" + rest else "");
      Joined(x, rest) == x.reactants + ['>'] + (x.agents + ['>'] + tail)
  {
  }

  /** The split fails exactly when the input has fewer than two '>', and then with the
      scanner's end-of-input error. */
  lemma SplitReactionFails(t: string)
    ensures SplitReaction(t).Err? <==> multiset(t)['>'] < 2
    ensures SplitReaction(t).Err? ==> SplitReaction(t).error == EndOfInput
  {
    BeforeSplits(t, '>');
    if '>' in t {
      var p1 := Before(t, '>').value;
      assert multiset(t) == multiset(p1.0) + multiset{'>'} + multiset(p1.1);
      BeforeSplits(p1.1, '>');
      if '>' in p1.1 {
        var p2 := Before(p1.1, '>').value;
        assert multiset(p1.1) == multiset(p2.0) + multiset{'>'} + multiset(p2.1);
      }
    }
  }

  /** A successful split gives texts without their separators which, written back with
      them, make up the input; without a '|' nothing is left for the extension block. */
  lemma SplitReactionSplits(t: string)
    requires SplitReaction(t).Ok?
    ensures var x := SplitReaction(t).value.0; var rest := SplitReaction(t).value.1;
      && '>' !in x.reactants && '>' !in x.agents && '|' !in x.products
      && (!x.vbar ==> rest == "")
      && t == Joined(x, rest)
  {
    BeforeSplits(t, '>');
    var p1 := Before(t, '>').value;
    BeforeSplits(p1.1, '>');
    var p2 := Before(p1.1, '>').value;
    BeforeSplits(p2.1, '|');
    var x, rest;
    if '|' in p2.1 {
      var p3 := Before(p2.1, '|').value;
      x, rest := Texts(p1.0, p2.0, p3.0, true), p3.1;
    } else {
      x, rest := Texts(p1.0, p2.0, p2.1, false), "";
    }
    assert SplitReaction(t) == Ok((x, rest));
    var tail := x.products + (if x.vbar then "|" + rest else "");
    assert tail == p2.1;
    assert x.agents + ['>'] + tail == p1.1;
    JoinedSplit(x, rest);
  }

  /** Writing three texts with their separators and splitting the result gives them back. */
  lemma SplitReactionJoin(x: Texts, rest: string)
    requires '>' !in x.reactants && '>' !in x.agents && '|' !in x.products
    requires !x.vbar ==> rest == ""
    ensures SplitReaction(Joined(x, rest)) == Ok((x, rest))
  {
    var tail := x.products + (if x.vbar then "|" + rest else "");
    JoinedSplit(x, rest);
    BeforeSep(x.reactants, '>', x.agents + ['>'] + tail);
    BeforeSep(x.agents, '>', tail);
    if x.vbar {
      assert tail == x.products + ['|'] + rest;
      BeforeSep(x.products, '|', rest);
    } else {
      assert tail == x.products;
      BeforeSplits(x.products, '|');
    }
  }

  /** After the text before sep and sep itself comes the rest of the split. */
  lemma RestAfter(text: string, start: nat, sep: char)
    requires start <= |text| && Before(text[start..], sep).Some?
    ensures var p := Before(text[start..], sep).value;
      start + |p.0| + 1 <= |text| && text[start + |p.0| + 1..] == p.1
  {
    BeforeSplits(text[start..], sep);
    var p := Before(text[start..], sep).value;
    assert text[start..][|p.0| + 1..] == p.1;
  }

  /** The reactant or agent loop of _loadReaction: the characters up to the next '>',
      which is consumed and left out. */
  method ReadUpToGt(s: Scanner) returns (r: Result<string, string>)
    requires s.Valid()
    modifies s`pos
    ensures s.Valid()
    ensures var b := Before(s.text[old(s.pos)..], '>');
      && (b.None? ==> r == Err(EndOfInput))
      && (b.Some? ==> r == Ok(b.value.0) && s.pos == old(s.pos) + |b.value.0| + 1)
  {
    ghost var start := s.pos;
    var buf := "";
    while true
      invariant start <= s.pos <= |s.text| && s.Valid()
      invariant buf == s.text[start..s.pos] && '>' !in buf
      decreases |s.text| - s.pos
    {
      var c := s.ReadChar();
      if c.Err? {
        assert s.text[start..] == buf;
        BeforeSplits(buf, '>');
        return Err(c.error);
      }
      if c.value == '>' {
        BeforeSep(buf, '>', s.text[s.pos..]);
        assert s.text[start..] == buf + ['>'] + s.text[s.pos..];
        return Ok(buf);
      }
      buf := buf + [c.value];
    }
  }

  /** The product loop of _loadReaction: the characters up to '|' or the end, and whether
      a '|' was consumed. */
  method ReadProducts(s: Scanner) returns (products: string, vbar: bool)
    requires s.Valid()
    modifies s`pos
    ensures s.Valid()
    ensures var b := Before(s.text[old(s.pos)..], '|');
      && (b.None? ==> products == s.text[old(s.pos)..] && !vbar && s.pos == |s.text|)
      && (b.Some? ==> products == b.value.0 && vbar && s.pos == old(s.pos) + |b.value.0| + 1)
  {
    ghost var start := s.pos;
    products, vbar := "", false;
    while !s.IsEOF()
      invariant start <= s.pos <= |s.text| && s.Valid()
      invariant products == s.text[start..s.pos] && '|' !in products
      decreases |s.text| - s.pos
    {
      var c := s.ReadChar();
      if c.value == '|' {
        BeforeSep(products, '|', s.text[s.pos..]);
        assert s.text[start..] == products + ['|'] + s.text[s.pos..];
        return products, true;
      }
      products := products + [c.value];
    }
    assert s.text[start..] == products;
    BeforeSplits(products, '|');
  }

  /** The three texts of _loadReaction, read from the scanner: SplitReaction of what is
      left of the input, with the scanner left at the start of the extension block. */
  method ReadTexts(s: Scanner) returns (r: Result<Texts, string>)
    requires s.Valid()
    modifies s`pos
    ensures s.Valid()
    ensures var sr := SplitReaction(s.text[old(s.pos)..]);
      && (r.Ok? <==> sr.Ok?)
      && (r.Ok? ==> r.value == sr.value.0 && s.text[s.pos..] == sr.value.1)
  {
    ghost var t := s.text[s.pos..];
    var reactants := ReadUpToGt(s);
    if reactants.Err? {
      assert Before(t, '>').None?;
      return Err(reactants.error);
    }
    ghost var t1 := s.text[s.pos..];
    RestAfter(s.text, old(s.pos), '>');
    assert Before(t, '>') == Some((reactants.value, t1));
    var agents := ReadUpToGt(s);
    if agents.Err? {
      assert Before(t1, '>').None?;
      return Err(agents.error);
    }
    ghost var t2 := s.text[s.pos..];
    RestAfter(s.text, old(s.pos) + |reactants.value| + 1, '>');
    assert Before(t1, '>') == Some((agents.value, t2));
    var products, vbar := ReadProducts(s);
    r := Ok(Texts(reactants.value, agents.value, products, vbar));
    if vbar {
      RestAfter(s.text, old(s.pos) + |reactants.value| + |agents.value| + 2, '|');
      assert Before(t2, '|') == Some((products, s.text[s.pos..]));
    } else {
      assert Before(t2, '|').None? && products == t2 && s.text[s.pos..] == "";
    }
  }
}
