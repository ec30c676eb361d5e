/** The character scanner the reaction SMILES loader reads from: a text and a reading
 * position.  Only the operations the loader uses are modelled (readChar, lookNext,
 * skip, isEOF, readUnsigned and readIntFix for one digit). */
module Scanning {
  import opened Wrappers
  import opened Decimal

  /** The error a scanner raises when asked to read past the end. */
  const EndOfInput := "end of input"

  /** The error readUnsigned raises when no digit is at the position. */
  const NoDigits := "readUnsigned(): no digits"

  /** The error readIntFix raises on a character that is not a digit. */
  const InvalidNumber := "readIntFix(): invalid number"

  /** The length of the run of digits that starts at pos. */
  function DigitRun(text: string, pos: nat): (n: nat)
    requires pos <= |text|
    ensures pos + n <= |text|
    ensures pos + n == |text| || !IsDigit(text[pos + n])
    decreases |text| - pos
  {
    if pos < |text| && IsDigit(text[pos]) then 1 + DigitRun(text, pos + 1) else 0
  }

  /** The run holds only digits. */
  lemma {:induction false} DigitRunDigits(text: string, pos: nat)
    requires pos <= |text|
    ensures forall k :: pos <= k < pos + DigitRun(text, pos) ==> IsDigit(text[k])
    decreases |text| - pos
  {
    if pos < |text| && IsDigit(text[pos]) {
      DigitRunDigits(text, pos + 1);
    }
  }

  /** A run of digits followed by the end or by something else is the run at its start. */
  lemma {:induction false} DigitRunIs(text: string, pos: nat, end: nat)
    requires pos <= end <= |text|
    requires forall k :: pos <= k < end ==> IsDigit(text[k])
    requires end == |text| || !IsDigit(text[end])
    ensures DigitRun(text, pos) == end - pos
    decreases end - pos
  {
    if pos < end {
      DigitRunIs(text, pos + 1, end);
    }
  }

  /** The unsigned number written at pos and where it ends; none when no digit is there. */
  function Unsigned(text: string, pos: nat): (r: Option<(nat, nat)>)
    requires pos <= |text|
    ensures r.None? <==> pos == |text| || !IsDigit(text[pos])
    ensures r.Some? ==> pos < r.value.1 <= |text|
  {
    var n := DigitRun(text, pos);
    DigitRunDigits(text, pos);
    if n == 0 then None else Some((ParseNat(text[pos..pos + n]), pos + n))
  }

  /** A numeral followed by the end or by a non-digit is read back as its number. */
  lemma UnsignedNumeral(pre: string, n: nat, tail: string)
    requires tail == [] || !IsDigit(tail[0])
    ensures var text := pre + NatToString(n) + tail;
      Unsigned(text, |pre|) == Some((n, |pre| + |NatToString(n)|))
  {
    var s := NatToString(n);
    ParseNatToString(n);
    Infix(pre, s, tail);
    UnsignedDigits(pre + s + tail, |pre|, s);
  }

  /** The middle of three joined strings sits right after the first, and the third
      follows it. */
  lemma Infix(pre: string, s: string, tail: string)
    ensures (pre + s + tail)[|pre|..|pre| + |s|] == s
    ensures |pre| + |s| < |pre + s + tail| ==> (pre + s + tail)[|pre| + |s|] == tail[0]
  {
    assert pre + s + tail == pre + (s + tail);
  }

  /** Digits found at pos, followed by the end or by a non-digit, are read as their
      value. */
  lemma UnsignedDigits(text: string, pos: nat, w: string)
    requires |w| > 0 && forall k :: 0 <= k < |w| ==> IsDigit(w[k])
    requires pos + |w| <= |text| && text[pos..pos + |w|] == w
    requires pos + |w| == |text| || !IsDigit(text[pos + |w|])
    ensures Unsigned(text, pos) == Some((ParseNat(w), pos + |w|))
  {
    forall k | pos <= k < pos + |w|
      ensures IsDigit(text[k])
    {
      assert text[k] == w[k - pos];
    }
    DigitRunIs(text, pos, pos + |w|);
  }

  /** A scanner over a text. */
  class Scanner {
    const text: string
    var pos: nat

    ghost predicate Valid()
      reads this
    {
      pos <= |text|
    }

    constructor(text: string)
      ensures this.text == text && pos == 0 && Valid()
    {
      this.text := text;
      pos := 0;
    }

    /** isEOF. */
    predicate IsEOF()
      reads this
    {
      pos >= |text|
    }

    /** lookNext: the next character, none at the end (where the scanner gives -1). */
    function LookNext(): (r: Option<char>)
      reads this
      ensures r.Some? <==> pos < |text|
      ensures r.Some? ==> r.value == text[pos]
    {
      if pos < |text| then Some(text[pos]) else None
    }

    /** readChar: the next character, which is then consumed; an error at the end. */
    method ReadChar() returns (r: Result<char, string>)
      requires Valid()
      modifies this`pos
      ensures Valid()
      ensures old(pos) < |text| ==> r == Ok(text[old(pos)]) && pos == old(pos) + 1
      ensures old(pos) >= |text| ==> r == Err(EndOfInput) && pos == old(pos)
    {
      if pos >= |text| {
        return Err(EndOfInput);
      }
      r := Ok(text[pos]);
      pos := pos + 1;
    }

    /** skip(1). */
    method Skip()
      requires Valid() && pos < |text|
      modifies this`pos
      ensures Valid() && pos == old(pos) + 1
    {
      pos := pos + 1;
    }

    /** readUnsigned: the digits at the position, as a number; the character after them
        is read and put back.  An error, consuming nothing, when no digit is there. */
    method ReadUnsigned() returns (r: Result<nat, string>)
      requires Valid()
      modifies this`pos
      ensures Valid()
      ensures var u := Unsigned(text, old(pos));
        && (u.None? ==> r == Err(NoDigits) && pos == old(pos))
        && (u.Some? ==> r == Ok(u.value.0) && pos == u.value.1)
    {
      ghost var start := pos;
      var result := 0;
      var wasDigit := false;
      while pos < |text|
        invariant start <= pos <= |text| && wasDigit == (pos > start)
        invariant forall k :: start <= k < pos ==> IsDigit(text[k])
        invariant result == ParseNat(text[start..pos])
        decreases |text| - pos
      {
        var c := ReadChar();
        if IsDigit(c.value) {
          assert text[start..pos][..pos - 1 - start] == text[start..pos - 1];
          wasDigit := true;
          result := DigitValue(c.value) + result * 10;
        } else {
          pos := pos - 1;
          break;
        }
      }
      DigitRunIs(text, start, pos);
      if !wasDigit {
        return Err(NoDigits);
      }
      r := Ok(result);
    }

    /** readIntFix(1): the next character, which must be a digit, as a number. */
    method ReadDigit() returns (r: Result<nat, string>)
      requires Valid()
      modifies this`pos
      ensures Valid()
      ensures old(pos) < |text| && IsDigit(text[old(pos)]) ==> r == Ok(DigitValue(text[old(pos)]))
      ensures old(pos) < |text| ==> pos == old(pos) + 1
      ensures old(pos) >= |text| ==> r == Err(EndOfInput)
      ensures old(pos) < |text| && !IsDigit(text[old(pos)]) ==> r == Err(InvalidNumber)
    {
      var c := ReadChar();
      if c.Err? {
        return Err(c.error);
      }
      if !IsDigit(c.value) {
        return Err(InvalidNumber);
      }
      r := Ok(DigitValue(c.value));
    }
  }
}
