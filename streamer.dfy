/**
 * The chunked reading of a Streamer: the data is handed out in chunks of
 * chunkSize characters, and chunkToLines turns a stream of chunks into lines,
 * carrying the text after the last newline of a chunk over to the next one.
 * Binary and compressed data is modelled as the characters NGL.Uint8ToString
 * would give, so both kinds of data are sequences of characters here; the
 * newline is a single character.
 */
module Streamer {
  import opened Wrappers
  import opened IndexTypes
  import opened Seqs

  // ---- slicing ----

  function Min(a: nat, b: nat): (m: nat)
    ensures m <= a && m <= b && (m == a || m == b)
  {
    if a <= b then a else b
  }

  /** JavaScript's `s.substring(a, b)`: both ends clamped to the length, and swapped
      when the first is the larger. */
  function Substring(s: string, a: nat, b: nat): string
  {
    var a', b' := Min(a, |s|), Min(b, |s|);
    if a' <= b' then s[a'..b'] else s[b'..a']
  }

  /** JavaScript's `s.subarray(a, b)` on a typed array: both ends clamped to the length,
      empty when the first is the larger. */
  function Subarray(s: string, a: nat, b: nat): string
  {
    var a', b' := Min(a, |s|), Min(b, |s|);
    if a' <= b' then s[a'..b'] else []
  }

  /** JavaScript's `s.substr(start, length)`: length characters from start, clamped. */
  function Substr(s: string, start: nat, length: nat): string
  {
    s[Min(start, |s|)..Min(start + length, |s|)]
  }

  /** Streamer._chunk: the data from start to end (end clamped to the length); the data
      itself for the whole of it, and a subarray rather than a substring for binary or
      compressed data. */
  function Chunk(data: string, packed: bool, start: nat, end: nat): string
  {
    var e := Min(|data|, end);
    if start == 0 && |data| == e then data
    else if packed then Subarray(data, start, e)
    else Substring(data, start, e)
  }

  /** Whatever the kind of data, a chunk is the slice between its clamped ends. */
  lemma ChunkSlice(data: string, packed: bool, start: nat, end: nat)
    requires start <= end
    ensures Chunk(data, packed, start, end) == data[Min(start, |data|)..Min(end, |data|)]
  {
  }

  /** StringStreamer._chunk as written: `substr(start, end)` reads end as a length. */
  function StringChunk(data: string, start: nat, end: nat): string
  {
    Substr(data, start, end)
  }

  /** The chunk from start to end of a streamer, StringStreamer's when isString. */
  function ChunkOf(data: string, packed: bool, isString: bool, start: nat, end: nat): string
  {
    if isString then StringChunk(data, start, end) else Chunk(data, packed, start, end)
  }

  /** StringStreamer.chunk(start) reads start + chunkSize as a length: the Streamer's own
      chunk k is the start of StringStreamer's, the two agree on the first chunk, and from
      the second chunk on, while the data goes on past the next chunk's start,
      StringStreamer's chunk is longer than chunkSize and hands out the first character
      of the next chunk again. */
  lemma StringChunkOverlaps(data: string, chunkSize: nat, k: nat)
    requires chunkSize > 0 && k * chunkSize <= |data|
    ensures var start := k * chunkSize;
      var c := StringChunk(data, start, start + chunkSize);
      var own := Chunk(data, false, start, start + chunkSize);
      && own <= c
      && (k == 0 ==> c == own)
      && (k >= 1 && start + chunkSize < |data| ==> |c| > chunkSize && c[chunkSize] == data[start + chunkSize])
  {
    var start := k * chunkSize;
    ChunkSlice(data, false, start, start + chunkSize);
    if k >= 1 {
      assert start + start + chunkSize >= start + chunkSize + chunkSize;
    }
  }

  /** Streamer.chunkCount: `floor(length / chunkSize) + 1`. */
  function ChunkCount(n: nat, chunkSize: nat): nat
    requires chunkSize > 0
  {
    n / chunkSize + 1
  }

  /** The chunks nextChunk hands out are the ones whose start k chunkSize is at most the
      length: exactly the first ChunkCount of them. */
  lemma ChunkCountStarts(n: nat, chunkSize: nat, k: nat)
    requires chunkSize > 0
    ensures k * chunkSize <= n <==> k < ChunkCount(n, chunkSize)
  {
    var q := n / chunkSize;
    assert n == q * chunkSize + n % chunkSize;
    if k <= q {
      assert k * chunkSize <= q * chunkSize by {
        MulLe(k, q, chunkSize);
      }
    } else {
      assert (q + 1) * chunkSize <= k * chunkSize by {
        MulLe(q + 1, k, chunkSize);
      }
    }
  }

  // ---- lines ----

  /** `s.split(nl)`: the pieces of s between its newlines, as many as there are newlines
      plus one. */
  function Split(s: string, nl: char): (r: seq<string>)
    ensures |r| >= 1
  {
    if |s| == 0 then [""]
    else
      var rest := Split(s[1..], nl);
      if s[0] == nl then [""] + rest else [[s[0]] + rest[0]] + rest[1..]
  }

  /** `lines.join(nl)`. */
  function Join(lines: seq<string>, nl: char): string
  {
    if |lines| == 0 then ""
    else if |lines| == 1 then lines[0]
    else lines[0] + [nl] + Join(lines[1..], nl)
  }

  /** Each line followed by a newline. */
  function Terminated(lines: seq<string>, nl: char): string
  {
    if |lines| == 0 then "" else lines[0] + [nl] + Terminated(lines[1..], nl)
  }

  /** No line holds a newline. */
  predicate NoNewline(lines: seq<string>, nl: char)
  {
    forall k :: 0 <= k < |lines| ==> nl !in lines[k]
  }

  /** The pieces split holds no newline, and joining them gives s back. */
  lemma {:induction false} JoinSplit(s: string, nl: char)
    ensures NoNewline(Split(s, nl), nl) && Join(Split(s, nl), nl) == s
    decreases |s|
  {
    if |s| > 0 {
      var rest := Split(s[1..], nl);
      JoinSplit(s[1..], nl);
      if s[0] == nl {
        assert Split(s, nl)[1..] == rest;
      } else {
        var r := Split(s, nl);
        assert r[1..] == rest[1..];
        if |rest| > 1 {
          assert rest[0] + [nl] + Join(rest[1..], nl) == s[1..];
        }
        forall k | 0 <= k < |r|
          ensures nl !in r[k]
        {
          if k > 0 {
            assert r[k] == rest[k];
          }
        }
      }
    }
  }

  /** Splitting the join of lines without newlines gives the lines back. */
  lemma {:induction false} SplitJoin(lines: seq<string>, nl: char)
    requires |lines| >= 1 && NoNewline(lines, nl)
    ensures Split(Join(lines, nl), nl) == lines
    decreases |lines|, |lines[0]|
  {
    var l := lines[0];
    if |l| > 0 {
      var lines' := [l[1..]] + lines[1..];
      assert NoNewline(lines', nl) by {
        forall k | 0 <= k < |lines'|
          ensures nl !in lines'[k]
        {
          if k == 0 {
            assert nl !in l;
          } else {
            assert lines'[k] == lines[k];
          }
        }
      }
      SplitJoin(lines', nl);
      assert lines'[1..] == lines[1..];
      assert Join(lines, nl)[0] == l[0] && Join(lines, nl)[1..] == Join(lines', nl);
      assert l[0] != nl;
      assert [l[0]] + l[1..] == l;
      assert lines == [[l[0]] + lines'[0]] + lines'[1..];
    } else if |lines| > 1 {
      assert NoNewline(lines[1..], nl) by {
        forall k | 0 <= k < |lines| - 1
          ensures nl !in lines[1..][k]
        {
          assert lines[1..][k] == lines[k + 1];
        }
      }
      SplitJoin(lines[1..], nl);
      assert Join(lines, nl) == [nl] + Join(lines[1..], nl);
      assert Join(lines, nl)[1..] == Join(lines[1..], nl);
      assert lines == [""] + lines[1..];
    }
  }

  /** A newline after the join is a newline after every line. */
  lemma {:induction false} JoinTerminated(lines: seq<string>, nl: char)
    requires |lines| >= 1
    ensures Join(lines, nl) + [nl] == Terminated(lines, nl)
    decreases |lines|
  {
    if |lines| > 1 {
      JoinTerminated(lines[1..], nl);
    }
  }

  lemma {:induction false} TerminatedAppend(a: seq<string>, b: seq<string>, nl: char)
    ensures Terminated(a + b, nl) == Terminated(a, nl) + Terminated(b, nl)
    decreases |a|
  {
    if |a| > 0 {
      TerminatedAppend(a[1..], b, nl);
      assert (a + b)[0] == a[0] && (a + b)[1..] == a[1..] + b;
      calc {
        Terminated(a + b, nl);
        a[0] + [nl] + Terminated(a[1..] + b, nl);
        a[0] + [nl] + (Terminated(a[1..], nl) + Terminated(b, nl));
        (a[0] + [nl] + Terminated(a[1..], nl)) + Terminated(b, nl);
      }
    } else {
      assert a + b == b;
    }
  }

  /** Joining lines and a last one is terminating the lines and adding the last one. */
  lemma JoinLast(lines: seq<string>, last: string, nl: char)
    ensures Join(lines + [last], nl) == Terminated(lines, nl) + last
  {
    if |lines| > 0 {
      var x, y := Join(lines + [last], nl), Terminated(lines, nl) + last;
      JoinTerminated(lines + [last], nl);
      TerminatedAppend(lines, [last], nl);
      assert x + [nl] == y + [nl];
      assert x == (x + [nl])[..|x|] && y == (y + [nl])[..|y|];
    }
  }

  /** The number of newlines in s. */
  function CountNewlines(s: string, nl: char): nat
  {
    if |s| == 0 then 0 else CountNewlines(s[..|s| - 1], nl) + (if s[|s| - 1] == nl then 1 else 0)
  }

  /** `s.lastIndexOf(nl)`: the position of the last newline, -1 when there is none. */
  function LastIndexOf(s: string, nl: char): (i: int)
    ensures -1 <= i < |s|
  {
    if |s| == 0 then -1
    else if s[|s| - 1] == nl then |s| - 1
    else LastIndexOf(s[..|s| - 1], nl)
  }

  /** LastIndexOf finds a newline with none after it, and -1 only when there is none. */
  lemma {:induction false} LastIndexOfFound(s: string, nl: char)
    ensures var i := LastIndexOf(s, nl);
      (i >= 0 ==> s[i] == nl && nl !in s[i + 1..]) && (i == -1 ==> nl !in s)
  {
    if |s| > 0 && s[|s| - 1] != nl {
      var i := LastIndexOf(s[..|s| - 1], nl);
      LastIndexOfFound(s[..|s| - 1], nl);
      assert s == s[..|s| - 1] + [s[|s| - 1]];
      assert s[i + 1..] == s[..|s| - 1][i + 1..] + [s[|s| - 1]];
    }
  }

  /** What chunkToLines returns. */
  datatype Lines = Lines(lines: seq<string>, partialLine: string)

  /** Streamer.chunkToLines.  A text chunk as long as the whole data is split as it is,
      the partial line given ignored.  Otherwise the text before the chunk's last
      newline, after the partial line given, is split into lines and the text after it
      is the new partial line; with no newline in the chunk there are no lines and the
      chunk is added to the partial line.  A last chunk also ends its partial line, when
      there is one. */
  function ChunkToLines(chunk: string, partialLine: string, isLast: bool, whole: bool, nl: char): Lines
  {
    if whole then Lines(Split(chunk, nl), "")
    else
      var idx := LastIndexOf(chunk, nl);
      var r :=
        if idx == -1 then Lines([], partialLine + chunk)
        else Lines(Split(partialLine + chunk[..idx], nl), chunk[idx + 1..]);
      if isLast && r.partialLine != "" then Lines(r.lines + [r.partialLine], r.partialLine) else r
  }

  /** The lines a chunk that is not the whole data ends, each followed by a newline, then
      the new partial line, are the partial line given followed by the chunk; neither the
      lines nor the new partial line hold a newline when the partial line given does not;
      and a last chunk hands its partial line out as the last line. */
  lemma ChunkToLinesJoin(chunk: string, partialLine: string, isLast: bool, nl: char)
    requires nl !in partialLine
    ensures var r := ChunkToLines(chunk, partialLine, false, false, nl);
      && Terminated(r.lines, nl) + r.partialLine == partialLine + chunk
      && NoNewline(r.lines, nl) && nl !in r.partialLine
    ensures var r := ChunkToLines(chunk, partialLine, false, false, nl);
      ChunkToLines(chunk, partialLine, isLast, false, nl) ==
        if isLast && r.partialLine != "" then Lines(r.lines + [r.partialLine], r.partialLine) else r
  {
    var idx := LastIndexOf(chunk, nl);
    LastIndexOfFound(chunk, nl);
    if idx != -1 {
      var before := partialLine + chunk[..idx];
      JoinSplit(before, nl);
      JoinTerminated(Split(before, nl), nl);
      assert chunk == chunk[..idx] + [nl] + chunk[idx + 1..];
    } else {
      assert nl !in partialLine + chunk;
    }
  }

  /** A text chunk that is the whole data gives lines that join back to it. */
  lemma WholeChunkToLines(chunk: string, partialLine: string, isLast: bool, nl: char)
    ensures var r := ChunkToLines(chunk, partialLine, isLast, true, nl);
      Join(r.lines, nl) == chunk && NoNewline(r.lines, nl) && r.partialLine == ""
  {
    JoinSplit(chunk, nl);
  }

  /** Streamer.lineCount: the newlines, plus one when the data does not end with one
      (the empty data included). */
  function CountedLines(data: string, nl: char): nat
  {
    CountNewlines(data, nl) + (if |data| == 0 || data[|data| - 1] != nl then 1 else 0)
  }

  /** Splitting gives one piece more than there are newlines. */
  lemma {:induction false} SplitCount(s: string, nl: char)
    ensures |Split(s, nl)| == CountNewlines(s, nl) + 1
    decreases |s|
  {
    if |s| > 0 {
      SplitCount(s[1..], nl);
      CountFront(s, nl);
    }
  }

  /** Counting newlines from the front. */
  lemma {:induction false} CountFront(s: string, nl: char)
    requires |s| > 0
    ensures CountNewlines(s, nl) == (if s[0] == nl then 1 else 0) + CountNewlines(s[1..], nl)
    decreases |s|
  {
    if |s| > 1 {
      CountFront(s[..|s| - 1], nl);
      assert s[..|s| - 1][1..] == s[1..][..|s[1..]| - 1];
    }
  }

  /** lineCount is the number of lines split gives, less the empty piece after a final
      newline. */
  lemma LineCountSplit(data: string, nl: char)
    ensures CountedLines(data, nl) ==
      |Split(data, nl)| - (if |data| > 0 && data[|data| - 1] == nl then 1 else 0)
  {
    SplitCount(data, nl);
  }

  // ---- streams of chunks ----

  /** The first m chunks of the data, chunkSize characters each from 0. */
  function Chunks(data: string, packed: bool, chunkSize: nat, m: nat): (cs: seq<string>)
    ensures |cs| == m
  {
    seq(m, k requires 0 <= k < m => Chunk(data, packed, k * chunkSize, k * chunkSize + chunkSize))
  }

  /** The first m chunks of a streamer, StringStreamer's when isString. */
  function StreamChunks(data: string, packed: bool, isString: bool, chunkSize: nat, m: nat): (cs: seq<string>)
    ensures |cs| == m
  {
    seq(m, k requires 0 <= k < m => ChunkOf(data, packed, isString, k * chunkSize, k * chunkSize + chunkSize))
  }

  /** Except for a StringStreamer, the chunks of a streamer are the Streamer's own. */
  lemma StreamChunksBase(data: string, packed: bool, chunkSize: nat, m: nat)
    ensures StreamChunks(data, packed, false, chunkSize, m) == Chunks(data, packed, chunkSize, m)
  {
  }

  /** The first m chunks, one after the other, are the data up to m chunkSize. */
  lemma {:induction false} ChunksCover(data: string, packed: bool, chunkSize: nat, m: nat)
    ensures Flatten(Chunks(data, packed, chunkSize, m)) == data[..Min(m * chunkSize, |data|)]
  {
    if m > 0 {
      var cs := Chunks(data, packed, chunkSize, m);
      var k := m - 1;
      var start := k * chunkSize;
      var end := start + chunkSize;
      assert m * chunkSize == end;
      ChunksCover(data, packed, chunkSize, k);
      assert cs[..k] == Chunks(data, packed, chunkSize, k);
      assert cs[k] == Chunk(data, packed, start, end);
      ChunkSlice(data, packed, start, end);
      var a, b := Min(start, |data|), Min(end, |data|);
      assert Flatten(cs) == data[..a] + data[a..b];
      assert data[..a] + data[a..b] == data[..b];
    }
  }

  /** A text chunk as long as the data is the whole data. */
  predicate Whole(chunk: string, packed: bool, n: nat)
  {
    !packed && |chunk| == n
  }

  /** The lines of each chunkToLines call, and the partial line left. */
  datatype Fed = Fed(calls: seq<seq<string>>, partialLine: string)

  /** chunkToLines over the chunks in turn, from the partial line given, carrying the
      partial line from one call to the next; the last chunk is flagged as the last one
      when flagLast is set. */
  function Feed(chunks: seq<string>, partialLine: string, flagLast: bool, packed: bool, n: nat, nl: char): Fed
  {
    if chunks == [] then Fed([], partialLine)
    else
      var chunk := chunks[|chunks| - 1];
      var f := Feed(chunks[..|chunks| - 1], partialLine, false, packed, n, nl);
      var r := ChunkToLines(chunk, f.partialLine, flagLast, Whole(chunk, packed, n), nl);
      Fed(f.calls + [r.lines], r.partialLine)
  }

  /** Without a last chunk, the lines handed out, each followed by a newline, then the
      partial line left, are the partial line given followed by the chunks. */
  lemma {:induction false} FeedJoin(chunks: seq<string>, partialLine: string, packed: bool, n: nat, nl: char)
    requires nl !in partialLine
    requires forall k :: 0 <= k < |chunks| ==> !Whole(chunks[k], packed, n)
    ensures var f := Feed(chunks, partialLine, false, packed, n, nl);
      && Terminated(Flatten(f.calls), nl) + f.partialLine == partialLine + Flatten(chunks)
      && NoNewline(Flatten(f.calls), nl) && nl !in f.partialLine
  {
    if chunks != [] {
      var init, chunk := chunks[..|chunks| - 1], chunks[|chunks| - 1];
      FeedJoin(init, partialLine, packed, n, nl);
      assert !Whole(chunk, packed, n);
      var f := Feed(init, partialLine, false, packed, n, nl);
      var r := ChunkToLines(chunk, f.partialLine, false, false, nl);
      ChunkToLinesJoin(chunk, f.partialLine, false, nl);
      FeedStep(f.calls, f.partialLine, r.lines, r.partialLine, chunk, partialLine + Flatten(init), nl);
    }
  }

  /** Lines that read one more chunk, after lines that read what was fed before it, read
      all that was fed. */
  lemma FeedStep(calls: seq<seq<string>>, partialLine: string, lines: seq<string>, rest: string,
                 chunk: string, fed: string, nl: char)
    requires Terminated(Flatten(calls), nl) + partialLine == fed && NoNewline(Flatten(calls), nl)
    requires Terminated(lines, nl) + rest == partialLine + chunk && NoNewline(lines, nl)
    ensures Terminated(Flatten(calls + [lines]), nl) + rest == fed + chunk
    ensures NoNewline(Flatten(calls + [lines]), nl)
  {
    FlattenSnoc(calls, lines);
    TerminatedAppend(Flatten(calls), lines, nl);
    NoNewlineAppend(Flatten(calls), lines, nl);
    var a, b := Terminated(Flatten(calls), nl), Terminated(lines, nl);
    assert a + b + rest == a + (b + rest);
    assert a + (partialLine + chunk) == (a + partialLine) + chunk;
  }

  lemma FlattenSnoc<T>(bs: seq<seq<T>>, b: seq<T>)
    ensures Flatten(bs + [b]) == Flatten(bs) + b
  {
    assert (bs + [b])[..|bs|] == bs;
  }

  lemma NoNewlineAppend(a: seq<string>, b: seq<string>, nl: char)
    requires NoNewline(a, nl) && NoNewline(b, nl)
    ensures NoNewline(a + b, nl)
  {
    forall k | 0 <= k < |a + b|
      ensures nl !in (a + b)[k]
    {
      if k >= |a| {
        assert (a + b)[k] == b[k - |a|];
      }
    }
  }

  /** The last chunk, flagged as such, after lines that read all the data before it:
      the lines then read the whole data, its last line included. */
  lemma LastStep(calls: seq<seq<string>>, partialLine: string, chunk: string, data: string, nl: char)
    requires Terminated(Flatten(calls), nl) + partialLine + chunk == data
    requires NoNewline(Flatten(calls), nl) && nl !in partialLine
    ensures var lines := Flatten(calls + [ChunkToLines(chunk, partialLine, true, false, nl).lines]);
      && NoNewline(lines, nl)
      && (|data| == 0 || data[|data| - 1] == nl ==> Terminated(lines, nl) == data)
      && (|data| > 0 && data[|data| - 1] != nl ==> Join(lines, nl) == data)
  {
    var r0 := ChunkToLines(chunk, partialLine, false, false, nl);
    ChunkToLinesJoin(chunk, partialLine, true, nl);
    var fed := Terminated(Flatten(calls), nl) + partialLine;
    FeedStep(calls, partialLine, r0.lines, r0.partialLine, chunk, fed, nl);
    LastLine(calls, r0.lines, r0.partialLine, data, nl);
  }

  /** Lines that read the data up to a last partial line without a newline: with that
      line handed out when it is not empty, they read the whole data. */
  lemma LastLine(calls: seq<seq<string>>, lines: seq<string>, last: string, data: string, nl: char)
    requires Terminated(Flatten(calls + [lines]), nl) + last == data
    requires NoNewline(Flatten(calls + [lines]), nl) && nl !in last
    ensures var lines' := Flatten(calls + [if last != "" then lines + [last] else lines]);
      && NoNewline(lines', nl)
      && (|data| == 0 || data[|data| - 1] == nl ==> Terminated(lines', nl) == data)
      && (|data| > 0 && data[|data| - 1] != nl ==> Join(lines', nl) == data)
  {
    var core := Flatten(calls + [lines]);
    if last == "" {
      assert data == Terminated(core, nl);
      if |core| > 0 {
        JoinTerminated(core, nl);
        assert data == Join(core, nl) + [nl];
      }
    } else {
      FlattenSnoc(calls, lines + [last]);
      FlattenSnoc(calls, lines);
      assert Flatten(calls + [lines + [last]]) == core + [last];
      JoinLast(core, last, nl);
      NoNewlineAppend(core, [last], nl);
      assert data[|data| - 1] == last[|last| - 1];
    }
  }

  /** When the text is in more than one chunk, no chunk is the whole of it. */
  lemma ChunksNotWhole(data: string, packed: bool, chunkSize: nat, m: nat)
    requires packed || chunkSize < |data|
    ensures forall k :: 0 <= k < m ==> !Whole(Chunks(data, packed, chunkSize, m)[k], packed, |data|)
  {
    forall k | 0 <= k < m
      ensures !Whole(Chunks(data, packed, chunkSize, m)[k], packed, |data|)
    {
      ChunkSlice(data, packed, k * chunkSize, k * chunkSize + chunkSize);
    }
  }

  /** Enough chunks to reach the end are the data. */
  lemma ChunksAll(data: string, packed: bool, chunkSize: nat, m: nat)
    requires m * chunkSize >= |data|
    ensures Flatten(Chunks(data, packed, chunkSize, m)) == data
  {
    ChunksCover(data, packed, chunkSize, m);
  }

  /** Feeding chunks that together are the data, none of them the whole text, from an
      empty partial line and with the last chunk flagged, reads the whole data. */
  lemma FeedAll(chunks: seq<string>, data: string, packed: bool, nl: char)
    requires |chunks| >= 1 && Flatten(chunks) == data
    requires forall k :: 0 <= k < |chunks| ==> !Whole(chunks[k], packed, |data|)
    ensures var lines := Flatten(Feed(chunks, "", true, packed, |data|, nl).calls);
      && NoNewline(lines, nl)
      && (|data| == 0 || data[|data| - 1] == nl ==> Terminated(lines, nl) == data)
      && (|data| > 0 && data[|data| - 1] != nl ==> Join(lines, nl) == data)
  {
    var init, chunk := chunks[..|chunks| - 1], chunks[|chunks| - 1];
    assert !Whole(chunk, packed, |data|);
    FeedJoin(init, "", packed, |data|, nl);
    var f := Feed(init, "", false, packed, |data|, nl);
    LastStep(f.calls, f.partialLine, chunk, data, nl);
  }

  /** Reading a whole stream of chunks, the last one flagged, gives back the data: the
      lines joined with newlines are the data, with one newline more at the end when the
      data ends with one (or is empty).  Chunks that are the whole text are split as they
      are; this is for binary or compressed data, or for text in more than one chunk. */
  lemma StreamLines(data: string, packed: bool, chunkSize: nat, m: nat, nl: char)
    requires m >= 1 && m * chunkSize >= |data| && (packed || chunkSize < |data|)
    ensures var lines := Flatten(Feed(Chunks(data, packed, chunkSize, m), "", true, packed, |data|, nl).calls);
      && NoNewline(lines, nl)
      && (|data| == 0 || data[|data| - 1] == nl ==> Terminated(lines, nl) == data)
      && (|data| > 0 && data[|data| - 1] != nl ==> Join(lines, nl) == data)
  {
    ChunksNotWhole(data, packed, chunkSize, m);
    ChunksAll(data, packed, chunkSize, m);
    FeedAll(Chunks(data, packed, chunkSize, m), data, packed, nl);
  }
  /** Feeding one more chunk, flagged or not, after the others. */
  lemma FeedSnoc(chunks: seq<string>, chunk: string, partialLine: string, flag: bool, packed: bool,
                 n: nat, nl: char)
    ensures var f := Feed(chunks, partialLine, false, packed, n, nl);
      var d := ChunkToLines(chunk, f.partialLine, flag, Whole(chunk, packed, n), nl);
      Feed(chunks + [chunk], partialLine, flag, packed, n, nl) == Fed(f.calls + [d.lines], d.partialLine)
  {
    assert (chunks + [chunk])[..|chunks|] == chunks;
  }

  /** The first k + 1 chunks are the first k and the one starting at k chunkSize. */
  lemma ChunksSnoc(data: string, packed: bool, chunkSize: nat, k: nat, start: nat)
    requires start == k * chunkSize
    ensures Chunks(data, packed, chunkSize, k + 1)
      == Chunks(data, packed, chunkSize, k) + [Chunk(data, packed, start, start + chunkSize)]
  {
  }

  /** The chunks of eachChunk's calls. */
  function ChunksOf(calls: seq<ChunkCall>): (chunks: seq<string>)
    ensures |chunks| == |calls| && forall k :: 0 <= k < |calls| ==> chunks[k] == calls[k].chunk
  {
    seq(|calls|, k requires 0 <= k < |calls| => calls[k].chunk)
  }

  /** eachChunk's chunks are the first chunks of the data. */
  lemma ChunksOfCalls(data: string, packed: bool, isString: bool, chunkSize: nat, calls: seq<ChunkCall>)
    requires chunkSize > 0 && calls == ChunkCalls(data, packed, isString, chunkSize, |calls|)
    ensures ChunksOf(calls) == StreamChunks(data, packed, isString, chunkSize, |calls|)
  {
  }

  /** Feeding one more chunk of a sequence, after the first j, whose lines so far are known. */
  lemma FeedPrefix(chunks: seq<string>, j: nat, chunk: string, partialLine: string, flag: bool, packed: bool,
                   n: nat, nl: char, lines: seq<seq<string>>, carried: string)
    requires j < |chunks| && chunk == chunks[j]
    requires Feed(chunks[..j], partialLine, false, packed, n, nl) == Fed(lines, carried)
    ensures var d := ChunkToLines(chunk, carried, flag, !packed && |chunk| == n, nl);
      Feed(chunks[..j + 1], partialLine, flag, packed, n, nl) == Fed(lines + [d.lines], d.partialLine)
  {
    assert chunks[..j + 1] == chunks[..j] + [chunks[j]];
    FeedSnoc(chunks[..j], chunks[j], partialLine, flag, packed, n, nl);
  }

  /** Feeding the chunk after the first k, which starts at the given position, once the
      lines of the first k are known. */
  lemma FeedNext(data: string, packed: bool, chunkSize: nat, k: nat, start: nat, partialLine: string,
                 flag: bool, nl: char, lines: seq<seq<string>>, carried: string)
    requires start == k * chunkSize
    requires Feed(Chunks(data, packed, chunkSize, k), partialLine, false, packed, |data|, nl) == Fed(lines, carried)
    ensures var chunk := Chunk(data, packed, start, start + chunkSize);
      var d := ChunkToLines(chunk, carried, flag, !packed && |chunk| == |data|, nl);
      Feed(Chunks(data, packed, chunkSize, k + 1), partialLine, flag, packed, |data|, nl)
        == Fed(lines + [d.lines], d.partialLine)
  {
    var chunk := Chunk(data, packed, start, start + chunkSize);
    ChunksSnoc(data, packed, chunkSize, k, start);
    FeedSnoc(Chunks(data, packed, chunkSize, k), chunk, partialLine, flag, packed, |data|, nl);
  }

  /** What nextChunkOfLines makes of the chunk at the pointer: its lines, flagged as the
      last chunk when the pointer then goes past the end. */
  function NextLines(data: string, packed: bool, chunkSize: nat, nl: char, pointer: nat, partialLine: string): Lines
  {
    var chunk := Chunk(data, packed, pointer, pointer + chunkSize);
    ChunkToLines(chunk, partialLine, pointer + chunkSize > |data|, !packed && |chunk| == |data|, nl)
  }

  /** What nextChunkOfLines makes of the chunk at the pointer, StringStreamer's chunk
      when isString. */
  function NextLinesFor(data: string, packed: bool, isString: bool, chunkSize: nat, nl: char, pointer: nat,
                        partialLine: string): Lines
  {
    var chunk := ChunkOf(data, packed, isString, pointer, pointer + chunkSize);
    ChunkToLines(chunk, partialLine, pointer + chunkSize > |data|, Whole(chunk, packed, |data|), nl)
  }

  /** Except for a StringStreamer, it is NextLines. */
  lemma NextLinesForBase(data: string, packed: bool, chunkSize: nat, nl: char, pointer: nat, partialLine: string)
    ensures NextLinesFor(data, packed, false, chunkSize, nl, pointer, partialLine)
      == NextLines(data, packed, chunkSize, nl, pointer, partialLine)
  {
  }

  /** Reading by nextChunkOfLines from the start: the chunks handed out are the first
      ones, fed from an empty partial line, the last flagged once the pointer has gone
      past the end; no chunk is handed out after that. */
  ghost predicate ReadState(data: string, packed: bool, chunkSize: nat, nl: char, pointer: nat,
                            delivered: seq<seq<string>>, partialLine: string)
  {
    && chunkSize > 0
    && pointer == |delivered| * chunkSize
    && (|delivered| == 0 || (|delivered| - 1) * chunkSize <= |data|)
    && Feed(Chunks(data, packed, chunkSize, |delivered|), "", pointer > |data|, packed, |data|, nl)
         == Fed(delivered, partialLine)
  }

  /** Handing out the chunk at the pointer, flagged when the pointer then goes past the
      end, keeps the reading state. */
  lemma ReadStateNext(data: string, packed: bool, chunkSize: nat, nl: char, pointer: nat,
                      delivered: seq<seq<string>>, partialLine: string)
    requires ReadState(data, packed, chunkSize, nl, pointer, delivered, partialLine) && pointer <= |data|
    ensures var d := NextLines(data, packed, chunkSize, nl, pointer, partialLine);
      ReadState(data, packed, chunkSize, nl, pointer + chunkSize, delivered + [d.lines], d.partialLine)
  {
    var k := |delivered|;
    var d := NextLines(data, packed, chunkSize, nl, pointer, partialLine);
    ReadFeedNext(data, packed, chunkSize, nl, pointer, delivered, partialLine);
    MulSucc(k, chunkSize);
    assert |delivered + [d.lines]| == k + 1;
  }

  /** The feed part of ReadStateNext. */
  lemma ReadFeedNext(data: string, packed: bool, chunkSize: nat, nl: char, pointer: nat,
                     delivered: seq<seq<string>>, partialLine: string)
    requires ReadState(data, packed, chunkSize, nl, pointer, delivered, partialLine) && pointer <= |data|
    ensures var chunk := Chunk(data, packed, pointer, pointer + chunkSize);
      var flag := pointer + chunkSize > |data|;
      var d := ChunkToLines(chunk, partialLine, flag, !packed && |chunk| == |data|, nl);
      Feed(Chunks(data, packed, chunkSize, |delivered| + 1), "", flag, packed, |data|, nl)
        == Fed(delivered + [d.lines], d.partialLine)
  {
    var flag := pointer + chunkSize > |data|;
    FeedNext(data, packed, chunkSize, |delivered|, pointer, "", flag, nl, delivered, partialLine);
  }

  /** NextLines at the pointer, for the chunk nextChunk hands out there. */
  lemma NextLinesOf(data: string, packed: bool, chunkSize: nat, nl: char, pointer: nat, partialLine: string,
                    chunk: string)
    requires chunk == Chunk(data, packed, pointer, pointer + chunkSize)
    ensures NextLines(data, packed, chunkSize, nl, pointer, partialLine)
      == ChunkToLines(chunk, partialLine, pointer + chunkSize > |data|, !packed && |chunk| == |data|, nl)
  {
  }

  /** Reading starts with nothing handed out, at the beginning, from an empty partial line. */
  lemma ReadStart(data: string, packed: bool, chunkSize: nat, nl: char)
    requires chunkSize > 0
    ensures ReadState(data, packed, chunkSize, nl, 0, [], "")
  {
    assert Chunks(data, packed, chunkSize, 0) == [];
  }

  /** When nextChunkOfLines has read to the end, it has handed out ChunkCount chunks, and
      the lines read the whole data back (binary or compressed data, or text in more than
      one chunk). */
  lemma ReadDone(data: string, packed: bool, chunkSize: nat, nl: char, pointer: nat,
                 delivered: seq<seq<string>>, partialLine: string)
    requires ReadState(data, packed, chunkSize, nl, pointer, delivered, partialLine)
    requires pointer > |data| && (packed || chunkSize < |data|)
    ensures |delivered| == ChunkCount(|data|, chunkSize)
    ensures var lines := Flatten(delivered);
      && NoNewline(lines, nl)
      && (|data| == 0 || data[|data| - 1] == nl ==> Terminated(lines, nl) == data)
      && (|data| > 0 && data[|data| - 1] != nl ==> Join(lines, nl) == data)
  {
    var m := |delivered|;
    ChunkCountStarts(|data|, chunkSize, m - 1);
    ChunkCountStarts(|data|, chunkSize, m);
    StreamLines(data, packed, chunkSize, m, nl);
  }

  // ---- eachChunkOfLines as written ----

  /** The last-chunk test of Streamer.eachChunkOfLines as written. */
  predicate AsWrittenIsLast(chunkNo: nat, chunkCount: nat)
  {
    chunkNo == chunkCount + 1
  }

  /** eachChunk visits the chunks starting below the length, and none of them passes the
      last-chunk test as written: eachChunkOfLines never flags a last chunk. */
  lemma AsWrittenIsLastNever(n: nat, chunkSize: nat, chunkNo: nat)
    requires chunkSize > 0 && chunkNo * chunkSize < n
    ensures !AsWrittenIsLast(chunkNo, ChunkCount(n, chunkSize))
  {
    ChunkCountStarts(n, chunkSize, chunkNo);
  }

  /** Each line followed by a newline ends with a newline, when there is a line. */
  lemma {:induction false} TerminatedEnds(lines: seq<string>, nl: char)
    ensures var t := Terminated(lines, nl); |t| == 0 || t[|t| - 1] == nl
    decreases |lines|
  {
    if |lines| > 0 {
      TerminatedEnds(lines[1..], nl);
    }
  }

  /** Text without a newline after a string leaves its last newline where it was. */
  lemma {:induction false} LastIndexOfAppend(a: string, b: string, nl: char)
    requires nl !in b
    ensures LastIndexOf(a + b, nl) == LastIndexOf(a, nl)
    decreases |b|
  {
    if |b| == 0 {
      assert a + b == a;
    } else {
      var b' := b[..|b| - 1];
      assert (a + b)[..|a + b| - 1] == a + b';
      assert (a + b)[|a + b| - 1] == b[|b| - 1];
      assert b[|b| - 1] in b;
      LastIndexOfAppend(a, b', nl);
    }
  }

  /** eachChunkOfLines as written, from an empty partial line, over binary or compressed
      data or text in more than one chunk: the lines handed out, each followed by a
      newline, are the data up to and including its last newline, and the text after
      that newline is left as the partial line, never handed out. */
  lemma AsWrittenDropsLastLine(data: string, packed: bool, chunkSize: nat, m: nat, nl: char)
    requires m * chunkSize >= |data| && (packed || chunkSize < |data|)
    ensures var f := Feed(Chunks(data, packed, chunkSize, m), "", false, packed, |data|, nl);
      var i := LastIndexOf(data, nl);
      && NoNewline(Flatten(f.calls), nl)
      && Terminated(Flatten(f.calls), nl) == data[..i + 1]
      && f.partialLine == data[i + 1..]
  {
    var chunks := Chunks(data, packed, chunkSize, m);
    ChunksNotWhole(data, packed, chunkSize, m);
    ChunksAll(data, packed, chunkSize, m);
    FeedJoin(chunks, "", packed, |data|, nl);
    var f := Feed(chunks, "", false, packed, |data|, nl);
    var t := Terminated(Flatten(f.calls), nl);
    assert t + f.partialLine == data;
    TerminatedEnds(Flatten(f.calls), nl);
    LastIndexOfAppend(t, f.partialLine, nl);
    assert data[..|t|] == t && data[|t|..] == f.partialLine;
  }

  /** So the text after the last newline is never handed out: "a\nb" in chunks of two
      characters gives the line "a" and keeps "b" as the partial line, where flagging the
      last chunk hands "b" out too. */
  lemma AsWrittenLosesLastLine()
    ensures Feed(Chunks("a\nb", false, 2, 2), "", false, false, 3, '\n') == Fed([["a"], []], "b")
    ensures Feed(Chunks("a\nb", false, 2, 2), "", true, false, 3, '\n') == Fed([["a"], ["b"]], "b")
  {
    ExampleChunks();
    ExampleFirstChunk();
    ExampleLastChunk();
    FeedSnoc([], "a\n", "", false, false, 3, '\n');
    assert [] + ["a\n"] == ["a\n"];
    FeedSnoc(["a\n"], "b", "", false, false, 3, '\n');
    FeedSnoc(["a\n"], "b", "", true, false, 3, '\n');
  }

  lemma ExampleChunks()
    ensures Chunks("a\nb", false, 2, 2) == ["a\n"] + ["b"]
  {
    var chunks := Chunks("a\nb", false, 2, 2);
    assert chunks[0] == "a\n" && chunks[1] == "b";
  }

  lemma ExampleFirstChunk()
    ensures ChunkToLines("a\n", "", false, false, '\n') == Lines(["a"], "")
  {
    assert Split("", '\n') == [""];
    assert "a"[1..] == "" && "a"[0] == 'a' && ['a'] + "" == "a";
    assert Split("a", '\n') == [['a'] + Split("", '\n')[0]] + Split("", '\n')[1..];
    assert LastIndexOf("a\n", '\n') == 1 && "a\n"[..1] == "a" && "a\n"[2..] == "";
    assert "" + "a\n"[..1] == "a";
  }

  lemma ExampleLastChunk()
    ensures ChunkToLines("b", "", false, false, '\n') == Lines([], "b")
    ensures ChunkToLines("b", "", true, false, '\n') == Lines(["b"], "b")
  {
    assert LastIndexOf("b", '\n') == -1;
    assert "" + "b" == "b";
  }

  // ---- the Streamer ----

  /** What eachChunk passes its callback. */
  datatype ChunkCall = ChunkCall(chunk: string, chunkNo: nat, chunkCount: nat)

  /** What eachChunkOfLines passes its callback. */
  datatype LinesCall = LinesCall(lines: seq<string>, chunkNo: nat, chunkCount: nat)

  /** The calls eachChunk makes for the first m chunks, StringStreamer's when isString. */
  function ChunkCalls(data: string, packed: bool, isString: bool, chunkSize: nat, m: nat): (calls: seq<ChunkCall>)
    requires chunkSize > 0
    ensures |calls| == m
    ensures forall k :: 0 <= k < m ==> calls[k].chunkNo == k && calls[k].chunkCount == ChunkCount(|data|, chunkSize)
  {
    seq(m, k requires 0 <= k < m =>
      ChunkCall(ChunkOf(data, packed, isString, k * chunkSize, k * chunkSize + chunkSize), k, ChunkCount(|data|, chunkSize)))
  }

  function LinesOf(calls: seq<LinesCall>): (lines: seq<seq<string>>)
    ensures |lines| == |calls| && forall k :: 0 <= k < |calls| ==> lines[k] == calls[k].lines
  {
    seq(|calls|, k requires 0 <= k < |calls| => calls[k].lines)
  }

  /** Metadata of a streamer's JSON form. */
  datatype Metadata = Metadata(version: real, typeName: string, generator: string)

  /** A streamer's JSON form. */
  datatype Json = Json(metadata: Metadata, src: string, compressed: Option<string>, binary: bool,
                       chunkSize: nat, newline: char)

  /** What fromJSON restores of a streamer. */
  datatype Settings = Settings(src: string, compressed: Option<string>, binary: bool,
                               chunkSize: nat, newline: char)

  function Restored(j: Json): Settings
  {
    Settings(j.src, j.compressed, j.binary, j.chunkSize, j.newline)
  }

  /** The chunks of eachChunk's first j calls turned into lines, the last of them
      flagged once all are when flagLast is set: what the loop of eachChunkOfLines keeps. */
  ghost predicate FedCalls(chunkCalls: seq<ChunkCall>, j: nat, partialLine: string, flagLast: bool, packed: bool,
                           n: nat, nl: char, calls: seq<LinesCall>, carried: string)
  {
    && j <= |chunkCalls| && |calls| == j
    && (forall k :: 0 <= k < j ==>
          calls[k].chunkNo == chunkCalls[k].chunkNo && calls[k].chunkCount == chunkCalls[k].chunkCount)
    && Feed(ChunksOf(chunkCalls)[..j], partialLine, flagLast && j == |chunkCalls|, packed, n, nl)
         == Fed(LinesOf(calls), carried)
  }

  /** Turning the chunk of call j into lines keeps FedCalls. */
  lemma FedCallsNext(chunkCalls: seq<ChunkCall>, j: nat, partialLine: string, flagLast: bool, packed: bool,
                     n: nat, nl: char, calls: seq<LinesCall>, carried: string)
    requires FedCalls(chunkCalls, j, partialLine, flagLast, packed, n, nl, calls, carried) && j < |chunkCalls|
    ensures var c := chunkCalls[j];
      var d := ChunkToLines(c.chunk, carried, flagLast && j + 1 == |chunkCalls|, !packed && |c.chunk| == n, nl);
      FedCalls(chunkCalls, j + 1, partialLine, flagLast, packed, n, nl,
               calls + [LinesCall(d.lines, c.chunkNo, c.chunkCount)], d.partialLine)
  {
    var c := chunkCalls[j];
    var d := ChunkToLines(c.chunk, carried, flagLast && j + 1 == |chunkCalls|, !packed && |c.chunk| == n, nl);
    var next := calls + [LinesCall(d.lines, c.chunkNo, c.chunkCount)];
    FeedPrefix(ChunksOf(chunkCalls), j, c.chunk, partialLine, flagLast && j + 1 == |chunkCalls|, packed, n, nl,
               LinesOf(calls), carried);
    assert LinesOf(next) == LinesOf(calls) + [d.lines];
  }

  /** The loop of eachChunkOfLines as intended: each of eachChunk's calls turned into
      the lines of its chunk, the partial line carried from one call to the next and the
      last call flagged, its number and chunkCount kept. */
  method FeedCalls(chunkCalls: seq<ChunkCall>, partialLine: string, packed: bool, n: nat, nl: char)
    returns (calls: seq<LinesCall>, carried: string)
    ensures |calls| == |chunkCalls|
    ensures forall k :: 0 <= k < |calls| ==>
      calls[k].chunkNo == chunkCalls[k].chunkNo && calls[k].chunkCount == chunkCalls[k].chunkCount
    ensures Feed(ChunksOf(chunkCalls), partialLine, true, packed, n, nl) == Fed(LinesOf(calls), carried)
  {
    calls, carried := [], partialLine;
    var j := 0;
    assert LinesOf([]) == [];
    while j < |chunkCalls|
      invariant FedCalls(chunkCalls, j, partialLine, true, packed, n, nl, calls, carried)
    {
      var c := chunkCalls[j];
      var isLast := j + 1 == |chunkCalls|;
      FedCallsNext(chunkCalls, j, partialLine, true, packed, n, nl, calls, carried);
      var d := ChunkToLines(c.chunk, carried, isLast, !packed && |c.chunk| == n, nl);
      carried := d.partialLine;
      calls := calls + [LinesCall(d.lines, c.chunkNo, c.chunkCount)];
      j := j + 1;
    }
    assert ChunksOf(chunkCalls)[..j] == ChunksOf(chunkCalls);
  }

  /** The loop of eachChunkOfLines as written: a call is flagged as the last one when its
      number is chunkCount + 1, and eachChunk numbers its calls below chunkCount, so no
      call is flagged. */
  method FeedCallsAsWritten(chunkCalls: seq<ChunkCall>, partialLine: string, packed: bool, n: nat, nl: char)
    returns (calls: seq<LinesCall>, carried: string)
    requires forall k :: 0 <= k < |chunkCalls| ==> chunkCalls[k].chunkNo < chunkCalls[k].chunkCount
    ensures |calls| == |chunkCalls|
    ensures forall k :: 0 <= k < |calls| ==>
      calls[k].chunkNo == chunkCalls[k].chunkNo && calls[k].chunkCount == chunkCalls[k].chunkCount
    ensures Feed(ChunksOf(chunkCalls), partialLine, false, packed, n, nl) == Fed(LinesOf(calls), carried)
  {
    calls, carried := [], partialLine;
    var j := 0;
    assert LinesOf([]) == [];
    while j < |chunkCalls|
      invariant FedCalls(chunkCalls, j, partialLine, false, packed, n, nl, calls, carried)
    {
      var c := chunkCalls[j];
      var isLast := AsWrittenIsLast(c.chunkNo, c.chunkCount);
      assert !isLast;
      FedCallsNext(chunkCalls, j, partialLine, false, packed, n, nl, calls, carried);
      var d := ChunkToLines(c.chunk, carried, isLast, !packed && |c.chunk| == n, nl);
      carried := d.partialLine;
      calls := calls + [LinesCall(d.lines, c.chunkNo, c.chunkCount)];
      j := j + 1;
    }
    assert ChunksOf(chunkCalls)[..j] == ChunksOf(chunkCalls);
  }

  /** eachChunk numbers its calls below chunkCount. */
  lemma CallsBelowCount(calls: seq<ChunkCall>, n: nat, chunkSize: nat)
    requires chunkSize > 0 && (|calls| == 0 || (|calls| - 1) * chunkSize < n)
    requires forall k :: 0 <= k < |calls| ==> calls[k].chunkNo == k && calls[k].chunkCount == ChunkCount(n, chunkSize)
    ensures forall k :: 0 <= k < |calls| ==> calls[k].chunkNo < calls[k].chunkCount
  {
    forall k | 0 <= k < |calls|
      ensures calls[k].chunkNo < calls[k].chunkCount
    {
      MulLe(k, |calls| - 1, chunkSize);
      ChunkCountStarts(n, chunkSize, k);
    }
  }

  /** The type name with its first letter in upper case. */
  function Capitalized(s: string): (r: string)
    ensures |r| == |s| && (|s| > 0 ==> r[1..] == s[1..])
    ensures |s| > 0 ==> r[0] == (if 'a' <= s[0] <= 'z' then s[0] - 'a' + 'A' else s[0])
  {
    if |s| == 0 then s
    else [if 'a' <= s[0] <= 'z' then s[0] - 'a' + 'A' else s[0]] + s[1..]
  }

  class Streamer {
    /** The subclass's type: "network", "file" or "string". */
    const kind: string
    var src: string
    /** The compression's file extension, or None for uncompressed data. */
    var compressed: Option<string>
    var binary: bool
    var chunkSize: nat
    var newline: char
    var data: string
    var pointer: nat
    var partialLine: string

    /** Binary or compressed data is chunked as an array, not a string. */
    predicate Packed()
      reads this`binary, this`compressed
    {
      binary || (compressed.Some? && compressed.value != "")
    }

    function Current(): Settings
      reads this`src, this`compressed, this`binary, this`chunkSize, this`newline
    {
      Settings(src, compressed, binary, chunkSize, newline)
    }

    /** The Streamer constructor: compressed and binary default to false, chunks are
        10 MiB, the newline is "\n", and reading starts at the beginning. */
    constructor(kind: string, src: string, pCompressed: Option<string>, pBinary: Option<bool>)
      ensures this.kind == kind && this.src == src && compressed == pCompressed
      ensures binary == (pBinary.Some? && pBinary.value)
      ensures chunkSize == 10485760 && newline == '\n'
      ensures data == "" && pointer == 0 && partialLine == ""
    {
      this.kind := kind;
      this.src := src;
      compressed := pCompressed;
      binary := pBinary.Some? && pBinary.value;
      chunkSize := 1024 * 1024 * 10;
      newline := '\n';
      data := "";
      pointer := 0;
      partialLine := "";
    }

    /** Streamer.read, with what _read and the decompression give as the parameter:
        the data is set and reading can start. */
    method Read(d: string)
      modifies this`data
      ensures data == d
    {
      data := d;
    }

    /** A StringStreamer overrides _chunk. */
    predicate IsString()
      reads this
    {
      kind == "string"
    }

    /** Streamer.nextChunk: nothing once the pointer is past the end, otherwise the chunk
        at the pointer (StringStreamer's own for a StringStreamer), and the pointer moves
        on by chunkSize. */
    method NextChunk() returns (r: Option<string>)
      modifies this`pointer
      ensures old(pointer) > |data| ==> r == None && pointer == old(pointer)
      ensures old(pointer) <= |data| ==>
        && r == Some(ChunkOf(data, Packed(), IsString(), old(pointer), old(pointer) + chunkSize))
        && pointer == old(pointer) + chunkSize
    {
      var start := pointer;
      if start > |data| {
        return None;
      }
      pointer := pointer + chunkSize;
      r := Some(ChunkOf(data, Packed(), IsString(), start, start + chunkSize));
    }

    /** Streamer.nextChunkOfLines: the lines of the next chunk, the partial line carried
        over from the previous call, the chunk flagged as the last one once the pointer
        has gone past the end. */
    method NextChunkOfLines() returns (r: Option<seq<string>>)
      modifies this`pointer, this`partialLine
      ensures old(pointer) > |data| ==> r == None && pointer == old(pointer) && partialLine == old(partialLine)
      ensures old(pointer) <= |data| ==>
        var d := NextLinesFor(data, Packed(), IsString(), chunkSize, newline, old(pointer), old(partialLine));
        r == Some(d.lines) && partialLine == d.partialLine && pointer == old(pointer) + chunkSize
    {
      ghost var start := pointer;
      var packed, nl, carried := Packed(), newline, partialLine;
      var chunk := NextChunk();
      if chunk.None? {
        r := None;
      } else {
        var isLast := pointer > |data|;
        var d := ChunkToLines(chunk.value, carried, isLast, Whole(chunk.value, packed, |data|), nl);
        assert d == NextLinesFor(data, packed, IsString(), chunkSize, nl, start, carried);
        partialLine := d.partialLine;
        r := Some(d.lines);
      }
    }

    /** Streamer.lineCount. */
    method LineCount() returns (count: nat)
      ensures count == CountedLines(data, newline)
    {
      var n := |data|;
      count := 0;
      var i := 0;
      while i < n
        invariant 0 <= i <= n && count == CountNewlines(data[..i], newline)
      {
        assert data[..i + 1][..i] == data[..i];
        if data[i] == newline {
          count := count + 1;
        }
        i := i + 1;
      }
      assert data[..n] == data;
      if n == 0 || data[n - 1] != newline {
        count := count + 1;
      }
    }

    /** Streamer.eachChunk: the chunks starting below the length, in order (StringStreamer's
        own for a StringStreamer), each with its number and chunkCount; enough of them to
        reach the end and no more. */
    method EachChunk() returns (calls: seq<ChunkCall>)
      requires chunkSize > 0
      ensures |calls| * chunkSize >= |data| && (|calls| == 0 || (|calls| - 1) * chunkSize < |data|)
      ensures calls == ChunkCalls(data, Packed(), IsString(), chunkSize, |calls|)
      ensures forall k :: 0 <= k < |calls| ==>
        calls[k].chunkNo == k && calls[k].chunkCount == ChunkCount(|data|, chunkSize)
    {
      var n := |data|;
      var count := ChunkCount(n, chunkSize);
      calls := [];
      var i := 0;
      while i < n
        invariant i == |calls| * chunkSize && (|calls| == 0 || (|calls| - 1) * chunkSize < n)
        invariant calls == ChunkCalls(data, Packed(), IsString(), chunkSize, |calls|)
        decreases n - i
      {
        var chunk := ChunkOf(data, Packed(), IsString(), i, i + chunkSize);
        var chunkNo := i / chunkSize;
        DivMod(i, chunkSize, |calls|, 0);
        MulSucc(|calls|, chunkSize);
        assert calls + [ChunkCall(chunk, chunkNo, count)]
          == ChunkCalls(data, Packed(), IsString(), chunkSize, |calls| + 1);
        calls := calls + [ChunkCall(chunk, chunkNo, count)];
        i := i + chunkSize;
      }
    }

    /** Streamer.eachChunkOfLines as written: the lines of each chunk eachChunk visits, the
        partial line carried from one chunk to the next, starting from the current partial
        line, each call numbered as eachChunk numbers it, and no chunk flagged as the last
        one.  AsWrittenDropsLastLine shows that the text after the data's last newline is
        then never handed out. */
    method EachChunkOfLines() returns (calls: seq<LinesCall>)
      requires chunkSize > 0
      modifies this`partialLine
      ensures |calls| * chunkSize >= |data| && (|calls| == 0 || (|calls| - 1) * chunkSize < |data|)
      ensures forall k :: 0 <= k < |calls| ==>
        calls[k].chunkNo == k && calls[k].chunkCount == ChunkCount(|data|, chunkSize)
      ensures Feed(StreamChunks(data, Packed(), IsString(), chunkSize, |calls|), old(partialLine), false, Packed(),
                   |data|, newline)
        == Fed(LinesOf(calls), partialLine)
    {
      var chunkCalls := EachChunk();
      ChunksOfCalls(data, Packed(), IsString(), chunkSize, chunkCalls);
      CallsBelowCount(chunkCalls, |data|, chunkSize);
      calls, partialLine := FeedCallsAsWritten(chunkCalls, partialLine, Packed(), |data|, newline);
    }

    /** Streamer.eachChunkOfLines as intended, with the last visited chunk flagged as the
        last one.  StreamLines shows that, from an empty partial line, the lines then read
        the whole data back. */
    method EachChunkOfLinesIntended() returns (calls: seq<LinesCall>)
      requires chunkSize > 0
      modifies this`partialLine
      ensures |calls| * chunkSize >= |data| && (|calls| == 0 || (|calls| - 1) * chunkSize < |data|)
      ensures forall k :: 0 <= k < |calls| ==>
        calls[k].chunkNo == k && calls[k].chunkCount == ChunkCount(|data|, chunkSize)
      ensures Feed(StreamChunks(data, Packed(), IsString(), chunkSize, |calls|), old(partialLine), true, Packed(),
                   |data|, newline)
        == Fed(LinesOf(calls), partialLine)
    {
      var chunkCalls := EachChunk();
      ChunksOfCalls(data, Packed(), IsString(), chunkSize, chunkCalls);
      calls, partialLine := FeedCalls(chunkCalls, partialLine, Packed(), |data|, newline);
    }

    /** Streamer.toJSON: the settings fromJSON restores, under metadata naming the
        streamer's type. */
    method ToJson() returns (j: Json)
      ensures Restored(j) == Current()
      ensures j.metadata == Metadata(0.1, Capitalized(kind) + "Streamer", Capitalized(kind) + "StreamerExporter")
    {
      var t := Capitalized(kind);
      j := Json(Metadata(0.1, t + "Streamer", t + "StreamerExporter"), src, compressed, binary, chunkSize, newline);
    }

    /** Streamer.fromJSON: the settings are those of the input; the data and the reading
        position stay. */
    method FromJson(input: Json)
      modifies this`src, this`compressed, this`binary, this`chunkSize, this`newline
      ensures Current() == Restored(input)
    {
      src := input.src;
      compressed := input.compressed;
      binary := input.binary;
      chunkSize := input.chunkSize;
      newline := input.newline;
    }
  }
}
