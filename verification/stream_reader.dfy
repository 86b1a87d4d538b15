/**
 `TextFileStreamReader`: reads a file in chunks, accumulates the bytes in a
 buffer and hands out decoded lines split on the encoded line-ending bytes.
 The repository holds two copies of this reader (one beside the importer
 framework, one in an older source tree) whose `init?`, `nextLine` and
 iterator agree line for line; this one model serves both.

 The file handle is modelled by the sequence of chunks its reads still have to
 deliver. A regular file of `n` bytes read with chunk size `c` delivers the
 pieces of `Chunks` below; an empty chunk stands for a read that returned no
 data, which the reader takes as end of file (it is also what a read error
 looks like to it).
 */
module StreamReader {
  import opened Wrappers
  import opened Seqs
  import opened LineEndings
  import opened Encodings

  /** What opening a path for reading gives: nothing, or the file's bytes. */
  datatype FileModel = Missing | Present(content: seq<byte>)

  /**
   The reader's state: the delimiter bytes, the bytes read but not yet handed
   out, the end-of-file flag, and the reads the handle has still to deliver.
   */
  datatype Reader = Reader(delim: seq<byte>, buffer: seq<byte>, atEOF: bool, pending: seq<seq<byte>>)

  /** The result of one `nextLine` call: the line or `nil`, and the new state. */
  datatype Step = Step(line: Option<string>, next: Reader)

  /**
   The successive results of `readData(ofLength: n)` on a regular file: pieces
   of `n` bytes, the last one shorter. A chunk size of 0 reads nothing.
   */
  function Chunks(content: seq<byte>, n: nat): (cs: seq<seq<byte>>)
    decreases |content|
    ensures n > 0 ==> Flatten(cs) == content
    ensures forall j :: 0 <= j < |cs| ==> 0 < |cs[j]| <= n
  {
    if n == 0 || |content| == 0 then []
    else if |content| <= n then [content]
    else [content[..n]] + Chunks(content[n..], n)
  }

  /**
   `init?`: fails when the file cannot be opened or the line ending cannot be
   encoded; otherwise starts with an empty buffer, not at end of file.
   */
  function Open(file: FileModel, lineEnding: LineEnding, encoding: Encoding, chunkSize: nat): (r: Option<Reader>)
    ensures r.Some? <==> file.Present? && encoding.encode(lineEnding.Raw()).Some?
    ensures r.Some? ==> r.value.delim == encoding.encode(lineEnding.Raw()).value
    ensures r.Some? ==> r.value.buffer == [] && !r.value.atEOF
    ensures r.Some? && chunkSize > 0 ==> Flatten(r.value.pending) == file.content
    ensures r.Some? ==> forall j :: 0 <= j < |r.value.pending| ==> |r.value.pending[j]| > 0
  {
    match file
    case Missing => None
    case Present(content) =>
      match encoding.encode(lineEnding.Raw())
      case None => None
      case Some(delim) => Some(Reader(delim, [], false, Chunks(content, chunkSize)))
  }

  /**
   `buffer.range(of: delimData)`: the first occurrence of the delimiter. An
   empty delimiter is never found (Foundation answers `NSNotFound` for it).
   */
  function Search(buffer: seq<byte>, delim: seq<byte>): (r: Option<nat>)
    ensures r.Some? ==> |delim| > 0 && OccursAt(buffer, delim, r.value)
    ensures r.Some? ==> forall j :: 0 <= j < r.value ==> !OccursAt(buffer, delim, j)
    ensures r.None? ==> |delim| == 0 || forall j :: !OccursAt(buffer, delim, j)
  {
    if |delim| == 0 then None else Find(buffer, delim)
  }

  /** The bytes the reader has still to work through. */
  function Remaining(r: Reader): nat {
    |r.buffer| + TotalSize(r.pending)
  }

  /** Decreases with every line handed out; the iterator's termination measure. */
  function Measure(r: Reader): nat {
    Remaining(r) + (if r.atEOF then 0 else 1)
  }

  /**
   `nextLine()`. At end of file it answers `nil` and changes nothing. Otherwise
   it looks for the delimiter in the whole buffer, appending chunks until it is
   found; a complete line is the decoded prefix before the delimiter and is
   removed together with the delimiter. When a read returns no data the flag
   is set and a non-empty leftover is handed out once as the last line.
   */
  function NextLine(r: Reader, decode: seq<byte> -> Option<string>): (s: Step)
    decreases |r.pending|
    ensures r.atEOF ==> s == Step(None, r)
    ensures s.next.delim == r.delim
    ensures s.line.Some? ==> Measure(s.next) < Measure(r)
    ensures Remaining(s.next) <= Remaining(r)
  {
    if r.atEOF then Step(None, r)
    else match Search(r.buffer, r.delim)
      case Some(i) =>
        Step(decode(r.buffer[..i]), r.(buffer := r.buffer[i + |r.delim|..]))
      case None =>
        if |r.pending| == 0 || |r.pending[0]| == 0 then
          var eof := r.(buffer := [], atEOF := true, pending := if |r.pending| == 0 then [] else r.pending[1..]);
          if |r.buffer| > 0 then Step(decode(r.buffer), eof) else Step(None, eof)
        else
          NextLine(r.(buffer := r.buffer + r.pending[0], pending := r.pending[1..]), decode)
  }

  /** The buffer after appending the first `k` pending chunks to it. */
  function Accumulated(r: Reader, k: nat): seq<byte>
    requires k <= |r.pending|
  {
    r.buffer + Flatten(r.pending[..k])
  }

  /**
   What one `nextLine` call does when it reads `k` chunks: every read before
   the last returned data, growing the buffer by exactly that chunk, and left
   the delimiter unfound; then either the delimiter is found at `i` in the
   accumulated bytes, the line is those bytes before `i` decoded and the
   buffer keeps what follows the delimiter, or the `k`-th read returned
   nothing, the flag is set, the buffer is emptied and the line is the decoded
   leftover if there was one and `nil` otherwise.
   */
  ghost predicate ReadsThenAnswers(r: Reader, decode: seq<byte> -> Option<string>, k: nat, s: Step) {
    && k <= |r.pending|
    && (forall j :: 0 <= j < k ==> |r.pending[j]| > 0 && Search(Accumulated(r, j), r.delim).None?)
    && Answers(r.delim, Accumulated(r, k), r.pending[k..], decode, s)
  }

  /**
   The outcome once the buffer holds `acc` and `rest` are the reads still to
   come: a line found in `acc`, or an empty (or missing) next read.
   */
  ghost predicate Answers(delim: seq<byte>, acc: seq<byte>, rest: seq<seq<byte>>, decode: seq<byte> -> Option<string>, s: Step) {
    match Search(acc, delim)
    case Some(i) =>
      s == Step(decode(acc[..i]), Reader(delim, acc[i + |delim|..], false, rest))
    case None =>
      && (|rest| == 0 || |rest[0]| == 0)
      && s.next.atEOF && s.next.buffer == []
      && s.line == (if |acc| > 0 then decode(acc) else None)
  }

  lemma AccumulatedShift(r: Reader, j: nat)
    requires 0 < |r.pending| && j < |r.pending|
    ensures Accumulated(r, j + 1) == Accumulated(r.(buffer := r.buffer + r.pending[0], pending := r.pending[1..]), j)
  {
    assert r.pending[..j + 1] == [r.pending[0]] + r.pending[1..][..j];
    FlattenCons(r.pending[0], r.pending[1..][..j]);
  }

  /** One more read in front: what holds after appending the first chunk holds before it, with one read more. */
  lemma {:induction false} ReadsThenAnswersShift(r: Reader, decode: seq<byte> -> Option<string>, k: nat, s: Step)
    requires |r.pending| > 0 && |r.pending[0]| > 0 && Search(r.buffer, r.delim).None?
    requires ReadsThenAnswers(r.(buffer := r.buffer + r.pending[0], pending := r.pending[1..]), decode, k, s)
    ensures ReadsThenAnswers(r, decode, k + 1, s)
  {
    var r2 := r.(buffer := r.buffer + r.pending[0], pending := r.pending[1..]);
    AccumulatedShift(r, k);
    assert r.pending[k + 1..] == r2.pending[k..];
    forall j | 0 <= j < k + 1
      ensures |r.pending[j]| > 0 && Search(Accumulated(r, j), r.delim).None?
    {
      if j == 0 {
        assert r.pending[..0] == [];
        assert Accumulated(r, 0) == r.buffer;
      } else {
        AccumulatedShift(r, j - 1);
        assert r.pending[j] == r2.pending[j - 1];
      }
    }
  }

  /** Every `nextLine` call before end of file is described by `ReadsThenAnswers` for some number of reads. */
  lemma {:induction false} NextLineReadsThenAnswers(r: Reader, decode: seq<byte> -> Option<string>)
    requires !r.atEOF
    ensures exists k: nat :: ReadsThenAnswers(r, decode, k, NextLine(r, decode))
    decreases |r.pending|
  {
    assert r.pending[..0] == [];
    assert Accumulated(r, 0) == r.buffer;
    assert r.pending[0..] == r.pending;
    match Search(r.buffer, r.delim)
    case Some(i) =>
      assert ReadsThenAnswers(r, decode, 0, NextLine(r, decode));
    case None =>
      if |r.pending| == 0 || |r.pending[0]| == 0 {
        assert ReadsThenAnswers(r, decode, 0, NextLine(r, decode));
      } else {
        var r2 := r.(buffer := r.buffer + r.pending[0], pending := r.pending[1..]);
        NextLineReadsThenAnswers(r2, decode);
        var k2: nat :| ReadsThenAnswers(r2, decode, k2, NextLine(r2, decode));
        assert NextLine(r, decode) == NextLine(r2, decode);
        ReadsThenAnswersShift(r, decode, k2, NextLine(r2, decode));
      }
  }

  /**
   The reader's iterator: `nextLine()` results up to, and excluding, the first
   `nil`, whether that `nil` is the end of the file or a line that failed to decode.
   */
  function Lines(r: Reader, decode: seq<byte> -> Option<string>): seq<string>
    decreases Measure(r)
  {
    var s := NextLine(r, decode);
    match s.line
    case None => []
    case Some(line) => [line] + Lines(s.next, decode)
  }

  // ---------------------------------------------------------------------------
  // The lines of a byte content, independently of chunking

  /** The pieces of a split without a final empty piece: what a trailing delimiter leaves. */
  function DropTrailingEmpty<T>(ps: seq<seq<T>>): (r: seq<seq<T>>)
    ensures |r| <= |ps|
  {
    if |ps| > 0 && ps[|ps| - 1] == [] then ps[..|ps| - 1] else ps
  }

  /** The lines of `content`: its pieces between delimiters, a trailing delimiter closing the last. */
  function LinesOf(content: seq<byte>, delim: seq<byte>): seq<seq<byte>> {
    DropTrailingEmpty(Split(content, delim))
  }

  /** The decoded lines up to, and excluding, the first one that does not decode. */
  function DecodeUntilFailure(ls: seq<seq<byte>>, decode: seq<byte> -> Option<string>): (r: seq<string>)
    decreases |ls|
    ensures |r| <= |ls|
    ensures forall j :: 0 <= j < |r| ==> decode(ls[j]) == Some(r[j])
    ensures |r| < |ls| ==> decode(ls[|r|]).None?
  {
    if |ls| == 0 then []
    else match decode(ls[0])
      case None => []
      case Some(line) => [line] + DecodeUntilFailure(ls[1..], decode)
  }

  lemma DropTrailingEmptyCons<T>(p: seq<T>, ps: seq<seq<T>>)
    requires |ps| > 0
    ensures DropTrailingEmpty([p] + ps) == [p] + DropTrailingEmpty(ps)
  {
    if ps[|ps| - 1] == [] {
      assert ([p] + ps)[..|ps|] == [p] + ps[..|ps| - 1];
    }
  }

  lemma FlattenCons<T>(c: seq<T>, cs: seq<seq<T>>)
    ensures Flatten([c] + cs) == c + Flatten(cs)
  {
    assert ([c] + cs)[1..] == cs;
  }

  /** The first occurrence in a buffer stays the first when more bytes are appended. */
  lemma SearchExtend(buffer: seq<byte>, more: seq<byte>, delim: seq<byte>, i: nat)
    requires Search(buffer, delim) == Some(i)
    ensures Search(buffer + more, delim) == Some(i)
  {
    var s := buffer + more;
    assert s[i..i + |delim|] == buffer[i..i + |delim|];
    forall j | 0 <= j < i
      ensures !OccursAt(s, delim, j)
    {
      assert s[j..j + |delim|] == buffer[j..j + |delim|];
      assert !OccursAt(buffer, delim, j);
    }
    FindIsFirst(s, delim, i);
  }

  /** Decoding a line in front: its string in front of the rest, or nothing when it fails. */
  lemma DecodeUntilFailureCons(p: seq<byte>, ls: seq<seq<byte>>, decode: seq<byte> -> Option<string>)
    ensures decode(p).None? ==> DecodeUntilFailure([p] + ls, decode) == []
    ensures decode(p).Some? ==> DecodeUntilFailure([p] + ls, decode) == [decode(p).value] + DecodeUntilFailure(ls, decode)
  {
    assert ([p] + ls)[0] == p && ([p] + ls)[1..] == ls;
  }

  /** A delimiter found in the buffer ends the first line of everything still to read. */
  lemma LinesOfAfterFound(r: Reader, i: nat)
    requires Search(r.buffer, r.delim) == Some(i)
    ensures var rest := r.buffer[i + |r.delim|..];
            LinesOf(r.buffer + Flatten(r.pending), r.delim)
              == [r.buffer[..i]] + LinesOf(rest + Flatten(r.pending), r.delim)
  {
    var content := r.buffer + Flatten(r.pending);
    var rest := r.buffer[i + |r.delim|..];
    var later := Split(rest + Flatten(r.pending), r.delim);
    assert content[..i] == r.buffer[..i] && content[i + |r.delim|..] == rest + Flatten(r.pending) by {
      assert |r.buffer| >= i + |r.delim|;
    }
    assert Find(content, r.delim) == Some(i) && |r.delim| > 0 by {
      SearchExtend(r.buffer, Flatten(r.pending), r.delim, i);
    }
    assert Split(content, r.delim) == [r.buffer[..i]] + later by {
      SplitAt(content, r.delim, i);
    }
    assert |later| > 0;
    DropTrailingEmptyCons(r.buffer[..i], later);
  }

  /** Bytes without the delimiter are one line, or none when there are no bytes. */
  lemma LinesOfUnfound(buffer: seq<byte>, delim: seq<byte>)
    requires Search(buffer, delim).None?
    ensures LinesOf(buffer, delim) == if |buffer| == 0 then [] else [buffer]
  {
    assert Split(buffer, delim) == [buffer];
  }

  /**
   The lines a reader hands out are the lines of everything it has still to
   read, decoded up to the first failure: where the chunk boundaries fall makes
   no difference, because the delimiter is searched for in the whole buffer.
   */
  lemma {:induction false} LinesAreLinesOfRemainingContent(r: Reader, decode: seq<byte> -> Option<string>)
    requires !r.atEOF
    requires forall j :: 0 <= j < |r.pending| ==> |r.pending[j]| > 0
    ensures Lines(r, decode) == DecodeUntilFailure(LinesOf(r.buffer + Flatten(r.pending), r.delim), decode)
    decreases Remaining(r), |r.pending|, 1
  {
    match Search(r.buffer, r.delim)
    case Some(i) =>
      LinesWhenFound(r, decode, i);
    case None =>
      if |r.pending| == 0 {
        LinesAtLastRead(r, decode);
      } else {
        LinesAfterRead(r, decode);
      }
  }

  /** The found case: one line handed out, the rest from the shortened buffer. */
  lemma {:induction false} LinesWhenFound(r: Reader, decode: seq<byte> -> Option<string>, i: nat)
    requires !r.atEOF
    requires forall j :: 0 <= j < |r.pending| ==> |r.pending[j]| > 0
    requires Search(r.buffer, r.delim) == Some(i)
    ensures Lines(r, decode) == DecodeUntilFailure(LinesOf(r.buffer + Flatten(r.pending), r.delim), decode)
    decreases Remaining(r), |r.pending|, 0
  {
    var line := r.buffer[..i];
    var next := r.(buffer := r.buffer[i + |r.delim|..]);
    var later := LinesOf(next.buffer + Flatten(next.pending), r.delim);
    assert LinesOf(r.buffer + Flatten(r.pending), r.delim) == [line] + later by {
      LinesOfAfterFound(r, i);
    }
    assert NextLine(r, decode) == Step(decode(line), next);
    DecodeUntilFailureCons(line, later, decode);
    if decode(line).Some? {
      assert Lines(r, decode) == [decode(line).value] + Lines(next, decode);
      LinesAreLinesOfRemainingContent(next, decode);
    } else {
      assert Lines(r, decode) == [];
    }
  }

  /** No delimiter and no read left: the leftover, if any, is the last line. */
  lemma LinesAtLastRead(r: Reader, decode: seq<byte> -> Option<string>)
    requires !r.atEOF && |r.pending| == 0
    requires Search(r.buffer, r.delim).None?
    ensures Lines(r, decode) == DecodeUntilFailure(LinesOf(r.buffer + Flatten(r.pending), r.delim), decode)
  {
    assert r.buffer + Flatten(r.pending) == r.buffer;
    LinesOfUnfound(r.buffer, r.delim);
    var eof := r.(buffer := [], atEOF := true, pending := []);
    if |r.buffer| > 0 {
      assert NextLine(r, decode) == Step(decode(r.buffer), eof);
      assert Lines(eof, decode) == [];
      DecodeUntilFailureCons(r.buffer, [], decode);
      assert [r.buffer] + [] == [r.buffer];
    } else {
      assert NextLine(r, decode) == Step(None, eof);
    }
  }

  /** No delimiter yet: the next chunk is appended and nothing else changes. */
  lemma {:induction false} LinesAfterRead(r: Reader, decode: seq<byte> -> Option<string>)
    requires !r.atEOF && |r.pending| > 0
    requires forall j :: 0 <= j < |r.pending| ==> |r.pending[j]| > 0
    requires Search(r.buffer, r.delim).None?
    ensures Lines(r, decode) == DecodeUntilFailure(LinesOf(r.buffer + Flatten(r.pending), r.delim), decode)
    decreases Remaining(r), |r.pending|, 0
  {
    var r2 := r.(buffer := r.buffer + r.pending[0], pending := r.pending[1..]);
    assert NextLine(r, decode) == NextLine(r2, decode);
    assert Lines(r, decode) == Lines(r2, decode);
    assert r2.buffer + Flatten(r2.pending) == r.buffer + Flatten(r.pending) by {
      FlattenCons(r.pending[0], r.pending[1..]);
      assert r.pending == [r.pending[0]] + r.pending[1..];
    }
    LinesAreLinesOfRemainingContent(r2, decode);
  }

  /** Once at end of file the reader answers `nil` forever and its iterator yields nothing. */
  lemma AtEofYieldsNothing(r: Reader, decode: seq<byte> -> Option<string>)
    requires r.atEOF
    ensures NextLine(r, decode).line.None?
    ensures Lines(r, decode) == []
  {
  }

  /** Two chunkings of the same bytes into non-empty reads give the same lines. */
  lemma ChunkingIsIrrelevant(delim: seq<byte>, c1: seq<seq<byte>>, c2: seq<seq<byte>>, decode: seq<byte> -> Option<string>)
    requires Flatten(c1) == Flatten(c2)
    requires forall j :: 0 <= j < |c1| ==> |c1[j]| > 0
    requires forall j :: 0 <= j < |c2| ==> |c2[j]| > 0
    ensures Lines(Reader(delim, [], false, c1), decode) == Lines(Reader(delim, [], false, c2), decode)
  {
    LinesAreLinesOfRemainingContent(Reader(delim, [], false, c1), decode);
    LinesAreLinesOfRemainingContent(Reader(delim, [], false, c2), decode);
  }
}
