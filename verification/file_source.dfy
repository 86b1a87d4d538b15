/**
 The source over a file: resolves an `Unknown` line ending by sniffing the first
 chunk of the file, then hands out the lines of a stream reader.
 */
module FileSource {
  import opened Wrappers
  import opened Seqs
  import opened LineEndings
  import opened Encodings
  import opened StreamReader

  /** The read size of both the sniffing read and the stream reader. */
  const chunkSize: nat := 4096

  /** A file source: the file, its encoding and the line ending it was given. */
  datatype FileSource = FileSource(file: FileModel, encoding: Encoding, lineEnding: LineEnding)

  /** What the first `readData(ofLength: chunkSize)` of a fresh handle returns. */
  function SniffedBytes(content: seq<byte>): (b: seq<byte>)
    ensures |b| <= chunkSize && |b| <= |content|
    ensures b == content[..|b|]
    ensures |b| == chunkSize || b == content
  {
    if |content| <= chunkSize then content else content[..chunkSize]
  }

  /**
   `lineEndingForFile`: the terminator of highest priority in the decoded first
   chunk; LF when the file cannot be opened, the chunk does not decode or it
   holds no terminator. Never `Unknown`.
   */
  function LineEndingForFile(file: FileModel, encoding: Encoding): (e: LineEnding)
    ensures e != Unknown
    ensures file.Missing? ==> e == NewLine
    ensures file.Present? && encoding.decode(SniffedBytes(file.content)).None? ==> e == NewLine
    ensures file.Present? && encoding.decode(SniffedBytes(file.content)).Some? ==>
              var text := encoding.decode(SniffedBytes(file.content)).value;
              if '\n' !in text && '\r' !in text then e == NewLine else HighestPresent(text, e)
  {
    match file
    case Missing => NewLine
    case Present(content) =>
      match encoding.decode(SniffedBytes(content))
      case None => NewLine
      case Some(text) =>
        var detected := Detect(text);
        if detected == Unknown then NewLine else detected
  }

  /** The ending `forEach` reads with: the given one, or the sniffed one in place of `Unknown`. */
  function ResolvedLineEnding(src: FileSource): (e: LineEnding)
    ensures e != Unknown
    ensures src.lineEnding != Unknown ==> e == src.lineEnding
    ensures src.lineEnding == Unknown ==> e == LineEndingForFile(src.file, src.encoding)
  {
    if src.lineEnding == Unknown then LineEndingForFile(src.file, src.encoding) else src.lineEnding
  }

  /**
   `forEach`: the lines passed to the closure, in order. Nothing when the reader
   cannot be created; otherwise the file's lines on the encoded resolved
   ending, decoded up to the first one that fails to decode.
   */
  function ForEach(src: FileSource): (lines: seq<string>)
    ensures Open(src.file, ResolvedLineEnding(src), src.encoding, chunkSize).None? ==> lines == []
    ensures Open(src.file, ResolvedLineEnding(src), src.encoding, chunkSize).Some? ==>
              lines == DecodeUntilFailure(
                LinesOf(src.file.content, src.encoding.encode(ResolvedLineEnding(src).Raw()).value),
                src.encoding.decode)
  {
    match Open(src.file, ResolvedLineEnding(src), src.encoding, chunkSize)
    case None => []
    case Some(reader) =>
      OpenedReaderLines(src.file, ResolvedLineEnding(src), src.encoding, reader);
      Lines(reader, src.encoding.decode)
  }

  /** A freshly opened reader hands out the lines of the whole file. */
  lemma OpenedReaderLines(file: FileModel, e: LineEnding, encoding: Encoding, reader: Reader)
    requires Open(file, e, encoding, chunkSize) == Some(reader)
    ensures Lines(reader, encoding.decode)
            == DecodeUntilFailure(LinesOf(file.content, encoding.encode(e.Raw()).value), encoding.decode)
  {
    LinesAreLinesOfRemainingContent(reader, encoding.decode);
    assert reader.buffer + Flatten(reader.pending) == file.content;
  }

  /** Sniffing reads the first chunk only: files agreeing on it get the same ending. */
  lemma SniffingSeesFirstChunkOnly(c1: seq<byte>, c2: seq<byte>, encoding: Encoding)
    requires |c1| >= chunkSize && |c2| >= chunkSize && c1[..chunkSize] == c2[..chunkSize]
    ensures LineEndingForFile(Present(c1), encoding) == LineEndingForFile(Present(c2), encoding)
  {
  }

  /**
   Unlike the string source, the file source yields no empty last line for a
   final terminator: a file holding `a` and LF yields just the decoded `a`.
   */
  lemma FinalTerminatorGivesNoEmptyLine(encoding: Encoding)
    requires encoding.encode("\n") == Some([10])
    ensures ForEach(FileSource(Present([97, 10]), encoding, NewLine))
            == DecodeUntilFailure([[97]], encoding.decode)
  {
    var content: seq<byte> := [97, 10];
    assert content[0..1][0] == 97;
    assert !OccursAt(content, [10], 0);
    FindIsFirst(content, [10], 1);
    SplitAt(content, [10], 1);
    assert content[..1] == [97];
    assert content[2..] == [];
    var lf: seq<byte> := [10];
    var none: seq<byte> := [];
    assert Find(none, lf).None?;
  }
}
