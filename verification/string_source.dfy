/**
 The source over an in-memory string: the line ending is resolved against the
 whole content and the content is split into lines once, at construction.
 */
module StringSource {
  import opened Seqs
  import opened LineEndings

  /** The lines stored at construction; `forEach` visits them in order. */
  datatype StringSource = StringSource(lines: seq<string>)

  /**
   The ending the string is split on: an explicit ending is kept; `Unknown` is
   replaced by the highest-priority terminator present in the content, and stays
   `Unknown` (raw value "") when the content holds no CR and no LF.
   */
  function CorrectedLineEnding(content: string, lineEnding: LineEnding): (e: LineEnding)
    ensures lineEnding != Unknown ==> e == lineEnding
    ensures lineEnding == Unknown ==> HighestPresent(content, e)
  {
    if lineEnding == Unknown then Detect(content) else lineEnding
  }

  /**
   `StringSource.init`: splits the content on the corrected terminator. Joining
   the lines with the terminator gives the content back, no line contains the
   terminator, and a content without any terminator is a single line.
   */
  function Init(content: string, lineEnding: LineEnding): (src: StringSource)
    ensures |src.lines| >= 1
    ensures Join(src.lines, CorrectedLineEnding(content, lineEnding).Raw()) == content
    ensures CorrectedLineEnding(content, lineEnding) != Unknown ==>
              forall k :: 0 <= k < |src.lines| ==> !Occurs(src.lines[k], CorrectedLineEnding(content, lineEnding).Raw())
    ensures CorrectedLineEnding(content, lineEnding) == Unknown ==> src.lines == [content]
  {
    var terminator := CorrectedLineEnding(content, lineEnding).Raw();
    JoinSplit(content, terminator);
    SplitPiecesAvoidSeparator(content, terminator);
    StringSource(Split(content, terminator))
  }

  /** A string source always holds at least one line, even for empty content. */
  lemma EmptyContentIsOneEmptyLine(lineEnding: LineEnding)
    ensures Init("", lineEnding).lines == [""]
  {
    var e := CorrectedLineEnding("", lineEnding);
    if e != Unknown {
      assert Find("", e.Raw()).None?;
    }
  }

  /** A terminator at the very end of the content yields a final empty line. */
  lemma TrailingTerminatorGivesEmptyLine()
    ensures Init("a\n", Unknown).lines == ["a", ""]
  {
    var e := CorrectedLineEnding("a\n", Unknown);
    assert OccursAt("a\n", "\n", 1);
    OccursSingle("a\n", '\n');
    assert "a\n"[0..2][0] == 'a';
    assert !OccursAt("a\n", "\r\n", 0);
    assert e == NewLine;
    assert !OccursAt("a\n", "\n", 0);
    FindIsFirst("a\n", "\n", 1);
    SplitAt("a\n", "\n", 1);
    assert "a\n"[..1] == "a";
    assert "a\n"[2..] == "";
    assert Find("", "\n").None?;
  }
}
