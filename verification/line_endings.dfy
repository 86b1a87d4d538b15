/**
 The `LineEnding` enum of the importer and the terminator sniffing shared by the
 string source and the file source: look for CRLF first, then LF, then CR.
 */
module LineEndings {
  import opened Seqs

  /** The possible line endings of a CSV text; `Unknown` asks for detection. */
  datatype LineEnding = NewLine | CarriageReturn | CarriageReturnLineFeed | Unknown {

    /** The enum's raw value: the terminator text itself, empty for `Unknown`. */
    function Raw(): (r: string)
      ensures |r| <= 2
      ensures r == "" <==> this == Unknown
    {
      match this
      case NewLine => "\n"
      case CarriageReturn => "\r"
      case CarriageReturnLineFeed => "\r\n"
      case Unknown => ""
    }
  }

  /**
   `e` is the terminator of highest priority (CRLF, then LF, then CR) present in
   `text`, or `Unknown` when none is present.
   */
  ghost predicate HighestPresent(text: string, e: LineEnding) {
    match e
    case CarriageReturnLineFeed => Occurs(text, "\r\n")
    case NewLine => !Occurs(text, "\r\n") && '\n' in text
    case CarriageReturn => !Occurs(text, "\r\n") && '\n' !in text && '\r' in text
    case Unknown => '\n' !in text && '\r' !in text
  }

  /** Searching for a one-element pattern is a membership test. */
  lemma OccursSingle<T>(s: seq<T>, c: T)
    ensures Occurs(s, [c]) <==> c in s
  {
    if c in s {
      var i :| 0 <= i < |s| && s[i] == c;
      assert s[i..i + 1] == [c];
      assert OccursAt(s, [c], i);
    }
    if Occurs(s, [c]) {
      var i :| 0 <= i <= |s| - 1 && OccursAt(s, [c], i);
      assert s[i] == s[i..i + 1][0];
    }
  }

  /** A text containing CRLF contains CR. */
  lemma CrlfHasCr(text: string)
    ensures Occurs(text, "\r\n") ==> '\r' in text
  {
    if Occurs(text, "\r\n") {
      var i :| 0 <= i <= |text| - 2 && OccursAt(text, "\r\n", i);
      assert text[i] == text[i..i + 2][0] == '\r';
    }
  }

  /**
   Picks the line ending of `text` by testing `contains` for CRLF, then LF, then
   CR. CRLF must come first: a CRLF text also contains LF and CR.
   */
  function Detect(text: string): (e: LineEnding)
    ensures HighestPresent(text, e)
    ensures e != Unknown ==> Occurs(text, e.Raw())
    ensures e == Unknown <==> '\n' !in text && '\r' !in text
  {
    CrlfHasCr(text);
    OccursSingle(text, '\n');
    OccursSingle(text, '\r');
    if Occurs(text, LineEnding.CarriageReturnLineFeed.Raw()) then CarriageReturnLineFeed
    else if Occurs(text, LineEnding.NewLine.Raw()) then NewLine
    else if Occurs(text, LineEnding.CarriageReturn.Raw()) then CarriageReturn
    else Unknown
  }

  /** Exactly one line ending is the highest present one, so `Detect` is determined by it. */
  lemma HighestPresentUnique(text: string, e: LineEnding)
    requires HighestPresent(text, e)
    ensures Detect(text) == e
  {
    CrlfHasCr(text);
  }

  /**
   A sample in which every CR is followed by LF and that has at least one CR is
   detected as CRLF, never as LF or CR.
   */
  lemma {:induction false} OnlyCrlfSampleIsCrlf(text: string, i: nat)
    requires i < |text| && text[i] == '\r'
    requires forall k :: 0 <= k < |text| && text[k] == '\r' ==> k + 1 < |text| && text[k + 1] == '\n'
    ensures Detect(text) == CarriageReturnLineFeed
  {
    assert text[i..i + 2] == "\r\n";
    assert OccursAt(text, "\r\n", i);
  }
}
