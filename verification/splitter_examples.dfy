/**
 Lines worked through `readValuesInLine` with the comma as delimiter: the
 behaviour the splitter's quoting rules give on typical and on unusual input.
 Each example takes its line as a parameter fixed by its precondition, and is
 worked through one step of the splitter at a time. Naming the literal
 through a parameter, and spelling out concatenations of literals in small
 lemmas of their own (the `...Spelling` lemmas, `JoinSingle`), keeps each
 proof within the verifier's budget: a literal unfolded in a larger proof
 makes the solver work on every character of it there.
 */
module SplitterExamples {
  import opened Wrappers
  import opened Seqs
  import opened Splitter
  import opened EscapedFields

  /** Two pieces joined with the delimiter. */
  lemma JoinPair(a: string, b: string, d: string)
    ensures Join([a, b], d) == a + d + b
  {
    JoinCons(a, [b], d);
    assert Join([b], d) == b;
  }

  /** Three pieces joined with the delimiter. */
  lemma JoinTriple(a: string, b: string, c: string, d: string)
    ensures Join([a, b, c], d) == a + d + b + d + c
  {
    JoinCons(a, [b, c], d);
    assert [a] + [b, c] == [a, b, c];
    JoinPair(b, c, d);
  }

  /** The pieces of a line without escaped quotes that joins pieces avoiding the delimiter. */
  lemma PiecesOfJoin(line: string, ps: seq<string>, d: string)
    requires |ps| > 0 && |d| > 0 && line == Join(ps, d)
    requires forall k :: 0 <= k < |ps| ==> Avoids(ps[k], d)
    requires forall k :: 0 <= k < |line| - 1 ==> line[k] != Quote || line[k + 1] != Quote
    ensures Pieces(line, d) == ps
  {
    NoNeighbouringQuotes(line);
    NoQuotePairPassesThrough(line, d);
    SplitJoin(ps, d);
  }

  /** A sequence of the pattern's length that differs from the pattern does not contain it. */
  lemma NotOccursSameLength(s: string, p: string)
    requires |s| == |p| && s != p
    ensures !Occurs(s, p)
  {
    assert s[0..|p|] == s;
  }

  /** Step 6 of a piece that opens a quote around a quote-free text. */
  lemma CleanOpening(p: string, f: string)
    requires Quote !in f && Substitute !in f && p == [Quote] + f
    ensures Clean(p) == f
  {
    CleanHalfQuoted(f);
  }

  /** Both versions of step 6 over pieces, none a run of substitutes, whose cleaned forms are known one by one. */
  lemma CleanAllIs(ps: seq<string>, fields: seq<string>)
    requires |ps| == |fields|
    requires forall k :: 0 <= k < |ps| ==> Clean(ps[k]) == fields[k]
    requires forall k :: 0 <= k < |ps| ==> Quote in ps[k] || Substitute !in ps[k]
    ensures CleanAll(ps) == fields
    ensures ReadAll(ps) == fields
  {
    forall k | 0 <= k < |ps|
      ensures !IsSubstituteRun(ps[k])
    {
      if Quote in ps[k] {
        QuotedIsNoRun(ps[k]);
      } else {
        PlainIsNoRun(ps[k]);
      }
    }
    ReadAllOfNonRuns(ps);
  }

  /** The opening pieces used below, as a quote in front of their text. */
  lemma OpeningSpelling()
    ensures "\"a" == [Quote] + "a" && "\"c" == [Quote] + "c"
  {
  }

  /** The pieces of `"a,b`: an opening piece and a quote-free one. */
  lemma PiecesOfUnclosedQuote(line: string)
    requires line == "\"a,b"
    ensures Pieces(line, ",") == ["\"a", "b"]
  {
    var ps := ["\"a", "b"];
    JoinPair(ps[0], ps[1], ",");
    assert line == ps[0] + "," + ps[1];
    assert forall k :: 0 <= k < |ps| ==> Avoids(ps[k], ",");
    PiecesOfJoin(line, ps, ",");
  }

  /** Both merge loops on the pieces of `"a,b`. */
  lemma MergeOfUnclosedQuote(ps: seq<string>)
    requires ps == ["\"a", "b"]
    ensures MergeAsWritten(ps, ",") == None
    ensures Merge(ps, ",") == ps
  {
    assert ps[0][1..] == "a";
    assert IsStartPart(ps[0]) && IsMiddlePart(ps[1]);
    assert FirstNonMiddle(ps, 2) == 2;
    assert FirstNonMiddle(ps, 1) == 2;
    assert !OpensClosedQuote(ps);
    assert ps[1..] == ["b"];
    MergeSinglePiece("b", ",");
  }

  /** An unclosed quote: the source's loop traps, the corrected loop keeps both pieces. */
  lemma UnclosedQuoteTraps(line: string)
    requires line == "\"a,b"
    ensures ReadValuesInLineAsWritten(line, ",") == None
    ensures ReadValuesInLine(line, ",") == ["a", "b"]
  {
    var ps := ["\"a", "b"];
    PiecesOfUnclosedQuote(line);
    MergeOfUnclosedQuote(ps);
    OpeningSpelling();
    CleanOpening(ps[0], "a");
    CleanPlain(ps[1]);
    assert ps[0][0] in ps[0];
    CleanAllIs(ps, ["a", "b"]);
  }

  /** The pieces of `"a,b,"c`: an opening piece, a quote-free piece and a piece that opens again. */
  lemma PiecesOfReopenedQuote(line: string)
    requires line == "\"a,b,\"c"
    ensures Pieces(line, ",") == ["\"a", "b", "\"c"]
  {
    var ps := ["\"a", "b", "\"c"];
    JoinTriple(ps[0], ps[1], ps[2], ",");
    assert line == ps[0] + "," + ps[1] + "," + ps[2];
    assert forall k :: 0 <= k < |ps| ==> Avoids(ps[k], ",");
    PiecesOfJoin(line, ps, ",");
  }

  /** Where the merge loops stop on the pieces of `"a,b,"c`: at the third piece, which opens again. */
  lemma ReopenedQuoteShape(ps: seq<string>)
    requires ps == ["\"a", "b", "\"c"]
    ensures IsStartPart(ps[0]) && IsStartPart(ps[2]) && !IsEndPart(ps[2])
    ensures FirstNonMiddle(ps, 1) == 2 && !OpensClosedQuote(ps)
  {
    assert ps[0][1..] == "a" && ps[2][1..] == "c";
    assert ps[2][..1] == [Quote];
    assert IsMiddlePart(ps[1]) && !IsMiddlePart(ps[2]);
    FirstNonMiddleIs(ps, 1, 2);
  }

  /** The source's loop on the pieces of `"a,b,"c`: the middle piece is gone. */
  lemma MergeAsWrittenOfReopenedQuote(ps: seq<string>)
    requires ps == ["\"a", "b", "\"c"]
    ensures MergeAsWritten(ps, ",") == Some([ps[0], ps[2]])
  {
    ReopenedQuoteShape(ps);
    assert ps[2..] == [ps[2]];
    MergeSinglePiece(ps[2], ",");
    AsWrittenUnclosedStep(ps, ",", 2);
    assert [ps[0]] + [ps[2]] == [ps[0], ps[2]];
  }

  /**
   A quote that is not closed before a piece holding a quote: the source's loop
   loses the quote-free piece in between.
   */
  lemma AsWrittenDropsMiddlePiece(line: string)
    requires line == "\"a,b,\"c"
    ensures ReadValuesInLineAsWritten(line, ",") == Some(["a", "c"])
  {
    var ps := ["\"a", "b", "\"c"];
    PiecesOfReopenedQuote(line);
    MergeAsWrittenOfReopenedQuote(ps);
    var merged := [ps[0], ps[2]];
    CleanOfReopenedPieces(ps);
    assert ps[0][0] in ps[0] && ps[2][0] in ps[2];
    CleanAllIs(merged, ["a", "c"]);
  }

  /** Step 6 on each piece of `"a,b,"c`. */
  lemma CleanOfReopenedPieces(ps: seq<string>)
    requires ps == ["\"a", "b", "\"c"]
    ensures Clean(ps[0]) == "a" && Clean(ps[1]) == "b" && Clean(ps[2]) == "c"
  {
    OpeningSpelling();
    CleanOpening(ps[0], "a");
    CleanPlain(ps[1]);
    CleanOpening(ps[2], "c");
  }

  /** The corrected loop on the pieces of `"a,b,"c`: nothing is merged. */
  lemma MergeOfReopenedQuote(ps: seq<string>)
    requires ps == ["\"a", "b", "\"c"]
    ensures Merge(ps, ",") == ps
  {
    ReopenedQuoteShape(ps);
    var tail := ps[1..];
    assert tail == [ps[1], ps[2]];
    assert tail[0] == ps[1] && tail[1..] == [ps[2]];
    QuoteFreeHeadStep(tail, ",");
    MergeSinglePiece(ps[2], ",");
    assert Merge(tail, ",") == tail;
    assert Merge(ps, ",") == [ps[0]] + tail;
    assert [ps[0]] + tail == ps;
  }

  /** The corrected loop keeps the quote-free piece of `"a,b,"c`. */
  lemma MergeKeepsMiddlePiece(line: string)
    requires line == "\"a,b,\"c"
    ensures ReadValuesInLine(line, ",") == ["a", "b", "c"]
  {
    var ps := ["\"a", "b", "\"c"];
    PiecesOfReopenedQuote(line);
    MergeOfReopenedQuote(ps);
    CleanOfReopenedPieces(ps);
    assert ps[0][0] in ps[0] && ps[2][0] in ps[2];
    CleanAllIs(ps, ["a", "b", "c"]);
  }

  /** A quoted field holding the delimiter keeps it: `a,"b,c",d` has three fields. */
  lemma QuotedDelimiterKept(line: string)
    requires line == "a,\"b,c\",d"
    ensures ReadValuesInLine(line, ",") == ["a", "b,c", "d"]
    ensures ReadValuesInLineAsWritten(line, ",") == Some(["a", "b,c", "d"])
  {
    var inner := ["b", "c"];
    var f := Join(inner, ",");
    JoinPair("b", "c", ",");
    assert f == "b,c";
    JoinTriple("a", Quoted(f), "d", ",");
    assert line == "a" + "," + Quoted(f) + "," + "d";
    assert ["a"] + [Quoted(f)] + ["d"] == ["a", Quoted(f), "d"];
    assert ["a"] + [f] + ["d"] == ["a", "b,c", "d"];
    assert PlainField("a", ",") && PlainField("d", ",");
    assert PlainField("b", ",") && PlainField("c", ",");
    QuotedFieldKeepsDelimiters(["a"], inner, ["d"], ",");
  }

  /** A line that steps 1 and 2 turn into a join of fields needing no quoting reads as those fields. */
  lemma ReadsAsPlainAfterEdges(line: string, d: string, stripped: string, fields: seq<string>)
    requires |fields| > 0 && UsableDelimiter(d)
    requires StripEdges(CollapseQuotedEmpty(line, d), d) == stripped
    requires stripped == Join(fields, d)
    requires forall k :: 0 <= k < |fields| ==> PlainField(fields[k], d)
    ensures ReadValuesInLine(line, d) == fields
    ensures ReadValuesInLineAsWritten(line, d) == Some(fields)
  {
    JoinExcludes(fields, d, Quote);
    MissingElementNotOccurs(stripped, QuotePair, Quote);
    ReplaceAllAbsent(stripped, QuotePair, [Substitute]);
    SplitJoin(fields, d);
    assert Pieces(line, d) == fields;
    MergeKeepsQuoteFree(fields, d);
    forall k | 0 <= k < |fields|
      ensures Clean(fields[k]) == fields[k] && !IsSubstituteRun(fields[k])
    {
      CleanPlain(fields[k]);
      PlainIsNoRun(fields[k]);
    }
    ReadAllOfNonRuns(fields);
  }

  /** Step 2 leaves a line alone that neither starts nor ends with a quote. */
  lemma EdgesOfUnquotedEnds(s: string, d: string)
    requires |s| > 0 && s[0] != Quote && s[|s| - 1] != Quote
    ensures StripEdges(s, d) == s
  {
    EdgeFacts(s, d);
  }

  /** Step 1 on `a,"",b`. */
  lemma CollapseOfInnerField(line: string)
    requires line == "a,\"\",b"
    ensures CollapseQuotedEmpty(line, ",") == "a,,b"
  {
    var pat := "," + QuotePair + ",";
    var rep := "," + ",";
    assert line == ['a'] + (pat + "b");
    ReplaceAllCons('a', pat + "b", pat, rep);
    ReplaceAllFront("b", pat, rep);
    ShorterNotOccurs("b", pat);
    ReplaceAllAbsent("b", pat, rep);
    assert ['a'] + (rep + "b") == "a,,b";
  }

  /** A quoted empty field between delimiters is collapsed by step 1 into an empty field. */
  lemma QuotedEmptyInnerField(line: string)
    requires line == "a,\"\",b"
    ensures ReadValuesInLine(line, ",") == ["a", "", "b"]
    ensures ReadValuesInLineAsWritten(line, ",") == Some(["a", "", "b"])
  {
    var stripped := "a,,b";
    CollapseOfInnerField(line);
    EdgesOfUnquotedEnds(stripped, ",");
    JoinTriple("a", "", "b", ",");
    assert "a" + "," + "" + "," + "b" == stripped;
    var fields := ["a", "", "b"];
    assert forall k :: 0 <= k < |fields| ==> PlainField(fields[k], ",");
    ReadsAsPlainAfterEdges(line, ",", stripped, fields);
  }

  /** Step 1 on `,"",`. */
  lemma CollapseOfLoneQuotedEmpty(line: string)
    requires line == ",\"\","
    ensures CollapseQuotedEmpty(line, ",") == ",,"
  {
    var pat := "," + QuotePair + ",";
    var rep := "," + ",";
    assert line == pat + [];
    ReplaceAllFront([], pat, rep);
    ShorterNotOccurs([], pat);
    ReplaceAllAbsent([], pat, rep);
    assert rep + [] == ",,";
  }

  /** A line that is just delimiter, `""`, delimiter reads as three empty fields. */
  lemma QuotedEmptyBetweenDelimiters(line: string)
    requires line == ",\"\","
    ensures ReadValuesInLine(line, ",") == ["", "", ""]
    ensures ReadValuesInLineAsWritten(line, ",") == Some(["", "", ""])
  {
    var stripped := ",,";
    CollapseOfLoneQuotedEmpty(line);
    EdgesOfUnquotedEnds(stripped, ",");
    JoinTriple("", "", "", ",");
    assert "" + "," + "" + "," + "" == stripped;
    var fields := ["", "", ""];
    assert forall k :: 0 <= k < |fields| ==> PlainField(fields[k], ",");
    ReadsAsPlainAfterEdges(line, ",", stripped, fields);
  }

  /** A line of the pattern's length that is not the pattern passes step 1 unchanged. */
  lemma CollapseOfFourCharacters(line: string)
    requires |line| == 4 && line[0] != ','
    ensures CollapseQuotedEmpty(line, ",") == line
  {
    var pat := "," + QuotePair + ",";
    assert line[0] != pat[0];
    NotOccursSameLength(line, pat);
    ReplaceAllAbsent(line, pat, "," + ",");
  }

  /** Step 2 on `"",a`: the leading `""` goes. */
  lemma EdgesOfQuotedEmptyFirst(line: string)
    requires line == "\"\",a"
    ensures StripEdges(line, ",") == ",a"
  {
    assert line[..3] == QuotePair + ",";
    assert line[2..] == ",a";
    EdgeFacts(",a", ",");
  }

  /** A quoted empty first field loses its quotes in step 2. */
  lemma QuotedEmptyFirstField(line: string)
    requires line == "\"\",a"
    ensures ReadValuesInLine(line, ",") == ["", "a"]
  {
    CollapseOfFourCharacters(line);
    EdgesOfQuotedEmptyFirst(line);
    JoinPair("", "a", ",");
    assert "" + "," + "a" == ",a";
    var fields := ["", "a"];
    assert forall k :: 0 <= k < |fields| ==> PlainField(fields[k], ",");
    ReadsAsPlainAfterEdges(line, ",", ",a", fields);
  }

  /** Step 2 on `a,""`: the trailing `""` goes. */
  lemma EdgesOfQuotedEmptyLast(line: string)
    requires line == "a,\"\""
    ensures StripEdges(line, ",") == "a,"
  {
    EdgeFacts(line, ",");
    assert line[1..] == "," + QuotePair;
    assert line[..2] == "a,";
  }

  /** A quoted empty last field loses its quotes in step 2. */
  lemma QuotedEmptyLastField(line: string)
    requires line == "a,\"\""
    ensures ReadValuesInLine(line, ",") == ["a", ""]
  {
    CollapseOfFourCharacters(line);
    EdgesOfQuotedEmptyLast(line);
    JoinPair("a", "", ",");
    assert "a" + "," + "" == "a,";
    var fields := ["a", ""];
    assert forall k :: 0 <= k < |fields| ==> PlainField(fields[k], ",");
    ReadsAsPlainAfterEdges(line, ",", "a,", fields);
  }

  /** Step 1 on `a,"","",b` collapses the first quoted empty field only. */
  lemma CollapseOfQuotedEmptyRun(line: string)
    requires line == "a,\"\",\"\",b"
    ensures CollapseQuotedEmpty(line, ",") == "a,,\"\",b"
  {
    var pat := "," + QuotePair + ",";
    var rep := "," + ",";
    var rest := "\"\",b";
    assert line == ['a'] + (pat + rest);
    ReplaceAllCons('a', pat + rest, pat, rep);
    ReplaceAllFront(rest, pat, rep);
    assert rest[0] != pat[0];
    NotOccursSameLength(rest, pat);
    ReplaceAllAbsent(rest, pat, rep);
    CollapsedRunSpelling(rep, rest);
  }

  /** The collapsed run, spelt out. */
  lemma CollapsedRunSpelling(rep: string, rest: string)
    requires rep == "," + "," && rest == "\"\",b"
    ensures ['a'] + (rep + rest) == "a,,\"\",b"
  {
  }

  /** Step 3 on `a,,"",b` protects the remaining `""`. */
  lemma ProtectOfCollapsedRun(s: string)
    requires s == "a,,\"\",b"
    ensures Protect(s) == "a,,\U{1A},b"
  {
    var sub := [Substitute];
    var tail := ",b";
    var t3 := QuotePair + tail;
    var t2 := [','] + t3;
    var t1 := [','] + t2;
    assert s == ['a'] + t1;
    MissingElementNotOccurs(tail, QuotePair, Quote);
    ReplaceAllAbsent(tail, QuotePair, sub);
    ReplaceAllFront(tail, QuotePair, sub);
    ProtectedRunSpelling();
    assert ReplaceAll(t3, QuotePair, sub) == "\U{1A},b";
    ReplaceAllCons(',', t3, QuotePair, sub);
    ReplaceAllCons(',', t2, QuotePair, sub);
    ReplaceAllCons('a', t1, QuotePair, sub);
  }

  /** The protected run, one character at a time. */
  lemma ProtectedRunSpelling()
    ensures [Substitute] + ",b" == "\U{1A},b"
    ensures [','] + "\U{1A},b" == ",\U{1A},b"
    ensures [','] + ",\U{1A},b" == ",,\U{1A},b"
    ensures ['a'] + ",,\U{1A},b" == "a,,\U{1A},b"
  {
  }

  /** Step 4 on the protected `a,,SUB,b`. */
  lemma SplitOfProtectedRun(s: string)
    requires s == "a,,\U{1A},b"
    ensures Split(s, ",") == ["a", "", "\U{1A}", "b"]
  {
    var ps := ["a", "", "\U{1A}", "b"];
    var rest := ps[1..];
    assert rest == [ps[1], ps[2], ps[3]];
    JoinTriple(ps[1], ps[2], ps[3], ",");
    JoinCons(ps[0], rest, ",");
    assert [ps[0]] + rest == ps;
    assert s == ps[0] + "," + (ps[1] + "," + ps[2] + "," + ps[3]);
    assert forall k :: 0 <= k < |ps| ==> Avoids(ps[k], ",");
    SplitJoin(ps, ",");
  }

  /** Steps 4 and 5 on the protected `a,,SUB,b`: both merge loops keep its four pieces. */
  lemma MergeOfProtectedRun(s: string)
    requires s == "a,,\U{1A},b"
    ensures Merge(Split(s, ","), ",") == ["a", "", "\U{1A}", "b"]
    ensures MergeAsWritten(Split(s, ","), ",") == Some(["a", "", "\U{1A}", "b"])
  {
    var ps := ["a", "", "\U{1A}", "b"];
    SplitOfProtectedRun(s);
    assert forall k :: 0 <= k < |ps| ==> IsMiddlePart(ps[k]);
    MergeKeepsQuoteFree(ps, ",");
  }

  /**
   Step 6 on the pieces of the protected run: the source turns the lone
   substitute into a quote, the corrected step reads it as an empty field.
   */
  lemma CleanOfProtectedPieces(ps: seq<string>)
    requires ps == ["a", "", "\U{1A}", "b"]
    ensures CleanAll(ps) == ["a", "", "\"", "b"]
    ensures ReadAll(ps) == ["a", "", "", "b"]
  {
    var fields := ["a", "", [Quote], "b"];
    forall k | 0 <= k < |ps|
      ensures Clean(ps[k]) == fields[k]
    {
      if k == 2 {
        CleanSubstitutes(1);
        assert ps[2] == Repeat(Substitute, 1) && Repeat(Quote, 1) == [Quote];
      } else {
        assert ps[k] == fields[k];
        CleanPlain(ps[k]);
      }
    }
    assert fields == ["a", "", "\"", "b"];
    assert IsSubstituteRun(ps[2]) && ReadField(ps[2]) == "";
    forall k | 0 <= k < |ps| && k != 2
      ensures ReadField(ps[k]) == ps[k]
    {
      PlainIsNoRun(ps[k]);
      CleanPlain(ps[k]);
    }
  }

  /**
   Two quoted empty fields in a row: step 1 resumes after the first collapsed
   occurrence, so the second `""` survives and is protected in step 3. The
   source reads it as a field holding one quote, the corrected step 6 as an
   empty field.
   */
  lemma QuotedEmptyRunCollapsesOnce(line: string)
    requires line == "a,\"\",\"\",b"
    ensures ReadValuesInLineAsWritten(line, ",") == Some(["a", "", "\"", "b"])
    ensures ReadValuesInLine(line, ",") == ["a", "", "", "b"]
  {
    var collapsed := "a,,\"\",b";
    var protected := "a,,\U{1A},b";
    CollapseOfQuotedEmptyRun(line);
    EdgesOfUnquotedEnds(collapsed, ",");
    ProtectOfCollapsedRun(collapsed);
    MergeOfProtectedRun(protected);
    CleanOfProtectedPieces(["a", "", "\U{1A}", "b"]);
  }

  /** The line `""`, a quoted empty field on its own. */
  lemma QuotedEmptySpelling(line: string)
    requires line == "\"\""
    ensures line == Quoted(Escape(Repeat(Quote, 0)))
  {
    assert Repeat(Quote, 0) == [];
  }

  /**
   A line holding only a quoted empty field: the source reads it as a field
   holding one quote, the corrected step 6 as the empty field.
   */
  lemma QuotedEmptyLine(line: string)
    requires line == "\"\""
    ensures ReadValuesInLineAsWritten(line, ",") == Some(["\""])
    ensures ReadValuesInLine(line, ",") == [""]
  {
    QuotedEmptySpelling(line);
    QuoteOnlyFieldAsWritten(0, ",");
    QuoteOnlyFieldReadsBack(0, ",");
    assert Repeat(Quote, 1) == "\"" && Repeat(Quote, 0) == "";
  }

  /** The line `""""`, a field holding one quote as a writer quotes it. */
  lemma QuoteOnlySpelling(line: string)
    requires line == "\"\"\"\""
    ensures line == Quoted(Escape(Repeat(Quote, 1)))
  {
    EscapeQuotes(1);
    assert Quoted(Repeat(Quote, 2)) == line;
  }

  /**
   A field holding just one quote, written as `""""`: step 3 pairs the opening
   quote with the first escaped one, so the source reads the field as two
   quotes; the corrected step 6 reads it as one.
   */
  lemma QuoteOnlyFieldReadsDoubled(line: string)
    requires line == "\"\"\"\""
    ensures ReadValuesInLineAsWritten(line, ",") == Some(["\"\""])
    ensures ReadValuesInLine(line, ",") == ["\""]
  {
    QuoteOnlySpelling(line);
    QuoteOnlyFieldAsWritten(1, ",");
    QuoteOnlyFieldReadsBack(1, ",");
    assert Repeat(Quote, 2) == "\"\"" && Repeat(Quote, 1) == "\"";
  }

  /** A lone field joined with the delimiter is itself. */
  lemma JoinSingle(f: string, d: string)
    ensures Join([] + [f] + [], d) == f
  {
    assert [] + [f] + [] == [f];
  }

  /** An escaped quote inside a quoted field: `"x""y"` reads as `x"y`. */
  lemma EscapedQuoteExample(line: string)
    requires line == "\"x\"\"y\""
    ensures ReadValuesInLine(line, ",") == ["x\"y"]
    ensures ReadValuesInLineAsWritten(line, ",") == Some(["x\"y"])
  {
    var f := "x\"y";
    assert f[1..] == "\"y";
    assert f[1..][1..] == "y";
    assert Escape("y") == "y";
    assert Escape("\"y") == "\"\"y";
    assert Escape(f) == "x\"\"y";
    assert Join([f], ",") == f;
    JoinSingle(Quoted(Escape(f)), ",");
    assert Quoted(Escape(f)) == line;
    assert [] + [f] + [] == [f];
    assert forall k :: 0 <= k < |f| ==> f[k] != ',' && f[k] != Substitute;
    EscapedFieldReadsBack([], [f], [], ",");
  }

  /**
   A quoted field holding a delimiter and an escaped quote, in front of a
   plain field: `"a,""b",c` reads as `a,"b` and `c`.
   */
  lemma EscapedDelimiterAndQuote(line: string)
    requires line == "\"a,\"\"b\",c"
    ensures ReadValuesInLine(line, ",") == ["a,\"b", "c"]
    ensures ReadValuesInLineAsWritten(line, ",") == Some(["a,\"b", "c"])
  {
    var inner := ["a", "\"b"];
    var f := "a,\"b";
    JoinPair("a", "\"b", ",");
    assert Join(inner, ",") == f;
    assert f[1..] == ",\"b" && f[1..][1..] == "\"b" && f[1..][1..][1..] == "b";
    assert Escape("b") == "b";
    assert Escape(f) == "a,\"\"b";
    JoinPair(Quoted(Escape(f)), "c", ",");
    assert [] + [Quoted(Escape(f))] + ["c"] == [Quoted(Escape(f)), "c"];
    assert line == Quoted(Escape(f)) + "," + "c";
    assert [] + [f] + ["c"] == ["a,\"b", "c"];
    assert PlainField("c", ",");
    assert forall k :: 0 <= k < |inner| ==> Substitute !in inner[k] && Avoids(inner[k], ",");
    EscapedFieldReadsBack([], inner, ["c"], ",");
  }

  /** Step 1 on `"""a,b"`: nothing to collapse. */
  lemma CollapseOfLeadingQuoteField(line: string)
    requires line == "\"\"\"a,b\""
    ensures CollapseQuotedEmpty(line, ",") == line
  {
    var pat := "," + QuotePair + ",";
    var rep := "," + ",";
    assert line == "\"\"\"a" + ",b\"";
    ReplaceAllSkips("\"\"\"a", ",b\"", pat, rep);
    ShorterNotOccurs(",b\"", pat);
    ReplaceAllAbsent(",b\"", pat, rep);
  }

  /** Step 3 on `"""a,b"`: the opening quote and the field's first quote become a substitute. */
  lemma ProtectOfLeadingQuoteField(line: string)
    requires line == "\"\"\"a,b\""
    ensures Protect(line) == "\U{1A}\"a,b\""
  {
    var sub := [Substitute];
    var body := "a,b" + [Quote];
    var rest := [Quote] + body;
    assert Protect(line) == sub + Protect(rest) by {
      assert line == QuotePair + rest;
      ReplaceAllFront(rest, QuotePair, sub);
    }
    assert Protect(rest) == [Quote] + Protect(body) by {
      ProtectOpeningQuote(body);
    }
    assert Protect(body) == body by {
      ReplaceAllSkips("a,b", [Quote], QuotePair, sub);
      ProtectClosingQuote([]);
      assert [Quote] + [] == [Quote];
    }
    assert sub + rest == "\U{1A}\"a,b\"";
  }

  /** Steps 1 to 4 on `"""a,b"`. */
  lemma PiecesOfLeadingQuoteField(line: string)
    requires line == "\"\"\"a,b\""
    ensures Pieces(line, ",") == ["\U{1A}\"a", "b\""]
  {
    var ps := ["\U{1A}\"a", "b\""];
    CollapseOfLeadingQuoteField(line);
    EdgeFacts(line, ",");
    assert StripEdges(line, ",") == line;
    ProtectOfLeadingQuoteField(line);
    JoinPair(ps[0], ps[1], ",");
    assert "\U{1A}\"a,b\"" == ps[0] + "," + ps[1];
    assert forall k :: 0 <= k < |ps| ==> Avoids(ps[k], ",");
    SplitJoin(ps, ",");
  }

  /** Step 6 on the first piece of `"""a,b"`: the quote goes and the substitute becomes one. */
  lemma CleanOfSubstitutedStart(p: string)
    requires p == "\U{1A}\"a"
    ensures Clean(p) == "\"a"
  {
    assert p == [Substitute] + ([Quote] + "a");
    RemoveQuotesConcat([Substitute], [Quote] + "a");
    RemoveQuotesConcat([Quote], "a");
    RemoveQuotesOfQuoteFree([Substitute]);
    RemoveQuotesOfQuoteFree("a");
    assert RemoveQuotes([Quote]) == [];
    var r := RemoveQuotes(p);
    assert r == [Substitute] + "a";
    assert RestoreQuotes(r)[0] == Quote && RestoreQuotes(r)[1] == 'a';
  }

  /** Both merge loops on the pieces of `"""a,b"`: the first piece opens no quote. */
  lemma MergeOfLeadingQuoteField(ps: seq<string>)
    requires ps == ["\U{1A}\"a", "b\""]
    ensures Merge(ps, ",") == ps && MergeAsWritten(ps, ",") == Some(ps)
  {
    assert !IsStartPart(ps[0]);
    assert ps[1..] == [ps[1]];
    MergeSinglePiece(ps[1], ",");
  }

  /**
   A quoted field that starts with a quote: `"""a,b"` is the field `"a,b` as a
   writer quotes it, but step 3 pairs the opening quote with the field's first
   quote, so the merge loop sees no start piece and both versions read the
   two fields `"a` and `b`.
   */
  lemma LeadingQuoteFieldSplits(line: string)
    requires line == "\"\"\"a,b\""
    ensures ReadValuesInLineAsWritten(line, ",") == Some(["\"a", "b"])
    ensures ReadValuesInLine(line, ",") == ["\"a", "b"]
  {
    var ps := ["\U{1A}\"a", "b\""];
    PiecesOfLeadingQuoteField(line);
    MergeOfLeadingQuoteField(ps);
    CleanOfLeadingQuotePieces(ps);
  }

  /** Both versions of step 6 on the pieces of `"""a,b"`. */
  lemma CleanOfLeadingQuotePieces(ps: seq<string>)
    requires ps == ["\U{1A}\"a", "b\""]
    ensures CleanAll(ps) == ["\"a", "b"] && ReadAll(ps) == ["\"a", "b"]
  {
    CleanOfSubstitutedStart(ps[0]);
    assert Clean(ps[1]) == "b" by {
      CleanHalfQuoted("b");
      assert ps[1] == "b" + [Quote];
    }
    assert ps[0][1] in ps[0] && ps[1][1] in ps[1];
    CleanAllIs(ps, ["\"a", "b"]);
  }

  /** Step 1 on `"x,"",y"`: the escaped quote between two delimiters is collapsed with it. */
  lemma CollapseOfLoneQuoteField(line: string)
    requires line == "\"x,\"\",y\""
    ensures CollapseQuotedEmpty(line, ",") == "\"x,,y\""
  {
    var pat := "," + QuotePair + ",";
    var rep := "," + ",";
    var rest := "y\"";
    assert line == "\"x" + (pat + rest);
    ReplaceAllSkips("\"x", pat + rest, pat, rep);
    ReplaceAllFront(rest, pat, rep);
    ShorterNotOccurs(rest, pat);
    ReplaceAllAbsent(rest, pat, rep);
    assert "\"x" + (rep + rest) == "\"x,,y\"";
  }

  /** Step 1 leaves the collapsed `"x,,y"` alone. */
  lemma CollapseOfCollapsedLoneQuote(s: string)
    requires s == "\"x,,y\""
    ensures CollapseQuotedEmpty(s, ",") == s
  {
    var pat := "," + QuotePair + ",";
    var rep := "," + ",";
    var rest := ",,y\"";
    assert s == "\"x" + rest;
    ReplaceAllSkips("\"x", rest, pat, rep);
    assert rest[1] != pat[1];
    NotOccursSameLength(rest, pat);
    ReplaceAllAbsent(rest, pat, rep);
  }

  /** The field `x,",y` as a writer quotes it. */
  lemma LoneQuoteSpelling(line: string)
    requires line == "\"x,\"\",y\""
    ensures line == Quoted(Escape("x,\",y"))
  {
    var f := "x,\",y";
    assert f[1..] == ",\",y" && f[1..][1..] == "\",y" && f[1..][1..][1..] == ",y";
    assert Escape(",y") == ",y" by {
      assert ",y"[1..] == "y" && Escape("y") == "y";
    }
    assert Escape(f) == "x,\"\",y";
  }

  /** The collapsed line `"x,,y"` is one quoted field holding two delimiters. */
  lemma CollapsedLoneQuoteReads(s: string)
    requires s == "\"x,,y\""
    ensures ReadValuesInLine(s, ",") == ["x,,y"]
    ensures ReadValuesInLineAsWritten(s, ",") == Some(["x,,y"])
  {
    var inner := ["x", "", "y"];
    JoinTriple("x", "", "y", ",");
    assert Join(inner, ",") == "x,,y";
    JoinSingle(Quoted(Join(inner, ",")), ",");
    assert Quoted(Join(inner, ",")) == s;
    assert [] + [Join(inner, ",")] + [] == ["x,,y"];
    assert forall k :: 0 <= k < |inner| ==> PlainField(inner[k], ",");
    QuotedFieldKeepsDelimiters([], inner, [], ",");
  }

  /**
   A field holding a lone quote between two delimiters, `x,",y`, as a writer
   quotes it: `"x,"",y"`. Step 1 takes the escaped quote and its delimiters
   for a quoted empty field and collapses them, so both versions read the
   field as `x,,y` and the quote is lost.
   */
  lemma LoneQuoteBetweenDelimitersLost(line: string)
    requires line == "\"x,\"\",y\""
    ensures line == Quoted(Escape("x,\",y"))
    ensures ReadValuesInLine(line, ",") == ["x,,y"]
    ensures ReadValuesInLineAsWritten(line, ",") == Some(["x,,y"])
  {
    var collapsed := "\"x,,y\"";
    LoneQuoteSpelling(line);
    CollapseOfLoneQuoteField(line);
    CollapseOfCollapsedLoneQuote(collapsed);
    assert Pieces(line, ",") == Pieces(collapsed, ",");
    CollapsedLoneQuoteReads(collapsed);
  }

  /** Steps 1-4 on `"a;b"` under `;;`: one piece, the line itself. */
  lemma PiecesUnderDoubleSemicolon(line: string)
    requires line == "\"a;b\""
    ensures Pieces(line, ";;") == [line]
  {
    var d := ";;";
    assert forall k :: 0 <= k < |line| - 1 ==> line[k] != Quote || line[k + 1] != Quote;
    NoNeighbouringQuotes(line);
    NoQuotePairPassesThrough(line, d);
    forall i | 0 <= i <= |line| - |d|
      ensures !OccursAt(line, d, i)
    {
      assert line[i..i + 2][0] == line[i] && line[i..i + 2][1] == line[i + 1];
    }
    SplitWithoutSeparator(line, d);
  }

  /**
   A quoted field under the two-character delimiter `;;` that holds one of
   its characters: `"a;b"` reads back as `a;b` in both versions, though the
   round trip for escaped fields does not cover it.
   */
  lemma MultiCharacterDelimiterField(line: string)
    requires line == "\"a;b\""
    ensures ReadValuesInLine(line, ";;") == ["a;b"]
    ensures ReadValuesInLineAsWritten(line, ";;") == Some(["a;b"])
    ensures !Escapable([], ["a;b"], [], ";;")
  {
    PiecesUnderDoubleSemicolon(line);
    MergeSinglePiece(line, ";;");
    assert Clean(line) == "a;b" by {
      assert line == [Quote] + "a;b" + [Quote];
      CleanQuoted("a;b");
    }
    assert line[0] in line;
    CleanAllIs([line], ["a;b"]);
    assert !Avoids("a;b", ";;") by {
      assert "a;b"[1] in ";;";
    }
  }
}
