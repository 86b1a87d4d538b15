/** Header mode on small inputs, with the comma delimiter. */
module ImporterExamples {
  import opened Wrappers
  import opened Seqs
  import opened LineEndings
  import opened Splitter
  import opened Importer
  import StringSource
  import SplitterExamples

  /** Two plain fields joined by a comma read back as those fields. */
  lemma ReadsTwoPlainFields(line: string, a: string, b: string)
    requires Quote !in a && Substitute !in a && ',' !in a
    requires Quote !in b && Substitute !in b && ',' !in b
    requires line == a + "," + b
    ensures ReadValuesInLine(line, ",") == [a, b]
  {
    var fields := [a, b];
    assert Join(fields, ",") == line by {
      assert fields[1..] == [b];
    }
    PlainFieldsRoundTrip(fields, ",");
  }

  /**
   Content made of lines without CR, at least two of them joined with LF,
   resolves to LF and is stored as exactly those lines.
   */
  lemma LfJoinedContentLines(ls: seq<string>, d: string)
    requires |ls| >= 2
    requires forall k :: 0 <= k < |ls| ==> '\r' !in ls[k] && '\n' !in ls[k]
    ensures SourceLines(FromContentString(Join(ls, "\n"), d, Unknown).source) == ls
  {
    var content := Join(ls, "\n");
    JoinExcludes(ls, "\n", '\r');
    MissingElementNotOccurs(content, "\r\n", '\r');
    assert content == ls[0] + "\n" + Join(ls[1..], "\n");
    assert content[|ls[0]|] == '\n';
    OccursSingle(content, '\n');
    assert StringSource.CorrectedLineEnding(content, Unknown) == NewLine;
    SplitJoin(ls, "\n");
  }

  /** The two lines of the header scenario, joined with LF. */
  lemma HeaderLinesJoined()
    ensures Join(["id,name", "1,Alice"], "\n") == "id,name\n1,Alice"
  {
    var ls := ["id,name", "1,Alice"];
    assert ls[1..] == ["1,Alice"];
  }

  /** The content `id,name`, LF, `1,Alice` is stored as its two lines. */
  lemma HeaderContentLines(content: string)
    requires content == "id,name\n1,Alice"
    ensures SourceLines(FromContentString(content, ",", Unknown).source) == ["id,name", "1,Alice"]
  {
    var ls := ["id,name", "1,Alice"];
    HeaderLinesJoined();
    assert forall k :: 0 <= k < |ls| ==> '\r' !in ls[k] && '\n' !in ls[k];
    LfJoinedContentLines(ls, ",");
  }

  /** A data line with the header's length becomes the dictionary of its positions. */
  lemma AliceRecord<T>(mapper: map<string, string> -> T)
    ensures StructuredRecords(["id", "name"], [["1", "Alice"]], mapper)
            == [mapper(map["id" := "1", "name" := "Alice"])]
  {
    var rows := [["1", "Alice"]];
    var keys := ["id", "name"];
    var values := ["1", "Alice"];
    assert rows[..0] == [];
    assert keys[..1] == ["id"] && values[..1] == ["1"];
    assert Zip(keys, values) == map["id" := "1", "name" := "Alice"];
  }

  /** The header line `id,name` reads as two names. */
  lemma HeaderLineRead()
    ensures ReadValuesInLine("id,name", ",") == ["id", "name"]
  {
    assert "id" + "," + "name" == "id,name";
    ReadsTwoPlainFields("id,name", "id", "name");
  }

  /** The data line `1,Alice` reads as two values. */
  lemma DataLineRead()
    ensures ReadValuesInLine("1,Alice", ",") == ["1", "Alice"]
  {
    assert "1" + "," + "Alice" == "1,Alice";
    ReadsTwoPlainFields("1,Alice", "1", "Alice");
  }

  /** After the header line, the one data line `1,Alice` is left. */
  lemma HeaderLinesRead()
    ensures LineFields(["id,name", "1,Alice"], ",")[1..] == [["1", "Alice"]]
  {
    DataLineRead();
    var rows := LineFields(["id,name", "1,Alice"], ",")[1..];
    assert |rows| == 1 && rows[0] == ReadValuesInLine("1,Alice", ",");
  }

  /**
   A header line `id,name` and a data line `1,Alice` give the header
   `[id, name]` and the one record `{id: 1, name: Alice}`.
   */
  lemma HeaderScenario<T>(content: string, mapper: map<string, string> -> T)
    requires content == "id,name\n1,Alice"
    ensures var lines := SourceLines(FromContentString(content, ",", Unknown).source);
            |lines| == 2 &&
            ReadValuesInLine(lines[0], ",") == ["id", "name"] &&
            StructuredRecords(["id", "name"], LineFields(lines, ",")[1..], mapper)
              == [mapper(map["id" := "1", "name" := "Alice"])]
  {
    HeaderContentLines(content);
    HeaderLineRead();
    HeaderLinesRead();
    AliceRecord(mapper);
  }

  /**
   A data line with fewer fields than the header is skipped and the following
   line still becomes a record.
   */
  lemma ShortLineIsSkipped<T>(mapper: map<string, string> -> T)
    ensures StructuredRecords(["id", "name"], [["1"], ["2", "Bob"]], mapper)
            == [mapper(map["id" := "2", "name" := "Bob"])]
  {
    var rows := [["1"], ["2", "Bob"]];
    var keys := ["id", "name"];
    var values := ["2", "Bob"];
    assert rows[..1] == [["1"]];
    assert rows[..1][..0] == [];
    assert keys[..1] == ["id"] && values[..1] == ["2"];
    assert Zip(keys, values) == map["id" := "2", "name" := "Bob"];
  }

  /** With a duplicated header name the later column wins. */
  lemma DuplicateHeaderLaterWins()
    ensures Structure(["k", "k"], ["1", "2"]) == Wrappers.Some(map["k" := "2"])
  {
    var keys := ["k", "k"];
    var values := ["1", "2"];
    assert keys[..1] == ["k"] && values[..1] == ["1"];
    assert Zip(keys, values) == map["k" := "1"]["k" := "2"];
    assert map["k" := "1"]["k" := "2"] == map["k" := "2"];
  }

  /**
   A line with an unclosed quote after a plain one: the source's import
   traps, the modelled one reads the line's two pieces as two fields.
   */
  lemma UnclosedQuoteStopsImport(lines: seq<string>)
    requires lines == ["x", "\"a,b"]
    ensures LineFieldsAsWritten(lines, ",") == None
    ensures LineFields(lines, ",")[1] == ["a", "b"]
  {
    SplitterExamples.UnclosedQuoteTraps(lines[1]);
  }
}
