/**
 The importer's line-level driver: it takes the lines of its source in order,
 reads the fields of each line and hands them on, either as they are
 (`importRecords(mapper:)`) or keyed by the fields of the first line
 (`importRecords(structure:recordMapper:)`). Closures are modelled as pure
 functions and their calls as the sequence of arguments they receive.
 */
module Importer {
  import opened Wrappers
  import opened Seqs
  import opened LineEndings
  import opened Encodings
  import opened StreamReader
  import StringSource
  import FileSource
  import Splitter

  /** The two implementations of the `Source` protocol. */
  datatype Source = FromString(strings: StringSource.StringSource) | FromFile(file: FileSource.FileSource)

  /** The lines `source.forEach` passes to its closure, in order. */
  function SourceLines(src: Source): seq<string> {
    match src
    case FromString(s) => s.lines
    case FromFile(f) => FileSource.ForEach(f)
  }

  /** An importer: its source and its field delimiter, both fixed at construction. */
  datatype Importer = Importer(source: Source, delimiter: string)

  /**
   `init(contentString:delimiter:lineEnding:)`: the lines are the content cut at
   the corrected terminator, so there is always at least one line.
   */
  function FromContentString(content: string, delimiter: string, lineEnding: LineEnding): (imp: Importer)
    ensures imp.delimiter == delimiter
    ensures |SourceLines(imp.source)| >= 1
    ensures Join(SourceLines(imp.source), StringSource.CorrectedLineEnding(content, lineEnding).Raw()) == content
  {
    Importer(FromString(StringSource.Init(content, lineEnding)), delimiter)
  }

  /**
   `init(path:delimiter:lineEnding:encoding:)`: a file source over the file at
   the path. A missing file, or a line ending the encoding cannot express,
   yields no line at all; otherwise every line comes from the file's content.
   */
  function FromPath(file: FileModel, delimiter: string, lineEnding: LineEnding, encoding: Encoding): (imp: Importer)
    ensures imp.delimiter == delimiter
    ensures file.Missing? ==> SourceLines(imp.source) == []
    ensures var e := FileSource.ResolvedLineEnding(FileSource.FileSource(file, encoding, lineEnding));
            encoding.encode(e.Raw()).None? ==> SourceLines(imp.source) == []
    ensures var e := FileSource.ResolvedLineEnding(FileSource.FileSource(file, encoding, lineEnding));
            file.Present? && encoding.encode(e.Raw()).Some? ==>
              SourceLines(imp.source) == DecodeUntilFailure(LinesOf(file.content, encoding.encode(e.Raw()).value), encoding.decode)
    ensures var e := FileSource.ResolvedLineEnding(FileSource.FileSource(file, encoding, lineEnding));
            file.Present? && encoding.encode(e.Raw()).Some? ==>
              var ls := LinesOf(file.content, encoding.encode(e.Raw()).value);
              |SourceLines(imp.source)| <= |ls| &&
              forall k :: 0 <= k < |SourceLines(imp.source)| ==> encoding.decode(ls[k]) == Some(SourceLines(imp.source)[k])
  {
    Importer(FromFile(FileSource.FileSource(file, encoding, lineEnding)), delimiter)
  }

  /** The field lists of `lines`, one per line. */
  function LineFields(lines: seq<string>, d: string): seq<seq<string>> {
    seq(|lines|, k requires 0 <= k < |lines| => Splitter.ReadValuesInLine(lines[k], d))
  }

  /**
   The field lists of `lines` as the source's splitter reads them: `None` as
   soon as one line makes the splitter trap, so there are field lists exactly
   when every line reads without a trap.
   */
  function LineFieldsAsWritten(lines: seq<string>, d: string): (r: Option<seq<seq<string>>>)
    decreases |lines|
    ensures r.Some? <==> forall k :: 0 <= k < |lines| ==> Splitter.ReadValuesInLineAsWritten(lines[k], d).Some?
    ensures r.Some? ==> |r.value| == |lines|
    ensures r.Some? ==> forall k :: 0 <= k < |lines| ==> Some(r.value[k]) == Splitter.ReadValuesInLineAsWritten(lines[k], d)
  {
    if |lines| == 0 then Some([])
    else
      match Splitter.ReadValuesInLineAsWritten(lines[0], d)
      case None => None
      case Some(fields) =>
        match LineFieldsAsWritten(lines[1..], d)
        case None =>
          assert forall k :: 1 <= k < |lines| ==> lines[1..][k - 1] == lines[k];
          None
        case Some(rest) => Some([fields] + rest)
  }

  /**
   On lines the source's splitter reads as the corrected one does (every
   quote closed and no quoted field of escaped quotes only), the source's
   import yields the same field lists as the modelled one.
   */
  lemma AsWrittenImportAgreesWhenSafe(lines: seq<string>, d: string)
    requires forall k :: 0 <= k < |lines| ==> Splitter.LineSafe(lines[k], d)
    ensures LineFieldsAsWritten(lines, d) == Some(LineFields(lines, d))
  {
    forall k | 0 <= k < |lines|
      ensures Splitter.ReadValuesInLineAsWritten(lines[k], d) == Some(Splitter.ReadValuesInLine(lines[k], d))
    {
      Splitter.AsWrittenLineAgreesWhenSafe(lines[k], d);
    }
    var r := LineFieldsAsWritten(lines, d);
    assert r.Some?;
    var fs := LineFields(lines, d);
    assert |r.value| == |fs|;
    assert forall k :: 0 <= k < |lines| ==> r.value[k] == fs[k];
    assert r.value == fs;
  }

  /**
   The loop of `importLines` over the lines a source yields: the fields of each
   line, once per line and in order, and whether any line was seen.
   */
  method ImportLinesOf(lines: seq<string>, d: string) returns (calls: seq<seq<string>>, anyLine: bool)
    ensures |calls| == |lines|
    ensures forall k :: 0 <= k < |lines| ==> calls[k] == Splitter.ReadValuesInLine(lines[k], d)
    ensures anyLine <==> |lines| > 0
  {
    anyLine := false;
    calls := [];
    var i := 0;
    while i < |lines|
      invariant 0 <= i <= |lines|
      invariant |calls| == i
      invariant forall k :: 0 <= k < i ==> calls[k] == Splitter.ReadValuesInLine(lines[k], d)
      invariant anyLine <==> i > 0
    {
      anyLine := true;
      calls := calls + [Splitter.ReadValuesInLine(lines[i], d)];
      i := i + 1;
    }
  }

  /**
   `importLines`: the closure receives the fields of every source line, once
   per line and in order; the answer is whether the source yielded any line,
   so an empty source counts as failure.
   */
  method ImportLines(imp: Importer) returns (calls: seq<seq<string>>, anyLine: bool)
    ensures |calls| == |SourceLines(imp.source)|
    ensures forall k :: 0 <= k < |calls| ==>
              calls[k] == Splitter.ReadValuesInLine(SourceLines(imp.source)[k], imp.delimiter)
    ensures anyLine <==> |SourceLines(imp.source)| > 0
  {
    calls, anyLine := ImportLinesOf(SourceLines(imp.source), imp.delimiter);
  }

  /** A string source never counts as a failed import: it has at least one line. */
  lemma ContentStringHasALine(content: string, delimiter: string, lineEnding: LineEnding)
    ensures SourceLines(FromContentString(content, delimiter, lineEnding).source) != []
  {
    var imp := FromContentString(content, delimiter, lineEnding);
    assert |SourceLines(imp.source)| >= 1;
  }

  /** The closure of `importRecords(mapper:)` over the field lists: one record per line, in order. */
  method MapRecords<T>(calls: seq<seq<string>>, mapper: seq<string> -> T) returns (records: seq<T>)
    ensures |records| == |calls|
    ensures forall k :: 0 <= k < |calls| ==> records[k] == mapper(calls[k])
  {
    records := [];
    var i := 0;
    while i < |calls|
      invariant 0 <= i <= |calls|
      invariant |records| == i
      invariant forall k :: 0 <= k < i ==> records[k] == mapper(calls[k])
    {
      records := records + [mapper(calls[i])];
      i := i + 1;
    }
  }

  /** `importRecords(mapper:)`: one record per source line, the mapper applied to its fields. */
  method ImportRecords<T>(imp: Importer, mapper: seq<string> -> T) returns (records: seq<T>)
    ensures |records| == |SourceLines(imp.source)|
    ensures forall k :: 0 <= k < |records| ==>
              records[k] == mapper(Splitter.ReadValuesInLine(SourceLines(imp.source)[k], imp.delimiter))
  {
    var calls, _ := ImportLines(imp);
    records := MapRecords(calls, mapper);
  }

  /**
   The dictionary built from a header and a line: each key maps to the value at
   its position, a later duplicate key overwriting an earlier one.
   */
  function Zip(keys: seq<string>, values: seq<string>): (m: map<string, string>)
    requires |keys| == |values|
    decreases |keys|
    ensures forall k :: k in m <==> k in keys
  {
    if |keys| == 0 then map[]
    else Zip(keys[..|keys| - 1], values[..|values| - 1])[keys[|keys| - 1] := values[|keys| - 1]]
  }

  /**
   `[String: String](keys:values:)`: no dictionary when the counts differ;
   otherwise the keys are exactly the header's names.
   */
  function Structure(keys: seq<string>, values: seq<string>): (m: Option<map<string, string>>)
    ensures m.None? <==> |keys| != |values|
    ensures m.Some? ==> forall k :: k in m.value <==> k in keys
  {
    if |keys| != |values| then None
    else Some(Zip(keys, values))
  }

  /** A key maps to the value at its last position in the header. */
  lemma {:induction false} ZipLastWins(keys: seq<string>, values: seq<string>, i: nat)
    requires |keys| == |values| && i < |keys|
    requires forall j :: i < j < |keys| ==> keys[j] != keys[i]
    decreases |keys|
    ensures keys[i] in Zip(keys, values) && Zip(keys, values)[keys[i]] == values[i]
  {
    var n := |keys| - 1;
    if i < n {
      ZipLastWins(keys[..n], values[..n], i);
    }
  }

  /** A header without duplicates gives a dictionary with one entry per name. */
  lemma {:induction false} ZipDistinctSize(keys: seq<string>, values: seq<string>)
    requires |keys| == |values|
    requires forall i, j :: 0 <= i < j < |keys| ==> keys[i] != keys[j]
    decreases |keys|
    ensures |Zip(keys, values)| == |keys|
  {
    if |keys| > 0 {
      var n := |keys| - 1;
      ZipDistinctSize(keys[..n], values[..n]);
      assert keys[n] !in keys[..n];
      assert keys[n] !in Zip(keys[..n], values[..n]);
    }
  }

  /**
   For a header without duplicate names and a line of the same length, the
   dictionary has one entry per name, each holding the value at that position.
   */
  lemma StructureOfDistinctHeader(keys: seq<string>, values: seq<string>)
    requires |keys| == |values|
    requires forall i, j :: 0 <= i < j < |keys| ==> keys[i] != keys[j]
    ensures Structure(keys, values).Some?
    ensures |Structure(keys, values).value| == |keys|
    ensures forall i :: 0 <= i < |keys| ==> Structure(keys, values).value[keys[i]] == values[i]
  {
    ZipDistinctSize(keys, values);
    forall i | 0 <= i < |keys|
      ensures keys[i] in Zip(keys, values) && Zip(keys, values)[keys[i]] == values[i]
    {
      ZipLastWins(keys, values, i);
    }
  }

  /** The record one data line contributes: none when it does not structure against the header. */
  function RecordOf<T>(header: seq<string>, row: seq<string>, mapper: map<string, string> -> T): (rs: seq<T>)
    ensures |rs| <= 1
    ensures |rs| == 1 <==> |row| == |header|
  {
    match Structure(header, row)
    case None => []
    case Some(m) => [mapper(m)]
  }

  /**
   Header mode's records for the data lines `rows`: the lines that structure
   against the header, mapped, in order; the others are skipped.
   */
  function StructuredRecords<T>(header: seq<string>, rows: seq<seq<string>>, mapper: map<string, string> -> T): (records: seq<T>)
    decreases |rows|
    ensures |records| <= |rows|
  {
    if |rows| == 0 then []
    else StructuredRecords(header, rows[..|rows| - 1], mapper) + RecordOf(header, rows[|rows| - 1], mapper)
  }

  /** The records of two runs of data lines are those of each run, one after the other. */
  lemma {:induction false} StructuredRecordsAppend<T>(header: seq<string>, xs: seq<seq<string>>, ys: seq<seq<string>>,
                                                     mapper: map<string, string> -> T)
    decreases |ys|
    ensures StructuredRecords(header, xs + ys, mapper)
            == StructuredRecords(header, xs, mapper) + StructuredRecords(header, ys, mapper)
  {
    if |ys| == 0 {
      assert xs + ys == xs;
    } else {
      var n := |ys| - 1;
      var last := RecordOf(header, ys[n], mapper);
      assert (xs + ys)[..|xs + ys| - 1] == xs + ys[..n];
      assert (xs + ys)[|xs + ys| - 1] == ys[n];
      assert StructuredRecords(header, xs + ys, mapper) == StructuredRecords(header, xs + ys[..n], mapper) + last;
      StructuredRecordsAppend(header, xs, ys[..n], mapper);
      ConcatAssoc(StructuredRecords(header, xs, mapper), StructuredRecords(header, ys[..n], mapper), last);
    }
  }

  /** When every data line has the header's length, every line becomes a record, in order. */
  lemma {:induction false} AllRowsMatchGiveAllRecords<T>(header: seq<string>, rows: seq<seq<string>>,
                                                        mapper: map<string, string> -> T)
    requires forall k :: 0 <= k < |rows| ==> |rows[k]| == |header|
    decreases |rows|
    ensures |StructuredRecords(header, rows, mapper)| == |rows|
    ensures forall k :: 0 <= k < |rows| ==>
              StructuredRecords(header, rows, mapper)[k] == mapper(Structure(header, rows[k]).value)
  {
    if |rows| > 0 {
      var n := |rows| - 1;
      AllRowsMatchGiveAllRecords(header, rows[..n], mapper);
    }
  }

  /** When no data line has the header's length, there is no record. */
  lemma {:induction false} NoRowMatchesGivesNoRecords<T>(header: seq<string>, rows: seq<seq<string>>,
                                                        mapper: map<string, string> -> T)
    requires forall k :: 0 <= k < |rows| ==> |rows[k]| != |header|
    decreases |rows|
    ensures StructuredRecords(header, rows, mapper) == []
  {
    if |rows| > 0 {
      var n := |rows| - 1;
      NoRowMatchesGivesNoRecords(header, rows[..n], mapper);
    }
  }

  /** Taking one more data line adds its record, if it structures, at the end. */
  lemma StructuredRecordsStep<T>(header: seq<string>, rows: seq<seq<string>>, i: nat, mapper: map<string, string> -> T)
    requires 1 <= i < |rows|
    ensures StructuredRecords(header, rows[1..i + 1], mapper)
            == StructuredRecords(header, rows[1..i], mapper) + RecordOf(header, rows[i], mapper)
  {
    var r := rows[1..i + 1];
    assert |r| == i;
    assert r[..i - 1] == rows[1..i];
    assert r[i - 1] == rows[i];
  }

  /**
   The closure of `importRecords(structure:recordMapper:)` over the field
   lists: the first one becomes the structure, each later one a record if it
   structures against it.
   */
  method StructureRecords<T>(calls: seq<seq<string>>, mapper: map<string, string> -> T)
    returns (structure: Option<seq<string>>, records: seq<T>)
    ensures structure.None? <==> |calls| == 0
    ensures structure.None? ==> records == []
    ensures structure.Some? ==> structure.value == calls[0] && records == StructuredRecords(calls[0], calls[1..], mapper)
  {
    structure := None;
    records := [];
    var i := 0;
    while i < |calls|
      invariant 0 <= i <= |calls|
      invariant structure.None? <==> i == 0
      invariant i == 0 ==> records == []
      invariant i > 0 ==> structure == Some(calls[0]) && records == StructuredRecords(calls[0], calls[1..i], mapper)
    {
      if structure.None? {
        structure := Some(calls[i]);
        assert calls[1..1] == [];
      } else {
        StructuredRecordsStep(calls[0], calls, i, mapper);
        var m := Structure(structure.value, calls[i]);
        if m.Some? {
          records := records + [mapper(m.value)];
        }
      }
      i := i + 1;
    }
    assert i > 0 ==> calls[1..i] == calls[1..];
  }

  /**
   `importRecords(structure:recordMapper:)`: the structure closure receives the
   fields of the first line, once, and that line never becomes a record; the
   later lines become records as far as they structure against it. There are
   at most as many records as lines after the first.
   */
  method ImportStructured<T>(imp: Importer, mapper: map<string, string> -> T)
    returns (structure: Option<seq<string>>, records: seq<T>)
    ensures structure.None? <==> |SourceLines(imp.source)| == 0
    ensures structure.Some? ==> structure.value == Splitter.ReadValuesInLine(SourceLines(imp.source)[0], imp.delimiter)
    ensures structure.None? ==> records == []
    ensures structure.Some? ==>
              records == StructuredRecords(structure.value, LineFields(SourceLines(imp.source), imp.delimiter)[1..], mapper)
    ensures structure.Some? ==> |records| <= |SourceLines(imp.source)| - 1
  {
    var calls, _ := ImportLines(imp);
    assert calls == LineFields(SourceLines(imp.source), imp.delimiter);
    structure, records := StructureRecords(calls, mapper);
  }
}
