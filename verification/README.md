# CSVImporter line pipeline in Dafny

This project models the line pipeline of CSVImporter, a Swift library that
imports CSV text from a file or a string. The modelled parts are:

- **Line-ending resolution.** The `LineEnding` enum has the raw values LF, CR,
  CRLF and the empty string. An `.unknown` ending is resolved by looking for
  CRLF first, then LF, then CR:
  - the string source looks in its whole content and may stay `.unknown`;
  - the file source looks in the decoded first 4096 bytes and falls back to LF.
- **Sources.** The string source splits its content once, at construction, on
  the resolved terminator. The file source resolves its ending and then hands
  out the lines of a `TextFileStreamReader`.
- **The chunked stream reader.** It keeps a byte buffer, an end-of-file flag
  and the reads the file handle still has to deliver. `nextLine` searches the
  whole buffer for the delimiter bytes and appends chunks until it finds them.
  At end of input it hands out a non-empty leftover once. The iterator stops at
  the first `nil`. The repository holds two copies of this reader
  (`Frameworks/CSVImporter/TextFileStreamReader.swift` and
  `Sources/Code/TextFile.swift`). Their `init?`, `nextLine` and iterator agree
  statement for statement, and one model (`StreamReader`) serves both.
- **`readValuesInLine`.** It splits a line into fields and undoes the quoting
  of section 2 of RFC 4180 (rules 5 to 7), with a delimiter string. The model
  has one function per step:
  1. collapse `d""d`;
  2. strip the edge `""`;
  3. protect `""` as U+001A;
  4. split;
  5. merge the pieces of a quoted field;
  6. remove quotes and restore the protected ones.

  The merge loop and the cleaning step are each modelled twice, as the
  source writes them and corrected (see Findings). The module
  `EscapedFields` follows a line written by the quoting rules of RFC 4180
  through every step.
- **The import driver.** `importLines` hands the fields of every line to a
  closure and reports whether any line was seen. `importRecords(mapper:)`
  maps every line. Header mode (`importRecords(structure:recordMapper:)`)
  takes the first line as the header and keys each later line by it.

Closures are modelled as pure functions. Their calls are modelled as the
sequence of arguments they receive. The file is a byte sequence, or missing. A
text encoding is a pair of partial functions: bytes to text and text to bytes.

A string and a file with the same content yield different lines when the
content ends with a terminator. The string source yields a final empty line
(`StringSource.TrailingTerminatorGivesEmptyLine`). The file source does not
(`FileSource.FinalTerminatorGivesNoEmptyLine`).

## Model

| member | source | states |
|---|---|---|
| `LineEndings.Raw` | Framework/Sources/CSVImporter.swift:13-18 | The raw value of an ending has at most two characters, and it is empty exactly for `.unknown`. |
| `LineEndings.Detect` | Frameworks/CSVImporter/StringSource.swift:17-23 | The detected ending is the highest-priority terminator present (CRLF, then LF, then CR). A detected ending occurs in the text. The result is `.unknown` exactly when the text has no CR and no LF. |
| `LineEndings.HighestPresentUnique` | Frameworks/CSVImporter/StringSource.swift:17-23 | Any ending that is the highest-priority one present is the one detection returns, so the CRLF-LF-CR order decides. |
| `LineEndings.OnlyCrlfSampleIsCrlf` | Sources/Code/FileSource.swift:39-45 | A sample whose every CR is followed by LF, and which has a CR, is detected as CRLF even though it also contains LF and CR. |
| `StringSource.CorrectedLineEnding` | Frameworks/CSVImporter/StringSource.swift:15-27 | An explicit ending is kept unchanged. `.unknown` becomes the highest-priority terminator present in the content, and stays `.unknown` when there is none. |
| `StringSource.Init` | Frameworks/CSVImporter/StringSource.swift:14-30 | There is at least one stored line. Joining the lines with the terminator gives back the content. No line contains a non-empty terminator. Without a terminator the whole content is the one line. |
| `StringSource.EmptyContentIsOneEmptyLine` | Frameworks/CSVImporter/StringSource.swift:29 | Empty content is stored as one empty line, whatever the ending. |
| `StringSource.TrailingTerminatorGivesEmptyLine` | Frameworks/CSVImporter/StringSource.swift:29 | `a` followed by LF is stored as the lines `a` and the empty line. |
| `FileSource.SniffedBytes` | Sources/Code/FileSource.swift:37 | The sniffing read is the first `min(4096, size)` bytes of the file. |
| `FileSource.LineEndingForFile` | Sources/Code/FileSource.swift:34-51 | The result is never `.unknown`. It is LF when the file is missing, when the first chunk does not decode or when that chunk has no terminator. Otherwise it is the highest-priority terminator in the decoded chunk. |
| `FileSource.ResolvedLineEnding` | Sources/Code/FileSource.swift:23-25 | The result is never `.unknown`. A given ending other than `.unknown` is kept. `.unknown` is replaced by the ending sniffed from the file (`LineEndingForFile`) before any line is read. |
| `FileSource.ForEach` | Sources/Code/FileSource.swift:22-28 | The closure gets nothing when the reader cannot be created. Otherwise it gets the file's lines on the encoded ending, decoded up to the first line that fails to decode. |
| `FileSource.SniffingSeesFirstChunkOnly` | Sources/Code/FileSource.swift:37 | Two files that agree on their first 4096 bytes get the same ending, so a terminator further on does not matter. |
| `FileSource.FinalTerminatorGivesNoEmptyLine` | Sources/Code/FileSource.swift:22-28 | A file holding `a` and LF yields only `a`, with no empty last line. |
| `FileSource.OpenedReaderLines` | Sources/Code/FileSource.swift:22-28 | A freshly opened reader yields the decoded lines of the whole file, split on the encoded ending, up to the first line that does not decode. |
| `StreamReader.Chunks` | Frameworks/CSVImporter/TextFileStreamReader.swift:58 | The reads of a regular file deliver its bytes in order, in non-empty pieces of at most the chunk size. |
| `StreamReader.Open` | Frameworks/CSVImporter/TextFileStreamReader.swift:30-43 | `init?` fails exactly when the file cannot be opened or the ending cannot be encoded. Otherwise the reader starts with the encoded delimiter, an empty buffer, not at end of file, with the file's bytes still to read. |
| `StreamReader.Search` | Frameworks/CSVImporter/TextFileStreamReader.swift:56 | A found index is the first occurrence of the delimiter. Not found means there is no occurrence or the delimiter is empty. |
| `StreamReader.NextLine` | Frameworks/CSVImporter/TextFileStreamReader.swift:52-87 | At end of file the answer is `nil` and the state is unchanged. The delimiter never changes, no call adds bytes to work through, and every line handed out shrinks the termination measure. |
| `StreamReader.NextLineReadsThenAnswers` | Sources/Code/TextFile.swift:89-122 | Every call before end of file reads some number of chunks. Each read before the last grows the buffer by exactly that chunk without completing a line. The call then either hands out the decoded bytes before the first delimiter and keeps what follows it, or meets an empty read: it sets the flag, empties the buffer, and hands out a non-empty leftover, or `nil` when there is none. |
| `StreamReader.DecodeUntilFailure` | Frameworks/CSVImporter/TextFileStreamReader.swift:96-103 | The lines yielded are the decodings of the first lines. The line after the last one yielded, if any, does not decode. |
| `StreamReader.LinesAreLinesOfRemainingContent` | Frameworks/CSVImporter/TextFileStreamReader.swift:56-101 | The iterator yields exactly the decoded pieces of everything still to read, split on the delimiter (a final delimiter adds no empty line), up to the first piece that does not decode. |
| `StreamReader.AtEofYieldsNothing` | Sources/Code/TextFile.swift:90 | Once at end of file, `nextLine` answers `nil` and the iterator yields nothing. |
| `StreamReader.ChunkingIsIrrelevant` | Sources/Code/TextFile.swift:93-110 | Two chunkings of the same bytes into non-empty reads yield the same lines. |
| `Seqs.ReplaceAllAbsent` | Framework/Sources/CSVImporter.swift:260 | Replacing a pattern that does not occur changes nothing. |
| `Seqs.ReplaceAllAtFirst` | Framework/Sources/CSVImporter.swift:270 | Replacement works left to right. An occurrence at the front is replaced and scanning resumes after it, so occurrences never overlap. |
| `Seqs.ReplaceAllAfterFirst` | Framework/Sources/CSVImporter.swift:270 | Without an occurrence at the front, the first element is kept and scanning resumes at the next one. |
| `Seqs.ReplaceAllLength` | Framework/Sources/CSVImporter.swift:260 | Replacing with something no longer never lengthens the text. Replacing with something shorter shortens it whenever the pattern occurs. |
| `Seqs.ReplaceAllUnchanged` | Framework/Sources/CSVImporter.swift:270 | Replacing with something shorter leaves the text unchanged exactly when the pattern does not occur. |
| `Seqs.SplitJoin` | Frameworks/CSVImporter/StringSource.swift:29 | Splitting a join of pieces that share no element with the separator gives back the pieces. |
| `Seqs.JoinSplit` | Frameworks/CSVImporter/StringSource.swift:29 | Joining the pieces of a split with the separator gives back the sequence. |
| `Splitter.PartShapes` | Framework/Sources/CSVImporter.swift:245-247 | The three patterns of the merge loop: a quote followed by quote-free text opens a quote, and quote-free text followed by a quote closes one, in both directions. Quote-free text matches neither, and only the lone quote matches both. |
| `Splitter.AffixMeaning` | Framework/Sources/CSVImporter.swift:262-266 | `hasPrefix` holds exactly when the text is the pattern followed by something, and `hasSuffix` exactly when it is something followed by the pattern. |
| `Splitter.CollapseFacts` | Framework/Sources/CSVImporter.swift:260 | Step 1 never lengthens the line. It changes the line exactly when the line holds delimiter, `""`, delimiter. |
| `Splitter.EdgeFacts` | Framework/Sources/CSVImporter.swift:262-268 | Step 2 strips in front only when the line starts with two quotes and the delimiter, and behind only when it ends with the delimiter and two quotes. |
| `Splitter.StripEdges` | Framework/Sources/CSVImporter.swift:262-268 | Stripping the edges never lengthens the line or adds a character. |
| `Splitter.ProtectFacts` | Framework/Sources/CSVImporter.swift:270 | Step 3 never lengthens the text. It changes the text exactly when the text holds `""`, and afterwards no `""` is left, so every remaining quote stands alone. |
| `Splitter.Pieces` | Framework/Sources/CSVImporter.swift:259-271 | A line always splits into at least one piece. |
| `Splitter.RemoveQuotes` | Framework/Sources/CSVImporter.swift:297 | No quote is left and no character is added. |
| `Splitter.RestoreQuotes` | Framework/Sources/CSVImporter.swift:298 | The text keeps its length, and exactly the substitutes become quotes. `EscapedFields.RestoreMarked` shows that this undoes the marking of a field's quotes. |
| `Splitter.Clean` | Framework/Sources/CSVImporter.swift:297-298 | No cleaned field keeps a substitute character. |
| `Splitter.CleanAll` | Framework/Sources/CSVImporter.swift:297-298 | The source's step 6 yields one field per piece, each piece cleaned on its own. |
| `Splitter.ReadField` | Framework/Sources/CSVImporter.swift:297-298 | The corrected step 6 for one field leaves no substitute. `EscapedFields.QuoteOnlyFieldReadsBack` shows that it reads a quoted field of escaped quotes back as those quotes. |
| `Splitter.ReadAll` | Framework/Sources/CSVImporter.swift:297-298 | The corrected step 6 yields one field per piece, each read on its own. |
| `Splitter.QuotedIsNoRun` | Framework/Sources/CSVImporter.swift:297-298 | A field holding a quote is not a run of substitutes, so the correction leaves it alone. |
| `Splitter.PlainIsNoRun` | Framework/Sources/CSVImporter.swift:297-298 | A field without substitutes is not a run of substitutes, so the correction leaves it alone. |
| `Splitter.ReadAllOfNonRuns` | Framework/Sources/CSVImporter.swift:297-298 | Without a field made only of substitutes, the corrected step 6 gives what the source's gives. |
| `Splitter.FirstNonMiddle` | Framework/Sources/CSVImporter.swift:280-283 | The inner loop absorbs exactly the quote-free pieces after the start piece, and stops at the first piece with a quote or at the end. |
| `Splitter.MergeAsWritten` | Framework/Sources/CSVImporter.swift:273-295 | The source's merge loop never yields more pieces than it was given. `None` stands for the out-of-range read. |
| `Splitter.Merge` | Framework/Sources/CSVImporter.swift:273-295 | The corrected merge loop never yields more pieces than it was given, and yields at least one when given any. |
| `Splitter.ReadValuesInLineAsWritten` | Framework/Sources/CSVImporter.swift:259-301 | When the source's version returns, it has no more fields than the line has pieces, and no field keeps a substitute. |
| `Splitter.ReadValuesInLine` | Framework/Sources/CSVImporter.swift:259-301 | There is at least one field, and never more fields than the line has pieces. No field keeps a substitute character. |
| `Splitter.NoQuotePairPassesThrough` | Framework/Sources/CSVImporter.swift:260-271 | A line without `""` reaches the split unchanged. |
| `Splitter.CleanPlain` | Framework/Sources/CSVImporter.swift:297-298 | A field without quotes and substitutes is left as it is. |
| `Splitter.CleanQuoted` | Framework/Sources/CSVImporter.swift:297-298 | A quote-free field between two quotes loses exactly those quotes. |
| `Splitter.CleanHalfQuoted` | Framework/Sources/CSVImporter.swift:297-298 | A quote-free field with one quote in front or behind loses that quote. |
| `Splitter.MergeSkipsQuoteFree` | Framework/Sources/CSVImporter.swift:274-277 | Both merge loops pass quote-free pieces through unchanged and go on with the rest. |
| `Splitter.MergeKeepsQuoteFree` | Framework/Sources/CSVImporter.swift:273-295 | Both merge loops leave a list of quote-free pieces as it is. |
| `Splitter.MergeSinglePiece` | Framework/Sources/CSVImporter.swift:274-277 | Both merge loops leave a single piece as it is: it is the last, so it is never a start piece. |
| `Splitter.MergeQuotedPieces` | Framework/Sources/CSVImporter.swift:277-289 | Both merge loops join the pieces of a quoted field with quote-free text back into that field, and leave the quote-free pieces behind it alone. |
| `Splitter.QuoteFreeLineIsPlainSplit` | Framework/Sources/CSVImporter.swift:271-298 | A line with neither `"` nor U+001A reads, in both versions, as its plain split on the delimiter. |
| `Splitter.PlainFieldsRoundTrip` | Framework/Sources/CSVImporter.swift:259-301 | Fields needing no quoting, joined with a usable delimiter, read back as the same fields in both versions. |
| `Splitter.MergePreservesJoin` | Framework/Sources/CSVImporter.swift:273-295 | The corrected merge loses no text: joining its result gives the same line as joining its input. |
| `Splitter.AsWrittenAgreesWhenSafe` | Framework/Sources/CSVImporter.swift:273-295 | When every start piece before the last has its quote closed, the source's loop returns and agrees with the corrected one. |
| `Splitter.AsWrittenLineAgreesWhenSafe` | Framework/Sources/CSVImporter.swift:259-301 | The same agreement holds for whole lines, when besides no field is made only of substitutes. |
| `EscapedFields.EscapeJoin` | Framework/Sources/CSVImporter.swift:270 | Escaping a joined field is joining the escaped pieces, when the delimiter has no quote. |
| `EscapedFields.ProtectEscapedFront` | Framework/Sources/CSVImporter.swift:270 | Step 3 on an escaped text marks exactly its quotes and goes on with what follows. |
| `EscapedFields.RestoreMarked` | Framework/Sources/CSVImporter.swift:298 | Turning substitutes back into quotes undoes the marking of a field without substitutes. |
| `EscapedFields.CleanQuotedMarked` | Framework/Sources/CSVImporter.swift:297-298 | The source's step 6 on a quoted, marked field gives back the field. |
| `EscapedFields.EscapedLineCollapse` | Framework/Sources/CSVImporter.swift:260 | Step 1 leaves an escaped line alone. |
| `EscapedFields.EscapedLineNoPrefix` | Framework/Sources/CSVImporter.swift:262-264 | An escaped line does not start with `""` and the delimiter. |
| `EscapedFields.EscapedLineNoSuffix` | Framework/Sources/CSVImporter.swift:266-268 | An escaped line does not end with the delimiter and `""`. |
| `EscapedFields.EscapedLineEdges` | Framework/Sources/CSVImporter.swift:262-268 | Step 2 leaves an escaped line alone. |
| `EscapedFields.EscapedLineProtect` | Framework/Sources/CSVImporter.swift:270 | Step 3 on an escaped line marks the quotes of the escaped field and touches nothing else. |
| `EscapedFields.EscapedLinePieces` | Framework/Sources/CSVImporter.swift:259-271 | Steps 1 to 4 cut an escaped line into the other fields and the pieces of the quoted, marked field. |
| `EscapedFields.EscapedLineMerge` | Framework/Sources/CSVImporter.swift:273-295 | Both merge loops join the pieces of the escaped field back into one quoted field. |
| `EscapedFields.EscapedLineClean` | Framework/Sources/CSVImporter.swift:297-298 | Both versions of step 6 then give the fields back. |
| `EscapedFields.EscapedFieldReadsBack` | Framework/Sources/CSVImporter.swift:259-301 | A field written by RFC 4180 rules 6 and 7 (between quotes, each inner quote doubled), among fields that need no quoting, reads back as the field in both versions, delimiters and quotes included. The exclusions are listed under Left out. |
| `EscapedFields.QuotedFieldKeepsDelimiters` | Framework/Sources/CSVImporter.swift:277-289 | A quoted field holding delimiters but no quote, between plain fields, reads back as one field with its delimiters, in both versions. |
| `EscapedFields.ProtectQuotes` | Framework/Sources/CSVImporter.swift:270 | Step 3 turns an even run of quotes into half as many substitutes. |
| `EscapedFields.QuoteOnlyFieldMerged` | Framework/Sources/CSVImporter.swift:260-295 | A quoted field of `q` escaped quotes becomes one piece of `q + 1` substitutes, which both merge loops keep. |
| `EscapedFields.CleanSubstitutes` | Framework/Sources/CSVImporter.swift:297-298 | The source's step 6 turns a run of substitutes into as many quotes. |
| `EscapedFields.QuoteOnlyFieldAsWritten` | Framework/Sources/CSVImporter.swift:270-298 | The source reads a quoted field of `q` escaped quotes as `q + 1` quotes. |
| `EscapedFields.QuoteOnlyFieldReadsBack` | Framework/Sources/CSVImporter.swift:297-298 | The corrected step 6 reads a quoted field of `q` escaped quotes back as `q` quotes. |
| `SplitterExamples.UnclosedQuoteTraps` | Framework/Sources/CSVImporter.swift:280 | On `"a,b` the source's loop reads past the pieces. The corrected loop reads `[a, b]`. |
| `SplitterExamples.AsWrittenDropsMiddlePiece` | Framework/Sources/CSVImporter.swift:282-291 | On `"a,b,"c` the source's loop reads `[a, c]`: the absorbed `b` is lost. |
| `SplitterExamples.MergeKeepsMiddlePiece` | Framework/Sources/CSVImporter.swift:273-295 | On `"a,b,"c` the corrected loop reads `[a, b, c]`. |
| `SplitterExamples.QuotedDelimiterKept` | Framework/Sources/CSVImporter.swift:277-289 | `a,"b,c",d` reads as `[a, b,c, d]` in both versions. |
| `SplitterExamples.LeadingQuoteFieldSplits` | Framework/Sources/CSVImporter.swift:270-298 | `"""a,b"`, the field `"a,b` as a writer quotes it, reads as the two fields `"a` and `b` in both versions: step 3 pairs the opening quote with the field's first quote, so no piece opens a quote. |
| `SplitterExamples.EscapedDelimiterAndQuote` | Framework/Sources/CSVImporter.swift:270-298 | `"a,""b",c` reads as `[a,"b, c]` in both versions. |
| `SplitterExamples.QuotedEmptyBetweenDelimiters` | Framework/Sources/CSVImporter.swift:260 | `,"",` reads as three empty fields. |
| `SplitterExamples.QuotedEmptyInnerField` | Framework/Sources/CSVImporter.swift:260 | `a,"",b` reads as `[a, , b]`. |
| `SplitterExamples.QuotedEmptyFirstField` | Framework/Sources/CSVImporter.swift:262-264 | `"",a` loses its first two characters and reads as `[, a]`. |
| `SplitterExamples.QuotedEmptyLastField` | Framework/Sources/CSVImporter.swift:266-268 | `a,""` loses its last two characters and reads as `[a, ]`. |
| `SplitterExamples.QuotedEmptyRunCollapsesOnce` | Framework/Sources/CSVImporter.swift:260-298 | Collapsing does not overlap. In `a,"","",b` only the first `,"",` is collapsed. The source reads the line as `[a, , ", b]`, the corrected step 6 as `[a, , , b]`. |
| `SplitterExamples.QuotedEmptyLine` | Framework/Sources/CSVImporter.swift:262-298 | The line `""` reads as one quote in the source and as the empty field when corrected. |
| `SplitterExamples.QuoteOnlyFieldReadsDoubled` | Framework/Sources/CSVImporter.swift:262-298 | The one-field line `""""` reads as two quotes in the source: the leading `""` is not stripped (no delimiter follows it), and each `""` becomes one quote. Corrected, it reads as one quote. |
| `SplitterExamples.LoneQuoteBetweenDelimitersLost` | Framework/Sources/CSVImporter.swift:260 | The writer's line `"x,"",y"` for the field `x,",y` reads as `x,,y` in both versions: step 1 collapses the escaped quote with the delimiters around it. |
| `SplitterExamples.MultiCharacterDelimiterField` | Framework/Sources/CSVImporter.swift:260-298 | Under the delimiter `;;`, the line `"a;b"` reads as the one field `a;b` in both versions, a case outside the escaped-field round trip because the field holds a character of the delimiter. |
| `SplitterExamples.EscapedQuoteExample` | Framework/Sources/CSVImporter.swift:270-298 | `"x""y"` reads as `x"y` in both versions. |
| `Importer.FromContentString` | Framework/Sources/CSVImporter.swift:105-109 | An importer over a string has at least one line. Its lines, joined with the corrected terminator, give back the content. |
| `Importer.FromPath` | Framework/Sources/CSVImporter.swift:72-77 | An importer over a missing file, or over an ending the encoding cannot express, has no lines. Otherwise its lines are exactly the file's lines on the encoded ending, decoded up to the first line that does not decode. |
| `Importer.ImportLinesOf` | Framework/Sources/CSVImporter.swift:231-241 | The loop hands over the fields of every line, once and in order, and its flag is set exactly when there was a line. |
| `Importer.ImportLines` | Framework/Sources/CSVImporter.swift:230-242 | The closure gets the fields of every source line, once and in order. The result is true exactly when the source yielded a line. |
| `Importer.LineFieldsAsWritten` | Framework/Sources/CSVImporter.swift:230-242 | With the source's splitter there are field lists exactly when no line traps, one per line and in order. |
| `Importer.AsWrittenImportAgreesWhenSafe` | Framework/Sources/CSVImporter.swift:230-242 | On lines the source's splitter reads as the corrected one does, the source's import gives the modelled field lists. |
| `Importer.ContentStringHasALine` | Framework/Sources/CSVImporter.swift:230-242 | An import from a string never reports failure. |
| `Importer.MapRecords` | Framework/Sources/CSVImporter.swift:187-190 | The mapper closure gives one record per field list, in order. |
| `Importer.ImportRecords` | Framework/Sources/CSVImporter.swift:184-193 | There is one record per source line, in order: the mapper applied to that line's fields. |
| `Importer.Zip` | Framework/Sources/CSVImporter.swift:213 | The dictionary's keys are exactly the header's names. |
| `Importer.Structure` | Framework/Sources/CSVImporter.swift:213 | No dictionary when the header and the line differ in length. Otherwise the keys are exactly the header's names. |
| `Importer.ZipLastWins` | Framework/Sources/CSVImporter.swift:213 | A name maps to the value at its last position in the header, so a later duplicate overwrites an earlier one. |
| `Importer.ZipDistinctSize` | Framework/Sources/CSVImporter.swift:213 | A header without duplicates gives one entry per name. |
| `Importer.StructureOfDistinctHeader` | Framework/Sources/CSVImporter.swift:213-215 | For a header without duplicates and a line of its length there is a dictionary with one entry per name, each holding the value at that name's position. |
| `Importer.StructuredRecords` | Framework/Sources/CSVImporter.swift:207-219 | There are never more records than data lines. |
| `Importer.StructuredRecordsAppend` | Framework/Sources/CSVImporter.swift:207-219 | The records of two runs of data lines are the records of each run, one after the other. Each line is handled on its own, in order. |
| `Importer.AllRowsMatchGiveAllRecords` | Framework/Sources/CSVImporter.swift:213-215 | When every data line has the header's length, every data line becomes a record, in order. |
| `Importer.NoRowMatchesGivesNoRecords` | Framework/Sources/CSVImporter.swift:216-218 | When no data line has the header's length, there is no record. |
| `Importer.StructureRecords` | Framework/Sources/CSVImporter.swift:207-219 | The closure takes the first field list as the structure, exactly when there is one. Each later list adds its record when it structures against that structure. |
| `Importer.ImportStructured` | Framework/Sources/CSVImporter.swift:202-223 | The structure closure gets the first line's fields, exactly when there is a line, and that line never becomes a record. The records are those of the later lines that structure against it. There are at most as many records as lines after the first. |
| `ImporterExamples.HeaderScenario` | Framework/Sources/CSVImporter.swift:202-223 | The string `id,name`, LF, `1,Alice` gives the header `[id, name]` and the one record `{id: 1, name: Alice}`. |
| `ImporterExamples.ShortLineIsSkipped` | Framework/Sources/CSVImporter.swift:213-218 | A data line shorter than the header is skipped, and the next line still becomes a record. |
| `ImporterExamples.DuplicateHeaderLaterWins` | Framework/Sources/CSVImporter.swift:213 | With the header `[k, k]` and the line `[1, 2]` the dictionary is `{k: 2}`. |
| `ImporterExamples.UnclosedQuoteStopsImport` | Framework/Sources/CSVImporter.swift:230-242 | For the lines `x` and `"a,b`, the source's import traps on the second line, and the modelled one reads it as `[a, b]`. |

## Left out

- Dispatch queues and quality-of-service classes are not modelled. Neither are `startImportingRecords` and the `onFail`/`onProgress`/`onFinish` callbacks (Framework/Sources/CSVImporter.swift:117-175, 303-358). They only schedule the line-level work modelled here.
- Progress reporting and its 100 ms throttle are not modelled, because they depend on the wall clock.
- The initializer from a URL is not modelled. It only checks `isFileURL` and forwards to the path initializer.
- `[String: String](keys:values:)` comes from a dependency (HandySwift) that is not part of this model. `Importer.Structure` assumes it: no dictionary on a length mismatch, keys inserted in order so that later duplicates overwrite.
- Text encodings are parameters: a partial decoding function and a partial encoding function. Their real behaviour, and `NSString`'s handling of the bytes, are not modelled.
- The three regular expressions are modelled as predicates over characters.
- Text is modelled one character per code unit. This leaves out the mismatch at Framework/Sources/CSVImporter.swift:267, which counts UTF-16 code units where it offsets by characters. It also leaves out Swift's grapheme-cluster `Character`s, so a delimiter is matched as a plain character sequence.
- `NSMutableData(capacity:)` in `init?` is assumed to succeed.
- A read error of the file handle is modelled only as what the reader sees: an empty read.
- The warning printed for an unclosed quote or an unstructurable line is not modelled.
- Closures are pure functions. Side effects inside the caller's mapper or structure closure are not modelled.
- The draft importer under `Sources/Code`, the commented-out `File.swift`, the playground, the package manifest, the `Source` protocol files and the `TextFile` factory are not part of this model. The chunk size is the constant 4096.
- `Splitter.StripEdges`: its contract states only that no character is added. What it strips is shown on concrete lines by `SplitterExamples.QuotedEmptyFirstField` and `SplitterExamples.QuotedEmptyLastField`.
- `Importer.ImportLines`, `Importer.ImportRecords`, `Importer.ImportStructured`: they are built on the corrected splitter. They do not promise the source's trap on a line with an unclosed quote (`"a,b`), its loss of a piece (`"a,b,"c` reads as `[a, c]`) or its extra quote in a quoted field of escaped quotes. `Importer.LineFieldsAsWritten` models the source's field lists, and `Importer.AsWrittenImportAgreesWhenSafe` ties the two on lines where the splitters agree.
- `EscapedFields.EscapedFieldReadsBack`: the round trip is not promised in the following cases. The field must not start with a quote: step 3 would pair its opening quote with the field's first quote. So `"""a,b"` reads as the two fields `"a` and `b` in both versions (`SplitterExamples.LeadingQuoteFieldSplits`), and this is kept as written. The field must not hold delimiter, quote, delimiter: a writer escapes it as delimiter, `""`, delimiter, which step 1 collapses, so `"x,"",y"` (the field `x,",y`) reads as `x,,y` in both versions (`SplitterExamples.LoneQuoteBetweenDelimitersLost`). The field must not be empty: the source reads `""` as one quote (Findings row 3). No piece of the field may hold U+001A. The field is cut into pieces at its delimiters, and no piece may hold any character of the delimiter. With a one-character delimiter this excludes nothing. With a delimiter of several characters it leaves out fields the source reads back correctly: `"a;b"` with the delimiter `;;` reads as `a;b` in both versions, but the piece `a;b` holds `;` (`SplitterExamples.MultiCharacterDelimiterField`). The delimiter must be non-empty and hold no quote and no U+001A.
- `Splitter.ReadField`: a field made only of U+001A characters in the input is indistinguishable from one made by step 3, so the correction also reads it as one quote fewer.
- `Importer.StructuredRecords`: its contract bounds only the number of records. Which records it holds is stated by `Importer.StructuredRecordsAppend`, `Importer.AllRowsMatchGiveAllRecords` and `Importer.NoRowMatchesGivesNoRecords`.

## Findings

| source | as written | input that shows it | evidently intended | confidence | as-written member | corrected member |
|---|---|---|---|---|---|---|
| Framework/Sources/CSVImporter.swift:280 | After a start piece, the inner loop reads `components[index + 1]` without checking that it exists. When only quote-free pieces follow up to the end of the line, it reads past the end of the array and traps. | the line `"a,b` with delimiter `,` | stop at the last piece and keep the pieces of the unclosed quote, as the warning branch means to | not executed | `SplitterExamples.UnclosedQuoteTraps` | `Splitter.Merge` |
| Framework/Sources/CSVImporter.swift:282-291 | The quote-free pieces are removed from `components` as they are absorbed. When the next piece does not close the quote, only a warning is printed and the absorbed pieces are lost. | the line `"a,b,"c` with delimiter `,` reads as `[a, c]` | keep every piece, reading `[a, b, c]` | not executed | `SplitterExamples.AsWrittenDropsMiddlePiece` | `Splitter.MergePreservesJoin` |
| Framework/Sources/CSVImporter.swift:270-298 | Step 3 replaces `""` left to right, so in a quoted field made only of escaped quotes the field's own opening and closing quotes are taken as one more escaped quote. A field of `q` quotes, written as `2q + 2` quotes, reads as `q + 1` quotes. | the line `""` reads as `["]`, and `""""` as `[""]` | read the field back as its `q` quotes: `""` as the empty field | not executed | `EscapedFields.QuoteOnlyFieldAsWritten` | `EscapedFields.QuoteOnlyFieldReadsBack` |

The corrected loop and the corrected step 6 are the ones `Splitter.ReadValuesInLine`
and the importer use. `Splitter.AsWrittenAgreesWhenSafe` shows the two loops
agree whenever every quote that is opened is closed. `Splitter.ReadAllOfNonRuns`
shows the two versions of step 6 agree on every field that is not made only of
substitutes.
