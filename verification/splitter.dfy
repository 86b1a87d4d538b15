/**
 `readValuesInLine`: splits one line into its field values, undoing the quoting
 of section 2 of RFC 4180 (rules 5 to 7) with a configurable delimiter string.

 The line goes through these steps, each a function below:
 1. every delimiter, `""`, delimiter is collapsed to two delimiters;
 2. a leading `""` plus delimiter loses its `""`, then a trailing delimiter
    plus `""` loses its `""`;
 3. every remaining `""` is protected as the substitute character U+001A;
 4. the line is split on the delimiter;
 5. a piece that opens a quote is merged with the quote-free pieces after it and
    the piece that closes the quote, re-joined with the delimiter;
 6. every `"` is removed and every substitute turned back into `"`.

 Text is modelled one character per code unit, and the three regular
 expressions of the merge step as the predicates `IsStartPart`, `IsMiddlePart`
 and `IsEndPart`.

 Step 5 is modelled twice. `MergeAsWritten` follows the source's loop, which
 reads past the end of the pieces when an opening quote is never closed (a
 trap, `None` here) and which drops the quote-free pieces it has absorbed when
 the next piece does not close the quote. `Merge` is the corrected loop, which
 stops at the end of the pieces and leaves an unclosed quote's pieces where
 they are.

 Step 6 is modelled twice too. `CleanAll` is the source's. It reads a quoted
 field made only of escaped quotes with one quote too many, because step 3
 pairs the field's own opening and closing quotes as one more escaped quote:
 `""` reads as one quote. `ReadAll` is the corrected step, which reads a field
 of substitutes only as one quote fewer. `ReadValuesInLine` is built on the
 corrected steps 5 and 6, `ReadValuesInLineAsWritten` on the source's.
 */
module Splitter {
  import opened Wrappers
  import opened Seqs

  /** The quote character. */
  const Quote: char := '"'

  /** The character that protects an escaped quote while the line is split. */
  const Substitute: char := '\U{1A}'

  /** An escaped quote: two quote characters. */
  const QuotePair: string := [Quote, Quote]

  /** `\A"[^"]*\z`: opens a quote and holds no other quote. */
  predicate IsStartPart(p: string) {
    |p| >= 1 && p[0] == Quote && Quote !in p[1..]
  }

  /** `\A[^"]*\z`: holds no quote at all (the empty piece included). */
  predicate IsMiddlePart(p: string) {
    Quote !in p
  }

  /** `\A[^"]*"\z`: closes a quote and holds no other quote. */
  predicate IsEndPart(p: string) {
    |p| >= 1 && p[|p| - 1] == Quote && Quote !in p[..|p| - 1]
  }

  /** Swift's `hasPrefix`: the text starts with the pattern. */
  predicate HasPrefix(s: string, p: string) {
    |p| <= |s| && s[..|p|] == p
  }

  /** Swift's `hasSuffix`: the text ends with the pattern. */
  predicate HasSuffix(s: string, p: string) {
    |p| <= |s| && s[|s| - |p|..] == p
  }

  /** `hasPrefix` and `hasSuffix`: the text is the pattern followed, or preceded, by something. */
  lemma AffixMeaning(s: string, p: string)
    ensures HasPrefix(s, p) <==> exists t :: s == p + t
    ensures HasSuffix(s, p) <==> exists t :: s == t + p
  {
    if HasPrefix(s, p) {
      assert s == p + s[|p|..];
    }
    if HasSuffix(s, p) {
      assert s == s[..|s| - |p|] + p;
    }
    forall t | s == p + t
      ensures HasPrefix(s, p)
    {
      assert s[..|p|] == p;
    }
    forall t | s == t + p
      ensures HasSuffix(s, p)
    {
      assert s[|s| - |p|..] == p;
    }
  }

  /**
   What the three patterns of the merge loop match: a quote followed by
   quote-free text opens a quote, quote-free text followed by a quote closes
   one, quote-free text matches neither, and only the lone quote matches both.
   */
  lemma PartShapes(t: string)
    ensures IsStartPart([Quote] + t) <==> Quote !in t
    ensures IsEndPart(t + [Quote]) <==> Quote !in t
    ensures IsMiddlePart(t) ==> !IsStartPart(t) && !IsEndPart(t)
    ensures IsStartPart(t) && IsEndPart(t) <==> t == [Quote]
  {
    assert ([Quote] + t)[1..] == t;
    assert (t + [Quote])[..|t|] == t;
    if IsMiddlePart(t) && |t| > 0 {
      assert t[0] in t && t[|t| - 1] in t;
    }
  }

  /** Step 1: delimiter, `""`, delimiter becomes two delimiters, left to right. */
  function CollapseQuotedEmpty(line: string, d: string): string {
    ReplaceAll(line, d + QuotePair + d, d + d)
  }

  /** Step 2: drops the `""` of a leading `""`-delimiter, then of a trailing delimiter-`""`. */
  function StripEdges(s: string, d: string): (r: string)
    ensures |r| <= |s|
    ensures forall c :: c in r ==> c in s
  {
    var front := if HasPrefix(s, QuotePair + d) then s[2..] else s;
    if HasSuffix(front, d + QuotePair) then front[..|front| - 2] else front
  }

  /** Step 3: each `""`, taken left to right, becomes one substitute character. */
  function Protect(s: string): string {
    ReplaceAll(s, QuotePair, [Substitute])
  }

  /** Step 1 never lengthens the line, and changes it exactly when it holds delimiter, `""`, delimiter. */
  lemma CollapseFacts(line: string, d: string)
    ensures |CollapseQuotedEmpty(line, d)| <= |line|
    ensures CollapseQuotedEmpty(line, d) == line <==> !Occurs(line, d + QuotePair + d)
  {
    ReplaceAllUnchanged(line, d + QuotePair + d, d + d);
    ReplaceAllLength(line, d + QuotePair + d, d + d);
  }

  /**
   Step 3 never lengthens the text, changes it exactly when it holds a `""`,
   and leaves no `""` behind: every remaining quote stands alone.
   */
  lemma ProtectFacts(s: string)
    ensures |Protect(s)| <= |s|
    ensures Protect(s) == s <==> !Occurs(s, QuotePair)
    ensures !Occurs(Protect(s), QuotePair)
  {
    ReplaceAllUnchanged(s, QuotePair, [Substitute]);
    ReplaceAllLength(s, QuotePair, [Substitute]);
    SplitPiecesAvoidSeparator(s, QuotePair);
    JoinNotOccurs(Split(s, QuotePair), [Substitute], QuotePair);
  }

  /** Steps 1 to 4: the pieces the line is split into. */
  function Pieces(line: string, d: string): (ps: seq<string>)
    ensures |ps| >= 1
  {
    Split(Protect(StripEdges(CollapseQuotedEmpty(line, d), d)), d)
  }

  /** Removes every quote character. */
  function RemoveQuotes(s: string): (r: string)
    decreases |s|
    ensures Quote !in r
    ensures forall c :: c in r ==> c in s
  {
    if |s| == 0 then []
    else (if s[0] == Quote then [] else [s[0]]) + RemoveQuotes(s[1..])
  }

  /** Turns every substitute character back into a quote. */
  function RestoreQuotes(s: string): (r: string)
    ensures |r| == |s|
    ensures forall k :: 0 <= k < |s| ==> r[k] == (if s[k] == Substitute then Quote else s[k])
  {
    seq(|s|, k requires 0 <= k < |s| => if s[k] == Substitute then Quote else s[k])
  }

  /** Step 6 for one field. */
  function Clean(p: string): (r: string)
    ensures Substitute !in r
  {
    RestoreQuotes(RemoveQuotes(p))
  }

  /** Step 6 for all fields. */
  function CleanAll(ps: seq<string>): (r: seq<string>)
    ensures |r| == |ps|
    ensures forall k :: 0 <= k < |ps| ==> r[k] == Clean(ps[k])
  {
    seq(|ps|, k requires 0 <= k < |ps| => Clean(ps[k]))
  }

  /** `n` copies of `x`. */
  function Repeat(x: char, n: nat): (r: string)
    ensures |r| == n
    ensures forall k :: 0 <= k < n ==> r[k] == x
  {
    seq(n, k => x)
  }

  /** A non-empty field made of substitute characters only. */
  predicate IsSubstituteRun(p: string) {
    |p| > 0 && forall k :: 0 <= k < |p| ==> p[k] == Substitute
  }

  /**
   Step 6 for one field, corrected. A field of substitutes only was a quoted
   field of escaped quotes whose own opening and closing quotes step 3 took for
   one more escaped quote, so it stands for one quote fewer than it holds; any
   other field is cleaned as the source cleans it.
   */
  function ReadField(p: string): (r: string)
    ensures Substitute !in r
  {
    if IsSubstituteRun(p) then Repeat(Quote, |p| - 1) else Clean(p)
  }

  /** The corrected step 6 for all fields. */
  function ReadAll(ps: seq<string>): (r: seq<string>)
    ensures |r| == |ps|
    ensures forall k :: 0 <= k < |ps| ==> r[k] == ReadField(ps[k])
  {
    seq(|ps|, k requires 0 <= k < |ps| => ReadField(ps[k]))
  }

  /** The first index at or after `i` whose piece is not quote-free, or `|cs|`. */
  function FirstNonMiddle(cs: seq<string>, i: nat): (j: nat)
    requires i <= |cs|
    decreases |cs| - i
    ensures i <= j <= |cs|
    ensures forall k :: i <= k < j ==> IsMiddlePart(cs[k])
    ensures j < |cs| ==> !IsMiddlePart(cs[j])
  {
    if i == |cs| || !IsMiddlePart(cs[i]) then i else FirstNonMiddle(cs, i + 1)
  }

  /**
   The merge loop as the source writes it, over the pieces not yet visited. A
   start piece that is not the last absorbs the quote-free pieces after it;
   reaching the end of the pieces that way indexes past the end of the array,
   a trap (`None`). If the next piece closes the quote, all of them become one
   piece joined with the delimiter; otherwise a warning is printed, the start
   piece stays as it is, and the absorbed pieces are gone.
   */
  function MergeAsWritten(cs: seq<string>, d: string): (r: Option<seq<string>>)
    decreases |cs|
    ensures r.Some? ==> |r.value| <= |cs|
  {
    if |cs| == 0 then Some([])
    else if |cs| >= 2 && IsStartPart(cs[0]) then
      var j := FirstNonMiddle(cs, 1);
      if j == |cs| then None
      else if IsEndPart(cs[j]) then
        match MergeAsWritten(cs[j + 1..], d)
        case None => None
        case Some(rest) => Some([Join(cs[..j + 1], d)] + rest)
      else
        match MergeAsWritten(cs[j..], d)
        case None => None
        case Some(rest) => Some([cs[0]] + rest)
    else
      match MergeAsWritten(cs[1..], d)
      case None => None
      case Some(rest) => Some([cs[0]] + rest)
  }

  /** A start piece that is not the last, whose quote is closed by a later piece after only quote-free ones. */
  predicate OpensClosedQuote(cs: seq<string>) {
    && |cs| >= 2 && IsStartPart(cs[0])
    && FirstNonMiddle(cs, 1) < |cs| && IsEndPart(cs[FirstNonMiddle(cs, 1)])
  }

  /**
   The corrected merge loop: it stops at the end of the pieces, and a quote that
   is not closed leaves every piece in place (only the warning is printed).
   */
  function Merge(cs: seq<string>, d: string): (r: seq<string>)
    decreases |cs|
    ensures |r| <= |cs|
    ensures |cs| > 0 ==> |r| > 0
  {
    if |cs| == 0 then []
    else if OpensClosedQuote(cs) then
      var j := FirstNonMiddle(cs, 1);
      [Join(cs[..j + 1], d)] + Merge(cs[j + 1..], d)
    else
      [cs[0]] + Merge(cs[1..], d)
  }

  /** `readValuesInLine` as the source writes it; `None` where the source traps. */
  function ReadValuesInLineAsWritten(line: string, d: string): (r: Option<seq<string>>)
    ensures r.Some? ==> |r.value| <= |Pieces(line, d)|
    ensures r.Some? ==> forall k :: 0 <= k < |r.value| ==> Substitute !in r.value[k]
  {
    match MergeAsWritten(Pieces(line, d), d)
    case None => None
    case Some(merged) => Some(CleanAll(merged))
  }

  /**
   `readValuesInLine` on the corrected merge loop and the corrected step 6:
   never fails, yields at least one field and never more fields than the line
   has pieces, and no field keeps a substitute character.
   */
  function ReadValuesInLine(line: string, d: string): (r: seq<string>)
    ensures 1 <= |r| <= |Pieces(line, d)|
    ensures forall k :: 0 <= k < |r| ==> Substitute !in r[k]
  {
    ReadAll(Merge(Pieces(line, d), d))
  }

  /** A field holding a quote is no run of substitutes. */
  lemma QuotedIsNoRun(p: string)
    requires Quote in p
    ensures !IsSubstituteRun(p)
  {
  }

  /** A field without substitutes is no run of substitutes. */
  lemma PlainIsNoRun(p: string)
    requires Substitute !in p
    ensures !IsSubstituteRun(p)
  {
    if |p| > 0 {
      assert p[0] in p;
    }
  }

  /** Without runs of substitutes the corrected step 6 is the source's. */
  lemma ReadAllOfNonRuns(ps: seq<string>)
    requires forall k :: 0 <= k < |ps| ==> !IsSubstituteRun(ps[k])
    ensures ReadAll(ps) == CleanAll(ps)
  {
  }

  /** A field that needs no quoting: no quote, no substitute, no element of the delimiter. */
  predicate PlainField(f: string, d: string) {
    Quote !in f && Substitute !in f && Avoids(f, d)
  }

  /** A delimiter the splitter can work with: non-empty, without quote or substitute. */
  predicate UsableDelimiter(d: string) {
    |d| > 0 && Quote !in d && Substitute !in d
  }

  /** A line without an escaped quote passes steps 1 to 3 unchanged. */
  lemma NoQuotePairPassesThrough(line: string, d: string)
    requires !Occurs(line, QuotePair)
    ensures Pieces(line, d) == Split(line, d)
  {
    OccursInfix(line, d, QuotePair, d);
    ReplaceAllAbsent(line, d + QuotePair + d, d + d);
    PrefixOccurs(line, QuotePair, d);
    SuffixOccurs(line, d, QuotePair);
    ReplaceAllAbsent(line, QuotePair, [Substitute]);
  }

  /** Removing quotes distributes over concatenation. */
  lemma {:induction false} RemoveQuotesConcat(a: string, b: string)
    ensures RemoveQuotes(a + b) == RemoveQuotes(a) + RemoveQuotes(b)
    decreases |a|
  {
    if |a| > 0 {
      assert (a + b)[0] == a[0];
      assert (a + b)[1..] == a[1..] + b;
      RemoveQuotesConcat(a[1..], b);
    } else {
      assert a + b == b;
    }
  }

  /** Text without quotes loses nothing to quote removal. */
  lemma {:induction false} RemoveQuotesOfQuoteFree(s: string)
    requires Quote !in s
    ensures RemoveQuotes(s) == s
    decreases |s|
  {
    if |s| > 0 {
      RemoveQuotesOfQuoteFree(s[1..]);
    }
  }

  /** Text without quote and substitute is left alone by step 6. */
  lemma CleanPlain(p: string)
    requires Quote !in p && Substitute !in p
    ensures Clean(p) == p
  {
    RemoveQuotesOfQuoteFree(p);
  }

  /** Quote removal takes the surrounding quotes off a quote-free text. */
  lemma RemoveQuotesOfQuoted(f: string)
    requires Quote !in f
    ensures RemoveQuotes([Quote] + f + [Quote]) == f
  {
    assert RemoveQuotes([Quote]) == [] by {
      assert [Quote][1..] == [];
    }
    RemoveQuotesConcat([Quote] + f, [Quote]);
    RemoveQuotesConcat([Quote], f);
    RemoveQuotesOfQuoteFree(f);
    assert [] + f + [] == f;
  }

  /** Step 6 takes the surrounding quotes off a quoted text without quote and substitute. */
  lemma CleanQuoted(f: string)
    requires Quote !in f && Substitute !in f
    ensures Clean([Quote] + f + [Quote]) == f
  {
    RemoveQuotesOfQuoted(f);
    CleanPlain(f);
    RemoveQuotesOfQuoteFree(f);
  }

  /** Step 6 takes an opening or a closing quote off a text without quote and substitute. */
  lemma CleanHalfQuoted(f: string)
    requires Quote !in f && Substitute !in f
    ensures Clean([Quote] + f) == f
    ensures Clean(f + [Quote]) == f
  {
    RemoveQuotesConcat([Quote], f);
    RemoveQuotesConcat(f, [Quote]);
    RemoveQuotesOfQuoteFree(f);
    assert RemoveQuotes([Quote]) == [];
  }

  /** A quote-free piece does not open a quote, so both merge loops pass it on. */
  lemma QuoteFreeHeadStep(cs: seq<string>, d: string)
    requires |cs| > 0 && IsMiddlePart(cs[0])
    ensures Merge(cs, d) == [cs[0]] + Merge(cs[1..], d)
    ensures MergeAsWritten(cs[1..], d).None? ==> MergeAsWritten(cs, d).None?
    ensures MergeAsWritten(cs[1..], d).Some? ==> MergeAsWritten(cs, d) == Some([cs[0]] + MergeAsWritten(cs[1..], d).value)
  {
    if |cs[0]| > 0 {
      assert cs[0][0] in cs[0];
    }
    assert !IsStartPart(cs[0]);
  }

  /** Quote-free pieces in front are passed through by the corrected merge loop. */
  lemma {:induction false} MergeSkipsQuoteFreeCorrected(xs: seq<string>, ys: seq<string>, d: string)
    requires forall k :: 0 <= k < |xs| ==> IsMiddlePart(xs[k])
    ensures Merge(xs + ys, d) == xs + Merge(ys, d)
    decreases |xs|
  {
    if |xs| > 0 {
      var cs := xs + ys;
      assert cs[0] == xs[0] && cs[1..] == xs[1..] + ys;
      QuoteFreeHeadStep(cs, d);
      MergeSkipsQuoteFreeCorrected(xs[1..], ys, d);
      ConcatAssoc([xs[0]], xs[1..], Merge(ys, d));
      assert [xs[0]] + xs[1..] == xs;
    } else {
      assert xs + ys == ys;
    }
  }

  /** Quote-free pieces in front are passed through by the source's merge loop. */
  lemma {:induction false} MergeSkipsQuoteFreeAsWritten(xs: seq<string>, ys: seq<string>, d: string)
    requires forall k :: 0 <= k < |xs| ==> IsMiddlePart(xs[k])
    ensures MergeAsWritten(ys, d).None? ==> MergeAsWritten(xs + ys, d).None?
    ensures MergeAsWritten(ys, d).Some? ==> MergeAsWritten(xs + ys, d) == Some(xs + MergeAsWritten(ys, d).value)
    decreases |xs|
  {
    if |xs| > 0 {
      var cs := xs + ys;
      assert cs[0] == xs[0] && cs[1..] == xs[1..] + ys;
      QuoteFreeHeadStep(cs, d);
      MergeSkipsQuoteFreeAsWritten(xs[1..], ys, d);
      var w := MergeAsWritten(ys, d);
      if w.Some? {
        ConcatAssoc([xs[0]], xs[1..], w.value);
        assert [xs[0]] + xs[1..] == xs;
      }
    } else {
      assert xs + ys == ys;
      var w := MergeAsWritten(ys, d);
      if w.Some? {
        assert xs + w.value == w.value;
      }
    }
  }

  /** Quote-free pieces in front are passed through by both merge loops. */
  lemma MergeSkipsQuoteFree(xs: seq<string>, ys: seq<string>, d: string)
    requires forall k :: 0 <= k < |xs| ==> IsMiddlePart(xs[k])
    ensures Merge(xs + ys, d) == xs + Merge(ys, d)
    ensures MergeAsWritten(ys, d).None? ==> MergeAsWritten(xs + ys, d).None?
    ensures MergeAsWritten(ys, d).Some? ==> MergeAsWritten(xs + ys, d) == Some(xs + MergeAsWritten(ys, d).value)
  {
    MergeSkipsQuoteFreeCorrected(xs, ys, d);
    MergeSkipsQuoteFreeAsWritten(xs, ys, d);
  }

  /** The source's loop on a start piece whose quote is not closed: the absorbed pieces are gone. */
  lemma AsWrittenUnclosedStep(cs: seq<string>, d: string, j: nat)
    requires |cs| >= 2 && IsStartPart(cs[0])
    requires j == FirstNonMiddle(cs, 1) && j < |cs| && !IsEndPart(cs[j])
    ensures MergeAsWritten(cs[j..], d).Some? ==> MergeAsWritten(cs, d) == Some([cs[0]] + MergeAsWritten(cs[j..], d).value)
  {
  }

  /** Pieces without quotes are left as they are by both merge loops. */
  lemma MergeKeepsQuoteFree(cs: seq<string>, d: string)
    requires forall k :: 0 <= k < |cs| ==> IsMiddlePart(cs[k])
    ensures Merge(cs, d) == cs
    ensures MergeAsWritten(cs, d) == Some(cs)
  {
    MergeSkipsQuoteFree(cs, [], d);
    assert cs + [] == cs;
  }

  /**
   A line without quote and substitute characters is simply split on the
   delimiter, by both versions of the splitter.
   */
  lemma QuoteFreeLineIsPlainSplit(line: string, d: string)
    requires Quote !in line && Substitute !in line
    ensures ReadValuesInLine(line, d) == Split(line, d)
    ensures ReadValuesInLineAsWritten(line, d) == Some(Split(line, d))
  {
    MissingElementNotOccurs(line, QuotePair, Quote);
    NoQuotePairPassesThrough(line, d);
    var ps := Split(line, d);
    SplitPiecesWithin(line, d);
    assert forall k :: 0 <= k < |ps| ==> Quote !in ps[k] && Substitute !in ps[k];
    MergeKeepsQuoteFree(ps, d);
    forall k | 0 <= k < |ps|
      ensures Clean(ps[k]) == ps[k] && !IsSubstituteRun(ps[k])
    {
      CleanPlain(ps[k]);
      PlainIsNoRun(ps[k]);
    }
    ReadAllOfNonRuns(ps);
  }

  /**
   Fields that need no quoting, joined with a usable delimiter, are read back as
   the same fields.
   */
  lemma PlainFieldsRoundTrip(fields: seq<string>, d: string)
    requires |fields| > 0 && UsableDelimiter(d)
    requires forall k :: 0 <= k < |fields| ==> PlainField(fields[k], d)
    ensures ReadValuesInLine(Join(fields, d), d) == fields
    ensures ReadValuesInLineAsWritten(Join(fields, d), d) == Some(fields)
  {
    JoinExcludes(fields, d, Quote);
    JoinExcludes(fields, d, Substitute);
    QuoteFreeLineIsPlainSplit(Join(fields, d), d);
    SplitJoin(fields, d);
  }

  /** A text between quotes, as a writer quotes a field (section 2 of RFC 4180, rule 6). */
  function Quoted(f: string): (q: string)
    ensures |q| == |f| + 2 && q[0] == Quote && q[|q| - 1] == Quote
  {
    [Quote] + f + [Quote]
  }

  /**
   The pieces the quoted join of `inner` is split into: the opening quote goes
   to the first piece, the closing quote to the last.
   */
  function QuotedPieces(inner: seq<string>): (qs: seq<string>)
    requires |inner| > 0
    ensures |qs| == |inner|
  {
    if |inner| == 1 then [Quoted(inner[0])]
    else [[Quote] + inner[0]] + inner[1..|inner| - 1] + [inner[|inner| - 1] + [Quote]]
  }

  /** The quoted pieces join to the quoted join. */
  lemma JoinQuotedPieces(inner: seq<string>, d: string)
    requires |inner| > 0
    ensures Join(QuotedPieces(inner), d) == Quoted(Join(inner, d))
  {
    if |inner| > 1 {
      var n := |inner|;
      var m := inner[..n - 1] + [inner[n - 1] + [Quote]];
      JoinAppendToLast(inner, [Quote], d);
      JoinPrepend([Quote], m, d);
      assert m[0] == inner[0];
      assert m[1..] == inner[1..n - 1] + [inner[n - 1] + [Quote]];
      assert [[Quote] + m[0]] + m[1..] == QuotedPieces(inner);
    }
  }

  /** No two neighbouring quotes: no escaped quote. */
  lemma NoNeighbouringQuotes(s: string)
    requires forall k :: 0 <= k < |s| - 1 ==> s[k] != Quote || s[k + 1] != Quote
    ensures !Occurs(s, QuotePair)
  {
    forall i | 0 <= i <= |s| - 2
      ensures !OccursAt(s, QuotePair, i)
    {
      assert s[i..i + 2][0] == s[i] && s[i..i + 2][1] == s[i + 1];
    }
  }

  /** The index of the first piece at or after `i` that is not quote-free. */
  lemma FirstNonMiddleIs(cs: seq<string>, i: nat, j: nat)
    requires i <= j < |cs|
    requires forall k :: i <= k < j ==> IsMiddlePart(cs[k])
    requires !IsMiddlePart(cs[j])
    ensures FirstNonMiddle(cs, i) == j
    decreases j - i
  {
    if i < j {
      FirstNonMiddleIs(cs, i + 1, j);
    }
  }

  /** Both merge loops turn the quoted pieces back into the quoted join. */
  lemma MergeQuotedPieces(inner: seq<string>, after: seq<string>, d: string)
    requires |inner| > 0
    requires forall k :: 0 <= k < |inner| ==> Quote !in inner[k]
    requires forall k :: 0 <= k < |after| ==> IsMiddlePart(after[k])
    ensures Merge(QuotedPieces(inner) + after, d) == [Quoted(Join(inner, d))] + after
    ensures MergeAsWritten(QuotedPieces(inner) + after, d) == Some([Quoted(Join(inner, d))] + after)
  {
    var qs := QuotedPieces(inner);
    var cs := qs + after;
    var n := |inner|;
    MergeKeepsQuoteFree(after, d);
    JoinQuotedPieces(inner, d);
    if n == 1 {
      assert cs[0] == Quoted(inner[0]);
      assert cs[0][|cs[0]| - 1] == Quote;
      assert !IsStartPart(cs[0]);
      assert cs[1..] == after;
    } else {
      assert cs[0] == [Quote] + inner[0];
      assert cs[0][1..] == inner[0];
      assert IsStartPart(cs[0]);
      assert cs[n - 1] == inner[n - 1] + [Quote];
      assert cs[n - 1][..|cs[n - 1]| - 1] == inner[n - 1];
      assert IsEndPart(cs[n - 1]);
      assert forall k :: 1 <= k < n - 1 ==> cs[k] == inner[k];
      FirstNonMiddleIs(cs, 1, n - 1);
      assert OpensClosedQuote(cs);
      assert cs[..n] == qs;
      assert cs[n..] == after;
    }
  }

  /** Joining a joined block in front of pieces with the same join as `rest` joins the block and `rest`. */
  lemma JoinBlockInFront(block: seq<string>, merged: seq<string>, rest: seq<string>, d: string)
    requires |block| > 0
    requires |merged| > 0 <==> |rest| > 0
    requires Join(merged, d) == Join(rest, d)
    ensures Join([Join(block, d)] + merged, d) == Join(block + rest, d)
  {
    if |rest| > 0 {
      JoinCons(Join(block, d), merged, d);
      JoinAppend(block, rest, d);
    } else {
      assert merged == [] && rest == [];
      assert [Join(block, d)] + merged == [Join(block, d)];
      assert block + rest == block;
    }
  }

  /**
   The corrected merge loop loses nothing: its pieces, joined with the
   delimiter, are the pieces it was given, joined with the delimiter.
   */
  lemma {:induction false} MergePreservesJoin(cs: seq<string>, d: string)
    ensures Join(Merge(cs, d), d) == Join(cs, d)
    decreases |cs|
  {
    if |cs| > 0 {
      if OpensClosedQuote(cs) {
        var j := FirstNonMiddle(cs, 1);
        var rest := cs[j + 1..];
        assert Merge(cs, d) == [Join(cs[..j + 1], d)] + Merge(rest, d);
        MergePreservesJoin(rest, d);
        JoinBlockInFront(cs[..j + 1], Merge(rest, d), rest, d);
        assert cs[..j + 1] + rest == cs;
      } else {
        var rest := cs[1..];
        assert Merge(cs, d) == [cs[0]] + Merge(rest, d);
        MergePreservesJoin(rest, d);
        JoinBlockInFront([cs[0]], Merge(rest, d), rest, d);
        assert Join([cs[0]], d) == cs[0];
        assert [cs[0]] + rest == cs;
      }
    }
  }

  /**
   The pieces never make the source's merge loop trap or drop pieces: every
   start piece it visits that is not the last is either closed after
   quote-free pieces or directly followed by a piece that is neither
   quote-free nor closing.
   */
  predicate MergeSafe(cs: seq<string>)
    decreases |cs|
  {
    if |cs| == 0 then true
    else if OpensClosedQuote(cs) then MergeSafe(cs[FirstNonMiddle(cs, 1) + 1..])
    else if |cs| >= 2 && IsStartPart(cs[0]) then FirstNonMiddle(cs, 1) == 1 && MergeSafe(cs[1..])
    else MergeSafe(cs[1..])
  }

  /** On safe pieces the source's merge loop does what the corrected one does. */
  lemma {:induction false} AsWrittenAgreesWhenSafe(cs: seq<string>, d: string)
    requires MergeSafe(cs)
    ensures MergeAsWritten(cs, d) == Some(Merge(cs, d))
    decreases |cs|
  {
    if |cs| > 0 {
      if OpensClosedQuote(cs) {
        AsWrittenAgreesWhenSafe(cs[FirstNonMiddle(cs, 1) + 1..], d);
      } else {
        AsWrittenAgreesWhenSafe(cs[1..], d);
      }
    }
  }

  /**
   A line on which both corrections are idle: its pieces are safe for the
   source's merge loop, and no merged piece is a run of substitutes.
   */
  predicate LineSafe(line: string, d: string) {
    && MergeSafe(Pieces(line, d))
    && forall k :: 0 <= k < |Merge(Pieces(line, d), d)| ==> !IsSubstituteRun(Merge(Pieces(line, d), d)[k])
  }

  /** On a line where both corrections are idle, both versions of the splitter agree. */
  lemma AsWrittenLineAgreesWhenSafe(line: string, d: string)
    requires LineSafe(line, d)
    ensures ReadValuesInLineAsWritten(line, d) == Some(ReadValuesInLine(line, d))
  {
    AsWrittenAgreesWhenSafe(Pieces(line, d), d);
    ReadAllOfNonRuns(Merge(Pieces(line, d), d));
  }

  /** What step 2's prefix and suffix tests see at the edges of a line. */
  lemma EdgeFacts(s: string, d: string)
    ensures HasPrefix(s, QuotePair + d) ==> |s| >= 2 && s[0] == Quote && s[1] == Quote
    ensures |d| > 0 && HasPrefix(s, QuotePair + d) ==> |s| >= 3 && s[2] == d[0]
    ensures HasSuffix(s, d + QuotePair) ==> |s| >= 2 && s[|s| - 1] == Quote && s[|s| - 2] == Quote
    ensures |d| > 0 && HasSuffix(s, d + QuotePair) ==> |s| >= 3 && s[|s| - 3] == d[|d| - 1]
  {
    if HasPrefix(s, QuotePair + d) {
      var w := s[..|QuotePair + d|];
      assert w[0] == s[0] && w[1] == s[1];
      if |d| > 0 {
        assert w[2] == s[2];
      }
    }
    if HasSuffix(s, d + QuotePair) {
      var w := s[|s| - |d + QuotePair|..];
      assert w[|w| - 1] == s[|s| - 1] && w[|w| - 2] == s[|s| - 2];
      if |d| > 0 {
        assert w[|d| - 1] == s[|s| - 3];
      }
    }
  }

  /** A single piece is left as it is by both merge loops. */
  lemma MergeSinglePiece(p: string, d: string)
    ensures Merge([p], d) == [p]
    ensures MergeAsWritten([p], d) == Some([p])
  {
    assert [p][1..] == [];
  }
}
