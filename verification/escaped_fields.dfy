/**
 What `readValuesInLine` makes of a line a writer produced by the quoting rules
 of section 2 of RFC 4180: a field is put between quotes and each quote inside
 it is doubled (rules 6 and 7). The line is followed through every step of the
 splitter: the escaped field survives steps 1 and 2, step 3 turns its doubled
 quotes into substitutes, step 4 cuts it at its delimiters, step 5 joins it up
 again and step 6 restores its quotes.
 */
module EscapedFields {
  import opened Wrappers
  import opened Seqs
  import opened Splitter

  /** A writer's escaping of a field's quotes: each quote doubled (section 2 of RFC 4180, rule 7). */
  function Escape(f: string): (e: string)
    decreases |f|
    ensures |e| >= |f|
    ensures |f| > 0 && f[0] != Quote ==> |e| > 0 && e[0] == f[0]
  {
    if |f| == 0 then []
    else (if f[0] == Quote then QuotePair else [f[0]]) + Escape(f[1..])
  }

  /** The field with every quote replaced by the substitute character. */
  function Marked(f: string): (m: string)
    decreases |f|
    ensures Quote !in m
    ensures |m| == |f|
  {
    if |f| == 0 then []
    else [if f[0] == Quote then Substitute else f[0]] + Marked(f[1..])
  }

  /** Escaping piece by piece. */
  function EscapeAll(ps: seq<string>): (es: seq<string>)
    ensures |es| == |ps|
    ensures forall k :: 0 <= k < |ps| ==> es[k] == Escape(ps[k])
  {
    seq(|ps|, k requires 0 <= k < |ps| => Escape(ps[k]))
  }

  /** Marking piece by piece. */
  function MarkAll(ps: seq<string>): (ms: seq<string>)
    ensures |ms| == |ps|
    ensures forall k :: 0 <= k < |ps| ==> ms[k] == Marked(ps[k])
  {
    seq(|ps|, k requires 0 <= k < |ps| => Marked(ps[k]))
  }

  /** Escaping distributes over concatenation. */
  lemma {:induction false} EscapeConcat(a: string, b: string)
    ensures Escape(a + b) == Escape(a) + Escape(b)
    decreases |a|
  {
    if |a| == 0 {
      assert a + b == b;
    } else {
      assert (a + b)[0] == a[0];
      assert (a + b)[1..] == a[1..] + b;
      EscapeConcat(a[1..], b);
    }
  }

  /** Marking distributes over concatenation. */
  lemma {:induction false} MarkedConcat(a: string, b: string)
    ensures Marked(a + b) == Marked(a) + Marked(b)
    decreases |a|
  {
    if |a| == 0 {
      assert a + b == b;
    } else {
      assert (a + b)[0] == a[0];
      assert (a + b)[1..] == a[1..] + b;
      MarkedConcat(a[1..], b);
    }
  }

  /** Text without quotes is its own escaping and its own marking. */
  lemma {:induction false} QuoteFreeUnchanged(s: string)
    requires Quote !in s
    ensures Escape(s) == s && Marked(s) == s
    decreases |s|
  {
    if |s| > 0 {
      QuoteFreeUnchanged(s[1..]);
    }
  }

  /** With a quote-free delimiter, escaping a join is joining the escaped pieces. */
  lemma {:induction false} EscapeJoin(ps: seq<string>, d: string)
    requires Quote !in d
    ensures Escape(Join(ps, d)) == Join(EscapeAll(ps), d)
    decreases |ps|
  {
    if |ps| >= 2 {
      var rest := ps[1..];
      JoinCons(ps[0], rest, d);
      assert ps == [ps[0]] + rest;
      EscapeConcat(ps[0] + d, Join(rest, d));
      EscapeConcat(ps[0], d);
      QuoteFreeUnchanged(d);
      EscapeJoin(rest, d);
      assert EscapeAll(ps) == [Escape(ps[0])] + EscapeAll(rest);
      JoinCons(Escape(ps[0]), EscapeAll(rest), d);
    }
  }

  /** With a quote-free delimiter, marking a join is joining the marked pieces. */
  lemma {:induction false} MarkedJoin(ps: seq<string>, d: string)
    requires Quote !in d
    ensures Marked(Join(ps, d)) == Join(MarkAll(ps), d)
    decreases |ps|
  {
    if |ps| >= 2 {
      var rest := ps[1..];
      JoinCons(ps[0], rest, d);
      assert ps == [ps[0]] + rest;
      MarkedConcat(ps[0] + d, Join(rest, d));
      MarkedConcat(ps[0], d);
      QuoteFreeUnchanged(d);
      MarkedJoin(rest, d);
      assert MarkAll(ps) == [Marked(ps[0])] + MarkAll(rest);
      JoinCons(Marked(ps[0]), MarkAll(rest), d);
    }
  }

  /** Escaping adds no element but quotes. */
  lemma {:induction false} EscapeAddsOnlyQuotes(f: string, x: char)
    requires x != Quote && x !in f
    ensures x !in Escape(f)
    decreases |f|
  {
    if |f| > 0 {
      EscapeAddsOnlyQuotes(f[1..], x);
    }
  }

  /** Marking adds no element but the substitute. */
  lemma {:induction false} MarkedAddsOnlySubstitute(f: string, x: char)
    requires x != Substitute && x !in f
    ensures x !in Marked(f)
    decreases |f|
  {
    if |f| > 0 {
      MarkedAddsOnlySubstitute(f[1..], x);
    }
  }

  /** Escaping and marking keep a piece clear of a quote-free, substitute-free delimiter. */
  lemma EscapedAndMarkedAvoid(s: string, d: string)
    requires UsableDelimiter(d) && Avoids(s, d)
    ensures Avoids(Escape(s), d) && Avoids(Marked(s), d)
  {
    forall x | x in d
      ensures x !in Escape(s) && x !in Marked(s)
    {
      assert x != Quote && x != Substitute;
      assert forall k :: 0 <= k < |s| ==> s[k] != x;
      EscapeAddsOnlyQuotes(s, x);
      MarkedAddsOnlySubstitute(s, x);
    }
    var e := Escape(s);
    var m := Marked(s);
    assert forall k :: 0 <= k < |e| ==> e[k] in e;
    assert forall k :: 0 <= k < |m| ==> m[k] in m;
  }

  /** Escaping never yields a lone quote, and yields two quotes only for one quote. */
  lemma EscapeShortForms(s: string)
    ensures Escape(s) != [Quote]
    ensures Escape(s) == QuotePair ==> s == [Quote]
  {
    if |s| > 0 {
      var e := Escape(s);
      var tail := Escape(s[1..]);
      if s[0] == Quote {
        assert e == QuotePair + tail;
        assert e == QuotePair ==> |tail| == 0;
        assert s == [s[0]] + s[1..];
      } else {
        assert e[0] == s[0];
      }
    }
  }

  /** An escaping that ends in a quote ends in two. */
  lemma {:induction false} EscapeEndsInPair(s: string)
    ensures var e := Escape(s); |e| > 0 && e[|e| - 1] == Quote ==> |e| >= 2 && e[|e| - 2] == Quote
    decreases |s|
  {
    if |s| > 0 {
      var unit: string := if s[0] == Quote then QuotePair else [s[0]];
      var tail := Escape(s[1..]);
      assert Escape(s) == unit + tail;
      if |tail| > 0 {
        EscapeEndsInPair(s[1..]);
        assert Escape(s)[|Escape(s)| - 1] == tail[|tail| - 1];
        if |tail| >= 2 {
          assert Escape(s)[|Escape(s)| - 2] == tail[|tail| - 2];
        }
      } else {
        assert Escape(s) == unit;
      }
    }
  }

  /** Restoring the quotes of a marked field without substitutes gives the field back. */
  lemma {:induction false} RestoreMarked(f: string)
    requires Substitute !in f
    ensures RestoreQuotes(Marked(f)) == f
    decreases |f|
  {
    if |f| > 0 {
      RestoreMarked(f[1..]);
      var m := Marked(f);
      assert m[1..] == Marked(f[1..]);
      assert forall k :: 1 <= k < |m| ==> m[k] == Marked(f[1..])[k - 1];
    }
  }

  /** Step 3 on an escaped field in front of any text marks the field's quotes. */
  lemma {:induction false} ProtectEscapedFront(f: string, t: string)
    ensures Protect(Escape(f) + t) == Marked(f) + Protect(t)
    decreases |f|
  {
    if |f| == 0 {
      assert Escape(f) + t == t;
    } else {
      var rest := Escape(f[1..]) + t;
      var c := if f[0] == Quote then Substitute else f[0];
      assert Protect(Escape(f) + t) == [c] + Protect(rest) by {
        if f[0] == Quote {
          assert Escape(f) + t == QuotePair + rest;
          ReplaceAllFront(rest, QuotePair, [Substitute]);
        } else {
          assert Escape(f) + t == [f[0]] + rest;
          ReplaceAllCons(f[0], rest, QuotePair, [Substitute]);
        }
      }
      assert Protect(rest) == Marked(f[1..]) + Protect(t) by {
        ProtectEscapedFront(f[1..], t);
      }
      assert Marked(f) == [c] + Marked(f[1..]);
      ConcatAssoc([c], Marked(f[1..]), Protect(t));
    }
  }

  /** Step 6 on a quoted, marked field without substitutes gives the field. */
  lemma CleanQuotedMarked(f: string)
    requires Substitute !in f
    ensures Clean(Quoted(Marked(f))) == f
  {
    var m := Marked(f);
    assert Quoted(m) == [Quote] + m + [Quote];
    RemoveQuotesOfQuoted(m);
    assert Clean(Quoted(m)) == RestoreQuotes(m);
    RestoreMarked(f);
  }

  /** Each quoted piece is its text, with the opening quote in front of the first and the closing quote behind the last. */
  lemma QuotedPiecesAt(inner: seq<string>)
    requires |inner| > 0
    ensures forall k :: 0 <= k < |inner| ==>
              QuotedPieces(inner)[k]
              == (if k == 0 then [Quote] else []) + inner[k] + (if k == |inner| - 1 then [Quote] else [])
  {
  }

  /** The quoted pieces of texts that avoid the delimiter avoid it too. */
  lemma QuotedPiecesAvoid(inner: seq<string>, d: string)
    requires |inner| > 0 && Quote !in d
    requires forall k :: 0 <= k < |inner| ==> Avoids(inner[k], d)
    ensures forall k :: 0 <= k < |inner| ==> Avoids(QuotedPieces(inner)[k], d)
  {
    QuotedPiecesAt(inner);
    var none: string := [];
    assert Avoids([Quote], d) && Avoids(none, d);
    forall k | 0 <= k < |inner|
      ensures Avoids(QuotedPieces(inner)[k], d)
    {
      var a: string := if k == 0 then [Quote] else [];
      var b: string := if k == |inner| - 1 then [Quote] else [];
      AvoidsConcat(a, inner[k], d);
      AvoidsConcat(a + inner[k], b, d);
    }
  }

  /**
   A line a writer makes of the fields `before`, one field `Join(inner, d)`
   that it escapes and puts between quotes, and the fields `after`.
   */
  function EscapedLine(before: seq<string>, inner: seq<string>, after: seq<string>, d: string): string {
    Join(before + [Quoted(Escape(Join(inner, d)))] + after, d)
  }

  /**
   The lines the round trip covers. The delimiter is usable and the other
   fields need no quoting. The quoted field is cut at its delimiters into
   `inner`, whose texts hold no substitute and no character of the
   delimiter; none of them but the first and the last is a lone quote (a
   writer escapes delimiter, quote, delimiter as delimiter, `""`, delimiter,
   which step 1 collapses). The field is not empty and does not start with a
   quote (step 3 would pair its opening quote with the field's first quote).
   */
  predicate Escapable(before: seq<string>, inner: seq<string>, after: seq<string>, d: string) {
    && UsableDelimiter(d)
    && (forall k :: 0 <= k < |before| ==> PlainField(before[k], d))
    && (forall k :: 0 <= k < |after| ==> PlainField(after[k], d))
    && |inner| > 0
    && (forall k :: 0 <= k < |inner| ==> Substitute !in inner[k] && Avoids(inner[k], d))
    && (forall k :: 1 <= k < |inner| - 1 ==> inner[k] != [Quote])
    && |Join(inner, d)| > 0 && Join(inner, d)[0] != Quote
  }

  /** The escaped line is the join of the other fields around the quoted pieces of the escaped texts. */
  lemma EscapedLineAsPieces(before: seq<string>, inner: seq<string>, after: seq<string>, d: string)
    requires |inner| > 0 && Quote !in d
    ensures EscapedLine(before, inner, after, d) == Join(before + QuotedPieces(EscapeAll(inner)) + after, d)
  {
    EscapeJoin(inner, d);
    JoinQuotedPieces(EscapeAll(inner), d);
    JoinSplice(before, QuotedPieces(EscapeAll(inner)), after, d);
  }

  /** No quoted piece of the escaped texts is an escaped quote on its own. */
  lemma EscapedPiecesAreNoPair(inner: seq<string>)
    requires |inner| > 1 || (|inner| == 1 && |inner[0]| > 0)
    requires forall k :: 1 <= k < |inner| - 1 ==> inner[k] != [Quote]
    ensures forall k :: 0 <= k < |inner| ==> QuotedPieces(EscapeAll(inner))[k] != QuotePair
  {
    var es := EscapeAll(inner);
    var n := |inner|;
    QuotedPiecesAt(es);
    forall k | 0 <= k < n
      ensures QuotedPieces(es)[k] != QuotePair
    {
      EscapeShortForms(inner[k]);
      if n == 1 {
        assert QuotedPieces(es)[k] == [Quote] + es[0] + [Quote];
        assert |es[0]| >= |inner[0]| > 0;
        assert |QuotedPieces(es)[k]| > 2;
      } else if k == 0 {
        var q := QuotedPieces(es)[k];
        assert q == [Quote] + es[0];
        assert q[1..] == es[0] != [Quote] == QuotePair[1..];
      } else if k == n - 1 {
        var q := QuotedPieces(es)[k];
        assert q == es[k] + [Quote];
        assert q[..|q| - 1] == es[k] != [Quote] == QuotePair[..1];
      } else {
        assert QuotedPieces(es)[k] == es[k];
      }
    }
  }

  /** Step 1 leaves an escaped line alone. */
  lemma EscapedLineCollapse(before: seq<string>, inner: seq<string>, after: seq<string>, d: string)
    requires Escapable(before, inner, after, d)
    ensures CollapseQuotedEmpty(EscapedLine(before, inner, after, d), d) == EscapedLine(before, inner, after, d)
  {
    var es := EscapeAll(inner);
    var qs := QuotedPieces(es);
    var all := before + qs + after;
    EscapedLineAsPieces(before, inner, after, d);
    forall k | 0 <= k < |inner|
      ensures Avoids(es[k], d)
    {
      EscapedAndMarkedAvoid(inner[k], d);
    }
    QuotedPiecesAvoid(es, d);
    assert |inner| > 1 || (|inner| == 1 && |inner[0]| > 0) by {
      assert |inner| == 1 ==> Join(inner, d) == inner[0];
    }
    EscapedPiecesAreNoPair(inner);
    forall k | 0 <= k < |all|
      ensures Avoids(all[k], d) && all[k] != QuotePair
    {
      if k < |before| {
        assert all[k] == before[k];
        assert QuotePair[0] !in all[k];
      } else if k < |before| + |qs| {
        assert all[k] == qs[k - |before|];
      } else {
        assert all[k] == after[k - |before| - |qs|];
        assert QuotePair[0] !in all[k];
      }
    }
    NoDelimitedText(all, d, QuotePair);
    ReplaceAllAbsent(EscapedLine(before, inner, after, d), d + QuotePair + d, d + d);
  }

  /** What a lead and a trail of plain fields hold: no quote, and an element of the delimiter at their inner end. */
  lemma LeadAndTrail(before: seq<string>, after: seq<string>, d: string)
    requires UsableDelimiter(d)
    requires forall k :: 0 <= k < |before| ==> PlainField(before[k], d)
    requires forall k :: 0 <= k < |after| ==> PlainField(after[k], d)
    ensures Quote !in Lead(before, d) && Quote !in Trail(after, d)
    ensures |before| > 0 ==> |Lead(before, d)| > 0
    ensures |after| > 0 ==> |Trail(after, d)| > 0 && Trail(after, d)[0] == d[0]
  {
    JoinExcludes(before, d, Quote);
    JoinExcludes(after, d, Quote);
  }

  /** An escaped line does not start with `""` and the delimiter. */
  lemma EscapedLineNoPrefix(before: seq<string>, inner: seq<string>, after: seq<string>, d: string)
    requires Escapable(before, inner, after, d)
    ensures !HasPrefix(EscapedLine(before, inner, after, d), QuotePair + d)
  {
    var e := Escape(Join(inner, d));
    var lead := Lead(before, d);
    var line := EscapedLine(before, inner, after, d);
    JoinAround(before, Quoted(e), after, d);
    LeadAndTrail(before, after, d);
    EdgeFacts(line, d);
    if |before| > 0 {
      assert line[0] == lead[0] && lead[0] in lead;
    } else {
      assert line[1] == e[0];
    }
  }

  /** An escaped line does not end with the delimiter and `""`. */
  lemma EscapedLineNoSuffix(before: seq<string>, inner: seq<string>, after: seq<string>, d: string)
    requires Escapable(before, inner, after, d)
    ensures !HasSuffix(EscapedLine(before, inner, after, d), d + QuotePair)
  {
    var e := Escape(Join(inner, d));
    var lead := Lead(before, d);
    var trail := Trail(after, d);
    var line := EscapedLine(before, inner, after, d);
    JoinAround(before, Quoted(e), after, d);
    LeadAndTrail(before, after, d);
    EdgeFacts(line, d);
    if |after| > 0 {
      assert line[|line| - 1] == trail[|trail| - 1] && trail[|trail| - 1] in trail;
    } else {
      assert line == lead + Quoted(e);
      assert line[|line| - 2] == e[|e| - 1];
      EscapeEndsInPair(Join(inner, d));
      if e[|e| - 1] == Quote {
        assert line[|line| - 3] == e[|e| - 2];
        assert d[|d| - 1] in d;
      }
    }
  }

  /** Steps 1 and 2 leave an escaped line alone. */
  lemma EscapedLineEdges(before: seq<string>, inner: seq<string>, after: seq<string>, d: string)
    requires Escapable(before, inner, after, d)
    ensures StripEdges(EscapedLine(before, inner, after, d), d) == EscapedLine(before, inner, after, d)
  {
    EscapedLineNoPrefix(before, inner, after, d);
    EscapedLineNoSuffix(before, inner, after, d);
  }

  /** Step 3 keeps an opening quote in front of a text that does not start with a quote. */
  lemma ProtectOpeningQuote(x: string)
    requires |x| > 0 && x[0] != Quote
    ensures Protect([Quote] + x) == [Quote] + Protect(x)
  {
    var s := [Quote] + x;
    assert s[..2][1] == x[0];
    ReplaceAllAfterFirst(s, QuotePair, [Substitute]);
    assert s[1..] == x;
  }

  /** Step 3 keeps a closing quote in front of quote-free text. */
  lemma ProtectClosingQuote(t: string)
    requires Quote !in t
    ensures Protect([Quote] + t) == [Quote] + t
  {
    MissingElementNotOccurs(t, QuotePair, Quote);
    ReplaceAllAbsent(t, QuotePair, [Substitute]);
    if |t| == 0 {
      assert [Quote] + t == [Quote];
      ShorterNotOccurs([Quote], QuotePair);
      ReplaceAllAbsent([Quote], QuotePair, [Substitute]);
    } else {
      ProtectOpeningQuote(t);
    }
  }

  /** A quoted text in front of more text, regrouped around its opening quote. */
  lemma QuotedThen(m: string, t: string)
    ensures Quoted(m) + t == [Quote] + (m + ([Quote] + t))
  {
  }

  /** Step 3 on a quoted, escaped field in front of quote-free text marks the field's quotes. */
  lemma ProtectQuotedEscaped(f: string, trail: string)
    requires |f| > 0 && f[0] != Quote && Quote !in trail
    ensures Protect(Quoted(Escape(f)) + trail) == Quoted(Marked(f)) + trail
  {
    var e := Escape(f);
    var x := e + ([Quote] + trail);
    QuotedThen(e, trail);
    assert Protect([Quote] + x) == [Quote] + Protect(x) by {
      assert x[0] == e[0] == f[0];
      ProtectOpeningQuote(x);
    }
    assert Protect(x) == Marked(f) + ([Quote] + trail) by {
      ProtectEscapedFront(f, [Quote] + trail);
      ProtectClosingQuote(trail);
    }
    QuotedThen(Marked(f), trail);
  }

  /** Step 3 on an escaped line marks the quotes of the escaped field and touches nothing else. */
  lemma EscapedLineProtect(before: seq<string>, inner: seq<string>, after: seq<string>, d: string)
    requires Escapable(before, inner, after, d)
    ensures Protect(EscapedLine(before, inner, after, d))
            == Lead(before, d) + Quoted(Marked(Join(inner, d))) + Trail(after, d)
  {
    var f := Join(inner, d);
    var lead := Lead(before, d);
    var trail := Trail(after, d);
    var tail := Quoted(Escape(f)) + trail;
    assert EscapedLine(before, inner, after, d) == lead + tail by {
      JoinAround(before, Quoted(Escape(f)), after, d);
      ConcatAssoc(lead, Quoted(Escape(f)), trail);
    }
    LeadAndTrail(before, after, d);
    assert Protect(lead + tail) == lead + Protect(tail) by {
      ReplaceAllSkips(lead, tail, QuotePair, [Substitute]);
    }
    ProtectQuotedEscaped(f, trail);
    ConcatAssoc(lead, Quoted(Marked(f)), trail);
  }

  /** Steps 1 to 4 on an escaped line: the other fields, and the quoted pieces of the marked texts. */
  lemma EscapedLinePieces(before: seq<string>, inner: seq<string>, after: seq<string>, d: string)
    requires Escapable(before, inner, after, d)
    ensures Pieces(EscapedLine(before, inner, after, d), d) == before + QuotedPieces(MarkAll(inner)) + after
  {
    var ms := MarkAll(inner);
    var qs := QuotedPieces(ms);
    var all := before + qs + after;
    var m := Marked(Join(inner, d));
    EscapedLineCollapse(before, inner, after, d);
    EscapedLineEdges(before, inner, after, d);
    EscapedLineProtect(before, inner, after, d);
    assert Join(all, d) == Lead(before, d) + Quoted(m) + Trail(after, d) by {
      JoinAround(before, Quoted(m), after, d);
      MarkedJoin(inner, d);
      JoinQuotedPieces(ms, d);
      JoinSplice(before, qs, after, d);
    }
    forall k | 0 <= k < |inner|
      ensures Avoids(ms[k], d)
    {
      EscapedAndMarkedAvoid(inner[k], d);
    }
    QuotedPiecesAvoid(ms, d);
    forall k | 0 <= k < |all|
      ensures Avoids(all[k], d)
    {
      if k < |before| {
        assert all[k] == before[k];
      } else if k < |before| + |qs| {
        assert all[k] == qs[k - |before|];
      } else {
        assert all[k] == after[k - |before| - |qs|];
      }
    }
    SplitJoin(all, d);
  }

  /** Both merge loops join the quoted pieces of the marked texts back into the quoted, marked field. */
  lemma EscapedLineMerge(before: seq<string>, inner: seq<string>, after: seq<string>, d: string)
    requires Escapable(before, inner, after, d)
    ensures var cs := before + QuotedPieces(MarkAll(inner)) + after;
            var merged := before + [Quoted(Marked(Join(inner, d)))] + after;
            Merge(cs, d) == merged && MergeAsWritten(cs, d) == Some(merged)
  {
    var ms := MarkAll(inner);
    var qs := QuotedPieces(ms);
    var q := Quoted(Marked(Join(inner, d)));
    MarkedJoin(inner, d);
    MergeQuotedPieces(ms, after, d);
    MergeSkipsQuoteFree(before, qs + after, d);
    ConcatAssoc(before, qs, after);
    ConcatAssoc(before, [q], after);
  }

  /** Both versions of step 6 turn the merged pieces into the fields. */
  lemma EscapedLineClean(before: seq<string>, f: string, after: seq<string>, d: string)
    requires forall k :: 0 <= k < |before| ==> PlainField(before[k], d)
    requires forall k :: 0 <= k < |after| ==> PlainField(after[k], d)
    requires Substitute !in f
    ensures var merged := before + [Quoted(Marked(f))] + after;
            CleanAll(merged) == before + [f] + after && ReadAll(merged) == before + [f] + after
  {
    var merged := before + [Quoted(Marked(f))] + after;
    var fields := before + [f] + after;
    CleanQuotedMarked(f);
    forall k | 0 <= k < |merged|
      ensures Clean(merged[k]) == fields[k] && !IsSubstituteRun(merged[k])
    {
      if k < |before| {
        CleanPlain(before[k]);
        PlainIsNoRun(before[k]);
      } else if k == |before| {
        assert Quote == merged[k][0] && merged[k][0] in merged[k];
        QuotedIsNoRun(merged[k]);
      } else {
        assert merged[k] == after[k - |before| - 1];
        CleanPlain(after[k - |before| - 1]);
        PlainIsNoRun(after[k - |before| - 1]);
      }
    }
    ReadAllOfNonRuns(merged);
  }

  /**
   A field written by the rules of section 2 of RFC 4180 (between quotes, each
   quote inside doubled, rules 6 and 7), between fields that need no quoting,
   is read back as the field, delimiters and quotes included, by both versions
   of the splitter.
   */
  lemma EscapedFieldReadsBack(before: seq<string>, inner: seq<string>, after: seq<string>, d: string)
    requires Escapable(before, inner, after, d)
    ensures ReadValuesInLine(Join(before + [Quoted(Escape(Join(inner, d)))] + after, d), d)
            == before + [Join(inner, d)] + after
    ensures ReadValuesInLineAsWritten(Join(before + [Quoted(Escape(Join(inner, d)))] + after, d), d)
            == Some(before + [Join(inner, d)] + after)
  {
    var f := Join(inner, d);
    EscapedLinePieces(before, inner, after, d);
    EscapedLineMerge(before, inner, after, d);
    JoinExcludes(inner, d, Substitute);
    EscapedLineClean(before, f, after, d);
  }

  /**
   A quoted field whose text holds the delimiter but no quote, between fields
   that need no quoting, is read back as the text without its quotes,
   delimiters included, by both versions of the splitter (section 2 of
   RFC 4180, rule 6).
   */
  lemma QuotedFieldKeepsDelimiters(before: seq<string>, inner: seq<string>, after: seq<string>, d: string)
    requires UsableDelimiter(d)
    requires forall k :: 0 <= k < |before| ==> PlainField(before[k], d)
    requires forall k :: 0 <= k < |after| ==> PlainField(after[k], d)
    requires |inner| > 0 && forall k :: 0 <= k < |inner| ==> PlainField(inner[k], d)
    requires |Join(inner, d)| > 0
    ensures ReadValuesInLine(Join(before + [Quoted(Join(inner, d))] + after, d), d)
            == before + [Join(inner, d)] + after
    ensures ReadValuesInLineAsWritten(Join(before + [Quoted(Join(inner, d))] + after, d), d)
            == Some(before + [Join(inner, d)] + after)
  {
    var f := Join(inner, d);
    JoinExcludes(inner, d, Quote);
    assert f[0] in f;
    QuoteFreeUnchanged(f);
    assert forall k :: 0 <= k < |inner| ==> inner[k] != [Quote] by {
      assert forall k :: 0 <= k < |inner| && |inner[k]| > 0 ==> inner[k][0] in inner[k];
    }
    EscapedFieldReadsBack(before, inner, after, d);
  }

  /** Escaping a run of quotes doubles it. */
  lemma {:induction false} EscapeQuotes(q: nat)
    ensures Escape(Repeat(Quote, q)) == Repeat(Quote, 2 * q)
  {
    if q > 0 {
      var f := Repeat(Quote, q);
      assert f[0] == Quote && f[1..] == Repeat(Quote, q - 1);
      EscapeQuotes(q - 1);
      assert QuotePair + Repeat(Quote, 2 * (q - 1)) == Repeat(Quote, 2 * q);
    }
  }

  /** Step 3 on an even run of quotes: one substitute per pair. */
  lemma {:induction false} ProtectQuotes(n: nat)
    ensures Protect(Repeat(Quote, 2 * n)) == Repeat(Substitute, n)
  {
    if n == 0 {
      ShorterNotOccurs([], QuotePair);
      ReplaceAllAbsent([], QuotePair, [Substitute]);
    } else {
      assert Repeat(Quote, 2 * n) == QuotePair + Repeat(Quote, 2 * (n - 1));
      ReplaceAllFront(Repeat(Quote, 2 * (n - 1)), QuotePair, [Substitute]);
      ProtectQuotes(n - 1);
      assert [Substitute] + Repeat(Substitute, n - 1) == Repeat(Substitute, n);
    }
  }

  /**
   Steps 1 to 5 on a quoted field made of `q` escaped quotes: the line is
   `2 * q + 2` quotes, and step 3 turns it into one piece of `q + 1`
   substitutes, which both merge loops leave alone.
   */
  lemma QuoteOnlyFieldMerged(q: nat, d: string)
    requires UsableDelimiter(d)
    ensures var run := Repeat(Substitute, q + 1);
            Merge(Pieces(Quoted(Escape(Repeat(Quote, q))), d), d) == [run]
            && MergeAsWritten(Pieces(Quoted(Escape(Repeat(Quote, q))), d), d) == Some([run])
  {
    var line := Quoted(Escape(Repeat(Quote, q)));
    var run := Repeat(Substitute, q + 1);
    EscapeQuotes(q);
    assert line == Repeat(Quote, 2 * (q + 1));
    assert d[0] in d && d[|d| - 1] in d;
    assert CollapseQuotedEmpty(line, d) == line by {
      MissingElementNotOccurs(line, d + QuotePair + d, d[0]);
      ReplaceAllAbsent(line, d + QuotePair + d, d + d);
    }
    assert StripEdges(line, d) == line by {
      EdgeFacts(line, d);
    }
    ProtectQuotes(q + 1);
    assert Pieces(line, d) == [run] by {
      MissingElementNotOccurs(run, d, d[0]);
      SplitWithoutSeparator(run, d);
    }
    MergeSinglePiece(run, d);
  }

  /** Step 6 as the source has it on a run of substitutes: as many quotes. */
  lemma CleanSubstitutes(n: nat)
    ensures Clean(Repeat(Substitute, n)) == Repeat(Quote, n)
  {
    RemoveQuotesOfQuoteFree(Repeat(Substitute, n));
  }

  /**
   The source reads a quoted field made of `q` escaped quotes, `2 * q + 2`
   quotes in all, as `q + 1` quotes: `""` as one quote, `""""` as two.
   */
  lemma QuoteOnlyFieldAsWritten(q: nat, d: string)
    requires UsableDelimiter(d)
    ensures ReadValuesInLineAsWritten(Quoted(Escape(Repeat(Quote, q))), d) == Some([Repeat(Quote, q + 1)])
  {
    var run := Repeat(Substitute, q + 1);
    QuoteOnlyFieldMerged(q, d);
    CleanSubstitutes(q + 1);
    assert CleanAll([run]) == [Repeat(Quote, q + 1)];
  }

  /** The corrected step 6 reads a quoted field made of `q` escaped quotes back as `q` quotes. */
  lemma QuoteOnlyFieldReadsBack(q: nat, d: string)
    requires UsableDelimiter(d)
    ensures ReadValuesInLine(Quoted(Escape(Repeat(Quote, q))), d) == [Repeat(Quote, q)]
  {
    QuoteOnlyFieldMerged(q, d);
  }
}
