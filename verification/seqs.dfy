/**
 Sequence searching, splitting, joining and replacing: the models of Foundation's
 `range(of:)`, `components(separatedBy:)`, `joined(separator:)` and
 `replacingOccurrences(of:with:)`, over any element type so that the same
 definitions serve strings (`seq<char>`) and byte buffers.
 */
module Seqs {
  import opened Wrappers

  /** `p` occurs in `s` starting at index `i`. */
  predicate OccursAt<T(==)>(s: seq<T>, p: seq<T>, i: int) {
    0 <= i && i + |p| <= |s| && s[i..i + |p|] == p
  }

  /** `p` occurs somewhere in `s` (Foundation's `contains`). */
  predicate Occurs<T(==)>(s: seq<T>, p: seq<T>) {
    exists i :: 0 <= i <= |s| - |p| && OccursAt(s, p, i)
  }

  /** No element of `s` is an element of `d`. */
  predicate Avoids<T(==)>(s: seq<T>, d: seq<T>) {
    forall k :: 0 <= k < |s| ==> s[k] !in d
  }

  /** The first occurrence of `p` in `s` at or after index `from`. */
  function FindFrom<T(==)>(s: seq<T>, p: seq<T>, from: nat): (r: Option<nat>)
    decreases |s| - from
    ensures r.Some? ==> from <= r.value && OccursAt(s, p, r.value)
    ensures r.Some? ==> forall j :: from <= j < r.value ==> !OccursAt(s, p, j)
    ensures r.None? ==> forall j :: from <= j ==> !OccursAt(s, p, j)
  {
    if from + |p| > |s| then None
    else if s[from..from + |p|] == p then Some(from)
    else FindFrom(s, p, from + 1)
  }

  /** The first occurrence of `p` in `s`, or `None` (Foundation's `NSNotFound`). */
  function Find<T(==)>(s: seq<T>, p: seq<T>): (r: Option<nat>)
    ensures r.Some? ==> OccursAt(s, p, r.value)
    ensures r.Some? ==> forall j :: 0 <= j < r.value ==> !OccursAt(s, p, j)
    ensures r.None? ==> forall j :: !OccursAt(s, p, j)
  {
    FindFrom(s, p, 0)
  }

  /** An occurrence with no earlier occurrence is the one `Find` reports. */
  lemma FindIsFirst<T>(s: seq<T>, p: seq<T>, i: nat)
    requires OccursAt(s, p, i)
    requires forall j :: 0 <= j < i ==> !OccursAt(s, p, j)
    ensures Find(s, p) == Some(i)
  {
  }

  /** A sequence with no element of a non-empty `p` cannot contain `p`. */
  lemma AvoidsNotOccurs<T>(s: seq<T>, p: seq<T>)
    requires |p| > 0 && Avoids(s, p)
    ensures !Occurs(s, p)
  {
    forall i | 0 <= i <= |s| - |p|
      ensures !OccursAt(s, p, i)
    {
      assert s[i..i + |p|][0] == s[i];
      assert s[i] !in p;
    }
  }

  /**
   Splits `s` at every occurrence of `d`, scanning left to right, as
   `components(separatedBy:)` does. An empty separator is never found, so the
   whole sequence is the only component.
   */
  function Split<T(==)>(s: seq<T>, d: seq<T>): (r: seq<seq<T>>)
    decreases |s|
    ensures |r| >= 1
  {
    if |d| == 0 then [s]
    else match Find(s, d)
      case None => [s]
      case Some(i) => [s[..i]] + Split(s[i + |d|..], d)
  }

  /** Concatenates `ps` with `d` between neighbours (`joined(separator:)`). */
  function Join<T>(ps: seq<seq<T>>, d: seq<T>): seq<T>
    decreases |ps|
  {
    if |ps| == 0 then []
    else if |ps| == 1 then ps[0]
    else ps[0] + d + Join(ps[1..], d)
  }

  /** Joining two non-empty lists is joining their joins. */
  lemma {:induction false} JoinAppend<T>(xs: seq<seq<T>>, ys: seq<seq<T>>, d: seq<T>)
    requires |xs| > 0 && |ys| > 0
    ensures Join(xs + ys, d) == Join(xs, d) + d + Join(ys, d)
    decreases |xs|
  {
    if |xs| == 1 {
      assert (xs + ys)[1..] == ys;
    } else {
      assert (xs + ys)[1..] == xs[1..] + ys;
      JoinAppend(xs[1..], ys, d);
    }
  }

  /** Joining a list that starts with `p` puts `d` between `p` and the rest. */
  lemma JoinCons<T>(p: seq<T>, ps: seq<seq<T>>, d: seq<T>)
    requires |ps| > 0
    ensures Join([p] + ps, d) == p + d + Join(ps, d)
  {
    assert ([p] + ps)[1..] == ps;
  }

  /** An occurrence at `i` cuts a sequence into what precedes it, the pattern and what follows it. */
  lemma OccurrenceParts<T>(s: seq<T>, d: seq<T>, i: nat)
    requires OccursAt(s, d, i)
    ensures s == s[..i] + d + s[i + |d|..]
  {
    assert s == s[..i] + s[i..i + |d|] + s[i + |d|..];
  }

  /** Splitting at a first occurrence `i` yields `s[..i]` followed by the split of the rest. */
  lemma SplitAt<T>(s: seq<T>, d: seq<T>, i: nat)
    requires |d| > 0 && Find(s, d) == Some(i)
    ensures Split(s, d) == [s[..i]] + Split(s[i + |d|..], d)
    ensures s == s[..i] + d + s[i + |d|..]
  {
    OccurrenceParts(s, d, i);
  }

  /** Joining the pieces of a split with the same separator gives the input back. */
  lemma {:induction false} JoinSplit<T>(s: seq<T>, d: seq<T>)
    ensures Join(Split(s, d), d) == s
    decreases |s|
  {
    var f := Find(s, d);
    if |d| > 0 && f.Some? {
      var i := f.value;
      var rest := s[i + |d|..];
      SplitAt(s, d, i);
      JoinSplit(rest, d);
      JoinCons(s[..i], Split(rest, d), d);
    }
  }

  /** No piece of a split on a non-empty separator contains the separator. */
  lemma {:induction false} SplitPiecesAvoidSeparator<T>(s: seq<T>, d: seq<T>)
    ensures |d| > 0 ==> forall k :: 0 <= k < |Split(s, d)| ==> !Occurs(Split(s, d)[k], d)
    decreases |s|
  {
    var f := Find(s, d);
    if |d| > 0 && f.Some? {
      var i := f.value;
      var rest := s[i + |d|..];
      SplitAt(s, d, i);
      SplitPiecesAvoidSeparator(rest, d);
      forall j | 0 <= j <= i - |d|
        ensures !OccursAt(s[..i], d, j)
      {
        assert s[..i][j..j + |d|] == s[j..j + |d|];
        assert !OccursAt(s, d, j);
      }
      var r := Split(s, d);
      forall k | 0 <= k < |r|
        ensures !Occurs(r[k], d)
      {
        if k > 0 {
          assert r[k] == Split(rest, d)[k - 1];
        }
      }
    }
  }

  /** Every element of a piece of a split is an element of the input. */
  lemma {:induction false} SplitPiecesWithin<T>(s: seq<T>, d: seq<T>)
    ensures forall k, x :: 0 <= k < |Split(s, d)| && x in Split(s, d)[k] ==> x in s
    decreases |s|
  {
    if |d| > 0 {
      match Find(s, d)
      case None =>
      case Some(i) =>
        var rest := s[i + |d|..];
        SplitPiecesWithin(rest, d);
        var r := Split(s, d);
        assert r == [s[..i]] + Split(rest, d);
        forall k, x | 0 <= k < |r| && x in r[k]
          ensures x in s
        {
          if k == 0 {
            InPrefix(s, i, x);
          } else {
            assert r[k] == Split(rest, d)[k - 1];
            assert x in rest;
            InSuffix(s, i + |d|, x);
          }
        }
    }
  }

  /** An element of a prefix is an element of the sequence. */
  lemma InPrefix<T>(s: seq<T>, b: nat, x: T)
    requires b <= |s| && x in s[..b]
    ensures x in s
  {
    var m :| 0 <= m < b && s[..b][m] == x;
    assert s[m] == x;
  }

  /** An element of a suffix is an element of the sequence. */
  lemma InSuffix<T>(s: seq<T>, a: nat, x: T)
    requires a <= |s| && x in s[a..]
    ensures x in s
  {
    var m :| 0 <= m < |s| - a && s[a..][m] == x;
    assert s[a + m] == x;
  }

  /**
   Splitting a join gives the pieces back, provided no piece shares an element
   with the separator (so no occurrence of the separator can straddle a piece).
   */
  lemma {:induction false} SplitJoin<T>(ps: seq<seq<T>>, d: seq<T>)
    requires |ps| > 0 && |d| > 0
    requires forall k :: 0 <= k < |ps| ==> Avoids(ps[k], d)
    ensures Split(Join(ps, d), d) == ps
    decreases |ps|
  {
    if |ps| == 1 {
      AvoidsNotOccurs(ps[0], d);
    } else {
      var s := Join(ps, d);
      var rest := Join(ps[1..], d);
      var i := |ps[0]|;
      assert s == ps[0] + d + rest;
      assert s[i..i + |d|] == d;
      forall j | 0 <= j < i
        ensures !OccursAt(s, d, j)
      {
        assert s[j] == ps[0][j] && s[j] !in d;
        if j + |d| <= |s| {
          assert s[j..j + |d|][0] == s[j];
        }
      }
      FindIsFirst(s, d, i);
      assert s[..i] == ps[0];
      assert s[i + |d|..] == rest;
      SplitJoin(ps[1..], d);
    }
  }

  /** Concatenation is associative. */
  lemma ConcatAssoc<T>(a: seq<T>, b: seq<T>, c: seq<T>)
    ensures a + b + c == a + (b + c)
  {
  }

  /** A slice of a slice is a slice. */
  lemma SliceOfSlice<T>(s: seq<T>, i: int, n: int, m: int, len: int)
    requires 0 <= i && 0 <= n <= m <= len && i + len <= |s|
    ensures s[i..i + len][n..m] == s[i + n..i + m]
  {
    var a := s[i..i + len];
    assert forall k :: 0 <= k < m - n ==> a[n..m][k] == a[n + k] == s[i + n + k];
  }

  /** An element of `p` that `s` lacks keeps `p` out of `s`. */
  lemma MissingElementNotOccurs<T>(s: seq<T>, p: seq<T>, x: T)
    requires x in p && x !in s
    ensures !Occurs(s, p)
  {
    var m :| 0 <= m < |p| && p[m] == x;
    forall i | 0 <= i <= |s| - |p|
      ensures !OccursAt(s, p, i)
    {
      assert s[i..i + |p|][m] == s[i + m];
    }
  }

  /** An occurrence of `a + p + b` holds an occurrence of `p`. */
  lemma OccursInfix<T>(s: seq<T>, a: seq<T>, p: seq<T>, b: seq<T>)
    ensures Occurs(s, a + p + b) ==> Occurs(s, p)
  {
    var w := a + p + b;
    if Occurs(s, w) {
      var i :| 0 <= i <= |s| - |w| && OccursAt(s, w, i);
      assert w[|a|..|a| + |p|] == p;
      SliceOfSlice(s, i, |a|, |a| + |p|, |w|);
      assert OccursAt(s, p, i + |a|);
    }
  }

  /** A sequence starting with `p + q` has `p` at index 0. */
  lemma PrefixOccurs<T>(s: seq<T>, p: seq<T>, q: seq<T>)
    ensures |p + q| <= |s| && s[..|p + q|] == p + q ==> OccursAt(s, p, 0)
  {
    if |p + q| <= |s| && s[..|p + q|] == p + q {
      assert s[..|p|] == (p + q)[..|p|] == p;
    }
  }

  /** A sequence ending with `q + p` has `p` at its last `|p|` positions. */
  lemma SuffixOccurs<T>(s: seq<T>, q: seq<T>, p: seq<T>)
    ensures |q + p| <= |s| && s[|s| - |q + p|..] == q + p ==> OccursAt(s, p, |s| - |p|)
  {
    if |q + p| <= |s| && s[|s| - |q + p|..] == q + p {
      assert s[|s| - |p|..] == (q + p)[|q|..] == p;
    }
  }

  /** When `p` does not start `s`, the first occurrence of `p` in `s` is one past its first occurrence in `s[1..]`. */
  lemma FindAfterFirst<T>(s: seq<T>, p: seq<T>)
    requires |s| > 0 && |p| > 0 && !OccursAt(s, p, 0)
    ensures Find(s[1..], p).None? ==> Find(s, p).None?
    ensures Find(s[1..], p).Some? ==> Find(s, p) == Some(Find(s[1..], p).value + 1)
  {
    forall j | 1 <= j
      ensures OccursAt(s, p, j) <==> OccursAt(s[1..], p, j - 1)
    {
      if j + |p| <= |s| {
        SliceOfSlice(s, 1, j - 1, j - 1 + |p|, |s| - 1);
        assert s[1..1 + (|s| - 1)] == s[1..];
      }
    }
    match Find(s[1..], p)
    case None =>
      assert forall j :: !OccursAt(s, p, j);
    case Some(i) =>
      FindIsFirst(s, p, i + 1);
  }

  /**
   Splitting a sequence that `d` does not start adds its first element to the
   front of the first piece of the rest.
   */
  lemma SplitAfterFirst<T>(s: seq<T>, d: seq<T>)
    requires |s| > 0 && |d| > 0 && !OccursAt(s, d, 0)
    ensures Split(s, d) == [[s[0]] + Split(s[1..], d)[0]] + Split(s[1..], d)[1..]
  {
    FindAfterFirst(s, d);
    match Find(s[1..], d)
    case Some(i) =>
      SplitAfterFirstFound(s, d, i);
    case None =>
      assert Split(s, d) == [s];
      assert Split(s[1..], d) == [s[1..]];
      assert [s[0]] + s[1..] == s;
  }

  /** `SplitAfterFirst` when the rest holds the separator. */
  lemma SplitAfterFirstFound<T>(s: seq<T>, d: seq<T>, i: nat)
    requires |s| > 0 && |d| > 0
    requires Find(s[1..], d) == Some(i) && Find(s, d) == Some(i + 1)
    ensures Split(s, d) == [[s[0]] + Split(s[1..], d)[0]] + Split(s[1..], d)[1..]
  {
    var t := s[1..];
    SplitAt(t, d, i);
    SplitAt(s, d, i + 1);
    var later := Split(t[i + |d|..], d);
    assert s[i + 1 + |d|..] == t[i + |d|..];
    ConsPrefix(s, i);
    assert Split(s, d) == [[s[0]] + t[..i]] + later;
    assert Split(t, d)[0] == t[..i] && Split(t, d)[1..] == later;
  }

  /** A prefix of length `i + 1` is the first element before the rest's prefix of length `i`. */
  lemma ConsPrefix<T>(s: seq<T>, i: nat)
    requires i < |s|
    ensures s[..i + 1] == [s[0]] + s[1..][..i]
  {
    var t := s[1..];
    assert |s[..i + 1]| == |[s[0]] + t[..i]|;
    forall k | 0 <= k < i + 1
      ensures s[..i + 1][k] == ([s[0]] + t[..i])[k]
    {
      if k > 0 {
        assert t[..i][k - 1] == t[k - 1] == s[k];
      }
    }
  }

  /** A sequence that shares no element with the pattern splits into itself alone. */
  lemma SplitWithoutSeparator<T>(s: seq<T>, d: seq<T>)
    requires !Occurs(s, d)
    ensures Split(s, d) == [s]
  {
    if |d| > 0 {
      match Find(s, d)
      case None =>
      case Some(i) =>
        assert OccursAt(s, d, i);
    }
  }

  /**
   A join cannot hold `p` unless some piece does, when no element of `p` is an
   element of the non-empty separator (an occurrence cannot reach into a separator).
   */
  lemma {:induction false} JoinNotOccurs<T>(ps: seq<seq<T>>, d: seq<T>, p: seq<T>)
    requires |d| > 0 && |p| > 0 && Avoids(p, d)
    requires forall k :: 0 <= k < |ps| ==> !Occurs(ps[k], p)
    ensures !Occurs(Join(ps, d), p)
    decreases |ps|
  {
    if |ps| == 0 {
    } else if |ps| == 1 {
    } else {
      var head := ps[0];
      var rest := Join(ps[1..], d);
      JoinNotOccurs(ps[1..], d, p);
      var s := head + d + rest;
      assert Join(ps, d) == s;
      forall i | 0 <= i <= |s| - |p|
        ensures !OccursAt(s, p, i)
      {
        var w := s[i..i + |p|];
        if i + |p| <= |head| {
          assert w == head[i..i + |p|];
          assert !OccursAt(head, p, i);
        } else if i < |head| {
          assert w[|head| - i] == s[|head|] == d[0];
          assert p[|head| - i] !in d;
        } else if i < |head| + |d| {
          assert w[0] == s[i] == d[i - |head|];
          assert p[0] !in d;
        } else {
          assert w == rest[i - |head| - |d|..i - |head| - |d| + |p|];
          assert !OccursAt(rest, p, i - |head| - |d|);
        }
      }
    }
  }

  /** An element in neither the pieces nor the separator is not in their join. */
  lemma {:induction false} JoinExcludes<T>(ps: seq<seq<T>>, d: seq<T>, x: T)
    requires x !in d
    requires forall k :: 0 <= k < |ps| ==> x !in ps[k]
    ensures x !in Join(ps, d)
    decreases |ps|
  {
    if |ps| > 1 {
      JoinExcludes(ps[1..], d, x);
    }
  }

  /** Prepending `x` to a join is prepending it to the first piece. */
  lemma JoinPrepend<T>(x: seq<T>, ps: seq<seq<T>>, d: seq<T>)
    requires |ps| > 0
    ensures x + Join(ps, d) == Join([x + ps[0]] + ps[1..], d)
  {
    if |ps| > 1 {
      assert ([x + ps[0]] + ps[1..])[1..] == ps[1..];
    }
  }

  /** Appending `y` to a join is appending it to the last piece. */
  lemma {:induction false} JoinAppendToLast<T>(ps: seq<seq<T>>, y: seq<T>, d: seq<T>)
    requires |ps| > 0
    ensures Join(ps, d) + y == Join(ps[..|ps| - 1] + [ps[|ps| - 1] + y], d)
    decreases |ps|
  {
    var n := |ps|;
    var q := ps[..n - 1] + [ps[n - 1] + y];
    if n == 1 {
      assert q == [ps[0] + y];
    } else {
      var tail := ps[1..];
      var q1 := tail[..n - 2] + [tail[n - 2] + y];
      JoinAppendToLast(tail, y, d);
      assert q == [ps[0]] + q1 by {
        assert |q| == |[ps[0]] + q1|;
        forall k | 0 < k < n
          ensures q[k] == ([ps[0]] + q1)[k]
        {
          if k < n - 1 {
            assert q[k] == ps[k] && q1[k - 1] == tail[k - 1];
          }
        }
      }
      JoinCons(ps[0], q1, d);
      assert Join(ps, d) == ps[0] + d + Join(tail, d);
      ConcatAssoc(ps[0] + d, Join(tail, d), y);
    }
  }

  /** A join standing for the first piece of a join can be spliced into the outer list. */
  lemma JoinSpliceFront<T>(ys: seq<seq<T>>, zs: seq<seq<T>>, d: seq<T>)
    requires |ys| > 0
    ensures Join([Join(ys, d)] + zs, d) == Join(ys + zs, d)
  {
    if |zs| == 0 {
      assert [Join(ys, d)] + zs == [Join(ys, d)];
      assert ys + zs == ys;
    } else {
      JoinAppend([Join(ys, d)], zs, d);
      JoinAppend(ys, zs, d);
    }
  }

  /** Lists with the same join may be exchanged behind a common front. */
  lemma JoinSameBehind<T>(xs: seq<seq<T>>, us: seq<seq<T>>, vs: seq<seq<T>>, d: seq<T>)
    requires |xs| > 0 && |us| > 0 && |vs| > 0
    requires Join(us, d) == Join(vs, d)
    ensures Join(xs + us, d) == Join(xs + vs, d)
  {
    JoinAppend(xs, us, d);
    JoinAppend(xs, vs, d);
  }

  /** A join standing for one piece of a join can be spliced into the outer list. */
  lemma JoinSplice<T>(xs: seq<seq<T>>, ys: seq<seq<T>>, zs: seq<seq<T>>, d: seq<T>)
    requires |ys| > 0
    ensures Join(xs + [Join(ys, d)] + zs, d) == Join(xs + ys + zs, d)
  {
    var mid: seq<seq<T>> := [Join(ys, d)];
    JoinSpliceFront(ys, zs, d);
    assert xs + mid + zs == xs + (mid + zs) by {
      ConcatAssoc(xs, mid, zs);
    }
    assert xs + ys + zs == xs + (ys + zs) by {
      ConcatAssoc(xs, ys, zs);
    }
    if |xs| == 0 {
      assert xs + (mid + zs) == mid + zs;
      assert xs + (ys + zs) == ys + zs;
    } else {
      JoinSameBehind(xs, mid + zs, ys + zs, d);
    }
  }

  /** What goes in front of the middle piece of a join: the join of the pieces before it and the separator. */
  function Lead<T>(before: seq<seq<T>>, d: seq<T>): seq<T> {
    if |before| == 0 then [] else Join(before, d) + d
  }

  /** What follows the middle piece of a join: the separator and the join of the pieces after it. */
  function Trail<T>(after: seq<seq<T>>, d: seq<T>): seq<T> {
    if |after| == 0 then [] else d + Join(after, d)
  }

  /** Two sequences that avoid `d` concatenate to one that does. */
  lemma AvoidsConcat<T>(a: seq<T>, b: seq<T>, d: seq<T>)
    requires Avoids(a, d) && Avoids(b, d)
    ensures Avoids(a + b, d)
  {
    assert forall k :: 0 <= k < |a + b| ==> (a + b)[k] == if k < |a| then a[k] else b[k - |a|];
  }

  /** The join around one piece is that piece between its lead and its trail. */
  lemma JoinAround<T>(before: seq<seq<T>>, q: seq<T>, after: seq<seq<T>>, d: seq<T>)
    ensures Join(before + [q] + after, d) == Lead(before, d) + q + Trail(after, d)
  {
    var tail := [q] + after;
    assert before + [q] + after == before + tail;
    if |after| == 0 {
      assert tail == [q];
    } else {
      JoinCons(q, after, d);
    }
    if |before| == 0 {
      assert before + tail == tail;
    } else {
      JoinAppend(before, tail, d);
    }
  }

  /**
   In a join of pieces that avoid the separator, a stretch at the front free of
   separator elements and ended by one is the first piece, and another piece
   follows it.
   */
  lemma FreeStartIsFirstPiece<T>(qs: seq<seq<T>>, d: seq<T>, b: nat)
    requires |qs| > 0 && |d| > 0
    requires forall k :: 0 <= k < |qs| ==> Avoids(qs[k], d)
    requires b < |Join(qs, d)| && Join(qs, d)[b] in d
    requires forall x :: 0 <= x < b ==> Join(qs, d)[x] !in d
    ensures |qs| >= 2 && qs[0] == Join(qs, d)[..b]
  {
    var s := Join(qs, d);
    if |qs| == 1 {
      assert false;
    }
    JoinCons(qs[0], qs[1..], d);
    assert qs == [qs[0]] + qs[1..];
    assert forall x :: 0 <= x < |qs[0]| ==> s[x] == qs[0][x];
    assert s[|qs[0]|] == d[0];
    assert |qs[0]| == b;
  }

  /**
   A stretch free of separator elements, right after a separator element, in
   `h + d + t` with `h` avoiding the separator: it lies in `t`, with the same
   surroundings there.
   */
  lemma StretchInTail<T>(h: seq<T>, d: seq<T>, t: seq<T>, a: nat, b: nat)
    requires |d| > 0 && Avoids(h, d)
    requires 0 < a < b < |h + d + t|
    requires (h + d + t)[a - 1] in d && (h + d + t)[b] in d
    requires forall x :: a <= x < b ==> (h + d + t)[x] !in d
    ensures |h| + |d| <= a && b - (|h| + |d|) < |t|
    ensures t[b - (|h| + |d|)] in d
    ensures a > |h| + |d| ==> t[a - (|h| + |d|) - 1] in d
    ensures forall x :: a - (|h| + |d|) <= x < b - (|h| + |d|) ==> t[x] !in d
    ensures (h + d + t)[a..b] == t[a - (|h| + |d|)..b - (|h| + |d|)]
  {
    var s := h + d + t;
    var off := |h| + |d|;
    assert forall x :: 0 <= x < |h| ==> s[x] == h[x] && s[x] !in d;
    assert forall x :: |h| <= x < off ==> s[x] == d[x - |h|] && s[x] in d;
    assert s[a] !in d;
    assert off <= a;
    assert s[off..] == t;
    SliceOfSlice(s, off, a - off, b - off, |t|);
    assert t[b - off] == s[b];
    if a > off {
      assert t[a - off - 1] == s[a - 1];
    }
    forall x | a - off <= x < b - off
      ensures t[x] !in d
    {
      assert t[x] == s[x + off];
    }
  }

  /**
   In a join of pieces that avoid the separator, a non-empty stretch free of
   separator elements, with a separator element right before and right after
   it, is one of the pieces other than the first and the last.
   */
  lemma {:induction false} FreeStretchIsPiece<T>(ps: seq<seq<T>>, d: seq<T>, a: nat, b: nat)
    requires |ps| > 0 && |d| > 0
    requires forall k :: 0 <= k < |ps| ==> Avoids(ps[k], d)
    requires 0 < a < b < |Join(ps, d)|
    requires Join(ps, d)[a - 1] in d && Join(ps, d)[b] in d
    requires forall x :: a <= x < b ==> Join(ps, d)[x] !in d
    ensures exists k :: 1 <= k < |ps| - 1 && ps[k] == Join(ps, d)[a..b]
    decreases |ps|
  {
    if |ps| == 1 {
      assert false;
    }
    var rest := ps[1..];
    var t := Join(rest, d);
    var off := |ps[0]| + |d|;
    JoinCons(ps[0], rest, d);
    assert ps == [ps[0]] + rest;
    StretchInTail(ps[0], d, t, a, b);
    if a == off {
      FreeStartIsFirstPiece(rest, d, b - off);
      assert ps[1] == Join(ps, d)[a..b];
    } else {
      FreeStretchIsPiece(rest, d, a - off, b - off);
      var k :| 1 <= k < |rest| - 1 && rest[k] == t[a - off..b - off];
      assert ps[k + 1] == Join(ps, d)[a..b];
    }
  }

  /**
   In a join of pieces that avoid the separator, a text free of separator
   elements that occurs between two separators is one of the pieces other than
   the first and the last.
   */
  lemma DelimitedTextIsPiece<T>(ps: seq<seq<T>>, d: seq<T>, m: seq<T>, i: nat)
    requires |ps| > 0 && |d| > 0 && |m| > 0 && Avoids(m, d)
    requires forall k :: 0 <= k < |ps| ==> Avoids(ps[k], d)
    ensures OccursAt(Join(ps, d), d + m + d, i) ==> exists k :: 1 <= k < |ps| - 1 && ps[k] == m
  {
    var s := Join(ps, d);
    if OccursAt(s, d + m + d, i) {
      var a := i + |d|;
      var b := a + |m|;
      DelimitedOccurrence(s, d, m, i);
      forall x | a <= x < b
        ensures s[x] !in d
      {
        assert s[x] == s[a..b][x - a];
      }
      FreeStretchIsPiece(ps, d, a, b);
    }
  }

  /** An occurrence of `m` between two separators, element by element. */
  lemma DelimitedOccurrence<T>(s: seq<T>, d: seq<T>, m: seq<T>, i: nat)
    requires |d| > 0 && OccursAt(s, d + m + d, i)
    ensures i + |d| + |m| < |s|
    ensures s[i + |d| - 1] in d && s[i + |d| + |m|] in d
    ensures s[i + |d|..i + |d| + |m|] == m
  {
    var w := d + m + d;
    var o := s[i..i + |w|];
    assert o == w;
    assert s[i + |d| - 1] == o[|d| - 1] == d[|d| - 1];
    assert s[i + |d| + |m|] == o[|d| + |m|] == d[0];
    var u := s[i + |d|..i + |d| + |m|];
    forall x | 0 <= x < |m|
      ensures u[x] == m[x]
    {
      assert u[x] == o[|d| + x] == w[|d| + x];
    }
  }

  /**
   A text free of separator elements that is none of the inner pieces does not
   occur between two separators in the join.
   */
  lemma NoDelimitedText<T>(ps: seq<seq<T>>, d: seq<T>, m: seq<T>)
    requires |ps| > 0 && |d| > 0 && |m| > 0 && Avoids(m, d)
    requires forall k :: 0 <= k < |ps| ==> Avoids(ps[k], d)
    requires forall k :: 1 <= k < |ps| - 1 ==> ps[k] != m
    ensures !Occurs(Join(ps, d), d + m + d)
  {
    forall i | 0 <= i <= |Join(ps, d)| - |d + m + d|
      ensures !OccursAt(Join(ps, d), d + m + d, i)
    {
      DelimitedTextIsPiece(ps, d, m, i);
    }
  }

  /**
   Replaces every occurrence of `p` in `s` by `r`, scanning left to right and
   resuming after each replaced occurrence, as `replacingOccurrences(of:with:)`
   does: the pieces between the occurrences, joined with `r`. An empty pattern
   replaces nothing.
   */
  function ReplaceAll<T(==)>(s: seq<T>, p: seq<T>, r: seq<T>): seq<T> {
    Join(Split(s, p), r)
  }

  /** Replacing a pattern that does not occur changes nothing. */
  lemma ReplaceAllAbsent<T>(s: seq<T>, p: seq<T>, r: seq<T>)
    requires !Occurs(s, p)
    ensures ReplaceAll(s, p, r) == s
  {
    SplitWithoutSeparator(s, p);
  }

  /** Replacing in a sequence that `p` starts puts `r` first and replaces in the rest. */
  lemma ReplaceAllAtFirst<T>(s: seq<T>, p: seq<T>, r: seq<T>)
    requires |p| > 0 && OccursAt(s, p, 0)
    ensures ReplaceAll(s, p, r) == r + ReplaceAll(s[|p|..], p, r)
  {
    FindIsFirst(s, p, 0);
    SplitAt(s, p, 0);
    var rest := Split(s[|p|..], p);
    assert s[..0] == [];
    assert Split(s, p) == [[]] + rest;
    JoinCons([], rest, r);
    assert [] + r == r;
  }

  /** Replacing in a sequence that `p` does not start keeps the first element and replaces in the rest. */
  lemma ReplaceAllAfterFirst<T>(s: seq<T>, p: seq<T>, r: seq<T>)
    requires |s| > 0 && |p| > 0 && !OccursAt(s, p, 0)
    ensures ReplaceAll(s, p, r) == [s[0]] + ReplaceAll(s[1..], p, r)
  {
    SplitAfterFirst(s, p);
    JoinPrepend([s[0]], Split(s[1..], p), r);
  }

  /** `replaceAll` on an element that does not start the pattern, in front of the rest. */
  lemma ReplaceAllCons<T>(x: T, s: seq<T>, p: seq<T>, r: seq<T>)
    requires |p| > 0 && x != p[0]
    ensures ReplaceAll([x] + s, p, r) == [x] + ReplaceAll(s, p, r)
  {
    var t := [x] + s;
    assert t[0] == x && t[1..] == s;
    if |p| <= |t| {
      assert t[..|p|][0] == x;
    }
    ReplaceAllAfterFirst(t, p, r);
  }

  /** `replaceAll` on the pattern in front of the rest. */
  lemma ReplaceAllFront<T>(s: seq<T>, p: seq<T>, r: seq<T>)
    requires |p| > 0
    ensures ReplaceAll(p + s, p, r) == r + ReplaceAll(s, p, r)
  {
    var t := p + s;
    assert t[..|p|] == p && t[|p|..] == s;
    ReplaceAllAtFirst(t, p, r);
  }

  /** Replacing with something no longer never lengthens, and with something shorter shortens whenever there is an occurrence. */
  lemma {:induction false} ReplaceAllLength<T>(s: seq<T>, p: seq<T>, r: seq<T>)
    requires |r| <= |p|
    decreases |s|
    ensures |ReplaceAll(s, p, r)| <= |s|
    ensures |r| < |p| && Occurs(s, p) ==> |ReplaceAll(s, p, r)| < |s|
  {
    if |p| > 0 {
      match Find(s, p)
      case None =>
        assert Split(s, p) == [s];
      case Some(i) =>
        var rest := s[i + |p|..];
        SplitAt(s, p, i);
        JoinCons(s[..i], Split(rest, p), r);
        ReplaceAllLength(rest, p, r);
    }
  }

  /** Replacing with something shorter leaves a sequence unchanged exactly when the pattern does not occur. */
  lemma ReplaceAllUnchanged<T>(s: seq<T>, p: seq<T>, r: seq<T>)
    requires |r| < |p|
    ensures ReplaceAll(s, p, r) == s <==> !Occurs(s, p)
  {
    ReplaceAllLength(s, p, r);
    if !Occurs(s, p) {
      ReplaceAllAbsent(s, p, r);
    }
  }

  /** A sequence shorter than the pattern does not contain it. */
  lemma ShorterNotOccurs<T>(s: seq<T>, p: seq<T>)
    requires |s| < |p|
    ensures !Occurs(s, p)
  {
  }

  /** `replaceAll` passes over a front free of the pattern's first element. */
  lemma {:induction false} ReplaceAllSkips<T>(a: seq<T>, s: seq<T>, p: seq<T>, r: seq<T>)
    requires |p| > 0 && p[0] !in a
    ensures ReplaceAll(a + s, p, r) == a + ReplaceAll(s, p, r)
    decreases |a|
  {
    if |a| == 0 {
      assert a + s == s;
    } else {
      var t := a[1..] + s;
      assert a + s == [a[0]] + t;
      assert ReplaceAll(a + s, p, r) == [a[0]] + ReplaceAll(t, p, r) by {
        ReplaceAllCons(a[0], t, p, r);
      }
      assert ReplaceAll(t, p, r) == a[1..] + ReplaceAll(s, p, r) by {
        ReplaceAllSkips(a[1..], s, p, r);
      }
      ConcatAssoc([a[0]], a[1..], ReplaceAll(s, p, r));
      assert [a[0]] + a[1..] == a;
    }
  }


  /** The concatenation of all chunks, in order. */
  function Flatten<T>(chunks: seq<seq<T>>): seq<T>
    decreases |chunks|
  {
    if |chunks| == 0 then [] else chunks[0] + Flatten(chunks[1..])
  }

  /** The total number of elements in all chunks. */
  function TotalSize<T>(chunks: seq<seq<T>>): (n: nat)
    decreases |chunks|
    ensures n == |Flatten(chunks)|
  {
    if |chunks| == 0 then 0 else |chunks[0]| + TotalSize(chunks[1..])
  }
}
