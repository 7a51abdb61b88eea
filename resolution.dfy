/**
 * The quote-resolution fold. For every class of the catalog, in order,
 * every ticker is searched and its history over the download window is
 * retrieved; the last close of a successful retrieval is appended to the
 * class's frame and the ticker to the class's index list, while a failed
 * retrieval skips the ticker. A failed search is not caught and ends the
 * whole run. Finally the frame is re-indexed by the list of tickers.
 */
module Resolution {
  import opened Wrappers
  import opened Catalog

  /** What the market-data client gives for one ticker over the window. */
  datatype Retrieval =
    | Quoted(close: real)  // the close of the last row of the history
    | Unavailable          // the history retrieval raised: caught, ticker skipped
    | SearchFailed         // the search raised: not caught, the run ends

  /** The market-data client for the run's download window. */
  type QuoteSource = (AssetClass, string) -> Retrieval

  /** One row of a class's frame once re-indexed: a name and its close. */
  datatype Row = Row(name: string, close: real)

  function Names(rows: seq<Row>): seq<string>
  {
    seq(|rows|, k requires 0 <= k < |rows| => rows[k].name)
  }

  function Closes(rows: seq<Row>): seq<real>
  {
    seq(|rows|, k requires 0 <= k < |rows| => rows[k].close)
  }

  /** `set_index`: the column of closes labelled by a list of names of the same length. */
  function Zip(names: seq<string>, closes: seq<real>): (rows: seq<Row>)
    requires |names| == |closes|
    ensures Names(rows) == names && Closes(rows) == closes
  {
    seq(|names|, k requires 0 <= k < |names| => Row(names[k], closes[k]))
  }

  lemma NamesAppend(a: seq<Row>, b: seq<Row>)
    ensures Names(a + b) == Names(a) + Names(b)
  {
  }

  lemma ZipNamesCloses(rows: seq<Row>)
    ensures Zip(Names(rows), Closes(rows)) == rows
  {
  }

  /** The rows a class's frame ends up with: the quoted tickers of `ts`, in order, with their closes. */
  function ResolvedRows(c: AssetClass, ts: seq<string>, q: QuoteSource): (rows: seq<Row>)
    ensures |rows| <= |ts|
  {
    if ts == [] then []
    else
      var rest := ResolvedRows(c, ts[..|ts| - 1], q);
      match q(c, ts[|ts| - 1])
      case Quoted(v) => rest + [Row(ts[|ts| - 1], v)]
      case _ => rest
  }

  /** No search among `ts` raises. */
  predicate AllSearched(c: AssetClass, ts: seq<string>, q: QuoteSource)
  {
    forall k :: 0 <= k < |ts| ==> !q(c, ts[k]).SearchFailed?
  }

  /** No search in the whole catalog raises, so the run gets past resolution. */
  predicate SearchSucceeds(q: QuoteSource)
  {
    forall c :: AllSearched(c, Tickers(c), q)
  }

  /** The state resolution leaves behind: `ind` and `df_assets`, both keyed by class. */
  datatype Snapshot = Snapshot(ind: PerClass<seq<string>>, frames: PerClass<seq<Row>>)

  /** Each class's index list names its frame's rows, one to one and in order. */
  predicate Aligned(snap: Snapshot)
  {
    forall c :: Names(snap.frames.Get(c)) == snap.ind.Get(c)
  }

  /** The snapshot resolution is specified to produce. */
  function Expected(q: QuoteSource): (snap: Snapshot)
    ensures Aligned(snap)
  {
    var frames := PerClass(
      ResolvedRows(Bonds, Tickers(Bonds), q),
      ResolvedRows(Indices, Tickers(Indices), q),
      ResolvedRows(Commodities, Tickers(Commodities), q));
    Snapshot(PerClass(Names(frames.bonds), Names(frames.indices), Names(frames.commodities)), frames)
  }

  /**
   * The inner loop, over the tickers of one class: `ok` is false when a
   * search raised; otherwise `names` is the class's index list and `frame`
   * its frame after `set_index`.
   */
  method ResolveClass(c: AssetClass, ts: seq<string>, q: QuoteSource) returns (ok: bool, names: seq<string>, frame: seq<Row>)
    ensures ok == AllSearched(c, ts, q)
    ensures ok ==> frame == ResolvedRows(c, ts, q) && names == Names(frame)
  {
    var closes: seq<real> := [];
    names := [];
    var j := 0;
    while j < |ts|
      invariant 0 <= j <= |ts|
      invariant AllSearched(c, ts[..j], q)
      invariant names == Names(ResolvedRows(c, ts[..j], q))
      invariant closes == Closes(ResolvedRows(c, ts[..j], q))
    {
      var t := ts[j];
      assert ts[..j + 1][..j] == ts[..j] && ts[..j + 1][j] == t;
      match q(c, t) {
        case SearchFailed =>
          assert ts[j] == t && q(c, ts[j]).SearchFailed?;
          return false, names, [];
        case Unavailable =>
        case Quoted(v) =>
          closes := closes + [v];
          names := names + [t];
      }
      j := j + 1;
    }
    assert ts[..j] == ts;
    ZipNamesCloses(ResolvedRows(c, ts, q));
    ok, frame := true, Zip(names, closes);
  }

  /**
   * The outer loop, over the classes in catalog order. The result is the
   * expected snapshot when every search succeeds, and `None`, the uncaught
   * search error, otherwise.
   */
  method ResolveAll(q: QuoteSource) returns (r: Option<Snapshot>)
    ensures r == if SearchSucceeds(q) then Some(Expected(q)) else None
  {
    var ind: PerClass<seq<string>> := PerClass([], [], []);
    var frames: PerClass<seq<Row>> := PerClass([], [], []);
    var i := 0;
    while i < |ClassOrder|
      invariant 0 <= i <= |ClassOrder|
      invariant forall k :: 0 <= k < i ==> ClassDone(ClassOrder[k], ind.Get(ClassOrder[k]), frames.Get(ClassOrder[k]), q)
    {
      var c := ClassOrder[i];
      var ok, names, frame := ResolveClass(c, Tickers(c), q);
      if !ok {
        return None;
      }
      assert forall k :: 0 <= k < i ==> ClassOrder[k] != c;
      ind := ind.Set(c, names);
      frames := frames.Set(c, frame);
      i := i + 1;
    }
    assert ClassDone(Bonds, ind.bonds, frames.bonds, q) by {
      assert ClassOrder[0] == Bonds;
    }
    assert ClassDone(Indices, ind.indices, frames.indices, q) by {
      assert ClassOrder[1] == Indices;
    }
    assert ClassDone(Commodities, ind.commodities, frames.commodities, q) by {
      assert ClassOrder[2] == Commodities;
    }
    AllDone(ind, frames, q);
    r := Some(Snapshot(ind, frames));
  }

  /** Resolution of class `c` ran through and left `names` and `frame` as specified. */
  predicate ClassDone(c: AssetClass, names: seq<string>, frame: seq<Row>, q: QuoteSource)
  {
    AllSearched(c, Tickers(c), q) && frame == ResolvedRows(c, Tickers(c), q) && names == Names(frame)
  }

  lemma AllDone(ind: PerClass<seq<string>>, frames: PerClass<seq<Row>>, q: QuoteSource)
    requires ClassDone(Bonds, ind.bonds, frames.bonds, q)
    requires ClassDone(Indices, ind.indices, frames.indices, q)
    requires ClassDone(Commodities, ind.commodities, frames.commodities, q)
    ensures SearchSucceeds(q) && Snapshot(ind, frames) == Expected(q)
  {
    forall c ensures AllSearched(c, Tickers(c), q) {
      match c
      case Bonds =>
      case Indices =>
      case Commodities =>
    }
  }

  // ---------------------------------------------------------------------------
  // What a class's resolved rows are

  /** `xs` is a subsequence of `ys`: it can be had from `ys` by deleting elements. */
  predicate IsSubseq<T(==)>(xs: seq<T>, ys: seq<T>)
  {
    if xs == [] then true
    else if ys == [] then false
    else if xs[0] == ys[0] then IsSubseq(xs[1..], ys[1..])
    else IsSubseq(xs, ys[1..])
  }

  lemma {:induction false} SubseqExtend<T>(xs: seq<T>, ys: seq<T>, y: T)
    requires IsSubseq(xs, ys)
    ensures IsSubseq(xs, ys + [y]) && IsSubseq(xs + [y], ys + [y])
  {
    if ys == [] {
      assert xs == [];
      assert xs + [y] == [y];
      assert [y][1..] == [];
    } else if xs == [] {
      assert xs + [y] == [y];
      if ys[0] == y {
        assert [y][1..] == [];
      } else {
        assert (ys + [y])[1..] == ys[1..] + [y];
        SubseqExtend(xs, ys[1..], y);
      }
    } else {
      assert (ys + [y])[1..] == ys[1..] + [y];
      assert (xs + [y])[1..] == xs[1..] + [y];
      if xs[0] == ys[0] {
        SubseqExtend(xs[1..], ys[1..], y);
      } else {
        SubseqExtend(xs, ys[1..], y);
      }
    }
  }

  /** A class's index list is a subsequence of the class's catalog list. */
  lemma {:induction false} ResolvedSubsequence(c: AssetClass, ts: seq<string>, q: QuoteSource)
    ensures IsSubseq(Names(ResolvedRows(c, ts, q)), ts)
  {
    if ts != [] {
      var init, t := ts[..|ts| - 1], ts[|ts| - 1];
      assert ts == init + [t];
      ResolvedSubsequence(c, init, q);
      var rest := ResolvedRows(c, init, q);
      SubseqExtend(Names(rest), init, t);
      if q(c, t).Quoted? {
        assert Names(rest + [Row(t, q(c, t).close)]) == Names(rest) + [t];
      }
    }
  }

  /** A ticker is in a class's index list exactly when it is in the class's list and was quoted. */
  lemma {:induction false} ResolvedMembers(c: AssetClass, ts: seq<string>, q: QuoteSource, t: string)
    ensures t in Names(ResolvedRows(c, ts, q)) <==> t in ts && q(c, t).Quoted?
  {
    if ts != [] {
      var init, u := ts[..|ts| - 1], ts[|ts| - 1];
      assert ts == init + [u];
      ResolvedMembers(c, init, q, t);
      var rest := ResolvedRows(c, init, q);
      if q(c, u).Quoted? {
        assert Names(rest + [Row(u, q(c, u).close)]) == Names(rest) + [u];
      }
    }
  }

  /** Every resolved row carries the close its own retrieval returned. */
  lemma {:induction false} ResolvedValues(c: AssetClass, ts: seq<string>, q: QuoteSource)
    ensures forall k :: 0 <= k < |ResolvedRows(c, ts, q)| ==>
      q(c, ResolvedRows(c, ts, q)[k].name) == Quoted(ResolvedRows(c, ts, q)[k].close)
  {
    if ts != [] {
      ResolvedValues(c, ts[..|ts| - 1], q);
    }
  }

  /** Resolving a list in two parts gives the two parts' rows one after the other. */
  lemma {:induction false} ResolvedAppend(c: AssetClass, a: seq<string>, b: seq<string>, q: QuoteSource)
    ensures ResolvedRows(c, a + b, q) == ResolvedRows(c, a, q) + ResolvedRows(c, b, q)
  {
    if b == [] {
      assert a + b == a;
    } else {
      var init, t := b[..|b| - 1], b[|b| - 1];
      assert (a + b)[..|a + b| - 1] == a + init;
      assert (a + b)[|a + b| - 1] == t;
      ResolvedAppend(c, a, init, q);
    }
  }

  /** A quoted first ticker gives the first row. */
  lemma ResolvedHead(c: AssetClass, ts: seq<string>, q: QuoteSource)
    requires ts != [] && q(c, ts[0]).Quoted?
    ensures ResolvedRows(c, ts, q) == [Row(ts[0], q(c, ts[0]).close)] + ResolvedRows(c, ts[1..], q)
  {
    assert ts == [ts[0]] + ts[1..];
    ResolvedAppend(c, [ts[0]], ts[1..], q);
    assert [ts[0]][..0] == [];
  }

  /** When every retrieval of a class succeeds, its index list is its whole catalog list. */
  lemma {:induction false} ResolvedAllQuoted(c: AssetClass, ts: seq<string>, q: QuoteSource)
    requires forall k :: 0 <= k < |ts| ==> q(c, ts[k]).Quoted?
    ensures Names(ResolvedRows(c, ts, q)) == ts
  {
    if ts != [] {
      var init, t := ts[..|ts| - 1], ts[|ts| - 1];
      assert ts == init + [t];
      ResolvedAllQuoted(c, init, q);
      var rest := ResolvedRows(c, init, q);
      assert Names(rest + [Row(t, q(c, t).close)]) == Names(rest) + [t];
    }
  }

  /** When no retrieval of a class succeeds, the class contributes no row. */
  lemma {:induction false} ResolvedNoneQuoted(c: AssetClass, ts: seq<string>, q: QuoteSource)
    requires forall k :: 0 <= k < |ts| ==> !q(c, ts[k]).Quoted?
    ensures ResolvedRows(c, ts, q) == []
  {
    if ts != [] {
      ResolvedNoneQuoted(c, ts[..|ts| - 1], q);
    }
  }

  /** A class's frame is empty exactly when none of its tickers was quoted. */
  lemma ResolvedEmpty(c: AssetClass, ts: seq<string>, q: QuoteSource)
    ensures ResolvedRows(c, ts, q) == [] <==> forall k :: 0 <= k < |ts| ==> !q(c, ts[k]).Quoted?
  {
    if forall k :: 0 <= k < |ts| ==> !q(c, ts[k]).Quoted? {
      ResolvedNoneQuoted(c, ts, q);
    } else {
      var k :| 0 <= k < |ts| && q(c, ts[k]).Quoted?;
      ResolvedMembers(c, ts, q, ts[k]);
    }
  }

  /** A catalog list without repeats gives an index list without repeats. */
  lemma {:induction false} ResolvedDistinct(c: AssetClass, ts: seq<string>, q: QuoteSource)
    requires Distinct(ts)
    ensures Distinct(Names(ResolvedRows(c, ts, q)))
  {
    if ts != [] {
      var init, t := ts[..|ts| - 1], ts[|ts| - 1];
      assert ts == init + [t];
      ResolvedDistinct(c, init, q);
      var rest := ResolvedRows(c, init, q);
      if q(c, t).Quoted? {
        ResolvedMembers(c, init, q, t);
        assert t !in init;
        assert Names(rest + [Row(t, q(c, t).close)]) == Names(rest) + [t];
      }
    }
  }

  // ---------------------------------------------------------------------------
  // Failure isolation

  /** The rows not named `t`, in order. */
  function Without(rows: seq<Row>, t: string): (r: seq<Row>)
    ensures |r| <= |rows|
  {
    if rows == [] then []
    else Without(rows[..|rows| - 1], t) + (if rows[|rows| - 1].name == t then [] else [rows[|rows| - 1]])
  }

  /** `q2` is `q` except that the retrieval of `t` in class `c` fails. */
  ghost predicate FailsOnly(q: QuoteSource, q2: QuoteSource, c: AssetClass, t: string)
  {
    && q2(c, t) == Unavailable
    && (forall u :: u != t ==> q2(c, u) == q(c, u))
    && (forall c', u :: c' != c ==> q2(c', u) == q(c', u))
  }

  /**
   * One failed retrieval removes that ticker's row and no other: every
   * other row, its close and its position relative to the rest stay as they were.
   */
  lemma {:induction false} ResolvedIsolation(c: AssetClass, ts: seq<string>, q: QuoteSource, q2: QuoteSource, t: string)
    requires FailsOnly(q, q2, c, t)
    ensures ResolvedRows(c, ts, q2) == Without(ResolvedRows(c, ts, q), t)
  {
    if ts != [] {
      var init, u := ts[..|ts| - 1], ts[|ts| - 1];
      ResolvedIsolation(c, init, q, q2, t);
      var rest := ResolvedRows(c, init, q);
      if u != t && q(c, u).Quoted? {
        var row := Row(u, q(c, u).close);
        assert (rest + [row])[..|rest + [row]| - 1] == rest;
      } else if u == t && q(c, u).Quoted? {
        var row := Row(u, q(c, u).close);
        assert (rest + [row])[..|rest + [row]| - 1] == rest;
      }
    }
  }

  /**
   * At the level of the whole run: a failed retrieval leaves the searches
   * as they were, drops one row and one index entry from its own class and
   * changes no other class.
   */
  lemma ExpectedIsolation(q: QuoteSource, q2: QuoteSource, c: AssetClass, t: string)
    requires FailsOnly(q, q2, c, t)
    requires SearchSucceeds(q)
    ensures SearchSucceeds(q2)
    ensures Expected(q2).frames.Get(c) == Without(Expected(q).frames.Get(c), t)
    ensures forall c' :: c' != c ==> Expected(q2).frames.Get(c') == Expected(q).frames.Get(c')
  {
    ResolvedIsolation(c, Tickers(c), q, q2, t);
    forall c' | c' != c ensures ResolvedRows(c', Tickers(c'), q2) == ResolvedRows(c', Tickers(c'), q) {
      ResolvedSameSource(c', Tickers(c'), q, q2);
    }
    forall c' ensures AllSearched(c', Tickers(c'), q2) {
      assert AllSearched(c', Tickers(c'), q);
    }
  }

  /** A class's rows depend only on that class's retrievals. */
  lemma {:induction false} ResolvedSameSource(c: AssetClass, ts: seq<string>, q: QuoteSource, q2: QuoteSource)
    requires forall u :: q2(c, u) == q(c, u)
    ensures ResolvedRows(c, ts, q2) == ResolvedRows(c, ts, q)
  {
    if ts != [] {
      ResolvedSameSource(c, ts[..|ts| - 1], q, q2);
    }
  }
}
