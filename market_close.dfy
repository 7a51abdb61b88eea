/**
 * One report run, `get_market_close(tg_date)` up to the hand-over to the
 * renderers: derive the download window from the request, resolve every
 * catalog ticker, add the bond spreads, and assemble the labelled summary.
 */
module MarketClose {
  import opened Wrappers
  import opened Catalog
  import opened Dates
  import opened Resolution
  import opened Spreads
  import opened Report

  /** The market-data client: for each download window, what each ticker gives. */
  type Market = Window -> QuoteSource

  /** How a run ends. */
  datatype Outcome =
    | BadDate                                   // `strptime` raised on the close date
    | SearchAborted                             // a ticker search raised
    | EmptyReport                               // no class had a row, so `pd.concat([])` raised
    | Summarised(window: Window, rows: seq<ReportRow>)

  /** The specification of a run, step by step as the source takes them. */
  function Run(s: string, market: Market): (r: Outcome)
    ensures r == BadDate <==> DownloadWindow(s).None?
    ensures r == SearchAborted <==> DownloadWindow(s).Some? && !SearchSucceeds(market(DownloadWindow(s).value))
    ensures r.Summarised? ==> DownloadWindow(s) == Some(r.window) && r.rows != []
  {
    match DownloadWindow(s)
    case None => BadDate
    case Some(w) =>
      var q := market(w);
      if !SearchSucceeds(q) then SearchAborted
      else
        var snap := Expected(q);
        var bonds := snap.frames.bonds + SpreadRows(snap.frames.bonds);
        match Summary(snap.frames.Set(Bonds, bonds), snap.ind.Set(Bonds, Names(bonds)))
        case None => EmptyReport
        case Some(rows) => Summarised(w, rows)
  }

  /** Neither spread name can be a resolved bond ticker. */
  lemma SpreadNamesFree(q: QuoteSource)
    ensures Spread10x2 !in Names(ResolvedRows(Bonds, Tickers(Bonds), q))
    ensures Spread20x5 !in Names(ResolvedRows(Bonds, Tickers(Bonds), q))
  {
    ResolvedMembers(Bonds, Tickers(Bonds), q, Spread10x2);
    ResolvedMembers(Bonds, Tickers(Bonds), q, Spread20x5);
  }

  /** The data part of `get_market_close`. */
  method GetMarketClose(s: string, market: Market) returns (out: Outcome)
    ensures out == Run(s, market)
  {
    var window := DownloadWindow(s);
    if window.None? {
      return BadDate;
    }
    var w := window.value;
    var q := market(w);
    var resolved := ResolveAll(q);
    if resolved.None? {
      return SearchAborted;
    }
    var snap := resolved.value;
    SpreadNamesFree(q);
    var bondsInd, bondsFrame := AddSpreads(snap.ind.bonds, snap.frames.bonds);
    var summary := Summary(snap.frames.Set(Bonds, bondsFrame), snap.ind.Set(Bonds, bondsInd));
    if summary.None? {
      return EmptyReport;
    }
    out := Summarised(w, summary.value);
  }

  // ---------------------------------------------------------------------------
  // What a run produces

  /** The bonds frame after the spread step: the resolved tenors, then the spreads. */
  function BondsWithSpreads(q: QuoteSource): seq<Row>
  {
    var f := ResolvedRows(Bonds, Tickers(Bonds), q);
    f + SpreadRows(f)
  }

  /** The report rows, one labelled block per class in class order. */
  function ReportRows(q: QuoteSource): seq<ReportRow>
  {
    Labelled(Bonds, BondsWithSpreads(q))
    + Labelled(Indices, ResolvedRows(Indices, Tickers(Indices), q))
    + Labelled(Commodities, ResolvedRows(Commodities, Tickers(Commodities), q))
  }

  /**
   * A run fails on a bad close date, then on a failed search, then on an
   * empty report; otherwise it yields the labelled rows of every class,
   * bonds with their spreads first, then indices, then commodities.
   */
  lemma RunOutcome(s: string, market: Market)
    ensures Run(s, market) ==
      match DownloadWindow(s)
      case None => BadDate
      case Some(w) =>
        if !SearchSucceeds(market(w)) then SearchAborted
        else if ReportRows(market(w)) == [] then EmptyReport
        else Summarised(w, ReportRows(market(w)))
  {
    match DownloadWindow(s)
    case None =>
    case Some(w) =>
      var q := market(w);
      if SearchSucceeds(q) {
        var snap := Expected(q);
        var bonds := BondsWithSpreads(q);
        var snap' := Snapshot(snap.ind.Set(Bonds, Names(bonds)), snap.frames.Set(Bonds, bonds));
        assert Aligned(snap') by {
          forall c ensures Names(snap'.frames.Get(c)) == snap'.ind.Get(c) {
            if c != Bonds {
              assert Names(snap.frames.Get(c)) == snap.ind.Get(c);
            }
          }
        }
        SummaryAligned(snap');
        var f := snap'.frames;
        assert |ReportRows(q)| == |f.bonds + f.indices + f.commodities|;
      }
  }

  /** Every report row carries a label, and the labels follow the class order without interleaving. */
  lemma ReportGroupsMonotone(q: QuoteSource)
    ensures forall k :: 0 <= k < |ReportRows(q)| ==> ReportRows(q)[k].group.Some?
    ensures forall k, m :: 0 <= k <= m < |ReportRows(q)| ==>
      LabelRank(ReportRows(q)[k].group.value) <= LabelRank(ReportRows(q)[m].group.value)
  {
    LabelledMonotone(BondsWithSpreads(q), ResolvedRows(Indices, Tickers(Indices), q),
      ResolvedRows(Commodities, Tickers(Commodities), q));
  }

  /** The number of report rows is the number of resolved tickers plus the number of spreads. */
  lemma ReportCount(q: QuoteSource)
    ensures |ReportRows(q)| ==
      |Expected(q).ind.bonds| + |SpreadRows(Expected(q).frames.bonds)|
      + |Expected(q).ind.indices| + |Expected(q).ind.commodities|
  {
  }

  /** The names column of the report. */
  function RowNames(rows: seq<ReportRow>): (r: seq<string>)
    ensures |r| == |rows|
  {
    seq(|rows|, k requires 0 <= k < |rows| => rows[k].name)
  }

  /** The report's names column is the resolved names of each class, the spreads after the bonds. */
  lemma ReportNames(q: QuoteSource)
    ensures var fb := ResolvedRows(Bonds, Tickers(Bonds), q);
      RowNames(ReportRows(q)) == Names(fb) + Names(SpreadRows(fb))
        + Names(ResolvedRows(Indices, Tickers(Indices), q)) + Names(ResolvedRows(Commodities, Tickers(Commodities), q))
  {
    var fb := ResolvedRows(Bonds, Tickers(Bonds), q);
    var b := BondsWithSpreads(q);
    var fi := ResolvedRows(Indices, Tickers(Indices), q);
    var fc := ResolvedRows(Commodities, Tickers(Commodities), q);
    var lb, li, lc := Labelled(Bonds, b), Labelled(Indices, fi), Labelled(Commodities, fc);
    assert RowNames(lb) == Names(b);
    assert RowNames(li) == Names(fi);
    assert RowNames(lc) == Names(fc);
    assert RowNames(lb + li + lc) == RowNames(lb) + RowNames(li) + RowNames(lc);
    NamesAppend(fb, SpreadRows(fb));
  }

  lemma DistinctAppend(xs: seq<string>, ys: seq<string>)
    requires Distinct(xs) && Distinct(ys)
    requires forall x :: x in xs ==> x !in ys
    ensures Distinct(xs + ys)
  {
    forall i, j | 0 <= i < j < |xs + ys| ensures (xs + ys)[i] != (xs + ys)[j] {
      if j >= |xs| && i < |xs| {
        assert (xs + ys)[i] in xs && (xs + ys)[j] in ys;
      }
    }
  }

  /** The resolved names of a class all come from that class's catalog list. */
  lemma ResolvedFromCatalog(c: AssetClass, q: QuoteSource)
    ensures forall t :: t in Names(ResolvedRows(c, Tickers(c), q)) ==> t in Tickers(c)
  {
    forall t | t in Names(ResolvedRows(c, Tickers(c), q)) ensures t in Tickers(c) {
      ResolvedMembers(c, Tickers(c), q, t);
    }
  }

  /** No ticker belongs to two classes, and neither spread name is a ticker. */
  lemma TickersDisjoint()
    ensures forall t :: t in Tickers(Bonds) ==> t !in Tickers(Indices) && t !in Tickers(Commodities)
    ensures forall t :: t in Tickers(Indices) ==> t !in Tickers(Commodities)
    ensures forall c :: Spread10x2 !in Tickers(c) && Spread20x5 !in Tickers(c)
  {
    CatalogDistinct();
    var all := AllTickers() + [Spread10x2, Spread20x5];
    assert forall k :: 0 <= k < 8 ==> Tickers(Bonds)[k] == all[k];
    assert forall k :: 0 <= k < 5 ==> Tickers(Indices)[k] == all[8 + k];
    assert forall k :: 0 <= k < 2 ==> Tickers(Commodities)[k] == all[13 + k];
    assert all[15] == Spread10x2 && all[16] == Spread20x5;
  }

  /** Each class's resolved names are distinct, come from that class's catalog list, and are never a spread name. */
  lemma ClassNames(c: AssetClass, q: QuoteSource)
    ensures Distinct(Names(ResolvedRows(c, Tickers(c), q)))
    ensures forall t :: t in Names(ResolvedRows(c, Tickers(c), q)) ==> t in Tickers(c)
  {
    CatalogDistinct();
    var all := AllTickers() + [Spread10x2, Spread20x5];
    assert Tickers(c) == match c case Bonds => all[..8] case Indices => all[8..13] case Commodities => all[13..15];
    ResolvedDistinct(c, Tickers(c), q);
    ResolvedFromCatalog(c, q);
  }

  lemma DistinctFour(a: seq<string>, b: seq<string>, c: seq<string>, d: seq<string>)
    requires Distinct(a) && Distinct(b) && Distinct(c) && Distinct(d)
    requires forall t :: t in a ==> t !in b && t !in c && t !in d
    requires forall t :: t in b ==> t !in c && t !in d
    requires forall t :: t in c ==> t !in d
    ensures Distinct(a + b + c + d)
  {
    DistinctAppend(c, d);
    DistinctAppend(b, c + d);
    DistinctAppend(a, b + (c + d));
    assert a + b + c + d == a + (b + (c + d));
  }

  /** The spread names of the bonds frame are distinct and are not tickers. */
  lemma SpreadNames(q: QuoteSource)
    ensures var ns := Names(SpreadRows(ResolvedRows(Bonds, Tickers(Bonds), q)));
      && Distinct(ns)
      && forall t :: t in ns ==> forall c :: t !in Tickers(c)
  {
    var fb := ResolvedRows(Bonds, Tickers(Bonds), q);
    SpreadLayout(fb);
    TickersDisjoint();
    var ns := Names(SpreadRows(fb));
    assert forall t :: t in ns ==> t == Spread10x2 || t == Spread20x5;
  }

  /** No name appears twice in a report: at most one row per ticker or spread. */
  lemma ReportNamesDistinct(q: QuoteSource)
    ensures Distinct(RowNames(ReportRows(q)))
  {
    var fb := ResolvedRows(Bonds, Tickers(Bonds), q);
    var nb, ns := Names(fb), Names(SpreadRows(fb));
    var ni, nc := Names(ResolvedRows(Indices, Tickers(Indices), q)), Names(ResolvedRows(Commodities, Tickers(Commodities), q));
    ReportNames(q);
    TickersDisjoint();
    ClassNames(Bonds, q);
    ClassNames(Indices, q);
    ClassNames(Commodities, q);
    SpreadNames(q);
    DistinctFour(nb, ns, ni, nc);
  }

  /**
   * A report names `10-2` exactly when both the 10- and the 2-year yield
   * were quoted, and `20-5` exactly when both the 20- and the 5-year were.
   */
  lemma ReportSpreadPresence(q: QuoteSource)
    ensures Spread10x2 in RowNames(ReportRows(q)) <==> q(Bonds, Long10).Quoted? && q(Bonds, Short2).Quoted?
    ensures Spread20x5 in RowNames(ReportRows(q)) <==> q(Bonds, Long20).Quoted? && q(Bonds, Short5).Quoted?
  {
    var fb := ResolvedRows(Bonds, Tickers(Bonds), q);
    var nb, ns := Names(fb), Names(SpreadRows(fb));
    var ni, nc := Names(ResolvedRows(Indices, Tickers(Indices), q)), Names(ResolvedRows(Commodities, Tickers(Commodities), q));
    ReportNames(q);
    SpreadNamesFree(q);
    SpreadsOfResolved(q);
    TickersDisjoint();
    ClassNames(Indices, q);
    ClassNames(Commodities, q);
    InFour(nb, ns, ni, nc, Spread10x2);
    InFour(nb, ns, ni, nc, Spread20x5);
  }

  lemma InFour(a: seq<string>, b: seq<string>, c: seq<string>, d: seq<string>, x: string)
    ensures x in a + b + c + d <==> x in a || x in b || x in c || x in d
  {
  }

  /** A report is empty exactly when every class's frame is. */
  lemma ReportEmptyFrames(q: QuoteSource)
    ensures ReportRows(q) == [] <==> forall c :: ResolvedRows(c, Tickers(c), q) == []
  {
    var fb := ResolvedRows(Bonds, Tickers(Bonds), q);
    var fi := ResolvedRows(Indices, Tickers(Indices), q);
    var fc := ResolvedRows(Commodities, Tickers(Commodities), q);
    assert fb == [] ==> SpreadRows(fb) == [];
    assert |ReportRows(q)| == |fb| + |SpreadRows(fb)| + |fi| + |fc|;
    if fb == [] && fi == [] && fc == [] {
      forall c ensures ResolvedRows(c, Tickers(c), q) == [] {
        match c
        case Bonds =>
        case Indices =>
        case Commodities =>
      }
    }
  }

  /** A report is empty exactly when no ticker of any class was quoted. */
  lemma ReportEmpty(q: QuoteSource)
    ensures ReportRows(q) == [] <==>
      forall c, k :: 0 <= k < |Tickers(c)| ==> !q(c, Tickers(c)[k]).Quoted?
  {
    ReportEmptyFrames(q);
    forall c ensures ResolvedRows(c, Tickers(c), q) == [] <==>
      forall k :: 0 <= k < |Tickers(c)| ==> !q(c, Tickers(c)[k]).Quoted?
    {
      ResolvedEmpty(c, Tickers(c), q);
    }
  }

  // ---------------------------------------------------------------------------
  // Worked cases

  /**
   * Every bond tenor quoted, with 3.00 for the 10-year, 2.50 for the 2-year,
   * 2.80 for the 5-year and 3.40 for the 20-year: the bonds block is the
   * eight tenors followed by `10-2` at 0.50 and `20-5` at 0.60.
   */
  lemma AllBondsQuoted(q: QuoteSource)
    requires forall k :: 0 <= k < |Tickers(Bonds)| ==> q(Bonds, Tickers(Bonds)[k]).Quoted?
    requires q(Bonds, Long10) == Quoted(3.00) && q(Bonds, Short2) == Quoted(2.50)
    requires q(Bonds, Short5) == Quoted(2.80) && q(Bonds, Long20) == Quoted(3.40)
    ensures var f := ResolvedRows(Bonds, Tickers(Bonds), q);
      && Names(f) == Tickers(Bonds)
      && BondsWithSpreads(q) == f + [Row(Spread10x2, 0.50), Row(Spread20x5, 0.60)]
  {
    var f := ResolvedRows(Bonds, Tickers(Bonds), q);
    AllTenorsResolved(q);
    BothSpreads(f, 3.00, 2.50, 3.40, 2.80);
  }

  /** With every tenor quoted, the bonds frame holds every tenor at its quoted close. */
  lemma AllTenorsResolved(q: QuoteSource)
    requires forall k :: 0 <= k < |Tickers(Bonds)| ==> q(Bonds, Tickers(Bonds)[k]).Quoted?
    ensures var f := ResolvedRows(Bonds, Tickers(Bonds), q);
      && Names(f) == Tickers(Bonds)
      && Long10 in Names(f) && Short2 in Names(f) && Long20 in Names(f) && Short5 in Names(f)
      && q(Bonds, Long10) == Quoted(CloseOf(f, Long10)) && q(Bonds, Short2) == Quoted(CloseOf(f, Short2))
      && q(Bonds, Long20) == Quoted(CloseOf(f, Long20)) && q(Bonds, Short5) == Quoted(CloseOf(f, Short5))
  {
    var ts := Tickers(Bonds);
    ResolvedAllQuoted(Bonds, ts, q);
    assert ts[1] == Short2 && ts[3] == Short5 && ts[5] == Long10 && ts[6] == Long20;
    CloseOfResolved(Bonds, ts, q, Long10);
    CloseOfResolved(Bonds, ts, q, Short2);
    CloseOfResolved(Bonds, ts, q, Long20);
    CloseOfResolved(Bonds, ts, q, Short5);
  }

  /** A frame holding all four tenors gives both spread rows. */
  lemma BothSpreads(frame: seq<Row>, l10: real, s2: real, l20: real, s5: real)
    requires Long10 in Names(frame) && Short2 in Names(frame) && Long20 in Names(frame) && Short5 in Names(frame)
    requires CloseOf(frame, Long10) == l10 && CloseOf(frame, Short2) == s2
    requires CloseOf(frame, Long20) == l20 && CloseOf(frame, Short5) == s5
    ensures SpreadRows(frame) == [Row(Spread10x2, l10 - s2), Row(Spread20x5, l20 - s5)]
  {
  }

  /** Only the 1-year quoted among the bonds: a single bonds row and no spread. */
  lemma OnlyOneYearQuoted(q: QuoteSource)
    requires q(Bonds, "us1y").Quoted?
    requires forall k :: 1 <= k < |Tickers(Bonds)| ==> !q(Bonds, Tickers(Bonds)[k]).Quoted?
    ensures BondsWithSpreads(q) == [Row("us1y", q(Bonds, "us1y").close)]
  {
    var ts := Tickers(Bonds);
    ResolvedHead(Bonds, ts, q);
    ResolvedNoneQuoted(Bonds, ts[1..], q);
    var f := ResolvedRows(Bonds, ts, q);
    assert Names(f) == ["us1y"];
  }

  /**
   * A market that answers every search but quotes nothing, whatever the
   * window: a run ends with no report, unless the date was bad.
   */
  lemma NothingQuoted(s: string, market: Market)
    requires forall w, c, t :: market(w)(c, t) == Unavailable
    ensures Run(s, market) == if DownloadWindow(s).None? then BadDate else EmptyReport
  {
    RunOutcome(s, market);
    if DownloadWindow(s).Some? {
      var q := market(DownloadWindow(s).value);
      assert SearchSucceeds(q) by {
        forall c ensures AllSearched(c, Tickers(c), q) {
        }
      }
      ReportEmpty(q);
      assert ReportRows(q) == [];
    }
  }

  /**
   * The S&P 500 and gold quoted: each is the first row of its class's block,
   * carries its class's label and comes after the whole bonds block.
   */
  lemma FirstIndexAndCommodity(q: QuoteSource)
    requires q(Indices, "S&P 500") == Quoted(4100.25)
    requires q(Commodities, "Gold") == Quoted(1950.10)
    ensures var nb, ni := |BondsWithSpreads(q)|, |ResolvedRows(Indices, Tickers(Indices), q)|;
      && nb + ni < |ReportRows(q)|
      && ReportRows(q)[nb] == ReportRow(Some("Indices"), "S&P 500", 4100.25)
      && ReportRows(q)[nb + ni] == ReportRow(Some("Commodities"), "Gold", 1950.10)
  {
    ResolvedHead(Indices, Tickers(Indices), q);
    ResolvedHead(Commodities, Tickers(Commodities), q);
  }
}
