/**
 * The two yield-curve spreads appended to the bonds frame once resolution
 * is over: `10-2` is the 10-year close minus the 2-year close, `20-5` the
 * 20-year close minus the 5-year close, each added only when both of its
 * tenors were resolved.
 */
module Spreads {
  import opened Catalog
  import opened Resolution

  const Long10 := "us10y"
  const Short2 := "us2y"
  const Long20 := "us20y"
  const Short5 := "us5y"

  /** Position of the first occurrence of `n`. */
  function IndexOf(names: seq<string>, n: string): (k: nat)
    requires n in names
    ensures k < |names| && names[k] == n && n !in names[..k]
  {
    if names[0] == n then 0
    else
      var k := 1 + IndexOf(names[1..], n);
      assert names[..k] == [names[0]] + names[1..][..k - 1];
      k
  }

  /** The first occurrence is the only one with no earlier occurrence. */
  lemma IndexOfUnique(names: seq<string>, n: string, k: nat)
    requires k < |names| && names[k] == n && n !in names[..k]
    ensures IndexOf(names, n) == k
  {
  }

  /** `frame.loc[n, "Close"]`: the close of the row labelled `n` (labels are unique here). */
  function CloseOf(frame: seq<Row>, n: string): real
    requires n in Names(frame)
  {
    frame[IndexOf(Names(frame), n)].close
  }

  /** Appending rows does not change the close found for a label already present. */
  lemma CloseOfPrefix(frame: seq<Row>, more: seq<Row>, n: string)
    requires n in Names(frame)
    ensures n in Names(frame + more) && CloseOf(frame + more, n) == CloseOf(frame, n)
  {
    var k := IndexOf(Names(frame), n);
    assert Names(frame + more) == Names(frame) + Names(more);
    assert Names(frame + more)[..k] == Names(frame)[..k];
    IndexOfUnique(Names(frame + more), n, k);
  }

  /** In a resolved frame, the close found for a ticker is the close its retrieval returned. */
  lemma CloseOfResolved(c: AssetClass, ts: seq<string>, q: QuoteSource, t: string)
    requires t in Names(ResolvedRows(c, ts, q))
    ensures q(c, t) == Quoted(CloseOf(ResolvedRows(c, ts, q), t))
  {
    ResolvedValues(c, ts, q);
  }

  /** The spread rows a bonds frame gives rise to, `10-2` first. */
  function SpreadRows(frame: seq<Row>): (r: seq<Row>)
    ensures |r| <= 2
    ensures forall k :: 0 <= k < |r| ==> r[k].name == Spread10x2 || r[k].name == Spread20x5
  {
    var names := Names(frame);
    (if Long10 in names && Short2 in names
     then [Row(Spread10x2, CloseOf(frame, Long10) - CloseOf(frame, Short2))] else [])
    + (if Long20 in names && Short5 in names
       then [Row(Spread20x5, CloseOf(frame, Long20) - CloseOf(frame, Short5))] else [])
  }

  /**
   * The spread step on the bonds index list and frame: row enlargement by
   * `.loc` and `append` on the list. The frame gains the spread rows after
   * its own rows, and the list keeps naming the frame's rows.
   */
  method AddSpreads(ind: seq<string>, frame: seq<Row>) returns (ind': seq<string>, frame': seq<Row>)
    requires Names(frame) == ind
    requires Spread10x2 !in ind && Spread20x5 !in ind
    ensures frame' == frame + SpreadRows(frame)
    ensures ind' == Names(frame')
  {
    ind', frame' := ind, frame;
    if Long10 in ind' && Short2 in ind' {
      frame' := frame' + [Row(Spread10x2, CloseOf(frame', Long10) - CloseOf(frame', Short2))];
      ind' := ind' + [Spread10x2];
    }
    assert Names(frame') == ind';
    assert frame'[..|frame|] == frame;
    assert Long20 in ind' <==> Long20 in ind;
    assert Short5 in ind' <==> Short5 in ind;
    if Long20 in ind' && Short5 in ind' {
      CloseOfPrefix(frame, frame'[|frame|..], Long20);
      CloseOfPrefix(frame, frame'[|frame|..], Short5);
      assert frame == frame'[..|frame|] && frame' == frame + frame'[|frame|..];
      frame' := frame' + [Row(Spread20x5, CloseOf(frame', Long20) - CloseOf(frame', Short5))];
      ind' := ind' + [Spread20x5];
    }
  }

  /** A spread row appears exactly when both of its tenors are rows of the frame. */
  lemma SpreadPresence(frame: seq<Row>)
    ensures Spread10x2 in Names(SpreadRows(frame)) <==> Long10 in Names(frame) && Short2 in Names(frame)
    ensures Spread20x5 in Names(SpreadRows(frame)) <==> Long20 in Names(frame) && Short5 in Names(frame)
  {
    var a := if Long10 in Names(frame) && Short2 in Names(frame)
      then [Row(Spread10x2, CloseOf(frame, Long10) - CloseOf(frame, Short2))] else [];
    var b := if Long20 in Names(frame) && Short5 in Names(frame)
      then [Row(Spread20x5, CloseOf(frame, Long20) - CloseOf(frame, Short5))] else [];
    NamesAppend(a, b);
    assert Names(a) == if a == [] then [] else [Spread10x2];
    assert Names(b) == if b == [] then [] else [Spread20x5];
  }

  /**
   * At most two spread rows, each named once, `10-2` before `20-5`, each
   * carrying the long tenor's close minus the short tenor's.
   */
  lemma SpreadLayout(frame: seq<Row>)
    ensures |SpreadRows(frame)| <= 2
    ensures forall k :: 0 <= k < |SpreadRows(frame)| ==>
      var r := SpreadRows(frame)[k];
      (r.name == Spread10x2 && r.close == CloseOf(frame, Long10) - CloseOf(frame, Short2))
      || (r.name == Spread20x5 && r.close == CloseOf(frame, Long20) - CloseOf(frame, Short5))
    ensures |SpreadRows(frame)| == 2 ==>
      SpreadRows(frame)[0].name == Spread10x2 && SpreadRows(frame)[1].name == Spread20x5
  {
  }

  /**
   * On the resolved bonds frame: `10-2` is present exactly when both the
   * 10-year and the 2-year yields were quoted, and then carries the
   * difference of the two quotes; likewise `20-5` for the 20- and 5-year.
   */
  lemma SpreadsOfResolved(q: QuoteSource)
    ensures var frame := ResolvedRows(Bonds, Tickers(Bonds), q);
      && (Spread10x2 in Names(SpreadRows(frame)) <==> q(Bonds, Long10).Quoted? && q(Bonds, Short2).Quoted?)
      && (Spread20x5 in Names(SpreadRows(frame)) <==> q(Bonds, Long20).Quoted? && q(Bonds, Short5).Quoted?)
      && (forall k :: 0 <= k < |SpreadRows(frame)| && SpreadRows(frame)[k].name == Spread10x2 ==>
           && q(Bonds, Long10).Quoted? && q(Bonds, Short2).Quoted?
           && SpreadRows(frame)[k].close == q(Bonds, Long10).close - q(Bonds, Short2).close)
      && (forall k :: 0 <= k < |SpreadRows(frame)| && SpreadRows(frame)[k].name == Spread20x5 ==>
           && q(Bonds, Long20).Quoted? && q(Bonds, Short5).Quoted?
           && SpreadRows(frame)[k].close == q(Bonds, Long20).close - q(Bonds, Short5).close)
  {
    var ts := Tickers(Bonds);
    var frame := ResolvedRows(Bonds, ts, q);
    SpreadPresence(frame);
    SpreadLayout(frame);
    ResolvedMembers(Bonds, ts, q, Long10);
    ResolvedMembers(Bonds, ts, q, Short2);
    ResolvedMembers(Bonds, ts, q, Long20);
    ResolvedMembers(Bonds, ts, q, Short5);
    if Long10 in Names(frame) && Short2 in Names(frame) {
      CloseOfResolved(Bonds, ts, q, Long10);
      CloseOfResolved(Bonds, ts, q, Short2);
    }
    if Long20 in Names(frame) && Short5 in Names(frame) {
      CloseOfResolved(Bonds, ts, q, Long20);
      CloseOfResolved(Bonds, ts, q, Short5);
    }
  }
}
