/**
 * The summary table handed to the spreadsheet writer: the non-empty class
 * frames concatenated in class order, each row then given a group label
 * from a label list built from `"Bonds," * nb` and its two siblings, each
 * split on commas on its own, the pieces joined and filtered, where the
 * counts are the lengths of the class index lists.
 */
module Report {
  import opened Wrappers
  import opened PyStr
  import opened Catalog
  import opened Resolution

  /**
   * The label list for `nb`, `ni`, `nc` rows: each class's label followed
   * by a comma, repeated, split on commas, with the empty pieces dropped.
   */
  function GroupLabels(nb: nat, ni: nat, nc: nat): (r: seq<string>)
    ensures forall k :: 0 <= k < |r| ==> r[k] != "" && ',' !in r[k]
  {
    var b, i, c := Split(Repeat("Bonds,", nb), ','), Split(Repeat("Indices,", ni), ','), Split(Repeat("Commodities,", nc), ',');
    var r := NonEmpty(b + i + c);
    assert forall x :: x in b + i + c ==> ',' !in x by {
      forall x | x in b + i + c ensures ',' !in x {
        var k :| 0 <= k < |b + i + c| && (b + i + c)[k] == x;
        if k < |b| {
          assert x == b[k];
        } else if k < |b| + |i| {
          assert x == i[k - |b|];
        } else {
          assert x == c[k - |b| - |i|];
        }
      }
    }
    assert forall k :: 0 <= k < |r| ==> r[k] in r;
    r
  }

  /** One class's block of the label list: its label `n` times, then the trailing empty piece. */
  lemma SplitBlock(c: AssetClass, n: nat)
    ensures Split(Repeat(GroupName(c) + [','], n), ',') == Copies(GroupName(c), n) + [""]
    ensures NonEmpty(Copies(GroupName(c), n) + [""]) == Copies(GroupName(c), n)
  {
    SplitRepeat(GroupName(c), n, ',');
    NonEmptyCopies(GroupName(c), n);
  }

  /**
   * The string trick yields `nb` copies of `Bonds`, then `ni` of `Indices`,
   * then `nc` of `Commodities`, and nothing else.
   */
  lemma GroupLabelsBlocks(nb: nat, ni: nat, nc: nat)
    ensures GroupLabels(nb, ni, nc) == Copies("Bonds", nb) + Copies("Indices", ni) + Copies("Commodities", nc)
  {
    assert "Bonds," == GroupName(Bonds) + [','];
    assert "Indices," == GroupName(Indices) + [','];
    assert "Commodities," == GroupName(Commodities) + [','];
    SplitBlock(Bonds, nb);
    SplitBlock(Indices, ni);
    SplitBlock(Commodities, nc);
    var b, i, c := Copies("Bonds", nb) + [""], Copies("Indices", ni) + [""], Copies("Commodities", nc) + [""];
    NonEmptyAppend(b + i, c);
    NonEmptyAppend(b, i);
  }

  /** The position of a label's class in the report order. */
  function LabelRank(name: string): nat
  {
    if name == "Bonds" then 0 else if name == "Indices" then 1 else 2
  }

  /** The label list never interleaves: its labels follow the class order. */
  lemma GroupLabelsMonotone(nb: nat, ni: nat, nc: nat)
    ensures |GroupLabels(nb, ni, nc)| == nb + ni + nc
    ensures forall i, j :: 0 <= i <= j < |GroupLabels(nb, ni, nc)| ==>
      LabelRank(GroupLabels(nb, ni, nc)[i]) <= LabelRank(GroupLabels(nb, ni, nc)[j])
  {
    GroupLabelsBlocks(nb, ni, nc);
    var l := GroupLabels(nb, ni, nc);
    forall k | 0 <= k < |l|
      ensures LabelRank(l[k]) == if k < nb then 0 else if k < nb + ni then 1 else 2
    {
      if k < nb {
        assert l[k] == "Bonds";
      } else if k < nb + ni {
        assert l[k] == "Indices";
      } else {
        assert l[k] == "Commodities";
      }
    }
  }

  /** A row of the summary: group label, name, close. `None` is the NaN of a row the label list is too short for. */
  datatype ReportRow = ReportRow(group: Option<string>, name: string, close: real)

  /** `[df_assets[c]['Close'] for c in classes if not df_assets[c].empty]`. */
  function NonEmptyOf(frames: PerClass<seq<Row>>, cs: seq<AssetClass>): seq<seq<Row>>
  {
    if cs == [] then []
    else (if frames.Get(cs[0]) == [] then [] else [frames.Get(cs[0])]) + NonEmptyOf(frames, cs[1..])
  }

  /** `pd.concat` along the rows. */
  function Concat(parts: seq<seq<Row>>): seq<Row>
  {
    if parts == [] then [] else parts[0] + Concat(parts[1..])
  }

  /**
   * The summary: `None` when no class has a row (concatenating nothing
   * raises), otherwise the concatenated rows with the label list set
   * beside them position by position.
   */
  function Summary(frames: PerClass<seq<Row>>, ind: PerClass<seq<string>>): (r: Option<seq<ReportRow>>)
    ensures r.None? <==> frames.bonds + frames.indices + frames.commodities == []
    ensures r.Some? ==> |r.value| == |frames.bonds| + |frames.indices| + |frames.commodities|
    ensures r.Some? ==> forall k :: 0 <= k < |r.value| ==>
      r.value[k].name == (frames.bonds + frames.indices + frames.commodities)[k].name
  {
    ConcatNonEmpty(frames);
    var parts := NonEmptyOf(frames, ClassOrder);
    if parts == [] then None
    else
      var rows := Concat(parts);
      var groups := GroupLabels(|ind.bonds|, |ind.indices|, |ind.commodities|);
      Some(seq(|rows|, k requires 0 <= k < |rows| =>
        ReportRow(if k < |groups| then Some(groups[k]) else None, rows[k].name, rows[k].close)))
  }

  /** A class's rows as summary rows, all carrying the class's label. */
  function Labelled(c: AssetClass, frame: seq<Row>): (r: seq<ReportRow>)
    ensures |r| == |frame|
  {
    seq(|frame|, k requires 0 <= k < |frame| => ReportRow(Some(GroupName(c)), frame[k].name, frame[k].close))
  }

  /** Empty classes drop out of the concatenation, and nothing is left exactly when all are empty. */
  lemma ConcatNonEmpty(frames: PerClass<seq<Row>>)
    ensures Concat(NonEmptyOf(frames, ClassOrder)) == frames.bonds + frames.indices + frames.commodities
    ensures NonEmptyOf(frames, ClassOrder) == [] <==> frames.bonds + frames.indices + frames.commodities == []
  {
    var cs := ClassOrder;
    assert cs[1..][1..][1..] == [];
    var b := if frames.bonds == [] then [] else [frames.bonds];
    var i := if frames.indices == [] then [] else [frames.indices];
    var c := if frames.commodities == [] then [] else [frames.commodities];
    assert NonEmptyOf(frames, cs[1..][1..]) == c;
    assert NonEmptyOf(frames, cs[1..]) == i + c;
    assert NonEmptyOf(frames, cs) == b + i + c;
    ConcatAppend(b, i + c);
    ConcatAppend(i, c);
  }

  lemma {:induction false} ConcatAppend(xs: seq<seq<Row>>, ys: seq<seq<Row>>)
    ensures Concat(xs + ys) == Concat(xs) + Concat(ys)
  {
    if xs == [] {
      assert xs + ys == ys;
    } else {
      assert (xs + ys)[0] == xs[0];
      assert (xs + ys)[1..] == xs[1..] + ys;
      ConcatAppend(xs[1..], ys);
    }
  }

  /**
   * When each index list names its frame's rows, the labels line up one to
   * one with the rows: the summary is the bonds rows labelled `Bonds`, then
   * the indices rows labelled `Indices`, then the commodities rows labelled
   * `Commodities`; it fails only when there is no row at all.
   */
  lemma SummaryAligned(snap: Snapshot)
    requires Aligned(snap)
    ensures var f := snap.frames;
      Summary(f, snap.ind) ==
        if f.bonds + f.indices + f.commodities == [] then None
        else Some(Labelled(Bonds, f.bonds) + Labelled(Indices, f.indices) + Labelled(Commodities, f.commodities))
  {
    var f := snap.frames;
    ConcatNonEmpty(f);
    assert Names(f.Get(Bonds)) == snap.ind.Get(Bonds);
    assert Names(f.Get(Indices)) == snap.ind.Get(Indices);
    assert Names(f.Get(Commodities)) == snap.ind.Get(Commodities);
    var nb, ni, nc := |f.bonds|, |f.indices|, |f.commodities|;
    assert |snap.ind.bonds| == nb && |snap.ind.indices| == ni && |snap.ind.commodities| == nc;
    GroupLabelsBlocks(nb, ni, nc);
    if f.bonds + f.indices + f.commodities != [] {
      var rows := f.bonds + f.indices + f.commodities;
      var groups := GroupLabels(nb, ni, nc);
      assert |groups| == |rows|;
      var want := Labelled(Bonds, f.bonds) + Labelled(Indices, f.indices) + Labelled(Commodities, f.commodities);
      var got := seq(|rows|, k requires 0 <= k < |rows| => ReportRow(Some(groups[k]), rows[k].name, rows[k].close));
      var raw := seq(|rows|, k requires 0 <= k < |rows| =>
        ReportRow(if k < |groups| then Some(groups[k]) else None, rows[k].name, rows[k].close));
      assert Concat(NonEmptyOf(f, ClassOrder)) == rows;
      assert Summary(f, snap.ind) == Some(raw);
      assert raw == got;
      assert |got| == |want|;
      forall k | 0 <= k < |got| ensures got[k] == want[k] {
        if k < nb {
          assert rows[k] == f.bonds[k] && groups[k] == "Bonds";
          assert want[k] == Labelled(Bonds, f.bonds)[k];
        } else if k < nb + ni {
          assert rows[k] == f.indices[k - nb] && groups[k] == "Indices";
          assert want[k] == Labelled(Indices, f.indices)[k - nb];
        } else {
          assert rows[k] == f.commodities[k - nb - ni] && groups[k] == "Commodities";
          assert want[k] == Labelled(Commodities, f.commodities)[k - nb - ni];
        }
      }
      assert got == want;
    }
  }

  /**
   * In a labelled summary every row carries a label; the labels follow the
   * class order, and the bonds rows come first, then indices, then commodities.
   */
  lemma LabelledMonotone(b: seq<Row>, i: seq<Row>, c: seq<Row>)
    ensures var rows := Labelled(Bonds, b) + Labelled(Indices, i) + Labelled(Commodities, c);
      && (forall k :: 0 <= k < |rows| ==> rows[k].group.Some?)
      && (forall k, m :: 0 <= k <= m < |rows| ==> LabelRank(rows[k].group.value) <= LabelRank(rows[m].group.value))
  {
    var rows := Labelled(Bonds, b) + Labelled(Indices, i) + Labelled(Commodities, c);
    forall k | 0 <= k < |rows|
      ensures rows[k].group == Some(if k < |b| then "Bonds" else if k < |b| + |i| then "Indices" else "Commodities")
    {
      if k < |b| {
        assert rows[k] == Labelled(Bonds, b)[k];
      } else if k < |b| + |i| {
        assert rows[k] == Labelled(Indices, i)[k - |b|];
      } else {
        assert rows[k] == Labelled(Commodities, c)[k - |b| - |i|];
      }
    }
  }
}
