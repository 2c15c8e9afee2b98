/**
  The profitability and liquidity script end to end: extract eight concepts,
  keep the 10-K rows, keep the latest row per accession (for every concept but
  current assets, as the script does), inner-merge revenue, net income and
  cost of revenue, left-merge the five balance-sheet concepts, then add the
  derived columns.
 */
module RatioPipeline {
  import opened Wrappers
  import opened Facts
  import opened Periods
  import opened Joins
  import opened Ratios

  /** `get_tag_df(tag)` then `df[df['form'] == '10-K']` */
  function AnnualTag(p: Payload, tag: string): seq<Fact>
  {
    AnnualFilings(GetTagDf(p, tag))
  }

  /** ... then `.sort_values('end').drop_duplicates('accn', keep='last')` */
  function LatestTag(p: Payload, tag: string): seq<Fact>
  {
    LatestPerAccn(AnnualTag(p, tag))
  }

  /** The three inner merges over the revenue, net income and cost-of-revenue tables. */
  function ProfitFrame(rev: seq<Fact>, ni: seq<Fact>, cor: seq<Fact>): seq<Row>
  {
    InnerMerge(InnerMerge(Project(rev, Revenue), ni, NetIncome), cor, CostOfRevenue)
  }

  /** Left-merges each step's table, under the step's column, onto `rows`, in order. */
  function LeftMergeAll(rows: seq<Row>, steps: seq<(seq<Fact>, Column)>): seq<Row>
    decreases |steps|
  {
    if steps == [] then rows else LeftMergeAll(LeftMerge(rows, steps[0].0, steps[0].1), steps[1..])
  }

  /** The columns the steps add. */
  function StepColumns(steps: seq<(seq<Fact>, Column)>): set<Column>
  {
    if steps == [] then {} else {steps[0].1} + StepColumns(steps[1..])
  }

  /** The five balance-sheet tables in the order they are merged. */
  function BalanceSteps(ca: seq<Fact>, cl: seq<Fact>, inv: seq<Fact>, tl: seq<Fact>, te: seq<Fact>): seq<(seq<Fact>, Column)>
  {
    [(ca, CurrentAssets), (cl, CurrentLiabilities), (inv, Inventory), (tl, TotalLiabilities), (te, TotalEquity)]
  }

  /** The five left merges of the balance-sheet tables onto the profitability frame. */
  function BalanceFrame(base: seq<Row>, ca: seq<Fact>, cl: seq<Fact>, inv: seq<Fact>,
                        tl: seq<Fact>, te: seq<Fact>): seq<Row>
  {
    LeftMergeAll(base, BalanceSteps(ca, cl, inv, tl, te))
  }

  /** Lines 52-54 on the payload. */
  function Profitability(p: Payload): seq<Row>
  {
    ProfitFrame(LatestTag(p, "Revenues"), LatestTag(p, "NetIncomeLoss"), LatestTag(p, "CostOfRevenue"))
  }

  /** Lines 55-59 on the payload; current assets are 10-K filtered but not deduplicated. */
  function Joined(p: Payload): seq<Row>
  {
    BalanceFrame(Profitability(p), AnnualTag(p, "AssetsCurrent"), LatestTag(p, "LiabilitiesCurrent"),
                 LatestTag(p, "InventoryNet"), LatestTag(p, "Liabilities"), LatestTag(p, "StockholdersEquity"))
  }

  const ProfitColumns: set<Column> := {Revenue, NetIncome, CostOfRevenue}

  ghost predicate ProfitFilled(rows: seq<Row>)
  {
    Filled(rows, Revenue) && Filled(rows, NetIncome) && Filled(rows, CostOfRevenue)
  }

  lemma ProfitFrameColumns(rev: seq<Fact>, ni: seq<Fact>, cor: seq<Fact>)
    ensures HasColumns(ProfitFrame(rev, ni, cor), ProfitColumns)
    ensures ProfitFilled(ProfitFrame(rev, ni, cor))
  {
    var revenue := Project(rev, Revenue);
    ProjectColumns(rev, Revenue);
    var withIncome := InnerMerge(revenue, ni, NetIncome);
    InnerMergeColumns(revenue, ni, NetIncome, {Revenue});
    InnerMergeKeepsFilled(revenue, ni, NetIncome, Revenue);
    InnerMergeColumns(withIncome, cor, CostOfRevenue, {Revenue, NetIncome});
    InnerMergeKeepsFilled(withIncome, cor, CostOfRevenue, Revenue);
    InnerMergeKeepsFilled(withIncome, cor, CostOfRevenue, NetIncome);
  }

  /** The left merges add their columns and keep the three profitability columns filled. */
  lemma {:induction false} LeftMergeAllColumns(rows: seq<Row>, steps: seq<(seq<Fact>, Column)>, cols: set<Column>)
    requires HasColumns(rows, cols) && ProfitFilled(rows)
    requires forall i :: 0 <= i < |steps| ==> steps[i].1 !in ProfitColumns
    ensures HasColumns(LeftMergeAll(rows, steps), cols + StepColumns(steps))
    ensures ProfitFilled(LeftMergeAll(rows, steps))
    decreases |steps|
  {
    if steps != [] {
      var (t, name) := steps[0];
      LeftMergeColumns(rows, t, name, cols);
      LeftMergeKeepsFilled(rows, t, name, Revenue);
      LeftMergeKeepsFilled(rows, t, name, NetIncome);
      LeftMergeKeepsFilled(rows, t, name, CostOfRevenue);
      LeftMergeAllColumns(LeftMerge(rows, t, name), steps[1..], cols + {name});
      assert cols + {name} + StepColumns(steps[1..]) == cols + StepColumns(steps);
    }
  }

  /** A column no step adds stays missing. */
  lemma {:induction false} LeftMergeAllKeepsMissing(rows: seq<Row>, steps: seq<(seq<Fact>, Column)>, c: Column)
    requires Missing(rows, c) && c !in StepColumns(steps)
    ensures Missing(LeftMergeAll(rows, steps), c)
    decreases |steps|
  {
    if steps != [] {
      LeftMergeKeepsMissing(rows, steps[0].0, steps[0].1, c);
      LeftMergeAllKeepsMissing(LeftMerge(rows, steps[0].0, steps[0].1), steps[1..], c);
    }
  }

  /** A step with an empty table leaves its column missing, unless a later step adds it again. */
  lemma {:induction false} LeftMergeAllEmptyMissing(rows: seq<Row>, steps: seq<(seq<Fact>, Column)>, k: nat)
    requires k < |steps| && steps[k].0 == [] && steps[k].1 !in StepColumns(steps[k + 1..])
    ensures Missing(LeftMergeAll(rows, steps), steps[k].1)
    decreases |steps|
  {
    if k == 0 {
      LeftMergeEmptyMissing(rows, steps[0].1);
      LeftMergeAllKeepsMissing(LeftMerge(rows, [], steps[0].1), steps[1..], steps[0].1);
    } else {
      assert steps[1..][k - 1] == steps[k] && steps[1..][k..] == steps[k + 1..];
      LeftMergeAllEmptyMissing(LeftMerge(rows, steps[0].0, steps[0].1), steps[1..], k - 1);
    }
  }

  lemma BalanceFrameColumns(base: seq<Row>, ca: seq<Fact>, cl: seq<Fact>, inv: seq<Fact>, tl: seq<Fact>, te: seq<Fact>)
    requires HasColumns(base, ProfitColumns) && ProfitFilled(base)
    ensures HasColumns(BalanceFrame(base, ca, cl, inv, tl, te), InputColumns)
    ensures ProfitFilled(BalanceFrame(base, ca, cl, inv, tl, te))
  {
    var steps := BalanceSteps(ca, cl, inv, tl, te);
    assert StepColumns(steps[4..]) == {TotalEquity} by { assert steps[4..][1..] == []; }
    assert StepColumns(steps[3..]) == {TotalLiabilities, TotalEquity} by { assert steps[3..][1..] == steps[4..]; }
    assert StepColumns(steps[2..]) == {Inventory, TotalLiabilities, TotalEquity} by { assert steps[2..][1..] == steps[3..]; }
    assert StepColumns(steps[1..]) == {CurrentLiabilities, Inventory, TotalLiabilities, TotalEquity} by { assert steps[1..][1..] == steps[2..]; }
    LeftMergeAllColumns(base, steps, ProfitColumns);
    assert ProfitColumns + StepColumns(steps) == InputColumns;
  }

  /** An empty inventory table leaves the inventory column missing on every row. */
  lemma BalanceFrameNoInventory(base: seq<Row>, ca: seq<Fact>, cl: seq<Fact>, tl: seq<Fact>, te: seq<Fact>)
    ensures Missing(BalanceFrame(base, ca, cl, [], tl, te), Inventory)
  {
    var steps := BalanceSteps(ca, cl, [], tl, te);
    assert StepColumns(steps[4..]) == {TotalEquity} by { assert steps[4..][1..] == []; }
    assert StepColumns(steps[3..]) == {TotalLiabilities, TotalEquity} by { assert steps[3..][1..] == steps[4..]; }
    LeftMergeAllEmptyMissing(base, steps, 2);
  }

  /** Every merged row has the eight value columns; the three inner-merged ones hold values. */
  lemma JoinedColumns(p: Payload)
    ensures HasColumns(Joined(p), InputColumns) && ProfitFilled(Joined(p))
  {
    ProfitFrameColumns(LatestTag(p, "Revenues"), LatestTag(p, "NetIncomeLoss"), LatestTag(p, "CostOfRevenue"));
    BalanceFrameColumns(Profitability(p), AnnualTag(p, "AssetsCurrent"), LatestTag(p, "LiabilitiesCurrent"),
                        LatestTag(p, "InventoryNet"), LatestTag(p, "Liabilities"), LatestTag(p, "StockholdersEquity"));
  }

  /** Lines 62-69: the final frame, every merged row with its derived columns, in order. */
  function RatioTable(p: Payload): (rows: seq<RatioRow>)
    ensures |rows| == |Joined(p)|
    ensures forall i :: 0 <= i < |rows| ==> rows[i].merged == Joined(p)[i]
    ensures forall i :: 0 <= i < |rows| ==> rows[i].merged.cells.Keys == InputColumns
    ensures forall i :: 0 <= i < |rows| ==>
      var c := rows[i].merged.cells;
      c[Revenue].Some? && c[NetIncome].Some? && c[CostOfRevenue].Some?
    ensures forall i :: 0 <= i < |rows| ==> rows[i] == Derive(rows[i].merged)
  {
    var j := Joined(p);
    JoinedColumns(p);
    DeriveAll(j)
  }

  /** On every row of the final frame, gross profit is revenue less cost of revenue, both present. */
  lemma RatioTableGrossProfit(p: Payload)
    ensures forall i :: 0 <= i < |RatioTable(p)| ==>
      var c := RatioTable(p)[i].merged.cells;
      RatioTable(p)[i].derived.grossProfit == Some(c[Revenue].value - c[CostOfRevenue].value)
  {
    var rows := RatioTable(p);
    forall i | 0 <= i < |rows| {
      GrossProfitOfRow(rows[i].merged);
    }
  }

  /** Keeping the latest row per accession leaves at most one row per `(accn, end)`. */
  lemma LatestTagUniqueKeys(p: Payload, tag: string)
    ensures UniqueFactKeys(LatestTag(p, tag))
  {
    var t := LatestTag(p, tag);
    assert UniqueAccns(t);
    forall i, j | 0 <= i < j < |t| ensures FactKey(t[i]) != FactKey(t[j]) {
      assert t[i].accn != t[j].accn;
    }
  }

  /**
    The inner merges keep exactly the keys present in all three tables, once
    each, so the frame is no longer than any of the three.
   */
  lemma ProfitFrameKeys(rev: seq<Fact>, ni: seq<Fact>, cor: seq<Fact>)
    requires UniqueFactKeys(rev) && UniqueFactKeys(ni) && UniqueFactKeys(cor)
    ensures RowKeys(ProfitFrame(rev, ni, cor)) == FactKeys(rev) * FactKeys(ni) * FactKeys(cor)
    ensures UniqueRowKeys(ProfitFrame(rev, ni, cor))
    ensures |ProfitFrame(rev, ni, cor)| <= |rev|
    ensures |ProfitFrame(rev, ni, cor)| <= |ni|
    ensures |ProfitFrame(rev, ni, cor)| <= |cor|
  {
    var revenue := Project(rev, Revenue);
    ProjectKeys(rev, Revenue);
    var withIncome := InnerMerge(revenue, ni, NetIncome);
    InnerMergeUniqueKeys(revenue, ni, NetIncome);
    InnerMergeBoundedByRight(revenue, ni, NetIncome);
    InnerMergeUniqueKeys(withIncome, cor, CostOfRevenue);
    InnerMergeBoundedByRight(withIncome, cor, CostOfRevenue);
  }

  /** Lines 52-54 on the payload: one row per key common to the three deduplicated tables. */
  lemma ProfitabilityKeys(p: Payload)
    ensures RowKeys(Profitability(p))
      == FactKeys(LatestTag(p, "Revenues")) * FactKeys(LatestTag(p, "NetIncomeLoss")) * FactKeys(LatestTag(p, "CostOfRevenue"))
    ensures UniqueRowKeys(Profitability(p))
    ensures |Profitability(p)| <= |LatestTag(p, "Revenues")|
    ensures |Profitability(p)| <= |LatestTag(p, "NetIncomeLoss")|
    ensures |Profitability(p)| <= |LatestTag(p, "CostOfRevenue")|
  {
    LatestTagUniqueKeys(p, "Revenues");
    LatestTagUniqueKeys(p, "NetIncomeLoss");
    LatestTagUniqueKeys(p, "CostOfRevenue");
    ProfitFrameKeys(LatestTag(p, "Revenues"), LatestTag(p, "NetIncomeLoss"), LatestTag(p, "CostOfRevenue"));
  }

  /** Every step has at most one row per key. */
  ghost predicate UniqueSteps(steps: seq<(seq<Fact>, Column)>)
  {
    forall i :: 0 <= i < |steps| ==> UniqueFactKeys(steps[i].0)
  }

  /**
    Left merges keep every key of the left frame and drop no row; they add rows
    only where a step's table repeats a key.
   */
  lemma {:induction false} LeftMergeAllKeys(rows: seq<Row>, steps: seq<(seq<Fact>, Column)>)
    ensures RowKeys(LeftMergeAll(rows, steps)) == RowKeys(rows)
    ensures |LeftMergeAll(rows, steps)| >= |rows|
    ensures UniqueSteps(steps) ==> |LeftMergeAll(rows, steps)| == |rows|
    decreases |steps|
  {
    if steps != [] {
      LeftMergeAllKeys(LeftMerge(rows, steps[0].0, steps[0].1), steps[1..]);
      if UniqueSteps(steps) {
        assert UniqueFactKeys(steps[0].0);
        assert UniqueSteps(steps[1..]) by {
          forall i | 0 <= i < |steps[1..]| ensures UniqueFactKeys(steps[1..][i].0) {
            assert steps[1..][i] == steps[i + 1];
          }
        }
      }
    }
  }

  /**
    The left merges keep the keys of the profitability frame; the row count
    grows only where current assets, which are not deduplicated, repeat a key.
   */
  lemma BalanceFrameKeys(base: seq<Row>, ca: seq<Fact>, cl: seq<Fact>, inv: seq<Fact>, tl: seq<Fact>, te: seq<Fact>)
    requires UniqueFactKeys(cl) && UniqueFactKeys(inv) && UniqueFactKeys(tl) && UniqueFactKeys(te)
    ensures RowKeys(BalanceFrame(base, ca, cl, inv, tl, te)) == RowKeys(base)
    ensures |BalanceFrame(base, ca, cl, inv, tl, te)| >= |base|
    ensures UniqueFactKeys(ca) ==> |BalanceFrame(base, ca, cl, inv, tl, te)| == |base|
  {
    var steps := BalanceSteps(ca, cl, inv, tl, te);
    LeftMergeAllKeys(base, steps);
    if UniqueFactKeys(ca) {
      assert UniqueSteps(steps);
    }
  }

  /** Lines 55-59 on the payload. */
  lemma JoinedKeepsProfitabilityRows(p: Payload)
    ensures RowKeys(Joined(p)) == RowKeys(Profitability(p))
    ensures |Joined(p)| >= |Profitability(p)|
    ensures UniqueFactKeys(AnnualTag(p, "AssetsCurrent")) ==> |Joined(p)| == |Profitability(p)|
  {
    LatestTagUniqueKeys(p, "LiabilitiesCurrent");
    LatestTagUniqueKeys(p, "InventoryNet");
    LatestTagUniqueKeys(p, "Liabilities");
    LatestTagUniqueKeys(p, "StockholdersEquity");
    BalanceFrameKeys(Profitability(p), AnnualTag(p, "AssetsCurrent"), LatestTag(p, "LiabilitiesCurrent"),
                     LatestTag(p, "InventoryNet"), LatestTag(p, "Liabilities"), LatestTag(p, "StockholdersEquity"));
  }

  /**
    A company that reports no `InventoryNet` facts gets no inventory, no quick
    assets and no quick ratio on any row, while its current ratio is still
    current assets over current liabilities.
   */
  lemma MissingInventory(p: Payload)
    requires !HasUsdFacts(p, "InventoryNet")
    ensures forall i :: 0 <= i < |RatioTable(p)| ==>
      && RatioTable(p)[i].merged.cells[Inventory].None?
      && RatioTable(p)[i].derived.quickAssets.None?
      && RatioTable(p)[i].derived.quickRatio.None?
    ensures forall i :: 0 <= i < |RatioTable(p)| ==>
      var c := RatioTable(p)[i].merged.cells;
      RatioTable(p)[i].derived.currentRatio == Over(c[CurrentAssets], c[CurrentLiabilities])
  {
    assert GetTagDf(p, "InventoryNet") == [];
    assert LatestTag(p, "InventoryNet") == [] by {
      assert |multiset(LatestTag(p, "InventoryNet"))| == 0;
    }
    BalanceFrameNoInventory(Profitability(p), AnnualTag(p, "AssetsCurrent"), LatestTag(p, "LiabilitiesCurrent"),
                            LatestTag(p, "Liabilities"), LatestTag(p, "StockholdersEquity"));
    JoinedColumns(p);
    var j := Joined(p);
    var rows := RatioTable(p);
    forall i | 0 <= i < |rows|
      ensures rows[i].merged.cells[Inventory].None? && rows[i].derived.quickAssets.None? && rows[i].derived.quickRatio.None?
      ensures rows[i].derived.currentRatio == Over(rows[i].merged.cells[CurrentAssets], rows[i].merged.cells[CurrentLiabilities])
    {
      assert rows[i] == Derive(j[i]);
      QuickAssetsOfRow(j[i]);
      QuickRatioOfRow(j[i]);
      CurrentRatioOfRow(j[i], j[i]);
    }
  }
}
