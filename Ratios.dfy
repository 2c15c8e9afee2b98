/**
  The ratio calculator: the seven derived columns added to every merged row.
  Column arithmetic propagates missing operands: any missing operand makes the
  result missing. The derived columns are held in a record beside the merged
  row, which passes through untouched.
 */
module Ratios {
  import opened Wrappers
  import opened Joins

  /** Columns the merges produce. */
  const InputColumns: set<Column> := {Revenue, NetIncome, CostOfRevenue, CurrentAssets,
                                      CurrentLiabilities, Inventory, TotalLiabilities, TotalEquity}

  /** The columns the calculator adds, by their labels in the script. */
  datatype Derived = Derived(
    grossProfit: Option<real>,        // 'gross_profit'
    grossProfitMargin: Option<real>,  // 'gross_profit_margin'
    netProfitMargin: Option<real>,    // 'net_profit_margin'
    quickAssets: Option<real>,        // 'quick_assets'
    currentRatio: Option<real>,       // 'current_ratio'
    quickRatio: Option<real>,         // 'quick_ratio'
    debtToEquity: Option<real>)       // 'debt_to_equity'

  /** A row of the final frame: the merged columns and the derived ones. */
  datatype RatioRow = RatioRow(merged: Row, derived: Derived)

  /** Column subtraction `a - b`. */
  function Minus(a: Option<real>, b: Option<real>): (r: Option<real>)
    ensures r.Some? <==> a.Some? && b.Some?
    ensures r.Some? ==> r.value + b.value == a.value
  {
    if a.Some? && b.Some? then Some(a.value - b.value) else None
  }

  /**
    Column division `a / b`. A zero divisor is reported as missing here
    (floating-point infinities are not modelled).
   */
  function Over(a: Option<real>, b: Option<real>): (r: Option<real>)
    ensures r.Some? <==> a.Some? && b.Some? && b.value != 0.0
  {
    if a.Some? && b.Some? && b.value != 0.0 then Some(a.value / b.value) else None
  }

  /** A defined quotient times the divisor gives back the dividend. */
  lemma OverInverse(a: Option<real>, b: Option<real>)
    requires Over(a, b).Some?
    ensures Over(a, b).value * b.value == a.value
  {
  }

  /** Lines 62-69: the seven derived columns of one row; the merged columns pass through. */
  function Derive(x: Row): (y: RatioRow)
    requires InputColumns <= x.cells.Keys
    ensures y.merged == x
  {
    var c := x.cells;
    var gross := Minus(c[Revenue], c[CostOfRevenue]);
    RatioRow(x, Derived(
      gross,
      Over(gross, c[Revenue]),
      Over(c[NetIncome], c[Revenue]),
      Minus(c[CurrentAssets], c[Inventory]),
      Over(c[CurrentAssets], c[CurrentLiabilities]),
      Over(Minus(c[CurrentAssets], c[Inventory]), c[CurrentLiabilities]),
      Over(c[TotalLiabilities], c[TotalEquity])))
  }

  /** Gross profit is present iff revenue and cost of revenue are, and is then their exact difference. */
  lemma GrossProfitOfRow(x: Row)
    requires InputColumns <= x.cells.Keys
    ensures Derive(x).derived.grossProfit.Some? <==> x.cells[Revenue].Some? && x.cells[CostOfRevenue].Some?
    ensures Derive(x).derived.grossProfit.Some? ==>
      Derive(x).derived.grossProfit.value == x.cells[Revenue].value - x.cells[CostOfRevenue].value
  {
  }

  /**
    Both margins are quotients by revenue: gross profit over revenue, net
    income over revenue; a missing or zero revenue leaves both missing.
   */
  lemma MarginsOfRow(x: Row)
    requires InputColumns <= x.cells.Keys
    ensures Derive(x).derived.grossProfitMargin == Over(Derive(x).derived.grossProfit, x.cells[Revenue])
    ensures Derive(x).derived.netProfitMargin == Over(x.cells[NetIncome], x.cells[Revenue])
    ensures x.cells[Revenue].None? || x.cells[Revenue].value == 0.0 ==>
      Derive(x).derived.grossProfitMargin.None? && Derive(x).derived.netProfitMargin.None?
    ensures x.cells[Revenue].Some? && x.cells[Revenue].value != 0.0 && x.cells[CostOfRevenue].Some? ==>
      Derive(x).derived.grossProfitMargin ==
        Some((x.cells[Revenue].value - x.cells[CostOfRevenue].value) / x.cells[Revenue].value)
    ensures x.cells[Revenue].Some? && x.cells[Revenue].value != 0.0 && x.cells[NetIncome].Some? ==>
      Derive(x).derived.netProfitMargin == Some(x.cells[NetIncome].value / x.cells[Revenue].value)
  {
  }

  /** Quick assets are missing iff an operand is, and otherwise the exact difference. */
  lemma QuickAssetsOfRow(x: Row)
    requires InputColumns <= x.cells.Keys
    ensures Derive(x).derived.quickAssets.None? <==> x.cells[CurrentAssets].None? || x.cells[Inventory].None?
    ensures Derive(x).derived.quickAssets.Some? ==>
      Derive(x).derived.quickAssets.value == x.cells[CurrentAssets].value - x.cells[Inventory].value
  {
  }

  /**
    The quick ratio is missing whenever one of its three inputs is, and equals
    quick assets over current liabilities.
   */
  lemma QuickRatioOfRow(x: Row)
    requires InputColumns <= x.cells.Keys
    ensures x.cells[CurrentAssets].None? || x.cells[Inventory].None? || x.cells[CurrentLiabilities].None?
      ==> Derive(x).derived.quickRatio.None?
    ensures Derive(x).derived.quickRatio == Over(Derive(x).derived.quickAssets, x.cells[CurrentLiabilities])
  {
  }

  /** The current ratio is current assets over current liabilities and depends on nothing else. */
  lemma CurrentRatioOfRow(x1: Row, x2: Row)
    requires InputColumns <= x1.cells.Keys && InputColumns <= x2.cells.Keys
    requires x1.cells[CurrentAssets] == x2.cells[CurrentAssets]
    requires x1.cells[CurrentLiabilities] == x2.cells[CurrentLiabilities]
    ensures Derive(x1).derived.currentRatio == Derive(x2).derived.currentRatio
    ensures Derive(x1).derived.currentRatio == Over(x1.cells[CurrentAssets], x1.cells[CurrentLiabilities])
  {
  }

  /**
    The debt-to-equity ratio is present iff total liabilities and a non-zero
    total equity are, and then times total equity gives total liabilities back.
   */
  lemma DebtToEquityOfRow(x: Row)
    requires InputColumns <= x.cells.Keys
    ensures Derive(x).derived.debtToEquity.Some? <==>
      x.cells[TotalLiabilities].Some? && x.cells[TotalEquity].Some? && x.cells[TotalEquity].value != 0.0
    ensures Derive(x).derived.debtToEquity.Some? ==>
      Derive(x).derived.debtToEquity.value * x.cells[TotalEquity].value == x.cells[TotalLiabilities].value
  {
    if Over(x.cells[TotalLiabilities], x.cells[TotalEquity]).Some? {
      OverInverse(x.cells[TotalLiabilities], x.cells[TotalEquity]);
    }
  }

  /** Derived columns for every row, in order. */
  function DeriveAll(rows: seq<Row>): (out: seq<RatioRow>)
    requires forall i :: 0 <= i < |rows| ==> InputColumns <= rows[i].cells.Keys
    ensures |out| == |rows|
    ensures forall i :: 0 <= i < |rows| ==> out[i] == Derive(rows[i])
  {
    if rows == [] then [] else [Derive(rows[0])] + DeriveAll(rows[1..])
  }

  /** Wherever revenue and cost of revenue hold values, every row's gross profit is their exact difference. */
  lemma DeriveAllGrossProfit(rows: seq<Row>)
    requires forall i :: 0 <= i < |rows| ==> InputColumns <= rows[i].cells.Keys
    requires Filled(rows, Revenue) && Filled(rows, CostOfRevenue)
    ensures forall i :: 0 <= i < |rows| ==>
      DeriveAll(rows)[i].derived.grossProfit == Some(rows[i].cells[Revenue].value - rows[i].cells[CostOfRevenue].value)
  {
    forall i | 0 <= i < |rows| {
      GrossProfitOfRow(rows[i]);
    }
  }
}
