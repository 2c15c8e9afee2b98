/**
  The revenue exploration script: the revenue facts with a `frame`, sorted by
  period end; the calendar-year 10-K subset; the data-quality checks (IQR
  outliers, missing values, duplicate periods); and year-over-year growth.
 */
module RevenueChecks {
  import opened Wrappers
  import opened Seqs
  import opened Facts
  import opened Periods
  import opened Cik

  /** What a check prints: the rows it found, or its all-clear message. */
  datatype Report = AllClear | Found(rows: seq<Fact>)

  /** `if not rows.empty: print(rows) else: print(<all clear>)` */
  function ReportOf(rows: seq<Fact>): (r: Report)
    ensures r.AllClear? <==> rows == []
    ensures r.Found? ==> r.rows == rows
  {
    if rows == [] then AllClear else Found(rows)
  }

  // ---------------------------------------------------------------- frame

  predicate HasFrame(f: Fact) { f.frame.Some? }

  /** Line 28: `df[df['frame'].notna()]`: every framed row, as often as it occurs, in order, and nothing else. */
  function WithFrame(t: seq<Fact>): (r: seq<Fact>)
    ensures forall i :: 0 <= i < |r| ==> r[i].frame.Some? && r[i] in t
    ensures forall i :: 0 <= i < |t| && t[i].frame.Some? ==> t[i] in r
    ensures SubseqOf(r, t)
    ensures |r| == CountIf(HasFrame, t)
  {
    Filter(HasFrame, t)
  }

  /** The frame filter keeps its rows in order and is idempotent. */
  lemma WithFrameOrderAndIdempotence(t: seq<Fact>)
    ensures SubseqOf(WithFrame(t), t)
    ensures WithFrame(WithFrame(t)) == WithFrame(t)
  {
    FilterIdempotent(HasFrame, t);
  }

  predicate LacksFrame(f: Fact) { f.frame.None? }

  /** Number of rows whose `frame` is missing. */
  function FrameNulls(t: seq<Fact>): (n: nat)
    ensures n <= |t|
    ensures n == 0 <==> forall i :: 0 <= i < |t| ==> t[i].frame.Some?
  {
    CountIf(LacksFrame, t)
  }

  /**
    Line 56, `isnull().sum()` per column. Only `frame` is optional in a fact;
    the other four columns always hold a value.
   */
  datatype NullCounts = NullCounts(accn: nat, end: nat, val: nat, form: nat, frame: nat)

  function MissingPerColumn(t: seq<Fact>): (m: NullCounts)
    ensures m.accn == 0 && m.end == 0 && m.val == 0 && m.form == 0
    ensures m.frame == 0 <==> forall i :: 0 <= i < |t| ==> t[i].frame.Some?
  {
    NullCounts(0, 0, 0, 0, FrameNulls(t))
  }

  function TotalMissing(m: NullCounts): nat
  {
    m.accn + m.end + m.val + m.form + m.frame
  }

  /** The null count of `frame` is the number of rows the frame filter drops. */
  lemma {:induction false} FrameNullsDropped(t: seq<Fact>)
    ensures FrameNulls(t) == |t| - |WithFrame(t)|
    decreases |t|
  {
    if t != [] {
      FrameNullsDropped(t[1..]);
    }
  }

  /**
    Lines 56-60: the table checked is frame-filtered, so every modelled column
    counts zero nulls.
   */
  lemma NoMissingAfterFrameFilter(t: seq<Fact>)
    ensures MissingPerColumn(WithFrame(t)) == NullCounts(0, 0, 0, 0, 0)
    ensures TotalMissing(MissingPerColumn(WithFrame(t))) == 0
  {
    FrameNullsDropped(WithFrame(t));
  }

  // --------------------------------------------------------- annual subset

  /** `str.match(r'^CY\d{4}$')` on ASCII text: "CY" and exactly four digits. */
  predicate IsCYFrame(s: string)
  {
    |s| == 6 && s[0] == 'C' && s[1] == 'Y' && IsDigits(s[2..])
  }

  /** Annual labels are accepted; quarterly and instant labels are not. */
  lemma FrameLabels()
    ensures IsCYFrame("CY2023")
    ensures !IsCYFrame("CY2023Q4") && !IsCYFrame("CY2023Q4I") && !IsCYFrame("CY23")
  {
    assert "CY2023"[2..] == "2023";
  }

  /** Lines 36-39: a 10-K row whose frame is a calendar-year label. */
  predicate IsAnnualRow(f: Fact)
  {
    f.form == "10-K" && f.frame.Some? && IsCYFrame(f.frame.value)
  }

  /** Lines 28 and 33: the framed rows sorted by `end`. */
  function SortedRevenues(t: seq<Fact>): (s: seq<Fact>)
    ensures SortedByEnd(s)
    ensures multiset(s) == multiset(WithFrame(t))
  {
    SortByEnd(WithFrame(t))
  }

  /** Lines 36-39: the calendar-year 10-K rows of the sorted table. */
  function AnnualRevenues(t: seq<Fact>): seq<Fact>
  {
    Filter(IsAnnualRow, SortedRevenues(t))
  }

  /**
    A row is in the annual subset iff it is a row of the input that is a
    calendar-year 10-K; the subset keeps the sorted table's order, so it is
    sorted by `end` itself.
   */
  lemma AnnualRevenuesSpec(t: seq<Fact>)
    ensures forall i :: 0 <= i < |AnnualRevenues(t)| ==> IsAnnualRow(AnnualRevenues(t)[i]) && AnnualRevenues(t)[i] in t
    ensures forall i :: 0 <= i < |t| && IsAnnualRow(t[i]) ==> t[i] in AnnualRevenues(t)
    ensures SubseqOf(AnnualRevenues(t), SortedRevenues(t))
    ensures |AnnualRevenues(t)| == CountIf(IsAnnualRow, SortedRevenues(t))
    ensures SortedByEnd(AnnualRevenues(t))
  {
    var w := WithFrame(t);
    var s := SortedRevenues(t);
    var r := AnnualRevenues(t);
    assert forall f :: f in s <==> f in w by {
      assert forall f :: f in s <==> f in multiset(s);
      assert forall f :: f in w <==> f in multiset(w);
    }
    SubseqSorted(r, s);
  }

  /** Line 87 sorts the annual subset again; it is already sorted, so nothing moves. */
  lemma ResortIsNoOp(t: seq<Fact>)
    ensures SortByEnd(AnnualRevenues(t)) == AnnualRevenues(t)
  {
    AnnualRevenuesSpec(t);
    SortSortedIdentity(AnnualRevenues(t));
  }

  // -------------------------------------------------------------- outliers

  /** Lines 44-47: outside the fences `Q1 - 1.5 IQR` and `Q3 + 1.5 IQR`. */
  predicate IsOutlier(v: real, q1: real, q3: real)
  {
    v < q1 - 1.5 * (q3 - q1) || v > q3 + 1.5 * (q3 - q1)
  }

  /** The outlier test as a row mask. */
  function OutlierMask(q1: real, q3: real): Fact -> bool
  {
    (f: Fact) => IsOutlier(f.val, q1, q3)
  }

  /** Lines 45-48: the rows whose value is an outlier, in order, each as often as it occurs. */
  function Outliers(t: seq<Fact>, q1: real, q3: real): (r: seq<Fact>)
    ensures forall i :: 0 <= i < |r| ==> r[i] in t && IsOutlier(r[i].val, q1, q3)
    ensures forall i :: 0 <= i < |t| && IsOutlier(t[i].val, q1, q3) ==> t[i] in r
    ensures SubseqOf(r, t) && |r| == CountIf(OutlierMask(q1, q3), t)
  {
    Filter(OutlierMask(q1, q3), t)
  }

  /** With ordered quartiles, no value between them is flagged. */
  lemma InterquartileNotFlagged(v: real, q1: real, q3: real)
    requires q1 <= q3 && q1 <= v <= q3
    ensures !IsOutlier(v, q1, q3)
  {
  }

  /** Lines 50-53: the all-clear message is printed iff no row is an outlier. */
  lemma OutlierReportClear(t: seq<Fact>, q1: real, q3: real)
    ensures ReportOf(Outliers(t, q1, q3)).AllClear? <==> forall i :: 0 <= i < |t| ==> !IsOutlier(t[i].val, q1, q3)
  {
    var r := Outliers(t, q1, q3);
    if r != [] {
      var k :| 0 <= k < |t| && t[k] == r[0];
    }
  }

  /**
    For the values 10, 12, 12, 13, 12, 14, 200, pandas' quartiles are 12 and
    13.5; the fences are 9.75 and 15.75, and only 200 is flagged.
   */
  lemma OutlierExample()
    ensures !IsOutlier(10.0, 12.0, 13.5) && !IsOutlier(12.0, 12.0, 13.5)
    ensures !IsOutlier(13.0, 12.0, 13.5) && !IsOutlier(14.0, 12.0, 13.5)
    ensures IsOutlier(200.0, 12.0, 13.5)
    ensures !IsOutlier(9.75, 12.0, 13.5) && IsOutlier(9.74, 12.0, 13.5)
  {
  }

  // ------------------------------------------------------------ duplicates

  /** Number of rows whose `end` is `e`. */
  function EndCount(t: seq<Fact>, e: string): (n: nat)
    ensures n <= |t|
  {
    if t == [] then 0 else (if t[0].end == e then 1 else 0) + EndCount(t[1..], e)
  }

  /** Another row has the same period end as row `i`. */
  predicate SharesEnd(t: seq<Fact>, i: nat)
    requires i < |t|
  {
    exists j :: 0 <= j < |t| && j != i && t[j].end == t[i].end
  }

  /** `e` occurs iff it is counted. */
  lemma {:induction false} EndCountPositive(t: seq<Fact>, e: string)
    ensures EndCount(t, e) > 0 <==> exists j :: 0 <= j < |t| && t[j].end == e
    decreases |t|
  {
    if t != [] {
      EndCountPositive(t[1..], e);
      if exists j :: 0 <= j < |t[1..]| && t[1..][j].end == e {
        var j :| 0 <= j < |t[1..]| && t[1..][j].end == e;
        assert t[j + 1].end == e;
      }
      if exists j :: 0 <= j < |t| && t[j].end == e {
        var j :| 0 <= j < |t| && t[j].end == e;
        if j > 0 { assert t[1..][j - 1].end == e; }
      }
    }
  }

  /** Row `i`'s period end is counted more than once iff another row shares it. */
  lemma {:induction false} EndCountShared(t: seq<Fact>, i: nat)
    requires i < |t|
    ensures EndCount(t, t[i].end) > 1 <==> SharesEnd(t, i)
    decreases |t|
  {
    var e := t[i].end;
    if i == 0 {
      EndCountPositive(t[1..], e);
      if SharesEnd(t, 0) {
        var j :| 0 <= j < |t| && j != 0 && t[j].end == e;
        assert t[1..][j - 1].end == e;
      }
      if EndCount(t[1..], e) > 0 {
        var j :| 0 <= j < |t[1..]| && t[1..][j].end == e;
        assert t[j + 1].end == e;
      }
    } else {
      EndCountShared(t[1..], i - 1);
      assert t[1..][i - 1] == t[i];
      if t[0].end == e {
        EndCountPositive(t[1..], e);
        assert t[1..][i - 1].end == e;
        assert SharesEnd(t, i) by { assert t[0].end == t[i].end; }
      } else {
        if SharesEnd(t, i) {
          var j :| 0 <= j < |t| && j != i && t[j].end == e;
          assert j > 0 && t[1..][j - 1].end == e;
          assert SharesEnd(t[1..], i - 1);
        }
        if SharesEnd(t[1..], i - 1) {
          var j :| 0 <= j < |t[1..]| && j != i - 1 && t[1..][j].end == t[1..][i - 1].end;
          assert t[j + 1].end == e;
        }
      }
    }
  }

  /** The `keep=False` duplicate test on `end` as a row mask over table `t`. */
  function DuplicateMask(t: seq<Fact>): Fact -> bool
  {
    (f: Fact) => EndCount(t, f.end) > 1
  }

  /**
    Line 63: `df[df.duplicated(subset=['end'], keep=False)]`, in order; every
    copy of a shared period end is reported.
   */
  function Duplicates(t: seq<Fact>): (r: seq<Fact>)
    ensures forall i :: 0 <= i < |r| ==> r[i] in t && EndCount(t, r[i].end) > 1
    ensures forall i :: 0 <= i < |t| && EndCount(t, t[i].end) > 1 ==> t[i] in r
    ensures SubseqOf(r, t) && |r| == CountIf(DuplicateMask(t), t)
  {
    Filter(DuplicateMask(t), t)
  }

  /** Every row that shares its period end with another row is reported, and no other row is. */
  lemma DuplicatesSpec(t: seq<Fact>, i: nat)
    requires i < |t|
    ensures t[i] in Duplicates(t) <==> SharesEnd(t, i)
  {
    EndCountShared(t, i);
  }

  /** Two rows with the same period end are both reported. */
  lemma SharedEndReported(t: seq<Fact>, i: nat, j: nat)
    requires i < |t| && j < |t| && i != j && t[i].end == t[j].end
    ensures t[i] in Duplicates(t) && t[j] in Duplicates(t)
  {
    EndCountShared(t, i);
    EndCountShared(t, j);
  }

  /** Lines 65-68: the all-clear message is printed iff all period ends are distinct. */
  lemma DuplicateReportClear(t: seq<Fact>)
    ensures ReportOf(Duplicates(t)).AllClear? <==> forall i, j :: 0 <= i < j < |t| ==> t[i].end != t[j].end
  {
    var r := Duplicates(t);
    if r != [] {
      var k :| 0 <= k < |t| && t[k] == r[0];
      EndCountShared(t, k);
      var j :| 0 <= j < |t| && j != k && t[j].end == t[k].end;
      if j < k { assert t[j].end == t[k].end; } else { assert t[k].end == t[j].end; }
    }
    forall i, j | 0 <= i < j < |t| && t[i].end == t[j].end ensures r != [] {
      SharedEndReported(t, i, j);
    }
  }

  // ---------------------------------------------------------------- growth

  /** `(b - a) / a * 100`; a zero base is reported as missing (infinities are not modelled). */
  function PctChange(a: real, b: real): (r: Option<real>)
    ensures r.Some? <==> a != 0.0
  {
    if a != 0.0 then Some((b - a) / a * 100.0) else None
  }

  /** A defined percentage change gives back the later value from the earlier one. */
  lemma PctChangeInverse(a: real, b: real)
    requires a != 0.0
    ensures a + a * PctChange(a, b).value / 100.0 == b
  {
    var x := (b - a) / a;
    assert x * a == b - a;
    assert PctChange(a, b).value / 100.0 == x;
  }

  /** The changes between consecutive values. */
  function Changes(vs: seq<real>): (c: seq<Option<real>>)
    ensures |c| == if |vs| == 0 then 0 else |vs| - 1
  {
    if |vs| < 2 then [] else [PctChange(vs[0], vs[1])] + Changes(vs[1..])
  }

  /** Line 88: `val.pct_change() * 100`; the first row has no predecessor. */
  function Growth(vs: seq<real>): (g: seq<Option<real>>)
    ensures |g| == |vs|
    ensures |vs| > 0 ==> g[0].None?
  {
    if vs == [] then [] else [None] + Changes(vs)
  }

  /** Every later entry is the change from the previous value. */
  lemma {:induction false} ChangesAt(vs: seq<real>, i: nat)
    requires i + 1 < |vs|
    ensures Changes(vs)[i] == PctChange(vs[i], vs[i + 1])
    decreases |vs|
  {
    if i > 0 {
      ChangesAt(vs[1..], i - 1);
    }
  }

  lemma GrowthAt(vs: seq<real>, i: nat)
    requires 0 < i < |vs|
    ensures Growth(vs)[i] == PctChange(vs[i - 1], vs[i])
    ensures vs[i - 1] != 0.0 ==> Growth(vs)[i] == Some((vs[i] - vs[i - 1]) / vs[i - 1] * 100.0)
  {
    ChangesAt(vs, i - 1);
  }

  /** Number of defined growth entries. */
  function DefinedCount(g: seq<Option<real>>): nat
  {
    if g == [] then 0 else (if g[0].Some? then 1 else 0) + DefinedCount(g[1..])
  }

  /** With no zero value before the last, every change is defined; the last value is never a divisor. */
  lemma {:induction false} ChangesAllDefined(vs: seq<real>)
    requires forall i :: 0 <= i < |vs| - 1 ==> vs[i] != 0.0
    ensures DefinedCount(Changes(vs)) == |Changes(vs)|
    decreases |vs|
  {
    if |vs| >= 2 {
      ChangesAllDefined(vs[1..]);
      assert Changes(vs)[1..] == Changes(vs[1..]);
    }
  }

  lemma GrowthDefinedCount(vs: seq<real>)
    requires |vs| >= 1
    requires forall i :: 0 <= i < |vs| - 1 ==> vs[i] != 0.0
    ensures DefinedCount(Growth(vs)) == |vs| - 1
  {
    ChangesAllDefined(vs);
    assert Growth(vs)[1..] == Changes(vs);
  }

  /** The revenue column of a table. */
  function Vals(t: seq<Fact>): (vs: seq<real>)
    ensures |vs| == |t|
    ensures forall i :: 0 <= i < |t| ==> vs[i] == t[i].val
  {
    seq(|t|, i requires 0 <= i < |t| => t[i].val)
  }

  /** Lines 87-88: growth of the annual revenue, in order of period end. */
  function AnnualGrowth(t: seq<Fact>): (g: seq<Option<real>>)
    ensures |g| == |AnnualRevenues(t)|
  {
    Growth(Vals(SortByEnd(AnnualRevenues(t))))
  }

  /** Each defined growth figure takes the previous value to the current one. */
  lemma GrowthReconstructs(vs: seq<real>, i: nat)
    requires 0 < i < |vs| && vs[i - 1] != 0.0
    ensures Growth(vs)[i].Some?
    ensures vs[i - 1] + vs[i - 1] * Growth(vs)[i].value / 100.0 == vs[i]
  {
    GrowthAt(vs, i);
    PctChangeInverse(vs[i - 1], vs[i]);
  }

  /** Line 87's re-sort is a no-op: the annual rows are already in order of period end. */
  lemma AnnualGrowthInOrder(t: seq<Fact>)
    ensures AnnualGrowth(t) == Growth(Vals(AnnualRevenues(t)))
  {
    AnnualRevenuesSpec(t);
    SortSortedIdentity(AnnualRevenues(t));
  }

  /** On the annual rows: each growth figure is the change from one year's revenue to the next year's. */
  lemma AnnualGrowthAt(t: seq<Fact>, i: nat)
    requires 0 < i < |AnnualRevenues(t)|
    ensures AnnualGrowth(t)[i] == PctChange(AnnualRevenues(t)[i - 1].val, AnnualRevenues(t)[i].val)
  {
    AnnualGrowthInOrder(t);
    GrowthAt(Vals(AnnualRevenues(t)), i);
  }

  // ----------------------------------------------------------- end to end

  /**
    Line 26 on the payload: indexing the revenue facts raises where a key is
    missing, which stops the script; `None` stands for that.
   */
  function RevenueTable(p: Payload): (r: Option<seq<Fact>>)
    ensures r.None? <==> !HasUsdFacts(p, "Revenues")
    ensures r.Some? ==> r.value == GetTagDf(p, "Revenues")
  {
    LookupUsdFacts(p, "Revenues")
  }
}
