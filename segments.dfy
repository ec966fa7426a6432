/** `analyze_by_segment`: group the frame by segment, sum each group, then
    assign the rate columns on the group totals and replace the undefined
    0/0 ratios by 0. */
module Segments {
  import opened Records
  import opened StringOrder
  import opened Masking
  import opened Kpis

  /** A float64 cell as the data frame computes it: a number, NaN (from 0/0)
      or an infinity (from x/0 with x != 0). */
  datatype Cell = Num(v: real) | NaN | PosInf | NegInf

  /** What a cell holding `scale * num / den` means: a number exactly when
      the denominator is not zero (and then it times the denominator gives
      `scale * num`), NaN for 0/0, and an infinity of the numerator's sign
      otherwise. */
  predicate RateCell(c: Cell, num: real, den: real, scale: real)
  {
    && (c.Num? <==> den != 0.0)
    && (c.Num? ==> c.v * den == scale * num)
    && (c.NaN? <==> den == 0.0 && num == 0.0)
    && (c.PosInf? <==> den == 0.0 && num > 0.0)
    && (c.NegInf? <==> den == 0.0 && num < 0.0)
  }

  /** Element-wise true division of two columns. */
  function Divide(num: real, den: real): (c: Cell)
    ensures RateCell(c, num, den, 1.0)
  {
    if den != 0.0 then Num(num / den)
    else if num == 0.0 then NaN
    else if num > 0.0 then PosInf
    else NegInf
  }

  /** Multiplying a cell by 100 keeps NaN and the infinities, and turns a
      ratio cell into a percentage cell. */
  function Times100(c: Cell): (d: Cell)
    ensures forall num: real, den: real {:trigger RateCell(c, num, den, 1.0)} ::
      RateCell(c, num, den, 1.0) ==> RateCell(d, num, den, 100.0)
    ensures c.Num? && 0.0 <= c.v <= 1.0 ==> d.Num? && 0.0 <= d.v <= 100.0
  {
    if c.Num? then Num(c.v * 100.0) else c
  }

  /** `fillna(0)` on one cell: the result is never NaN, NaN becomes 0 and
      every other cell is kept. */
  function FillNa(c: Cell): (d: Cell)
    ensures !d.NaN?
    ensures c.NaN? ==> d == Num(0.0)
    ensures !c.NaN? ==> d == c
  {
    if c.NaN? then Num(0.0) else c
  }

  /** One row of the per-segment table. */
  datatype SegmentRow = SegmentRow(
    segment: string,
    totalSent: nat,
    totalOpened: nat,
    totalClicked: nat,
    totalConverted: nat,
    totalRevenue: real,
    openRate: Cell,
    clickRate: Cell,
    conversionRate: Cell,
    revenuePerEmail: Cell)

  /** The segment labels that occur in the frame. */
  function OccurringSegments(s: seq<Record>): set<string>
  {
    set r | r in s :: r.segment
  }

  /** The group keys in groupby order: each segment once, ascending. */
  function SegmentKeys(s: seq<Record>): (ks: seq<string>)
    ensures StrictlySorted(ks)
    ensures forall k :: k in ks <==> k in OccurringSegments(s)
  {
    if s == [] then [] else Insert(SegmentKeys(s[1..]), s[0].segment)
  }

  /** The key order is the only ascending listing of the segments: it
      does not depend on the order of the rows. */
  lemma SegmentKeysAreAscendingSegments(s: seq<Record>, ks: seq<string>)
    requires StrictlySorted(ks)
    requires forall k :: k in ks <==> k in OccurringSegments(s)
    ensures SegmentKeys(s) == ks
  {
    StrictlySortedUnique(SegmentKeys(s), ks);
  }

  /** The aggregated row of one segment (lines 101-107); the rate columns
      do not exist yet and read as NaN. A segment's row counts at least one
      email exactly when the segment occurs, and no indicator sum exceeds
      the emails counted. */
  function Aggregate(s: seq<Record>, k: string): (row: SegmentRow)
    ensures row.segment == k
    ensures var g := WithGroup(s, Segment, k);
      && row.totalSent == |g| && row.totalOpened == Count(g, Opened)
      && row.totalClicked == Count(g, Clicked) && row.totalConverted == Count(g, Converted)
      && row.totalRevenue == Revenue(g)
    ensures row.totalSent >= 1 <==> k in OccurringSegments(s)
    ensures row.totalOpened <= row.totalSent && row.totalClicked <= row.totalSent
    ensures row.totalConverted <= row.totalSent
    ensures row.openRate.NaN? && row.clickRate.NaN? && row.conversionRate.NaN? && row.revenuePerEmail.NaN?
  {
    var g := WithGroup(s, Segment, k);
    assert |g| >= 1 ==> g[0] in g;
    SegmentRow(k, |g|, Count(g, Opened), Count(g, Clicked), Count(g, Converted), Revenue(g),
               NaN, NaN, NaN, NaN)
  }

  /** Lines 109-112 on one row: each percentage is 100 times its
      numerator over its denominator, revenue per email is revenue over
      sent, each with the float-division outcomes on a zero denominator;
      the segment and the totals are kept. */
  function WithRates(row: SegmentRow): (r: SegmentRow)
    ensures r.segment == row.segment && r.totalSent == row.totalSent
    ensures r.totalOpened == row.totalOpened && r.totalClicked == row.totalClicked
    ensures r.totalConverted == row.totalConverted && r.totalRevenue == row.totalRevenue
    ensures RateCell(r.openRate, row.totalOpened as real, row.totalSent as real, 100.0)
    ensures RateCell(r.clickRate, row.totalClicked as real, row.totalOpened as real, 100.0)
    ensures RateCell(r.conversionRate, row.totalConverted as real, row.totalClicked as real, 100.0)
    ensures RateCell(r.revenuePerEmail, row.totalRevenue, row.totalSent as real, 1.0)
  {
    row.(openRate := Times100(Divide(row.totalOpened as real, row.totalSent as real)),
         clickRate := Times100(Divide(row.totalClicked as real, row.totalOpened as real)),
         conversionRate := Times100(Divide(row.totalConverted as real, row.totalClicked as real)),
         revenuePerEmail := Divide(row.totalRevenue, row.totalSent as real))
  }

  /** Line 114 on one row: no rate cell is NaN afterwards, the cells that
      were not NaN are kept, and the segment and totals are untouched. */
  function FillNaRow(row: SegmentRow): (r: SegmentRow)
    ensures !r.openRate.NaN? && !r.clickRate.NaN? && !r.conversionRate.NaN? && !r.revenuePerEmail.NaN?
    ensures !row.openRate.NaN? ==> r.openRate == row.openRate
    ensures !row.clickRate.NaN? ==> r.clickRate == row.clickRate
    ensures !row.conversionRate.NaN? ==> r.conversionRate == row.conversionRate
    ensures !row.revenuePerEmail.NaN? ==> r.revenuePerEmail == row.revenuePerEmail
    ensures r.segment == row.segment && r.totalSent == row.totalSent
    ensures r.totalOpened == row.totalOpened && r.totalClicked == row.totalClicked
    ensures r.totalConverted == row.totalConverted && r.totalRevenue == row.totalRevenue
  {
    row.(openRate := FillNa(row.openRate), clickRate := FillNa(row.clickRate),
         conversionRate := FillNa(row.conversionRate), revenuePerEmail := FillNa(row.revenuePerEmail))
  }

  /** The table `analyze_by_segment` returns (before display rounding). */
  function SegmentTable(s: seq<Record>): (t: seq<SegmentRow>)
    ensures |t| == |SegmentKeys(s)|
    ensures forall i :: 0 <= i < |t| ==> t[i].segment == SegmentKeys(s)[i]
  {
    var ks := SegmentKeys(s);
    seq(|ks|, i requires 0 <= i < |ks| => FillNaRow(WithRates(Aggregate(s, ks[i]))))
  }

  /** Lines 109-112: the rate columns assigned on every row in place. */
  method AssignRates(table: array<SegmentRow>)
    modifies table
    ensures forall j :: 0 <= j < table.Length ==> table[j] == WithRates(old(table[j]))
  {
    var i := 0;
    while i < table.Length
      invariant 0 <= i <= table.Length
      invariant forall j :: 0 <= j < i ==> table[j] == WithRates(old(table[j]))
      invariant forall j :: i <= j < table.Length ==> table[j] == old(table[j])
    {
      table[i] := WithRates(table[i]);
      i := i + 1;
    }
  }

  /** Line 114: every NaN rate cell replaced by 0 in place. */
  method FillMissingRates(table: array<SegmentRow>)
    modifies table
    ensures forall j :: 0 <= j < table.Length ==> table[j] == FillNaRow(old(table[j]))
  {
    var i := 0;
    while i < table.Length
      invariant 0 <= i <= table.Length
      invariant forall j :: 0 <= j < i ==> table[j] == FillNaRow(old(table[j]))
      invariant forall j :: i <= j < table.Length ==> table[j] == old(table[j])
    {
      table[i] := FillNaRow(table[i]);
      i := i + 1;
    }
  }

  /** The whole function: aggregation into a fresh table, then the rate
      columns assigned row by row, then NaN replaced by 0 in place. */
  method AnalyzeBySegment(s: seq<Record>) returns (table: array<SegmentRow>)
    ensures fresh(table)
    ensures table[..] == SegmentTable(s)
  {
    var keys := SegmentKeys(s);
    table := new SegmentRow[|keys|](i requires 0 <= i < |keys| => Aggregate(s, keys[i]));
    AssignRates(table);
    FillMissingRates(table);
    assert forall j :: 0 <= j < table.Length ==> table[..][j] == SegmentTable(s)[j];
  }

  /** A segment that occurs has at least one row. */
  lemma OccurringSegmentIsNonEmpty(s: seq<Record>, k: string)
    requires k in OccurringSegments(s)
    ensures |WithGroup(s, Segment, k)| >= 1
  {
    var r :| r in s && r.segment == k;
    assert r in WithGroup(s, Segment, k);
  }

  /** One row per segment that occurs, in ascending key order, each
      holding the totals of that segment's rows only. */
  lemma SegmentTableRows(s: seq<Record>)
    ensures var t := SegmentTable(s);
      && (forall i, j :: 0 <= i < j < |t| ==> StrLess(t[i].segment, t[j].segment))
      && (forall k :: k in OccurringSegments(s) <==> exists i :: 0 <= i < |t| && t[i].segment == k)
      && (forall i :: 0 <= i < |t| ==>
            var g := WithGroup(s, Segment, t[i].segment);
            && 1 <= t[i].totalSent == |g|
            && t[i].totalOpened == Count(g, Opened)
            && t[i].totalClicked == Count(g, Clicked)
            && t[i].totalConverted == Count(g, Converted)
            && t[i].totalRevenue == Revenue(g))
  {
  }

  /** Every segment row is the overall KPI report of that segment's rows,
      with one difference: a segment with clicks but no opens (or
      conversions but no clicks) keeps an infinite rate, because only the
      0/0 cells are filled with 0. */
  lemma SegmentRowIsSegmentKpis(s: seq<Record>)
    ensures var t := SegmentTable(s);
      forall i :: 0 <= i < |t| ==>
        var k := CalculateKpis(WithGroup(s, Segment, t[i].segment));
        && t[i].totalSent == k.totalEmailsSent && t[i].totalOpened == k.totalOpens
        && t[i].totalClicked == k.totalClicks && t[i].totalConverted == k.totalConversions
        && t[i].totalRevenue == k.totalRevenue
        && t[i].openRate == Num(k.openRate)
        && t[i].clickRate == (if k.totalOpens == 0 && k.totalClicks > 0 then PosInf else Num(k.clickThroughRate))
        && t[i].conversionRate == (if k.totalClicks == 0 && k.totalConversions > 0 then PosInf else Num(k.conversionRate))
        && t[i].revenuePerEmail == Num(k.revenuePerEmail)
  {
  }

  /** A percentage column cell after `fillna(0)`, against the guarded
      ratio of `calculate_kpis`. */
  lemma CellOfPercent(num: nat, den: nat)
    ensures FillNa(Times100(Divide(num as real, den as real)))
         == if den == 0 && num > 0 then PosInf else Num(Percent(num, den))
  {
  }

  /** On consistent rows no rate cell is infinite or NaN, and every
      percentage lies in [0, 100]. */
  lemma SegmentRatesBounded(s: seq<Record>)
    requires AllConsistent(s)
    ensures var t := SegmentTable(s);
      forall i :: 0 <= i < |t| ==>
        && t[i].openRate.Num? && 0.0 <= t[i].openRate.v <= 100.0
        && t[i].clickRate.Num? && 0.0 <= t[i].clickRate.v <= 100.0
        && t[i].conversionRate.Num? && 0.0 <= t[i].conversionRate.v <= 100.0
        && t[i].revenuePerEmail.Num?
  {
    var t := SegmentTable(s);
    SegmentRowIsSegmentKpis(s);
    forall i | 0 <= i < |t|
      ensures && t[i].openRate.Num? && 0.0 <= t[i].openRate.v <= 100.0
              && t[i].clickRate.Num? && 0.0 <= t[i].clickRate.v <= 100.0
              && t[i].conversionRate.Num? && 0.0 <= t[i].conversionRate.v <= 100.0
              && t[i].revenuePerEmail.Num?
    {
      var g := WithGroup(s, Segment, t[i].segment);
      assert AllConsistent(g) by {
        forall j | 0 <= j < |g| ensures Consistent(g[j]) {
          assert g[j] in g;
          var n :| 0 <= n < |s| && s[n] == g[j];
        }
      }
      FunnelNarrows(g);
      KpiRatesBounded(g);
    }
  }

  /** The summed columns of the table. */
  datatype Column = SentCol | FlagCol(f: Flag) | RevenueCol

  /** A column total over some rows of the frame. */
  function Measure(s: seq<Record>, c: Column): real
  {
    match c
    case SentCol => |s| as real
    case FlagCol(f) => Count(s, f) as real
    case RevenueCol => Revenue(s)
  }

  /** The same column total as it stands in a segment row. */
  function RowMeasure(row: SegmentRow, c: Column): real
  {
    match c
    case SentCol => row.totalSent as real
    case FlagCol(f) =>
      (match f
       case Opened => row.totalOpened as real
       case Clicked => row.totalClicked as real
       case Converted => row.totalConverted as real)
    case RevenueCol => row.totalRevenue
  }

  /** A column of the table summed over all rows. */
  function SumColumn(t: seq<SegmentRow>, c: Column): real
  {
    if t == [] then 0.0 else RowMeasure(t[0], c) + SumColumn(t[1..], c)
  }

  /** A column total summed over the groups of the given keys. */
  function SumOverKeys(s: seq<Record>, ks: seq<string>, c: Column): real
  {
    if ks == [] then 0.0 else Measure(WithGroup(s, Segment, ks[0]), c) + SumOverKeys(s, ks[1..], c)
  }

  lemma MeasureCons(r: Record, g: seq<Record>, c: Column)
    ensures Measure([r] + g, c) == Measure([r], c) + Measure(g, c)
  {
    assert ([r] + g)[1..] == g;
    assert [r][1..] == [];
    match c
    case SentCol =>
    case FlagCol(f) =>
      assert Count([r] + g, f) == FlagOf(r, f) + Count(g, f);
      assert Count([r], f) == FlagOf(r, f) + Count([], f);
    case RevenueCol =>
      assert Revenue([r] + g) == r.revenue + Revenue(g);
      assert Revenue([r]) == r.revenue + Revenue([]);
  }

  lemma WithGroupCons(r: Record, s: seq<Record>, k: string)
    ensures WithGroup([r] + s, Segment, k)
         == if r.segment == k then [r] + WithGroup(s, Segment, k) else WithGroup(s, Segment, k)
  {
    assert ([r] + s)[1..] == s;
  }

  lemma {:induction false} SumOverKeysOfNothing(ks: seq<string>, c: Column)
    ensures SumOverKeys([], ks, c) == 0.0
  {
    if ks != [] {
      SumOverKeysOfNothing(ks[1..], c);
    }
  }

  /** Adding one row in front adds its value to the one group it falls
      into, if its key is listed. */
  lemma {:induction false} SumOverKeysCons(r: Record, s: seq<Record>, ks: seq<string>, c: Column)
    requires NoDuplicates(ks)
    ensures SumOverKeys([r] + s, ks, c)
         == SumOverKeys(s, ks, c) + (if r.segment in ks then Measure([r], c) else 0.0)
  {
    if ks != [] {
      assert NoDuplicates(ks[1..]) by {
        forall i, j | 0 <= i < j < |ks[1..]| ensures ks[1..][i] != ks[1..][j] {
          assert ks[1..][i] == ks[i + 1] && ks[1..][j] == ks[j + 1];
        }
      }
      SumOverKeysCons(r, s, ks[1..], c);
      WithGroupCons(r, s, ks[0]);
      if r.segment == ks[0] {
        MeasureCons(r, WithGroup(s, Segment, ks[0]), c);
        assert r.segment !in ks[1..];
      } else {
        assert r.segment in ks <==> r.segment in ks[1..] by {
          assert ks == [ks[0]] + ks[1..];
        }
      }
    }
  }

  /** Summing a column over the groups of distinct keys that cover every
      row gives the column total over the whole frame. */
  lemma {:induction false} PartitionBySegment(s: seq<Record>, ks: seq<string>, c: Column)
    requires NoDuplicates(ks)
    requires forall r :: r in s ==> r.segment in ks
    ensures SumOverKeys(s, ks, c) == Measure(s, c)
  {
    if s == [] {
      SumOverKeysOfNothing(ks, c);
    } else {
      assert s == [s[0]] + s[1..];
      assert s[0] in s;
      PartitionBySegment(s[1..], ks, c);
      SumOverKeysCons(s[0], s[1..], ks, c);
      MeasureCons(s[0], s[1..], c);
    }
  }

  lemma {:induction false} SumColumnOfRows(t: seq<SegmentRow>, s: seq<Record>, ks: seq<string>, c: Column)
    requires |t| == |ks|
    requires forall i :: 0 <= i < |t| ==> RowMeasure(t[i], c) == Measure(WithGroup(s, Segment, ks[i]), c)
    ensures SumColumn(t, c) == SumOverKeys(s, ks, c)
  {
    if t != [] {
      SumColumnOfRows(t[1..], s, ks[1..], c);
    }
  }

  /** Filling in the rates leaves the summed columns of a row alone. */
  lemma RowMeasureOfGroup(s: seq<Record>, k: string, c: Column)
    ensures RowMeasure(FillNaRow(WithRates(Aggregate(s, k))), c) == Measure(WithGroup(s, Segment, k), c)
  {
  }

  /** Any one column summed over the segment rows is that column's total
      over the whole frame. */
  lemma ColumnSumIsTotal(s: seq<Record>, c: Column)
    ensures SumColumn(SegmentTable(s), c) == Measure(s, c)
  {
    var t, ks := SegmentTable(s), SegmentKeys(s);
    StrictlySortedHasNoDuplicates(ks);
    forall r | r in s ensures r.segment in ks {
      assert r.segment in OccurringSegments(s);
    }
    forall i | 0 <= i < |t| ensures RowMeasure(t[i], c) == Measure(WithGroup(s, Segment, ks[i]), c) {
      assert t[i] == FillNaRow(WithRates(Aggregate(s, ks[i])));
      RowMeasureOfGroup(s, ks[i], c);
    }
    SumColumnOfRows(t, s, ks, c);
    PartitionBySegment(s, ks, c);
  }

  /** Summing sent, opened, clicked, converted and revenue over the
      segment rows gives the overall totals of `calculate_kpis`. */
  lemma SegmentTotalsMatchKpis(s: seq<Record>)
    ensures var t, k := SegmentTable(s), CalculateKpis(s);
      && SumColumn(t, SentCol) == k.totalEmailsSent as real
      && SumColumn(t, FlagCol(Opened)) == k.totalOpens as real
      && SumColumn(t, FlagCol(Clicked)) == k.totalClicks as real
      && SumColumn(t, FlagCol(Converted)) == k.totalConversions as real
      && SumColumn(t, RevenueCol) == k.totalRevenue
  {
    ColumnSumIsTotal(s, SentCol);
    ColumnSumIsTotal(s, FlagCol(Opened));
    ColumnSumIsTotal(s, FlagCol(Clicked));
    ColumnSumIsTotal(s, FlagCol(Converted));
    ColumnSumIsTotal(s, RevenueCol);
  }
}
