/** `calculate_kpis`: totals over the whole frame and the rates derived
    from them, each guarded against a zero denominator. Rates are exact
    reals; the rounding to two decimals for display is not modelled. */
module Kpis {
  import opened Records
  import opened Masking

  datatype KpiReport = KpiReport(
    totalEmailsSent: nat,
    totalOpens: nat,
    totalClicks: nat,
    totalConversions: nat,
    totalRevenue: real,
    openRate: real,
    clickThroughRate: real,
    conversionRate: real,
    revenuePerEmail: real)

  /** `(num / den) * 100 if den > 0 else 0`. */
  function Percent(num: nat, den: nat): (p: real)
    ensures den == 0 ==> p == 0.0
    ensures den > 0 ==> p * den as real == 100.0 * num as real
    ensures 0.0 <= p
    ensures num <= den ==> p <= 100.0
  {
    if den > 0 then
      RatioAtMostOne(num as real, den as real);
      (num as real / den as real) * 100.0
    else 0.0
  }

  lemma RatioAtMostOne(x: real, y: real)
    requires 0.0 <= x && 0.0 < y
    ensures 0.0 <= x / y
    ensures x <= y ==> x / y <= 1.0
    ensures (x / y) * 100.0 * y == 100.0 * x
  {
  }

  /** `total / den if den > 0 else 0`, without the factor 100. */
  function PerEmail(total: real, den: nat): (p: real)
    ensures den == 0 ==> p == 0.0
    ensures den > 0 ==> p * den as real == total
  {
    if den > 0 then total / den as real else 0.0
  }

  function CalculateKpis(s: seq<Record>): (k: KpiReport)
    ensures k.totalEmailsSent == |s|
    ensures k.totalOpens == Count(s, Opened) && k.totalClicks == Count(s, Clicked)
    ensures k.totalConversions == Count(s, Converted) && k.totalRevenue == Revenue(s)
    ensures k.totalOpens <= k.totalEmailsSent && k.totalClicks <= k.totalEmailsSent
    ensures k.totalConversions <= k.totalEmailsSent
    ensures s == [] ==> k == KpiReport(0, 0, 0, 0, 0.0, 0.0, 0.0, 0.0, 0.0)
  {
    var sent := |s|;
    var opens := Count(s, Opened);
    var clicks := Count(s, Clicked);
    var conversions := Count(s, Converted);
    var revenue := Revenue(s);
    KpiReport(sent, opens, clicks, conversions, revenue,
         Percent(opens, sent), Percent(clicks, opens), Percent(conversions, clicks),
         PerEmail(revenue, sent))
  }

  /** Each rate is its guarded ratio: 0 on a zero denominator, otherwise
      numerator over denominator (times 100 for the three percentages).
      Open rate and revenue per email are measured against emails sent,
      click-through against opens and conversion against clicks. */
  lemma KpiRatesAreGuardedRatios(s: seq<Record>)
    ensures var k := CalculateKpis(s);
      && (k.totalEmailsSent == 0 ==> k.openRate == 0.0 && k.revenuePerEmail == 0.0)
      && (k.totalEmailsSent > 0 ==>
            && k.openRate * k.totalEmailsSent as real == 100.0 * k.totalOpens as real
            && k.revenuePerEmail * k.totalEmailsSent as real == k.totalRevenue)
      && (k.totalOpens == 0 ==> k.clickThroughRate == 0.0)
      && (k.totalOpens > 0 ==> k.clickThroughRate * k.totalOpens as real == 100.0 * k.totalClicks as real)
      && (k.totalClicks == 0 ==> k.conversionRate == 0.0)
      && (k.totalClicks > 0 ==> k.conversionRate * k.totalClicks as real == 100.0 * k.totalConversions as real)
  {
  }

  /** On consistent rows the funnel narrows: conversions <= clicks <= opens. */
  lemma {:induction false} FunnelNarrows(s: seq<Record>)
    requires AllConsistent(s)
    ensures Count(s, Converted) <= Count(s, Clicked) <= Count(s, Opened)
  {
    if s != [] {
      assert Consistent(s[0]);
      assert AllConsistent(s[1..]) by {
        forall i | 0 <= i < |s[1..]| ensures Consistent(s[1..][i]) {
          assert s[1..][i] == s[i + 1];
        }
      }
      FunnelNarrows(s[1..]);
    }
  }

  /** With the funnel invariant in place every percentage rate lies in
      [0, 100]. */
  lemma KpiRatesBounded(s: seq<Record>)
    requires AllConsistent(s)
    ensures var k := CalculateKpis(s);
      && 0.0 <= k.openRate <= 100.0
      && 0.0 <= k.clickThroughRate <= 100.0
      && 0.0 <= k.conversionRate <= 100.0
  {
    FunnelNarrows(s);
  }

  /** Whatever frame the generator starts from, the KPIs of the masked
      frame have every percentage rate in [0, 100]. */
  lemma MaskedKpiRatesBounded(s: seq<Record>)
    ensures var k := CalculateKpis(MaskAll(s));
      && 0.0 <= k.openRate <= 100.0
      && 0.0 <= k.clickThroughRate <= 100.0
      && 0.0 <= k.conversionRate <= 100.0
  {
    MaskAllIdempotent(s);
    KpiRatesBounded(MaskAll(s));
  }

  /** When no row carries negative revenue, neither the revenue total nor
      the revenue per email is negative. */
  lemma RevenueNonNegative(s: seq<Record>)
    requires forall i :: 0 <= i < |s| ==> s[i].revenue >= 0.0
    ensures Revenue(s) >= 0.0
    ensures CalculateKpis(s).revenuePerEmail >= 0.0
  {
    var perEmail := CalculateKpis(s).revenuePerEmail;
    assert perEmail == PerEmail(Revenue(s), |s|);
    if |s| > 0 {
      QuotientNonNegative(Revenue(s), |s| as real);
    }
  }

  lemma QuotientNonNegative(t: real, d: real)
    requires t >= 0.0 && d > 0.0
    ensures t / d >= 0.0
  {
  }
}
