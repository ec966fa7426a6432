/** `perform_ab_test`: restrict the frame to the population the metric is
    measured on, find the two versions of the group column, tabulate
    Success/Failure per version, and decide a winner from the significance
    of the chi-square test. The test statistic and its p-value come from a
    statistics library and enter the model as parameters. */
module AbTest {
  import opened Records
  import opened StringOrder
  import opened Masking
  import opened Kpis

  /** How `perform_ab_test` ends: it returns None, the chi-square test
      raises, or it returns the result dictionary. */
  datatype Outcome = None | Raises | Some(value: AbResult)

  /** The constant `test_type` entry of the result. */
  const TestType: string := "A/B Test"

  /** The significance level of the test. */
  const Alpha: real := 0.05

  /** The 2x2 contingency table: rows version A and B, columns Success and
      Failure. */
  datatype Contingency = Contingency(successA: nat, failureA: nat, successB: nat, failureB: nat)

  /** The dictionary the test returns (before display rounding). */
  datatype AbResult = AbResult(
    testType: string,
    groupColumn: GroupColumn,
    metric: Flag,
    versionA: string,
    successA: nat,
    totalA: nat,
    rateA: real,
    versionB: string,
    successB: nat,
    totalB: nat,
    rateB: real,
    chi2Statistic: real,
    pValue: real,
    significant: bool,
    winner: string)

  /** A row is in the population of metric `m`: a click is only counted
      among opened emails and a conversion only among clicked ones. */
  predicate Passes(r: Record, m: Flag): (b: bool)
    ensures b <==> m == Opened || (m == Clicked && FlagOf(r, Opened) == 1)
                                || (m == Converted && FlagOf(r, Clicked) == 1)
    ensures Consistent(r) && FlagOf(r, m) == 1 ==> b
  {
    && (m == Clicked ==> r.wasOpened == 1)
    && (m == Converted ==> r.wasClicked == 1)
  }

  /** Lines 138-143: the rows the test is run on, in frame order. */
  function TestPopulation(s: seq<Record>, m: Flag): (p: seq<Record>)
    ensures |p| <= |s|
    ensures m == Opened ==> p == s
    ensures forall r :: r in p <==> r in s && Passes(r, m)
  {
    match m
    case Opened => s
    case Clicked => WithFlagMembers(s, Opened); WithFlag(s, Opened)
    case Converted => WithFlagMembers(s, Clicked); WithFlag(s, Clicked)
  }

  /** Every row of the population is there as often as in the frame. */
  lemma PopulationMultiplicity(s: seq<Record>, m: Flag)
    ensures forall r :: multiset(TestPopulation(s, m))[r] == if Passes(r, m) then multiset(s)[r] else 0
  {
    match m
    case Opened =>
    case Clicked => WithFlagMultiplicity(s, Opened);
    case Converted => WithFlagMultiplicity(s, Clicked);
  }

  /** The population keeps frame order: the population of two frames one
      after the other is their two populations one after the other. */
  lemma PopulationAppend(s1: seq<Record>, s2: seq<Record>, m: Flag)
    ensures TestPopulation(s1 + s2, m) == TestPopulation(s1, m) + TestPopulation(s2, m)
  {
    match m
    case Opened =>
    case Clicked => WithFlagAppend(s1, s2, Opened);
    case Converted => WithFlagAppend(s1, s2, Clicked);
  }

  /** The `j`-th row of the population sits at position `i` of the frame,
      and every row before `i` that passes the filter is among the first
      `j` rows of the population. */
  lemma PopulationPosition(s: seq<Record>, m: Flag, j: nat) returns (i: nat)
    requires j < |TestPopulation(s, m)|
    ensures i < |s| && s[i] == TestPopulation(s, m)[j] && Passes(s[i], m)
    ensures forall k :: 0 <= k < i && Passes(s[k], m) ==> s[k] in TestPopulation(s, m)[..j]
  {
    var p := TestPopulation(s, m);
    var f := if m == Converted then Clicked else Opened;
    if m == Opened {
      i := j;
      forall k | 0 <= k < i ensures s[k] in p[..j] {
        assert p[..j][k] == s[k];
      }
    } else {
      assert p == WithFlag(s, f);
      i := WithFlagPosition(s, f, j);
      WithFlagMembers(s[..i], f);
      forall k | 0 <= k < i && Passes(s[k], m) ensures s[k] in p[..j] {
        assert s[..i][k] == s[k];
      }
    }
  }

  /** The group column of the population, row by row. */
  function Labels(p: seq<Record>, g: GroupColumn): (xs: seq<string>)
    ensures |xs| == |p|
    ensures forall i :: 0 <= i < |p| ==> xs[i] == GroupOf(p[i], g)
  {
    if p == [] then [] else [GroupOf(p[0], g)] + Labels(p[1..], g)
  }

  /** The labels that occur in the population's group column. */
  function LabelSet(p: seq<Record>, g: GroupColumn): set<string>
  {
    set r | r in p :: GroupOf(r, g)
  }

  /** The labels other than `x`, in order. */
  function Without(xs: seq<string>, x: string): (ys: seq<string>)
    ensures |ys| <= |xs|
    ensures forall y :: y in ys <==> y in xs && y != x
  {
    if xs == [] then []
    else if xs[0] == x then Without(xs[1..], x)
    else [xs[0]] + Without(xs[1..], x)
  }

  /** `unique()`: each label once, in order of first appearance. */
  function Unique(xs: seq<string>): (d: seq<string>)
    ensures NoDuplicates(d)
    ensures forall x :: x in d <==> x in xs
    decreases |xs|
  {
    if xs == [] then []
    else
      var rest := Unique(Without(xs[1..], xs[0]));
      assert forall i :: 0 <= i < |rest| ==> rest[i] != xs[0] by {
        forall i | 0 <= i < |rest| ensures rest[i] != xs[0] {
          assert rest[i] in rest;
        }
      }
      [xs[0]] + rest
  }

  /** The first label other than `x` is at the first position whose label
      is not `x`. */
  lemma {:induction false} FirstOtherLabel(xs: seq<string>, x: string)
    requires Without(xs, x) != []
    ensures exists j :: 0 <= j < |xs| && xs[j] == Without(xs, x)[0]
                     && forall i :: 0 <= i < j ==> xs[i] == x
  {
    if xs[0] == x {
      FirstOtherLabel(xs[1..], x);
      var j :| 0 <= j < |xs[1..]| && xs[1..][j] == Without(xs[1..], x)[0]
               && forall i :: 0 <= i < j ==> xs[1..][i] == x;
      assert xs[j + 1] == Without(xs, x)[0];
      forall i | 0 <= i < j + 1 ensures xs[i] == x {
        if i > 0 {
          assert xs[i] == xs[1..][i - 1];
        }
      }
    } else {
      assert xs[0] == Without(xs, x)[0];
    }
  }

  /** A list without repeats has as many elements as its set. */
  lemma {:induction false} NoDuplicatesCardinality(d: seq<string>)
    requires NoDuplicates(d)
    ensures |set x | x in d| == |d|
  {
    if d != [] {
      assert NoDuplicates(d[1..]) by {
        forall i, j | 0 <= i < j < |d[1..]| ensures d[1..][i] != d[1..][j] {
          assert d[1..][i] == d[i + 1] && d[1..][j] == d[j + 1];
        }
      }
      NoDuplicatesCardinality(d[1..]);
      assert d[0] !in d[1..];
      assert (set x | x in d) == {d[0]} + (set x | x in d[1..]) by {
        assert d == [d[0]] + d[1..];
      }
    }
  }

  /** `unique()` lists exactly as many labels as occur. */
  lemma UniqueCountsLabels(p: seq<Record>, g: GroupColumn)
    ensures |Unique(Labels(p, g))| == |LabelSet(p, g)|
  {
    var xs := Labels(p, g);
    var d := Unique(xs);
    NoDuplicatesCardinality(d);
    assert (set x | x in d) == LabelSet(p, g) by {
      forall x | x in d ensures x in LabelSet(p, g) {
        var i :| 0 <= i < |xs| && xs[i] == x;
        assert p[i] in p;
      }
      forall x | x in LabelSet(p, g) ensures x in d {
        var r :| r in p && GroupOf(r, g) == x;
        var i :| 0 <= i < |p| && p[i] == r;
        assert xs[i] == x;
      }
    }
  }

  /** Lines 155-160: Success is the metric summed over a version's rows,
      Failure the rest of that version's rows. */
  function Tabulate(p: seq<Record>, g: GroupColumn, m: Flag, a: string, b: string): (t: Contingency)
    ensures t.successA == Count(WithGroup(p, g, a), m) && t.successB == Count(WithGroup(p, g, b), m)
    ensures t.successA + t.failureA == |WithGroup(p, g, a)|
    ensures t.successB + t.failureB == |WithGroup(p, g, b)|
  {
    var ga, gb := WithGroup(p, g, a), WithGroup(p, g, b);
    Contingency(Count(ga, m), |ga| - Count(ga, m), Count(gb, m), |gb| - Count(gb, m))
  }

  /** Lines 155-172 once the two versions are known: tabulate, test the
      p-value against Alpha, compute both rates and pick the winner. */
  function BuildResult(p: seq<Record>, g: GroupColumn, m: Flag, a: string, b: string,
                       chi2: real, pValue: real): (r: AbResult)
    ensures r.testType == TestType && r.versionA == a && r.versionB == b
    ensures r.successA == Count(WithGroup(p, g, a), m) && r.totalA == |WithGroup(p, g, a)|
    ensures r.successB == Count(WithGroup(p, g, b), m) && r.totalB == |WithGroup(p, g, b)|
  {
    var t := Tabulate(p, g, m, a, b);
    var significant := pValue < Alpha;
    var totalA, totalB := t.successA + t.failureA, t.successB + t.failureB;
    var rateA := Percent(t.successA, totalA);
    var rateB := Percent(t.successB, totalB);
    var winner := if significant then (if rateA > rateB then a else b) else "None";
    AbResult(TestType, g, m, a, t.successA, totalA, rateA, b, t.successB, totalB, rateB,
             chi2, pValue, significant, winner)
  }

  /** The chi-square test of the statistics library raises an error on a
      table with an expected frequency of zero. The expected frequency of
      a cell is its row total times its column total over the grand total,
      so on a non-empty table it is zero exactly when a row or a column of
      the table sums to zero. */
  predicate ZeroExpected(t: Contingency): (b: bool)
    ensures var rowA, rowB := t.successA + t.failureA, t.successB + t.failureB;
      var colS, colF := t.successA + t.successB, t.failureA + t.failureB;
      b <==> rowA * colS == 0 || rowA * colF == 0 || rowB * colS == 0 || rowB * colF == 0
  {
    || t.successA + t.failureA == 0 || t.successB + t.failureB == 0
    || t.successA + t.successB == 0 || t.failureA + t.failureB == 0
  }

  /** The whole test. `chi2` and `pValue` are what the chi-square test of
      the statistics library returns for the tabulated table when it does
      not raise. */
  function PerformAbTest(s: seq<Record>, g: GroupColumn, m: Flag, chi2: real, pValue: real): (o: Outcome)
    ensures TestPopulation(s, m) == [] ==> o == None
    ensures o.Some? ==> o.value.versionA != o.value.versionB
    ensures o.Some? ==> o.value.groupColumn == g && o.value.metric == m
    ensures o.Some? ==> o.value.chi2Statistic == chi2 && o.value.pValue == pValue
  {
    var p := TestPopulation(s, m);
    if p == [] then None
    else
      var versions := Unique(Labels(p, g));
      if |versions| != 2 then None
      else if ZeroExpected(Tabulate(p, g, m, versions[0], versions[1])) then Raises
      else Some(BuildResult(p, g, m, versions[0], versions[1], chi2, pValue))
  }

  /** With exactly two distinct labels, the first is the first label, the
      second is at the first position holding a different label, and every
      label is one of the two. */
  lemma TwoLabelsInOrder(xs: seq<string>)
    requires |Unique(xs)| == 2
    ensures var d := Unique(xs);
      && d[0] == xs[0] && d[0] != d[1]
      && (exists j :: 0 < j < |xs| && xs[j] == d[1] && forall i :: 0 <= i < j ==> xs[i] == d[0])
      && forall i :: 0 <= i < |xs| ==> xs[i] == d[0] || xs[i] == d[1]
  {
    var d := Unique(xs);
    var rest := Without(xs[1..], xs[0]);
    assert d == [xs[0]] + Unique(rest);
    assert Unique(rest) != [] && rest != [];
    assert Unique(rest)[0] == rest[0];
    FirstOtherLabel(xs[1..], xs[0]);
    var j :| 0 <= j < |xs[1..]| && xs[1..][j] == rest[0] && forall i :: 0 <= i < j ==> xs[1..][i] == xs[0];
    assert xs[j + 1] == d[1];
    forall i | 0 <= i < j + 1 ensures xs[i] == d[0] {
      if i > 0 {
        assert xs[i] == xs[1..][i - 1];
      }
    }
    forall i | 0 <= i < |xs| ensures xs[i] == d[0] || xs[i] == d[1] {
      assert xs[i] in d;
      assert d == [d[0], d[1]];
    }
  }

  /** A result, when there is one, is built from the first two labels in
      order of appearance. */
  lemma AbTestUnfold(s: seq<Record>, g: GroupColumn, m: Flag, chi2: real, pValue: real)
    requires PerformAbTest(s, g, m, chi2, pValue).Some?
    ensures var p := TestPopulation(s, m);
      && |Unique(Labels(p, g))| == 2
      && PerformAbTest(s, g, m, chi2, pValue).value
         == BuildResult(p, g, m, Unique(Labels(p, g))[0], Unique(Labels(p, g))[1], chi2, pValue)
  {
  }

  /** The test returns None exactly when the filtered population does not
      show exactly two versions (an empty one shows none). With two
      versions, the chi-square test raises exactly when no row of the
      population, or every row, succeeds; otherwise there is a result. */
  lemma AbTestOutcomes(s: seq<Record>, g: GroupColumn, m: Flag, chi2: real, pValue: real)
    ensures var o, p := PerformAbTest(s, g, m, chi2, pValue), TestPopulation(s, m);
      && (o.None? <==> |LabelSet(p, g)| != 2)
      && (o.Raises? <==> |LabelSet(p, g)| == 2 && (Count(p, m) == 0 || Count(p, m) == |p|))
      && (o.Some? <==> |LabelSet(p, g)| == 2 && 0 < Count(p, m) < |p|)
  {
    var p := TestPopulation(s, m);
    UniqueCountsLabels(p, g);
    if p == [] {
      assert LabelSet(p, g) == {};
    } else if |Unique(Labels(p, g))| == 2 {
      TwoVersionsZeroExpected(p, g, m);
    }
  }

  /** With two versions, the table has a zero expected frequency exactly
      when the metric is 0 on every row of the population or 1 on every
      row: both rows of the table are non-empty, and its columns sum to the
      successes and the failures of the whole population. */
  lemma TwoVersionsZeroExpected(p: seq<Record>, g: GroupColumn, m: Flag)
    requires |Unique(Labels(p, g))| == 2
    ensures var d := Unique(Labels(p, g));
      ZeroExpected(Tabulate(p, g, m, d[0], d[1])) <==> Count(p, m) == 0 || Count(p, m) == |p|
  {
    var d := Unique(Labels(p, g));
    var a, b := d[0], d[1];
    PopulationVersions(p, g);
    var j :| 0 < j < |p| && GroupOf(p[j], g) == b;
    VersionGroupsSplit(p, g, m, a, b, 0, j);
    ZeroExpectedOfMargins(Tabulate(p, g, m, a, b), |p|, Count(p, m));
  }

  /** A table whose two rows are non-empty, with `n` entries of which `c`
      are successes, has a zero margin exactly when `c` is 0 or `n`. */
  lemma ZeroExpectedOfMargins(t: Contingency, n: nat, c: nat)
    requires 1 <= t.successA + t.failureA && 1 <= t.successB + t.failureB
    requires t.successA + t.failureA + t.successB + t.failureB == n
    requires t.successA + t.successB == c
    ensures ZeroExpected(t) <==> c == 0 || c == n
  {
  }

  /** In a population with exactly two labels, the first listed is the
      label of the first row, the second is the label of the first row that
      differs from it, and every row carries one of the two. */
  lemma PopulationVersions(p: seq<Record>, g: GroupColumn)
    requires |Unique(Labels(p, g))| == 2
    ensures var d := Unique(Labels(p, g));
      && d[0] != d[1]
      && d[0] == GroupOf(p[0], g)
      && (exists j :: 0 < j < |p| && GroupOf(p[j], g) == d[1]
                   && forall i :: 0 <= i < j ==> GroupOf(p[i], g) == d[0])
      && forall q :: q in p ==> GroupOf(q, g) == d[0] || GroupOf(q, g) == d[1]
  {
    var xs := Labels(p, g);
    TwoLabelsInOrder(xs);
    var d := Unique(xs);
    var a, b := d[0], d[1];
    var j :| 0 < j < |xs| && xs[j] == b && forall i :: 0 <= i < j ==> xs[i] == a;
    LabelsOfRows(p, g, j, a);
    LabelsCoverRows(p, g, a, b);
  }

  /** A prefix of label positions reads as a prefix of rows. */
  lemma LabelsOfRows(p: seq<Record>, g: GroupColumn, j: nat, a: string)
    requires j < |p|
    requires forall i :: 0 <= i < j ==> Labels(p, g)[i] == a
    ensures GroupOf(p[j], g) == Labels(p, g)[j]
    ensures forall i :: 0 <= i < j ==> GroupOf(p[i], g) == a
  {
  }

  /** When every label is `a` or `b`, so is every row's. */
  lemma LabelsCoverRows(p: seq<Record>, g: GroupColumn, a: string, b: string)
    requires forall i :: 0 <= i < |p| ==> Labels(p, g)[i] == a || Labels(p, g)[i] == b
    ensures forall q :: q in p ==> GroupOf(q, g) == a || GroupOf(q, g) == b
  {
    forall q | q in p ensures GroupOf(q, g) == a || GroupOf(q, g) == b {
      var i :| 0 <= i < |p| && p[i] == q;
      assert Labels(p, g)[i] == GroupOf(q, g);
    }
  }

  /** Version A is the label of the first row of the population, version B
      the label of the first row that differs from it, and every row of the
      population carries one of the two. */
  lemma AbTestVersionsInFirstAppearanceOrder(s: seq<Record>, g: GroupColumn, m: Flag, chi2: real, pValue: real)
    requires PerformAbTest(s, g, m, chi2, pValue).Some?
    ensures var r, p := PerformAbTest(s, g, m, chi2, pValue).value, TestPopulation(s, m);
      && r.versionA != r.versionB
      && r.versionA == GroupOf(p[0], g)
      && (exists j :: 0 < j < |p| && GroupOf(p[j], g) == r.versionB
                   && forall i :: 0 <= i < j ==> GroupOf(p[i], g) == r.versionA)
      && forall q :: q in p ==> GroupOf(q, g) == r.versionA || GroupOf(q, g) == r.versionB
  {
    var p := TestPopulation(s, m);
    AbTestUnfold(s, g, m, chi2, pValue);
    PopulationVersions(p, g);
  }

  /** Stated on the frame itself: version A is the label of the first row
      that passes the filter, and version B the label of the first passing
      row labelled differently (every passing row before it is A). */
  lemma AbTestVersionsInFrameOrder(s: seq<Record>, g: GroupColumn, m: Flag, chi2: real, pValue: real)
    requires PerformAbTest(s, g, m, chi2, pValue).Some?
    ensures var r := PerformAbTest(s, g, m, chi2, pValue).value;
      && (exists i :: 0 <= i < |s| && Passes(s[i], m) && GroupOf(s[i], g) == r.versionA
                   && forall k :: 0 <= k < i ==> !Passes(s[k], m))
      && (exists i :: 0 <= i < |s| && Passes(s[i], m) && GroupOf(s[i], g) == r.versionB
                   && forall k :: 0 <= k < i && Passes(s[k], m) ==> GroupOf(s[k], g) == r.versionA)
  {
    var r, p := PerformAbTest(s, g, m, chi2, pValue).value, TestPopulation(s, m);
    AbTestVersionsInFirstAppearanceOrder(s, g, m, chi2, pValue);
    var j :| 0 < j < |p| && GroupOf(p[j], g) == r.versionB
             && forall i :: 0 <= i < j ==> GroupOf(p[i], g) == r.versionA;
    FirstPassingRow(s, m, g);
    FirstPassingOther(s, m, g, r.versionA, j);
  }

  /** The first row of the population is the first passing row of the
      frame. */
  lemma FirstPassingRow(s: seq<Record>, m: Flag, g: GroupColumn)
    requires TestPopulation(s, m) != []
    ensures exists i :: 0 <= i < |s| && Passes(s[i], m) && GroupOf(s[i], g) == GroupOf(TestPopulation(s, m)[0], g)
                     && forall k :: 0 <= k < i ==> !Passes(s[k], m)
  {
    var i := PopulationPosition(s, m, 0);
    assert TestPopulation(s, m)[..0] == [];
  }

  /** When the first `j` rows of the population are labelled `a`, every
      passing row of the frame before the `j`-th population row is too. */
  lemma FirstPassingOther(s: seq<Record>, m: Flag, g: GroupColumn, a: string, j: nat)
    requires j < |TestPopulation(s, m)|
    requires forall i :: 0 <= i < j ==> GroupOf(TestPopulation(s, m)[i], g) == a
    ensures exists i :: 0 <= i < |s| && Passes(s[i], m) && GroupOf(s[i], g) == GroupOf(TestPopulation(s, m)[j], g)
                     && forall k :: 0 <= k < i && Passes(s[k], m) ==> GroupOf(s[k], g) == a
  {
    var p := TestPopulation(s, m);
    var i := PopulationPosition(s, m, j);
    forall k | 0 <= k < i && Passes(s[k], m) ensures GroupOf(s[k], g) == a {
      var n :| 0 <= n < |p[..j]| && p[..j][n] == s[k];
      assert p[n] == s[k];
    }
  }

  /** Once two different versions are fixed that both occur and that
      every row carries, each version has at least one row, and the two
      split the population and its successes. */
  lemma VersionGroupsSplit(p: seq<Record>, g: GroupColumn, m: Flag, a: string, b: string, ia: nat, ib: nat)
    requires a != b
    requires ia < |p| && GroupOf(p[ia], g) == a
    requires ib < |p| && GroupOf(p[ib], g) == b
    requires forall q :: q in p ==> GroupOf(q, g) == a || GroupOf(q, g) == b
    ensures var ga, gb := WithGroup(p, g, a), WithGroup(p, g, b);
      && 1 <= |ga| && 1 <= |gb|
      && |ga| + |gb| == |p|
      && Count(ga, m) + Count(gb, m) == Count(p, m)
  {
    assert forall i :: 0 <= i < |p| ==> p[i] in p;
    TwoGroupsSplit(p, g, a, b, m);
    assert p[ia] in WithGroup(p, g, a);
    assert p[ib] in WithGroup(p, g, b);
  }

  /** Each version's Success count is the metric summed over its rows and
      its total is its number of rows (at least one); together the two
      versions account for the whole population and its successes. */
  lemma AbTestTable(s: seq<Record>, g: GroupColumn, m: Flag, chi2: real, pValue: real)
    requires PerformAbTest(s, g, m, chi2, pValue).Some?
    ensures var r, p := PerformAbTest(s, g, m, chi2, pValue).value, TestPopulation(s, m);
      && r.successA == Count(WithGroup(p, g, r.versionA), m)
      && r.successB == Count(WithGroup(p, g, r.versionB), m)
      && 1 <= r.totalA == |WithGroup(p, g, r.versionA)|
      && 1 <= r.totalB == |WithGroup(p, g, r.versionB)|
      && r.successA <= r.totalA && r.successB <= r.totalB
      && r.totalA + r.totalB == |p|
      && r.successA + r.successB == Count(p, m)
  {
    var p := TestPopulation(s, m);
    var d := Unique(Labels(p, g));
    AbTestUnfold(s, g, m, chi2, pValue);
    PopulationVersions(p, g);
    var j :| 0 < j < |p| && GroupOf(p[j], g) == d[1];
    VersionGroupsSplit(p, g, m, d[0], d[1], 0, j);
  }

  /** Once the versions are fixed, each rate is the guarded percentage of
      `calculate_kpis` applied to the version's Success count and total. */
  lemma BuildResultRates(p: seq<Record>, g: GroupColumn, m: Flag, a: string, b: string,
                         chi2: real, pValue: real)
    ensures var r := BuildResult(p, g, m, a, b, chi2, pValue);
      && r.rateA == Percent(r.successA, r.totalA)
      && r.rateB == Percent(r.successB, r.totalB)
  {
  }

  /** Once the versions are fixed, the result is significant exactly when
      the p-value is below 0.05; without significance the winner is 'None',
      and with it the winner is version A exactly when A's rate is strictly
      higher, so a tie goes to version B. */
  lemma BuildResultWinner(p: seq<Record>, g: GroupColumn, m: Flag, a: string, b: string,
                          chi2: real, pValue: real)
    requires a != b
    ensures var r := BuildResult(p, g, m, a, b, chi2, pValue);
      && r.significant == (pValue < 0.05)
      && r.pValue == pValue && r.chi2Statistic == chi2
      && (!r.significant ==> r.winner == "None")
      && (r.significant ==> (r.winner == a <==> r.rateA > r.rateB))
      && (r.significant ==> (r.winner == b <==> r.rateA <= r.rateB))
  {
  }

  /** Each rate is the guarded percentage of `calculate_kpis` applied to
      the version's Success count and group size, hence within [0, 100]. */
  lemma AbTestRates(s: seq<Record>, g: GroupColumn, m: Flag, chi2: real, pValue: real)
    requires PerformAbTest(s, g, m, chi2, pValue).Some?
    ensures var r := PerformAbTest(s, g, m, chi2, pValue).value;
      && r.rateA == Percent(r.successA, r.totalA) && 0.0 <= r.rateA <= 100.0
      && r.rateB == Percent(r.successB, r.totalB) && 0.0 <= r.rateB <= 100.0
  {
    var p := TestPopulation(s, m);
    var d := Unique(Labels(p, g));
    AbTestUnfold(s, g, m, chi2, pValue);
    BuildResultRates(p, g, m, d[0], d[1], chi2, pValue);
  }

  /** The result is significant exactly when the p-value is below 0.05.
      Without significance the winner is 'None'; with it, the winner is
      version A exactly when A's rate is strictly higher, so a tie goes to
      version B. */
  lemma AbTestWinner(s: seq<Record>, g: GroupColumn, m: Flag, chi2: real, pValue: real)
    requires PerformAbTest(s, g, m, chi2, pValue).Some?
    ensures var r := PerformAbTest(s, g, m, chi2, pValue).value;
      && r.significant == (pValue < 0.05)
      && r.pValue == pValue && r.chi2Statistic == chi2
      && (!r.significant ==> r.winner == "None")
      && (r.significant ==> (r.winner == r.versionA <==> r.rateA > r.rateB))
      && (r.significant ==> (r.winner == r.versionB <==> r.rateA <= r.rateB))
  {
    var p := TestPopulation(s, m);
    var d := Unique(Labels(p, g));
    AbTestUnfold(s, g, m, chi2, pValue);
    TwoLabelsInOrder(Labels(p, g));
    BuildResultWinner(p, g, m, d[0], d[1], chi2, pValue);
  }

  /** On consistent rows the population of a metric is the previous
      stage of the funnel and its successes are the metric's own count. */
  lemma PopulationIsFunnelStage(s: seq<Record>, m: Flag)
    requires AllConsistent(s)
    ensures var p := TestPopulation(s, m);
      && Count(p, m) == Count(s, m)
      && (m == Opened ==> |p| == |s|)
      && (m == Clicked ==> |p| == Count(s, Opened))
      && (m == Converted ==> |p| == Count(s, Clicked))
  {
    match m
    case Opened =>
    case Clicked =>
      CountIsSizeOfSelection(s, Opened);
      CountUnderImpliedFlag(s, Opened, Clicked);
    case Converted =>
      CountIsSizeOfSelection(s, Clicked);
      CountUnderImpliedFlag(s, Clicked, Converted);
  }

  /** On consistent rows the test population and its successes are the
      funnel numbers of `calculate_kpis`: opens are tested among all
      emails, clicks among opens and conversions among clicks. */
  lemma AbTestMatchesKpis(s: seq<Record>, g: GroupColumn, m: Flag, chi2: real, pValue: real)
    requires AllConsistent(s)
    requires PerformAbTest(s, g, m, chi2, pValue).Some?
    ensures var r, k := PerformAbTest(s, g, m, chi2, pValue).value, CalculateKpis(s);
      && (m == Opened ==> r.totalA + r.totalB == k.totalEmailsSent && r.successA + r.successB == k.totalOpens)
      && (m == Clicked ==> r.totalA + r.totalB == k.totalOpens && r.successA + r.successB == k.totalClicks)
      && (m == Converted ==> r.totalA + r.totalB == k.totalClicks && r.successA + r.successB == k.totalConversions)
  {
    AbTestTable(s, g, m, chi2, pValue);
    PopulationIsFunnelStage(s, m);
  }
}
