/** The rows of the campaign data frame and the column operations every
    analytics function is built from: reading a column, summing an
    indicator column, summing revenue and selecting rows. */
module Records {

  /** A 0/1 indicator cell (`opened`, `clicked`, `converted`). */
  type Bit = x: int | 0 <= x <= 1

  /** One row of the data frame: one email sent to one user. */
  datatype Record = Record(
    campaignId: string,
    subjectLineVersion: string,
    emailContentVersion: string,
    segment: string,
    wasOpened: Bit,
    wasClicked: Bit,
    wasConverted: Bit,
    revenue: real)

  /** The indicator columns. */
  datatype Flag = Opened | Clicked | Converted

  /** The label columns a data frame can be grouped by. */
  datatype GroupColumn = CampaignId | SubjectLineVersion | EmailContentVersion | Segment

  function FlagOf(r: Record, f: Flag): Bit
  {
    match f
    case Opened => r.wasOpened
    case Clicked => r.wasClicked
    case Converted => r.wasConverted
  }

  function GroupOf(r: Record, g: GroupColumn): string
  {
    match g
    case CampaignId => r.campaignId
    case SubjectLineVersion => r.subjectLineVersion
    case EmailContentVersion => r.emailContentVersion
    case Segment => r.segment
  }

  /** `df[f].sum()`: the number of rows whose indicator `f` is set. */
  function Count(s: seq<Record>, f: Flag): (n: nat)
    ensures n <= |s|
  {
    if s == [] then 0 else FlagOf(s[0], f) + Count(s[1..], f)
  }

  /** `df['revenue'].sum()`: never negative when no cell is. */
  function Revenue(s: seq<Record>): (t: real)
    ensures (forall i :: 0 <= i < |s| ==> s[i].revenue >= 0.0) ==> t >= 0.0
  {
    if s == [] then 0.0
    else
      assert forall i :: 0 <= i < |s[1..]| ==> s[1..][i] == s[i + 1];
      s[0].revenue + Revenue(s[1..])
  }

  /** `df[df[f] == 1]`: the rows whose indicator `f` is set, each as often
      as in the frame, in order (see `WithFlagAppend`). */
  function WithFlag(s: seq<Record>, f: Flag): (t: seq<Record>)
    ensures |t| <= |s|
  {
    if s == [] then []
    else if FlagOf(s[0], f) == 1 then [s[0]] + WithFlag(s[1..], f)
    else WithFlag(s[1..], f)
  }

  /** `df[df[g] == v]`: the rows whose label in column `g` is `v`, each as
      often as in the frame, in order (see `WithGroupAppend`). */
  function WithGroup(s: seq<Record>, g: GroupColumn, v: string): (t: seq<Record>)
    ensures |t| <= |s|
    ensures forall r :: r in t <==> r in s && GroupOf(r, g) == v
  {
    if s == [] then []
    else if GroupOf(s[0], g) == v then [s[0]] + WithGroup(s[1..], g, v)
    else WithGroup(s[1..], g, v)
  }

  /** The selected rows are exactly the rows of the frame that carry `f`. */
  lemma {:induction false} WithFlagMembers(s: seq<Record>, f: Flag)
    ensures forall r :: r in WithFlag(s, f) <==> r in s && FlagOf(r, f) == 1
  {
    if s != [] {
      WithFlagMembers(s[1..], f);
      assert s == [s[0]] + s[1..];
    }
  }

  /** Every selected row is kept as many times as it occurs in the frame. */
  lemma {:induction false} WithFlagMultiplicity(s: seq<Record>, f: Flag)
    ensures forall r :: multiset(WithFlag(s, f))[r] == if FlagOf(r, f) == 1 then multiset(s)[r] else 0
  {
    if s != [] {
      WithFlagMultiplicity(s[1..], f);
      assert s == [s[0]] + s[1..];
    }
  }

  lemma {:induction false} WithGroupMultiplicity(s: seq<Record>, g: GroupColumn, v: string)
    ensures forall r :: multiset(WithGroup(s, g, v))[r] == if GroupOf(r, g) == v then multiset(s)[r] else 0
  {
    if s != [] {
      WithGroupMultiplicity(s[1..], g, v);
      assert s == [s[0]] + s[1..];
    }
  }

  /** Selecting rows keeps their order: selecting from two frames one after
      the other is selecting from each and putting the results one after
      the other. */
  lemma {:induction false} WithFlagAppend(s1: seq<Record>, s2: seq<Record>, f: Flag)
    ensures WithFlag(s1 + s2, f) == WithFlag(s1, f) + WithFlag(s2, f)
  {
    if s1 != [] {
      assert (s1 + s2)[0] == s1[0] && (s1 + s2)[1..] == s1[1..] + s2;
      WithFlagAppend(s1[1..], s2, f);
    } else {
      assert s1 + s2 == s2;
    }
  }

  lemma {:induction false} WithGroupAppend(s1: seq<Record>, s2: seq<Record>, g: GroupColumn, v: string)
    ensures WithGroup(s1 + s2, g, v) == WithGroup(s1, g, v) + WithGroup(s2, g, v)
  {
    if s1 != [] {
      assert (s1 + s2)[0] == s1[0] && (s1 + s2)[1..] == s1[1..] + s2;
      WithGroupAppend(s1[1..], s2, g, v);
    } else {
      assert s1 + s2 == s2;
    }
  }

  lemma WithFlagCons(r: Record, x: seq<Record>, f: Flag)
    ensures WithFlag([r] + x, f) == (if FlagOf(r, f) == 1 then [r] else []) + WithFlag(x, f)
  {
    assert ([r] + x)[0] == r && ([r] + x)[1..] == x;
  }

  /** The `j`-th selected row sits at position `i` of the frame, and the
      rows selected before position `i` are exactly the first `j`. */
  lemma {:induction false} WithFlagPosition(s: seq<Record>, f: Flag, j: nat) returns (i: nat)
    requires j < |WithFlag(s, f)|
    ensures i < |s| && s[i] == WithFlag(s, f)[j] && FlagOf(s[i], f) == 1
    ensures WithFlag(s[..i], f) == WithFlag(s, f)[..j]
  {
    if j == 0 && FlagOf(s[0], f) == 1 {
      i := 0;
      assert s[..0] == [];
    } else {
      var k: nat := if FlagOf(s[0], f) == 1 then j - 1 else j;
      var i' := WithFlagPosition(s[1..], f, k);
      i := i' + 1;
      PositionStep(s, f, j, k, i');
    }
  }

  /** The step of `WithFlagPosition`: one more row in front moves the
      position by one and the selected prefix by that row, if selected. */
  lemma PositionStep(s: seq<Record>, f: Flag, j: nat, k: nat, i: nat)
    requires s != [] && j == if FlagOf(s[0], f) == 1 then k + 1 else k
    requires k < |WithFlag(s[1..], f)| && i < |s[1..]|
    requires s[1..][i] == WithFlag(s[1..], f)[k] && FlagOf(s[1..][i], f) == 1
    requires WithFlag(s[1..][..i], f) == WithFlag(s[1..], f)[..k]
    ensures j < |WithFlag(s, f)| && i + 1 < |s|
    ensures s[i + 1] == WithFlag(s, f)[j] && FlagOf(s[i + 1], f) == 1
    ensures WithFlag(s[..i + 1], f) == WithFlag(s, f)[..j]
  {
    SelectFront(s, f);
    SelectFrontOfPrefix(s, f, i);
    if FlagOf(s[0], f) == 1 {
      PrefixOfAppend([s[0]], WithFlag(s[1..], f), k);
    } else {
      PrefixOfAppend([], WithFlag(s[1..], f), k);
    }
  }

  lemma SelectFront(s: seq<Record>, f: Flag)
    requires s != []
    ensures WithFlag(s, f) == (if FlagOf(s[0], f) == 1 then [s[0]] else []) + WithFlag(s[1..], f)
  {
  }

  lemma SelectFrontOfPrefix(s: seq<Record>, f: Flag, i: nat)
    requires s != [] && i < |s| - 1
    ensures WithFlag(s[..i + 1], f) == (if FlagOf(s[0], f) == 1 then [s[0]] else []) + WithFlag(s[1..][..i], f)
  {
    assert s[..i + 1] == [s[0]] + s[1..][..i];
    WithFlagCons(s[0], s[1..][..i], f);
  }

  lemma PrefixOfAppend<T>(a: seq<T>, b: seq<T>, k: nat)
    requires k <= |b|
    ensures (a + b)[..|a| + k] == a + b[..k]
    ensures k < |b| ==> (a + b)[|a| + k] == b[k]
  {
  }

  /** Summing an indicator over a frame with one more row in front. */
  lemma CountCons(r: Record, t: seq<Record>, f: Flag)
    ensures Count([r] + t, f) == FlagOf(r, f) + Count(t, f)
  {
    assert ([r] + t)[1..] == t;
  }

  /** Summing an indicator counts exactly the rows that carry it. */
  lemma {:induction false} CountIsSizeOfSelection(s: seq<Record>, f: Flag)
    ensures Count(s, f) == |WithFlag(s, f)|
  {
    if s != [] {
      CountIsSizeOfSelection(s[1..], f);
    }
  }

  /** Selecting the rows that carry `f` loses none of the rows that carry
      `m`, when every row carrying `m` also carries `f`. */
  lemma {:induction false} CountUnderImpliedFlag(s: seq<Record>, f: Flag, m: Flag)
    requires forall i :: 0 <= i < |s| && FlagOf(s[i], m) == 1 ==> FlagOf(s[i], f) == 1
    ensures Count(WithFlag(s, f), m) == Count(s, m)
  {
    if s != [] {
      assert forall i :: 0 <= i < |s[1..]| ==> s[1..][i] == s[i + 1];
      CountUnderImpliedFlag(s[1..], f, m);
      if FlagOf(s[0], f) == 1 {
        CountCons(s[0], WithFlag(s[1..], f), m);
      }
    }
  }

  /** When every row is labelled `a` or `b` (two different labels), the two
      selections split the rows and their indicator sums. */
  lemma {:induction false} TwoGroupsSplit(s: seq<Record>, g: GroupColumn, a: string, b: string, m: Flag)
    requires a != b
    requires forall i :: 0 <= i < |s| ==> GroupOf(s[i], g) == a || GroupOf(s[i], g) == b
    ensures |WithGroup(s, g, a)| + |WithGroup(s, g, b)| == |s|
    ensures Count(WithGroup(s, g, a), m) + Count(WithGroup(s, g, b), m) == Count(s, m)
  {
    if s != [] {
      assert forall i :: 0 <= i < |s[1..]| ==> s[1..][i] == s[i + 1];
      TwoGroupsSplit(s[1..], g, a, b, m);
      var ta, tb := WithGroup(s[1..], g, a), WithGroup(s[1..], g, b);
      if GroupOf(s[0], g) == a {
        CountCons(s[0], ta, m);
      } else {
        CountCons(s[0], tb, m);
      }
    }
  }
}
