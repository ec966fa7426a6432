/** The consistency step at the end of data generation: three masked
    column assignments that make a click imply an open, a conversion imply
    a click, and revenue imply a conversion. */
module Masking {
  import opened Records

  /** The funnel invariant the three assignments establish for one row:
      the indicators then only narrow down the funnel, and revenue is only
      found on opened rows. */
  predicate Consistent(r: Record): (b: bool)
    ensures b ==> r.wasConverted <= r.wasClicked <= r.wasOpened
    ensures b ==> r.revenue != 0.0 ==> r.wasOpened == 1
  {
    && (r.wasClicked == 1 ==> r.wasOpened == 1)
    && (r.wasConverted == 1 ==> r.wasClicked == 1)
    && (r.wasConverted == 0 ==> r.revenue == 0.0)
  }

  predicate AllConsistent(s: seq<Record>)
  {
    forall i :: 0 <= i < |s| ==> Consistent(s[i])
  }

  /** `df.loc[df['opened'] == 0, 'clicked'] = 0`, on one row: afterwards a
      click implies an open, only the click cell can change and only
      downwards, and a row where a click already implied an open is kept. */
  function ClearClick(r: Record): (c: Record)
    ensures c.wasClicked == 1 ==> c.wasOpened == 1
    ensures c == r.(wasClicked := c.wasClicked) && c.wasClicked <= r.wasClicked
    ensures (r.wasClicked == 1 ==> r.wasOpened == 1) <==> c == r
  {
    if r.wasOpened == 0 then r.(wasClicked := 0) else r
  }

  /** `df.loc[df['clicked'] == 0, 'converted'] = 0`, on one row: afterwards
      a conversion implies a click, only the conversion cell can change and
      only downwards, and a row where that already held is kept. */
  function ClearConversion(r: Record): (c: Record)
    ensures c.wasConverted == 1 ==> c.wasClicked == 1
    ensures c == r.(wasConverted := c.wasConverted) && c.wasConverted <= r.wasConverted
    ensures (r.wasConverted == 1 ==> r.wasClicked == 1) <==> c == r
  {
    if r.wasClicked == 0 then r.(wasConverted := 0) else r
  }

  /** `df.loc[df['converted'] == 0, 'revenue'] = 0`, on one row: afterwards
      an unconverted row has no revenue, only the revenue cell can change
      and only to 0, and a row where that already held is kept. */
  function ClearRevenue(r: Record): (c: Record)
    ensures c.wasConverted == 0 ==> c.revenue == 0.0
    ensures c == r.(revenue := c.revenue) && (c.revenue == r.revenue || c.revenue == 0.0)
    ensures (r.wasConverted == 0 ==> r.revenue == 0.0) <==> c == r
  {
    if r.wasConverted == 0 then r.(revenue := 0.0) else r
  }

  /** The three assignments in order, as they act on one row: the result
      is consistent, only lowers the click, conversion and revenue cells,
      keeps every other cell, and leaves exactly the consistent rows alone. */
  function Mask(r: Record): (m: Record)
    ensures Consistent(m)
    ensures m.wasOpened == r.wasOpened && m.wasClicked <= r.wasClicked && m.wasConverted <= r.wasConverted
    ensures m.revenue == r.revenue || m.revenue == 0.0
    ensures m.campaignId == r.campaignId && m.subjectLineVersion == r.subjectLineVersion
    ensures m.emailContentVersion == r.emailContentVersion && m.segment == r.segment
    ensures Consistent(r) <==> m == r
  {
    ClearRevenue(ClearConversion(ClearClick(r)))
  }

  /** The three assignments applied to a whole frame. */
  function MaskAll(s: seq<Record>): (t: seq<Record>)
    ensures |t| == |s|
    ensures forall i :: 0 <= i < |s| ==> t[i] == Mask(s[i])
  {
    if s == [] then [] else [Mask(s[0])] + MaskAll(s[1..])
  }

  /** After masking every row is consistent, and masking a masked frame
      changes nothing. */
  lemma MaskAllIdempotent(s: seq<Record>)
    ensures AllConsistent(MaskAll(s))
    ensures MaskAll(MaskAll(s)) == MaskAll(s)
  {
  }

  /** A frame is left unchanged by masking exactly when it is already
      consistent. */
  lemma MaskAllFixesExactlyConsistent(s: seq<Record>)
    ensures AllConsistent(s) <==> MaskAll(s) == s
  {
  }

  /** Line 47 over the whole frame, in place. */
  method ClearClicksOfUnopened(a: array<Record>)
    modifies a
    ensures forall i :: 0 <= i < a.Length ==> a[i] == ClearClick(old(a[i]))
  {
    var i := 0;
    while i < a.Length
      invariant 0 <= i <= a.Length
      invariant forall j :: 0 <= j < i ==> a[j] == ClearClick(old(a[j]))
      invariant forall j :: i <= j < a.Length ==> a[j] == old(a[j])
    {
      a[i] := ClearClick(a[i]);
      i := i + 1;
    }
  }

  /** Line 48 over the whole frame, in place. */
  method ClearConversionsOfUnclicked(a: array<Record>)
    modifies a
    ensures forall i :: 0 <= i < a.Length ==> a[i] == ClearConversion(old(a[i]))
  {
    var i := 0;
    while i < a.Length
      invariant 0 <= i <= a.Length
      invariant forall j :: 0 <= j < i ==> a[j] == ClearConversion(old(a[j]))
      invariant forall j :: i <= j < a.Length ==> a[j] == old(a[j])
    {
      a[i] := ClearConversion(a[i]);
      i := i + 1;
    }
  }

  /** Line 49 over the whole frame, in place. */
  method ClearRevenueOfUnconverted(a: array<Record>)
    modifies a
    ensures forall i :: 0 <= i < a.Length ==> a[i] == ClearRevenue(old(a[i]))
  {
    var i := 0;
    while i < a.Length
      invariant 0 <= i <= a.Length
      invariant forall j :: 0 <= j < i ==> a[j] == ClearRevenue(old(a[j]))
      invariant forall j :: i <= j < a.Length ==> a[j] == old(a[j])
    {
      a[i] := ClearRevenue(a[i]);
      i := i + 1;
    }
  }

  /** Lines 47-49 in order: the frame becomes its masked self, so every row
      is consistent afterwards. */
  method MaskFrame(a: array<Record>)
    modifies a
    ensures a[..] == MaskAll(old(a[..]))
    ensures AllConsistent(a[..])
  {
    ClearClicksOfUnopened(a);
    ClearConversionsOfUnclicked(a);
    ClearRevenueOfUnconverted(a);
    assert a[..] == MaskAll(old(a[..]));
  }
}
