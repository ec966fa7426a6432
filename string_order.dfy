/** The order in which a groupby lists string keys: lexicographic by code
    point, a proper prefix first. */
module StringOrder {

  /** Python's `<` on `str`: the first differing code point decides, and a
      proper prefix comes first. No string is before itself. */
  predicate StrLess(a: string, b: string): (less: bool)
    ensures less ==> a != b
    ensures |a| < |b| && a == b[..|a|] ==> less
  {
    if |a| == 0 then |b| > 0
    else if |b| == 0 then false
    else
      assert |a| < |b| && a == b[..|a|] ==> a[1..] == b[1..][..|a| - 1];
      a[0] < b[0] || (a[0] == b[0] && StrLess(a[1..], b[1..]))
  }

  lemma {:induction false} StrLessIrreflexive(a: string)
    ensures !StrLess(a, a)
  {
    if |a| > 0 {
      StrLessIrreflexive(a[1..]);
    }
  }

  lemma {:induction false} StrLessTransitive(a: string, b: string, c: string)
    requires StrLess(a, b) && StrLess(b, c)
    ensures StrLess(a, c)
  {
    if |a| > 0 && a[0] == b[0] && b[0] == c[0] {
      if StrLess(a[1..], b[1..]) && StrLess(b[1..], c[1..]) {
        StrLessTransitive(a[1..], b[1..], c[1..]);
      }
    }
  }

  /** Any two different strings are ordered one way or the other. */
  lemma {:induction false} StrLessTotal(a: string, b: string)
    requires a != b
    ensures StrLess(a, b) || StrLess(b, a)
  {
    if |a| > 0 && |b| > 0 && a[0] == b[0] {
      assert a == [a[0]] + a[1..] && b == [b[0]] + b[1..];
      StrLessTotal(a[1..], b[1..]);
    }
  }

  lemma {:induction false} StrLessAsymmetric(a: string, b: string)
    requires StrLess(a, b)
    ensures !StrLess(b, a)
  {
    if StrLess(b, a) {
      StrLessTransitive(a, b, a);
      StrLessIrreflexive(a);
    }
  }

  /** Every earlier key is below every later key (so no key repeats). */
  predicate StrictlySorted(ks: seq<string>)
  {
    forall i, j :: 0 <= i < j < |ks| ==> StrLess(ks[i], ks[j])
  }

  /** No key occurs twice. */
  predicate NoDuplicates(ks: seq<string>)
  {
    forall i, j :: 0 <= i < j < |ks| ==> ks[i] != ks[j]
  }

  lemma StrictlySortedHasNoDuplicates(ks: seq<string>)
    requires StrictlySorted(ks)
    ensures NoDuplicates(ks)
  {
    forall i, j | 0 <= i < j < |ks| ensures ks[i] != ks[j] {
      StrLessIrreflexive(ks[i]);
    }
  }

  /** Puts `x` into its place in a strictly sorted key list, unless it is
      already there. */
  function Insert(ks: seq<string>, x: string): (r: seq<string>)
    requires StrictlySorted(ks)
    ensures StrictlySorted(r)
    ensures forall k :: k in r <==> k in ks || k == x
  {
    if ks == [] then [x]
    else if x == ks[0] then ks
    else if StrLess(x, ks[0]) then
      (forall j | 0 <= j < |ks| ensures StrLess(x, ks[j]) {
         if j > 0 { StrLessTransitive(x, ks[0], ks[j]); }
       }
       [x] + ks)
    else
      StrLessTotal(x, ks[0]);
      var rest := Insert(ks[1..], x);
      assert forall k :: k in rest ==> StrLess(ks[0], k) by {
        forall k | k in rest ensures StrLess(ks[0], k) {
          if k != x {
            var j :| 0 <= j < |ks[1..]| && ks[1..][j] == k;
            assert ks[j + 1] == k;
          }
        }
      }
      [ks[0]] + rest
  }

  /** In two strictly sorted lists with the same keys, the first head is
      not below the second: the second head is a key of the first list. */
  lemma HeadNotBelow(a: seq<string>, b: seq<string>)
    requires StrictlySorted(a) && StrictlySorted(b)
    requires forall k :: k in a <==> k in b
    requires a != [] && b != []
    ensures !StrLess(a[0], b[0])
  {
    if StrLess(a[0], b[0]) {
      assert a[0] in b;
      var j :| 0 <= j < |b| && b[j] == a[0];
      if j == 0 {
        StrLessIrreflexive(a[0]);
      } else {
        StrLessAsymmetric(b[0], b[j]);
      }
    }
  }

  /** A strictly sorted key list is fixed by the set of its keys. */
  lemma {:induction false} StrictlySortedUnique(a: seq<string>, b: seq<string>)
    requires StrictlySorted(a) && StrictlySorted(b)
    requires forall k :: k in a <==> k in b
    ensures a == b
  {
    if a != [] {
      assert a[0] in b;
    }
    if b != [] {
      assert b[0] in a;
    }
    if a != [] && b != [] {
      HeadNotBelow(a, b);
      HeadNotBelow(b, a);
      forall k ensures k in a[1..] <==> k in b[1..] {
        StrLessIrreflexive(k);
        if k in a[1..] {
          var i :| 0 <= i < |a[1..]| && a[1..][i] == k;
          assert StrLess(a[0], k);
          assert k in b && k != b[0];
          var j :| 0 <= j < |b| && b[j] == k;
          assert b[1..][j - 1] == k;
        }
        if k in b[1..] {
          var j :| 0 <= j < |b[1..]| && b[1..][j] == k;
          assert StrLess(b[0], k);
          assert k in a && k != a[0];
          var i :| 0 <= i < |a| && a[i] == k;
          assert a[1..][i - 1] == k;
        }
      }
      StrictlySortedUnique(a[1..], b[1..]);
      assert a == [a[0]] + a[1..] && b == [b[0]] + b[1..];
    }
  }
}
