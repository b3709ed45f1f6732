/** What every part uses: optional values, and laws of sequences that have to be pointed out. */
module Basics {

  datatype Option<T> = None | Some(value: T)

  lemma Regrouped<T>(a: seq<T>, b: seq<T>, c: seq<T>)
    ensures a + (b + c) == a + b + c
  {
  }

  /** A piece of a piece is a piece. */
  lemma SliceOfSlice<T>(s: seq<T>, a: nat, c: nat, i: nat, j: nat)
    requires a <= i <= j <= c <= |s|
    ensures s[a..c][i - a..j - a] == s[i..j]
  {
    var piece := s[a..c];
    assert forall k :: i <= k < j ==> piece[i - a..j - a][k - i] == piece[k - a] == s[k];
  }

  // ---- Different things ----

  ghost predicate Differ<T(!new)>(s: seq<T>) {
    forall i, j :: 0 <= i < j < |s| ==> s[i] != s[j]
  }

  lemma FirstDiffers<T(!new)>(s: seq<T>)
    requires Differ(s) && s != []
    ensures s[0] !in s[1..] && Differ(s[1..])
  {
    assert forall i :: 0 <= i < |s| - 1 ==> s[1..][i] == s[i + 1];
  }

  lemma AloneDiffers<T(!new)>(x: T)
    ensures Differ([x])
  {
  }

  lemma JoinDiffers<T(!new)>(a: seq<T>, b: seq<T>)
    requires Differ(a) && Differ(b) && forall x :: x in a ==> x !in b
    ensures Differ(a + b)
  {
    forall i, j | 0 <= i < j < |a + b| ensures (a + b)[i] != (a + b)[j] {
      if i < |a| <= j {
        assert (a + b)[i] in a && (a + b)[j] in b;
      }
    }
  }

  // ---- Sums ----

  function Sum<T>(s: seq<T>, w: T -> nat): nat {
    if s == [] then 0 else w(s[0]) + Sum(s[1..], w)
  }

  lemma {:induction false} SumWithout<T>(s: seq<T>, k: nat, w: T -> nat)
    requires k < |s|
    ensures Sum(s, w) == w(s[k]) + Sum(s[..k] + s[k + 1..], w)
  {
    var less := s[..k] + s[k + 1..];
    if k == 0 {
      assert less == s[1..];
    } else {
      SumWithout(s[1..], k - 1, w);
      assert less[0] == s[0] && less[1..] == s[1..][..k - 1] + s[1..][k..];
    }
  }

  /** If different things are all found among others, these are at least as many; if just as many, they are the same. */
  lemma {:induction false} Covers<T(!new)>(a: seq<T>, b: seq<T>, w: T -> nat)
    requires Differ(a) && forall x :: x in a ==> x in b
    ensures |a| <= |b| && (|a| == |b| ==> Sum(a, w) == Sum(b, w))
    decreases |a|
  {
    if a == [] {
      assert |b| == 0 ==> b == [];
    } else {
      assert a[0] in b;
      var k :| 0 <= k < |b| && b[k] == a[0];
      var less := b[..k] + b[k + 1..];
      forall x | x in a[1..] ensures x in less {
        FoundElsewhere(a, b, k, x);
      }
      assert Differ(a[1..]) by {
        assert forall i :: 0 <= i < |a| - 1 ==> a[1..][i] == a[i + 1];
      }
      Covers(a[1..], less, w);
      SumWithout(b, k, w);
    }
  }

  lemma FoundElsewhere<T(!new)>(a: seq<T>, b: seq<T>, k: nat, x: T)
    requires Differ(a) && a != [] && k < |b| && b[k] == a[0] && x in a[1..] && forall y :: y in a ==> y in b
    ensures x in b[..k] + b[k + 1..]
  {
    var i :| 0 <= i < |a| - 1 && a[1..][i] == x;
    assert a[i + 1] == x && x in a;
    var m :| 0 <= m < |b| && b[m] == x;
    var less := b[..k] + b[k + 1..];
    if m < k {
      assert less[m] == x;
    } else {
      assert less[m - 1] == x;
    }
  }
}
