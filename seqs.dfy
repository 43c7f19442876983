/** Sequence helpers: distinctness, first occurrence, and "listed in the order of". */
module Seqs {

  predicate Distinct(s: seq<string>)
  {
    forall i, j | 0 <= i < j < |s| :: s[i] != s[j]
  }

  /** Position of the first occurrence of `x` in `s` (Python's `list.index`). */
  function IndexOf(s: seq<string>, x: string): (k: nat)
    requires x in s
    ensures k < |s| && s[k] == x && x !in s[..k]
  {
    if s[0] == x then 0 else 1 + IndexOf(s[1..], x)
  }

  /** The first occurrence is determined by the two facts IndexOf promises. */
  lemma IndexOfUnique(s: seq<string>, x: string, k: nat)
    requires k < |s| && s[k] == x && x !in s[..k]
    ensures IndexOf(s, x) == k
  {
    var m := IndexOf(s, x);
    assert forall j | 0 <= j < k :: s[..k][j] == s[j];
    assert forall j | 0 <= j < m :: s[..m][j] == s[j];
  }

  /** Every element of `r` occurs in `s`, and `r` lists them in the order in
      which they first occur in `s`; in particular `r` has no duplicates. */
  ghost predicate InOrderOf(r: seq<string>, s: seq<string>)
  {
    && (forall x | x in r :: x in s)
    && (forall i, j | 0 <= i < j < |r| :: IndexOf(s, r[i]) < IndexOf(s, r[j]))
  }

  lemma InOrderIsDistinct(r: seq<string>, s: seq<string>)
    requires InOrderOf(r, s)
    ensures Distinct(r)
  {
    forall i, j | 0 <= i < j < |r| ensures r[i] != r[j] {
      assert r[i] in s && r[j] in s;
      assert IndexOf(s, r[i]) < IndexOf(s, r[j]);
    }
  }

  /** Extending `s` by its last element keeps an ordering of the prefix an
      ordering of `s`, and that last element may be appended to `r`. */
  lemma {:induction false} InOrderSnoc(r: seq<string>, s: seq<string>, keep: bool)
    requires |s| > 0 && Distinct(s)
    requires InOrderOf(r, s[..|s| - 1])
    ensures InOrderOf(if keep then r + [s[|s| - 1]] else r, s)
  {
    var n := |s| - 1;
    var p := s[..n];
    forall x | x in p ensures IndexOf(s, x) == IndexOf(p, x) {
      var k := IndexOf(p, x);
      assert s[..k] == p[..k];
      IndexOfUnique(s, x, k);
    }
    var last := s[n];
    assert forall k | 0 <= k < n :: p[k] == s[k] && s[k] != last;
    assert last !in p;
    IndexOfUnique(s, last, n);
    var r' := if keep then r + [last] else r;
    forall x | x in r' ensures x in s {
      if x in r { assert x in p; assert x == p[IndexOf(p, x)]; }
    }
    forall i, j | 0 <= i < j < |r'| ensures IndexOf(s, r'[i]) < IndexOf(s, r'[j]) {
      assert r'[i] in r;
      if j < |r| {
        assert r'[i] == r[i] && r'[j] == r[j];
        assert IndexOf(p, r[i]) < IndexOf(p, r[j]);
      } else {
        assert r'[j] == last;
        assert r[i] in p;
      }
    }
  }
}
