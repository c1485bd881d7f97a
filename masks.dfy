/**
 * Boolean masks over a batch, as numpy uses them: `s[m]` keeps the entries
 * whose mask entry is true, in their original order, and `out[m] = a`
 * writes the entries of `a`, in order, to the positions where `m` is true.
 */
module Masks {

  /** Number of true entries of a mask. */
  function Count(m: seq<bool>): (c: nat)
    ensures c <= |m|
  {
    if m == [] then 0 else (if m[0] then 1 else 0) + Count(m[1..])
  }

  /** Where entry `k` lands among the selected entries: the number of true entries before it. */
  function Rank(m: seq<bool>, k: nat): nat
    requires k <= |m|
  {
    Count(m[..k])
  }

  /** `~m` */
  function Neg(m: seq<bool>): (r: seq<bool>)
    ensures |r| == |m|
  {
    seq(|m|, k requires 0 <= k < |m| => !m[k])
  }

  /** `s[m]`: the entries of `s` at the true positions of `m`, in order. */
  function Select<T>(s: seq<T>, m: seq<bool>): (r: seq<T>)
    requires |s| == |m|
    ensures |r| == Count(m)
  {
    if s == [] then [] else (if m[0] then [s[0]] else []) + Select(s[1..], m[1..])
  }

  /**
   * `out[m] = a; out[~m] = b` on a fresh `out`: the entries of `a` at the
   * true positions of `m` and those of `b` at the others, each in order.
   */
  function Interleave<T>(m: seq<bool>, a: seq<T>, b: seq<T>): (r: seq<T>)
    requires |a| == Count(m) && |b| == |m| - Count(m)
    ensures |r| == |m|
  {
    if m == [] then []
    else if m[0] then [a[0]] + Interleave(m[1..], a[1..], b)
    else [b[0]] + Interleave(m[1..], a, b[1..])
  }

  lemma {:induction false} CountAppend(m: seq<bool>, n: seq<bool>)
    ensures Count(m + n) == Count(m) + Count(n)
    decreases |m|
  {
    if m != [] {
      assert (m + n)[0] == m[0] && (m + n)[1..] == m[1..] + n;
      CountAppend(m[1..], n);
    } else {
      assert m + n == n;
    }
  }

  /** Moving one position to the right adds the entry just passed. */
  lemma RankNext(m: seq<bool>, k: nat)
    requires k < |m|
    ensures Rank(m, k + 1) == Rank(m, k) + (if m[k] then 1 else 0)
  {
    assert m[..k + 1] == m[..k] + [m[k]];
    CountAppend(m[..k], [m[k]]);
  }

  /** A selected position lands inside the selection; an unselected one inside the rest. */
  lemma RankBound(m: seq<bool>, k: nat)
    requires k < |m|
    ensures m[k] ==> Rank(m, k) < Count(m)
    ensures !m[k] ==> k - Rank(m, k) < |m| - Count(m)
    ensures Rank(m, k) <= k
  {
    assert m == m[..k] + m[k..];
    CountAppend(m[..k], m[k..]);
    assert m[k..] == [m[k]] + m[k + 1..];
    CountAppend([m[k]], m[k + 1..]);
  }

  lemma {:induction false} CountNeg(m: seq<bool>)
    ensures Count(Neg(m)) == |m| - Count(m)
    decreases |m|
  {
    if m != [] {
      assert Neg(m)[1..] == Neg(m[1..]);
      CountNeg(m[1..]);
    }
  }

  lemma RankNeg(m: seq<bool>, k: nat)
    requires k <= |m|
    ensures Rank(Neg(m), k) == k - Rank(m, k)
  {
    assert Neg(m)[..k] == Neg(m[..k]);
    CountNeg(m[..k]);
  }

  /** The entry at a selected position `k` is the `Rank(m, k)`-th entry of `s[m]`. */
  lemma {:induction false} SelectAt<T>(s: seq<T>, m: seq<bool>, k: nat)
    requires |s| == |m| && k < |m| && m[k]
    ensures Rank(m, k) < |Select(s, m)| && Select(s, m)[Rank(m, k)] == s[k]
    decreases k
  {
    RankBound(m, k);
    if k > 0 {
      assert m[..k][1..] == m[1..][..k - 1];
      SelectAt(s[1..], m[1..], k - 1);
    }
  }

  /** The entry at an unselected position `k` is the `(k - Rank(m, k))`-th entry of `s[~m]`. */
  lemma SelectNegAt<T>(s: seq<T>, m: seq<bool>, k: nat)
    requires |s| == |m| && k < |m| && !m[k]
    ensures k - Rank(m, k) < |Select(s, Neg(m))| && Select(s, Neg(m))[k - Rank(m, k)] == s[k]
  {
    RankNeg(m, k);
    SelectAt(s, Neg(m), k);
  }

  /** Every entry of `s[m]` comes from a selected position of `s`, the one of its rank. */
  lemma {:induction false} SelectSource<T>(s: seq<T>, m: seq<bool>, t: nat) returns (k: nat)
    requires |s| == |m| && t < Count(m)
    ensures k < |m| && m[k] && Rank(m, k) == t && Select(s, m)[t] == s[k]
    decreases |m|
  {
    if m[0] && t == 0 {
      k := 0;
    } else {
      var t' := if m[0] then t - 1 else t;
      var k' := SelectSource(s[1..], m[1..], t');
      k := k' + 1;
      assert m[..k][1..] == m[1..][..k'];
    }
  }

  /** `s[m]` and `s[~m]` together hold exactly the entries of `s`. */
  lemma {:induction false} SelectPartition<T>(s: seq<T>, m: seq<bool>)
    requires |s| == |m|
    ensures multiset(Select(s, m)) + multiset(Select(s, Neg(m))) == multiset(s)
    decreases |s|
  {
    if s != [] {
      assert Neg(m)[1..] == Neg(m[1..]);
      SelectPartition(s[1..], m[1..]);
      assert s == [s[0]] + s[1..];
    }
  }

  /** The entry at position `k` of `out[m] = a; out[~m] = b`. */
  lemma {:induction false} InterleaveAt<T>(m: seq<bool>, a: seq<T>, b: seq<T>, k: nat)
    requires |a| == Count(m) && |b| == |m| - Count(m) && k < |m|
    ensures m[k] ==> Rank(m, k) < |a| && Interleave(m, a, b)[k] == a[Rank(m, k)]
    ensures !m[k] ==> k - Rank(m, k) < |b| && Interleave(m, a, b)[k] == b[k - Rank(m, k)]
    decreases k
  {
    RankBound(m, k);
    if k > 0 {
      assert m[..k][1..] == m[1..][..k - 1];
      if m[0] {
        InterleaveAt(m[1..], a[1..], b, k - 1);
      } else {
        InterleaveAt(m[1..], a, b[1..], k - 1);
      }
    }
  }

  /** Selecting never invents entries. */
  lemma SelectSubset<T>(s: seq<T>, m: seq<bool>)
    requires |s| == |m|
    ensures forall x :: x in Select(s, m) ==> x in s
    ensures forall x :: x in Select(s, Neg(m)) ==> x in s
  {
    forall x | x in Select(s, m) ensures x in s {
      var t :| 0 <= t < |Select(s, m)| && Select(s, m)[t] == x;
      var k := SelectSource(s, m, t);
    }
    forall x | x in Select(s, Neg(m)) ensures x in s {
      var t :| 0 <= t < |Select(s, Neg(m))| && Select(s, Neg(m))[t] == x;
      var k := SelectSource(s, Neg(m), t);
    }
  }
}
