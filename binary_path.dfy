/**
 * The path encoding that names a frontier subtree: subtree `i` of a top tree
 * of depth `d` is reached from the root by reading the `d`-digit binary
 * representation of `i`, most significant digit first, where '0' means
 * "go left" and '1' means "go right".
 */
module BinaryPath {

  function Pow2(n: nat): (r: nat)
    ensures r >= 1
  {
    if n == 0 then 1 else 2 * Pow2(n - 1)
  }

  /** A string made only of the digits '0' and '1'. */
  predicate IsBits(s: string)
  {
    forall k | 0 <= k < |s| :: s[k] == '0' || s[k] == '1'
  }

  function Digit(b: nat): char
    requires b < 2
  {
    if b == 0 then '0' else '1'
  }

  /** Python's `bin(n)[2:]`: the binary digits of `n`, no leading zeros, "0" for zero. */
  function Bin(n: nat): (s: string)
    ensures |s| >= 1 && IsBits(s)
    ensures n > 0 ==> s[0] == '1'
  {
    if n < 2 then [Digit(n)] else Bin(n / 2) + [Digit(n % 2)]
  }

  /** Python's `str.zfill(width)` on a digit string: pad with '0' on the left up to `width`. */
  function ZFill(s: string, width: nat): (r: string)
    ensures |r| == if |s| >= width then |s| else width
    ensures r[|r| - |s|..] == s
  {
    if |s| >= width then s else Zeros(width - |s|) + s
  }

  function Zeros(n: nat): (z: string)
    ensures |z| == n && IsBits(z)
  {
    seq(n, _ => '0')
  }

  /** The value of a digit string read as a binary number, most significant digit first. */
  function BinValue(s: string): nat
  {
    if s == [] then 0
    else 2 * BinValue(s[..|s| - 1]) + (if s[|s| - 1] == '1' then 1 else 0)
  }

  /**
   * `get_subtree_path`: the empty path at depth zero, otherwise the binary
   * digits of `i` padded with zeros to `d` digits. For every index that a top
   * tree of depth `d` has a subtree for, the path has exactly `d` digits and
   * reads back as `i`.
   */
  function SubtreePath(i: nat, d: nat): (p: string)
    ensures d == 0 ==> p == []
    ensures i < Pow2(d) ==> |p| == d && IsBits(p) && BinValue(p) == i
  {
    if d == 0 then []
    else
      BinLength(i, d);
      PaddedValue(i, d);
      ZFill(Bin(i), d)
  }

  /** Zero padding keeps the digits and the value of `bin(i)[2:]`. */
  lemma PaddedValue(i: nat, d: nat)
    ensures IsBits(ZFill(Bin(i), d)) && BinValue(ZFill(Bin(i), d)) == i
  {
    BinRoundTrip(i);
    if |Bin(i)| < d {
      ZeroPadding(Zeros(d - |Bin(i)|), Bin(i));
    }
  }

  lemma {:induction false} BinRoundTrip(n: nat)
    ensures BinValue(Bin(n)) == n
    decreases n
  {
    if n >= 2 {
      var s := Bin(n);
      assert s[..|s| - 1] == Bin(n / 2);
      BinRoundTrip(n / 2);
    }
  }

  /** `bin(n)[2:]` fits in `d >= 1` digits exactly when `n < 2^d`. */
  lemma {:induction false} BinLength(n: nat, d: nat)
    requires d >= 1
    ensures |Bin(n)| <= d <==> n < Pow2(d)
    decreases n
  {
    if n >= 2 {
      if d == 1 {
        assert Pow2(1) == 2;
      } else {
        BinLength(n / 2, d - 1);
      }
    }
  }

  /** Leading zeros do not change the value. */
  lemma {:induction false} ZeroPadding(z: string, s: string)
    requires forall k | 0 <= k < |z| :: z[k] == '0'
    ensures BinValue(z + s) == BinValue(s)
    decreases |s|
  {
    if s == [] {
      assert z + s == z;
      ZerosValue(z);
    } else {
      var t := z + s;
      assert t[..|t| - 1] == z + s[..|s| - 1];
      ZeroPadding(z, s[..|s| - 1]);
    }
  }

  lemma {:induction false} ZerosValue(z: string)
    requires forall k | 0 <= k < |z| :: z[k] == '0'
    ensures BinValue(z) == 0
    decreases |z|
  {
    if z != [] {
      ZerosValue(z[..|z| - 1]);
    }
  }

  /** A `d`-digit string reads as a number below `2^d`. */
  lemma {:induction false} BinValueBound(s: string)
    ensures BinValue(s) < Pow2(|s|)
    decreases |s|
  {
    if s != [] {
      BinValueBound(s[..|s| - 1]);
    }
  }

  /** Two digit strings of the same length with the same value are the same string. */
  lemma {:induction false} BinValueInjective(p: string, q: string)
    requires IsBits(p) && IsBits(q) && |p| == |q|
    requires BinValue(p) == BinValue(q)
    ensures p == q
    decreases |p|
  {
    if p != [] {
      var n := |p|;
      BinValueInjective(p[..n - 1], q[..n - 1]);
      assert p == p[..n - 1] + [p[n - 1]];
      assert q == q[..n - 1] + [q[n - 1]];
    }
  }

  /**
   * The other direction of the round trip: every `d`-digit path is the path
   * of the subtree index it denotes, so the paths of the indices below `2^d`
   * are exactly the `d`-digit strings.
   */
  lemma PathOfValue(p: string)
    requires IsBits(p)
    ensures BinValue(p) < Pow2(|p|)
    ensures SubtreePath(BinValue(p), |p|) == p
  {
    BinValueBound(p);
    var q := SubtreePath(BinValue(p), |p|);
    BinValueInjective(p, q);
  }

  /** Distinct subtree indices get distinct paths. */
  lemma PathsDistinct(i: nat, j: nat, d: nat)
    requires i < Pow2(d) && j < Pow2(d) && i != j
    ensures SubtreePath(i, d) != SubtreePath(j, d)
  {
  }
}
