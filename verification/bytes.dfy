/** Bytes, and what programming does to a byte of NOR flash: it can only clear bits. */
module Bytes {

  type byte = x: int | 0 <= x < 256

  datatype Option<+T> = None | Some(value: T)

  function Min(a: int, b: int): int { if a < b then a else b }

  predicate Distinct(s: seq<int>) {
    forall i, j :: 0 <= i < j < |s| ==> s[i] != s[j]
  }

  /** Bitwise and, one binary digit at a time. */
  function And(a: nat, b: nat): (r: nat)
    ensures r <= a && r <= b
  {
    if a == 0 || b == 0 then 0 else 2 * And(a / 2, b / 2) + (if a % 2 == 1 && b % 2 == 1 then 1 else 0)
  }

  /** All bits set (an erased byte, or any 2^k - 1) leaves the other operand as it is. */
  lemma {:induction false} AndOnes(k: nat, ones: nat, b: nat)
    requires ones == Pow2(k) - 1 && b <= ones
    ensures And(ones, b) == b
    decreases k
  {
    if b != 0 {
      AndOnes(k - 1, ones / 2, b / 2);
    }
  }

  function Pow2(k: nat): (r: nat)
    ensures r >= 1
  {
    if k == 0 then 1 else 2 * Pow2(k - 1)
  }

  /** Clearing all bits from bit k on is a legal program: every bit of the result is set in the original. */
  lemma {:induction false} AndLow(v: nat, k: nat)
    ensures And(v, v % Pow2(k)) == v % Pow2(k)
    decreases k
  {
    if k > 0 {
      LowHalf(v, Pow2(k - 1));
      AndLow(v / 2, k - 1);
    }
  }

  lemma LowHalf(v: nat, p: nat)
    requires p > 0
    ensures v % (2 * p) == 2 * (v / 2 % p) + v % 2
  {
    var h := v / 2;
    assert v == 2 * p * (h / p) + (2 * (h % p) + v % 2);
    DivModUnique(v, 2 * p, h / p, 2 * (h % p) + v % 2);
  }

  /** Quotient and remainder are the only numbers with their properties. */
  lemma DivModUnique(a: nat, p: nat, q: nat, r: nat)
    requires p > 0 && a == p * q + r && r < p
    ensures a / p == q && a % p == r
  {
    var d := a / p - q;
    assert a == p * (a / p) + a % p;
    assert p * d == r - a % p;
    assert d > 0 ==> p * d >= p;
    assert d < 0 ==> p * d + p <= 0;
  }

  lemma AndLow7(v: byte)
    ensures And(v, v % 128) == v % 128
  {
    assert Pow2(7) == 128;
    AndLow(v, 7);
  }

  lemma AndErased(b: byte)
    ensures And(255, b) == b
  {
    assert Pow2(8) == 256;
    AndOnes(8, 255, b);
  }

  predicate Erased(s: seq<byte>) {
    forall i :: 0 <= i < |s| ==> s[i] == 255
  }

  /** Programming `d` at `off`: each target byte becomes old AND new, the others stay. */
  function Program(img: seq<byte>, off: nat, d: seq<byte>): (r: seq<byte>)
    requires off + |d| <= |img|
    ensures |r| == |img|
    ensures forall i :: off <= i < off + |d| ==> r[i] == And(img[i], d[i - off])
  {
    seq(|img|, i requires 0 <= i < |img| => if off <= i < off + |d| then And(img[i], d[i - off]) else img[i])
  }

  predicate Bit(a: nat, k: nat) {
    if k == 0 then a % 2 == 1 else Bit(a / 2, k - 1)
  }

  /** A bit of `a AND b` is set exactly if it is set in both. */
  lemma {:induction false} AndBits(a: nat, b: nat, k: nat)
    ensures Bit(And(a, b), k) <==> Bit(a, k) && Bit(b, k)
    decreases k
  {
    if k > 0 {
      AndBits(a / 2, b / 2, k - 1);
      assert And(a, b) / 2 == And(a / 2, b / 2);
    }
  }

  /** Programming never sets a bit: it clears exactly the bits of the target range that the data has clear. */
  lemma ProgramBits(img: seq<byte>, off: nat, d: seq<byte>, i: nat, k: nat)
    requires off + |d| <= |img| && i < |img|
    ensures Bit(Program(img, off, d)[i], k) <==> Bit(img[i], k) && (off <= i < off + |d| ==> Bit(d[i - off], k))
  {
    if off <= i < off + |d| {
      AndBits(img[i], d[i - off], k);
    }
  }

  lemma ProgramFrame(img: seq<byte>, off: nat, d: seq<byte>, a: nat, b: nat)
    requires off + |d| <= |img| && a <= b <= |img|
    requires b <= off || off + |d| <= a
    ensures Program(img, off, d)[a..b] == img[a..b]
  {
  }

  /** Over erased bytes programming stores exactly the data, so the read-back compare succeeds. */
  lemma ProgramErased(img: seq<byte>, off: nat, d: seq<byte>)
    requires off + |d| <= |img|
    requires Erased(img[off..off + |d|])
    ensures Program(img, off, d)[off..off + |d|] == d
  {
    var r := Program(img, off, d);
    forall i | 0 <= i < |d|
      ensures r[off + i] == d[i]
    {
      assert img[off..off + |d|][i] == 255;
      AndErased(d[i]);
    }
  }

  lemma SliceSlice<T>(s: seq<T>, a: nat, b: nat, c: nat, d: nat)
    requires a <= b <= |s| && c <= d <= b - a
    ensures s[a..b][c..d] == s[a + c..a + d]
  {
    var l, r := s[a..b][c..d], s[a + c..a + d];
    assert |l| == |r|;
    forall i | 0 <= i < |l|
      ensures l[i] == r[i]
    {
      assert l[i] == s[a..b][c + i];
    }
  }

  /** Overwriting a stretch, one more element at a time. */
  lemma SplicedMore<T>(was: seq<T>, at: nat, d: seq<T>, k: nat)
    requires at + |d| <= |was| && k < |d|
    ensures (was[..at] + d[..k] + was[at + k..])[at + k := d[k]] == was[..at] + d[..k + 1] + was[at + k + 1..]
  {
  }
}
