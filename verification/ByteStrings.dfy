/** Byte strings and the integer codecs the scripts use: little-endian `to_bytes` and
    `from_bytes`, bitwise xor on bytes, and bitwise and on naturals. */
module ByteStrings {
  import Radix

  datatype Option<+T> = None | Some(value: T)

  type Byte = b: nat | b < 256

  type Bytes = seq<Byte>

  function Zeros(n: nat): (r: Bytes)
    ensures |r| == n
  {
    seq(n, _ => 0)
  }

  /** Python's `s[:n]`. */
  function Prefix(s: Bytes, n: nat): (r: Bytes)
    ensures r <= s && |r| <= n
  {
    if |s| <= n then s else s[..n]
  }

  lemma SliceOfSlice<T>(s: seq<T>, a: nat, b: nat, c: nat, d: nat)
    requires a <= b <= |s| && c <= d <= b - a
    ensures s[a..b][c..d] == s[a + c..a + d]
  {
    var x, y := s[a..b][c..d], s[a + c..a + d];
    forall i | 0 <= i < d - c ensures x[i] == y[i] {}
  }

  function Pow256(n: nat): (r: nat)
    ensures r >= 1
  {
    if n == 0 then 1 else 256 * Pow256(n - 1)
  }

  /** The low `width` bytes of `v`, least significant first. */
  function LE(v: nat, width: nat): (r: Bytes)
    ensures |r| == width
  {
    if width == 0 then [] else [v % 256] + LE(v / 256, width - 1)
  }

  /** Byte `i` has the weight `256^i`. */
  lemma {:induction false} LEByte(v: nat, width: nat, i: nat)
    requires i < width
    ensures LE(v, width)[i] == v / Pow256(i) % 256
  {
    if i > 0 {
      LEByte(v / 256, width - 1, i - 1);
      Radix.DivDiv(v, 256, Pow256(i - 1));
    }
  }

  function FromLE(s: Bytes): nat {
    if s == [] then 0 else s[0] + 256 * FromLE(s[1..])
  }

  lemma {:induction false} FromLEBound(s: Bytes)
    ensures FromLE(s) < Pow256(|s|)
  {
    if s != [] {
      FromLEBound(s[1..]);
    }
  }

  /** `from_bytes` undoes `to_bytes` on every value that fits the width. */
  lemma {:induction false} FromLEOfLE(v: nat, width: nat)
    requires v < Pow256(width)
    ensures FromLE(LE(v, width)) == v
  {
    if width > 0 {
      FromLEOfLE(v / 256, width - 1);
    }
  }

  /** `to_bytes` undoes `from_bytes` at the same width. */
  lemma {:induction false} LEOfFromLE(s: Bytes)
    ensures LE(FromLE(s), |s|) == s
  {
    if s != [] {
      LEOfFromLE(s[1..]);
      assert FromLE(s) / 256 == FromLE(s[1..]);
      assert FromLE(s) % 256 == s[0];
      assert s == [s[0]] + s[1..];
    }
  }

  lemma {:induction false} FromLEZeroExtend(s: Bytes, n: nat)
    ensures FromLE(s + Zeros(n)) == FromLE(s)
  {
    if s != [] {
      assert (s + Zeros(n))[1..] == s[1..] + Zeros(n);
      FromLEZeroExtend(s[1..], n);
    } else if n > 0 {
      assert (s + Zeros(n))[1..] == [] + Zeros(n - 1);
      FromLEZeroExtend([], n - 1);
    } else {
      assert s + Zeros(n) == [];
    }
  }

  // ----- bitwise operations

  function Pow2(k: nat): (r: nat)
    ensures r >= 1
  {
    if k == 0 then 1 else 2 * Pow2(k - 1)
  }

  lemma Pow2Four()
    ensures Pow2(4) == 16
  {}

  lemma {:induction false} Pow2Sum(m: nat, n: nat)
    ensures Pow2(m + n) == Pow2(m) * Pow2(n)
  {
    if m > 0 {
      Pow2Sum(m - 1, n);
      Radix.MulAssociate(2, Pow2(m - 1), Pow2(n));
    }
  }

  lemma {:induction false} BytePower(i: nat)
    ensures Pow2(8 * i) == Pow256(i)
  {
    hide Pow2;
    if i > 0 {
      BytePower(i - 1);
      Pow2Four();
      Pow2Sum(4, 4);
      Pow2Sum(8, 8 * (i - 1));
    } else {
      Pow2Nothing();
    }
  }

  lemma Pow2Nothing()
    ensures Pow2(0) == 1
  {}

  lemma {:induction false} FromLEAppend(s: Bytes, b: Byte)
    ensures FromLE(s + [b]) == FromLE(s) + Pow256(|s|) * b
  {
    if s == [] {
      assert [] + [b] == [b] && [b][1..] == [];
    } else {
      assert (s + [b])[1..] == s[1..] + [b];
      FromLEAppend(s[1..], b);
      Radix.MulAssociate(256, Pow256(|s| - 1), b);
    }
  }

  /** Bit `i` of a number. */
  function Bit(a: nat, i: nat): nat {
    a / Pow2(i) % 2
  }

  lemma {:induction false} BitOfHalf(a: nat, i: nat)
    requires i > 0
    ensures Bit(a, i) == Bit(a / 2, i - 1)
  {
    var p := Pow2(i - 1);
    Radix.DivModParts(a, 2);
    Radix.DivModParts(a / 2, p);
    var q, r := a / 2 / p, a / 2 % p;
    assert a == 2 * p * q + (2 * r + a % 2) by {
      Radix.MulAssociate(2, p, q);
    }
    Radix.DivModUnique(2 * p, q, 2 * r + a % 2);
  }

  /** The exclusive or of the low `k` bits. */
  function XorBits(a: nat, b: nat, k: nat): (r: nat)
    ensures r < Pow2(k)
  {
    if k == 0 then 0
    else (if a % 2 == b % 2 then 0 else 1) + 2 * XorBits(a / 2, b / 2, k - 1)
  }

  lemma {:induction false} XorBitsCancel(a: nat, b: nat, k: nat)
    requires a < Pow2(k)
    ensures XorBits(XorBits(a, b, k), b, k) == a
  {
    if k > 0 {
      var x, y := XorBits(a, b, k), XorBits(a / 2, b / 2, k - 1);
      XorBitsCancel(a / 2, b / 2, k - 1);
      assert x / 2 == y;
    }
  }

  lemma {:induction false} XorZero(a: nat, k: nat)
    requires a < Pow2(k)
    ensures XorBits(a, 0, k) == a
  {
    if k > 0 {
      XorZero(a / 2, k - 1);
    }
  }

  /** Bit by bit: the result has a bit exactly where one of the two has it. */
  lemma {:induction false} XorBitsBitwise(a: nat, b: nat, k: nat, i: nat)
    requires i < k
    ensures Bit(XorBits(a, b, k), i) == 1 <==> Bit(a, i) != Bit(b, i)
  {
    var x, y := XorBits(a, b, k), XorBits(a / 2, b / 2, k - 1);
    assert x / 2 == y && x % 2 == if a % 2 == b % 2 then 0 else 1;
    if i == 0 {
      Pow2Nothing();
    } else {
      BitOfHalf(a, i);
      BitOfHalf(b, i);
      BitOfHalf(x, i);
      XorBitsBitwise(a / 2, b / 2, k - 1, i - 1);
    }
  }

  function Xor(a: Byte, b: Byte): Byte {
    assert Pow2(8) == 256;
    XorBits(a, b, 8)
  }

  lemma XorBitwise(a: Byte, b: Byte, i: nat)
    requires i < 8
    ensures Bit(Xor(a, b), i) == 1 <==> Bit(a, i) != Bit(b, i)
  {
    XorBitsBitwise(a, b, 8, i);
  }

  lemma XorCancel(a: Byte, b: Byte)
    ensures Xor(Xor(a, b), b) == a
  {
    assert Pow2(8) == 256;
    XorBitsCancel(a, b, 8);
  }

  /** Bytewise xor of two strings of one length. */
  function XorAll(a: Bytes, b: Bytes): (r: Bytes)
    requires |a| == |b|
    ensures |r| == |a|
  {
    seq(|a|, i requires 0 <= i < |a| => Xor(a[i], b[i]))
  }

  lemma XorAllCancel(a: Bytes, b: Bytes)
    requires |a| == |b|
    ensures XorAll(XorAll(a, b), b) == a
  {
    forall i | 0 <= i < |a| ensures XorAll(XorAll(a, b), b)[i] == a[i] {
      XorCancel(a[i], b[i]);
    }
  }

  /** Python's `&` on non-negative integers. */
  function And(a: nat, b: nat): nat {
    if a == 0 || b == 0 then 0 else (a % 2) * (b % 2) + 2 * And(a / 2, b / 2)
  }
}
