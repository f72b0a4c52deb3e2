/** The one-time authenticator of scripts/ibd-serve-bench.py, lines 407-424, and its
    agreement with sections 2.5 and 2.8 of RFC 8439. */
module Poly1305 {
  import opened ByteStrings
  import Radix

  const MOD: nat := 0x3FFFFFFFFFFFFFFFFFFFFFFFFFFFFFFFB

  const CLAMP: nat := 0xFFFFFFC0FFFFFFC0FFFFFFC0FFFFFFF

  /** One block as a number: its little-endian value with a one bit above its last byte,
      or above byte 16 when the caller asked for padding. */
  function BlockValue(chunk: Bytes, pad: bool): nat {
    FromLE(chunk) + Pow256(if pad then 16 else |chunk|)
  }

  function Step(r: nat, acc: nat, value: nat): nat {
    (r * (acc + value)) % MOD
  }

  /** Horner evaluation over the 16-byte blocks of `msg`. */
  function Absorb(r: nat, acc: nat, msg: Bytes, pad: bool): nat
    decreases |msg|
  {
    if msg == [] then acc
    else
      var chunk := Prefix(msg, 16);
      Absorb(r, Step(r, acc, BlockValue(chunk, pad)), msg[|chunk|..], pad)
  }

  lemma AbsorbNext(r: nat, acc: nat, msg: Bytes, pad: bool)
    requires msg != []
    ensures Absorb(r, acc, msg, pad)
         == Absorb(r, Step(r, acc, BlockValue(Prefix(msg, 16), pad)), msg[|Prefix(msg, 16)|..], pad)
  {}

  lemma AbsorbNothing(r: nat, acc: nat, pad: bool)
    ensures Absorb(r, acc, [], pad) == acc
  {}

  lemma ModulusValue()
    ensures Pow2(130) - 5 == MOD
  {
    hide Pow2;
    Pow2Two();
    Pow2Four();
    Pow2Sum(4, 4);
    Pow2Sum(8, 8);
    Pow2Sum(16, 16);
    Pow2Sum(32, 32);
    Pow2Sum(64, 64);
    Pow2Sum(128, 2);
  }

  lemma Pow2Two()
    ensures Pow2(2) == 4
  {}

  /** The modulus of section 2.5. */
  function Prime(): (p: nat)
    ensures p > 0
  {
    ModulusValue();
    Pow2(130) - 5
  }

  function Weighted(v: nat, weight: nat): nat {
    v * weight
  }

  /** The polynomial of section 2.5: with `q` blocks, block number `i` (from 1) has the
      coefficient `r^(q - i + 1)`. A block is its little-endian value with one more bit. */
  function Polynomial(r: nat, msg: Bytes): nat
    decreases |msg|
  {
    if msg == [] then 0
    else
      var n := if |msg| < 16 then |msg| else 16;
      Weighted(FromLE(msg[..n]) + Pow2(8 * n), Radix.Pow(r, (|msg| + 15) / 16)) + Polynomial(r, msg[n..])
  }

  lemma Distribute(r: nat, acc: nat, v: nat, p: nat)
    ensures r * (acc + v) * p == acc * (r * p) + Weighted(v, r * p)
  {
    Radix.MulSum(r, acc, v);
    Radix.MulSum(p, r * acc, r * v);
    Radix.MulAssociate(acc, r, p);
    Radix.MulAssociate(v, r, p);
  }

  lemma HornerStep(r: nat, acc: nat, v: nat, p: nat, rest: nat)
    ensures (Step(r, acc, v) * p + rest) % MOD == (acc * (r * p) + (Weighted(v, r * p) + rest)) % MOD
  {
    hide Weighted;
    Radix.ModFactor(MOD, r * (acc + v), p, rest);
    Distribute(r, acc, v, p);
  }

  /** The Horner loop computes the polynomial. */
  lemma {:induction false} AbsorbIsPolynomial(r: nat, acc: nat, msg: Bytes)
    requires acc < MOD
    ensures Absorb(r, acc, msg, false) == (acc * Radix.Pow(r, (|msg| + 15) / 16) + Polynomial(r, msg)) % Prime()
    decreases |msg|
  {
    hide Step, FromLE, Pow2, Pow256, Weighted;
    ModulusValue();
    if msg != [] {
      var chunk := Prefix(msg, 16);
      var rest, q := msg[|chunk|..], (|msg| + 15) / 16;
      assert chunk == msg[..|chunk|] && (|rest| + 15) / 16 == q - 1;
      var v, p := BlockValue(chunk, false), Radix.Pow(r, q - 1);
      BytePower(|chunk|);
      AbsorbNext(r, acc, msg, false);
      StepBound(r, acc, v);
      AbsorbIsPolynomial(r, Step(r, acc, v), rest);
      HornerStep(r, acc, v, p, Polynomial(r, rest));
    }
  }

  lemma StepBound(r: nat, acc: nat, v: nat)
    ensures Step(r, acc, v) < MOD
  {}

  class Authenticator {
    const r: nat
    const s: nat
    var acc: nat

    constructor (key: Bytes)
      requires |key| == 32
      ensures r == And(FromLE(key[..16]), CLAMP) && s == FromLE(key[16..]) && acc == 0
    {
      r := And(FromLE(key[..16]), CLAMP);
      s := FromLE(key[16..]);
      acc := 0;
    }

    /** Absorbs the first `n` bytes of `msg` (`length`, or all of it by default). */
    method Add(msg: Bytes, n: nat, pad: bool)
      requires n <= |msg|
      modifies this`acc
      ensures acc == Absorb(r, old(acc), msg[..n], pad)
    {
      hide Absorb, Step, BlockValue;
      for i := 0 to (n + 15) / 16
        invariant 16 * i < n + 16
        invariant Absorb(r, old(acc), msg[..n], pad)
               == Absorb(r, acc, msg[(if 16 * i < n then 16 * i else n)..n], pad)
      {
        var size := if n - 16 * i < 16 then n - 16 * i else 16;
        var chunk := msg[16 * i..16 * i + size];
        assert Prefix(msg[16 * i..n], 16) == chunk;
        assert msg[16 * i..n][|chunk|..] == msg[16 * i + size..n];
        AbsorbNext(r, acc, msg[16 * i..n], pad);
        acc := Step(r, acc, BlockValue(chunk, pad));
      }
      AbsorbNothing(r, acc, pad);
    }

    method Tag() returns (tag: Bytes)
      ensures tag == LE((acc + s) % Pow256(16), 16)
    {
      tag := LE((acc + s) % Pow256(16), 16);
    }
  }

  // ----- RFC 8439

  /** The zero bytes that complete the last block (`pad16` of section 2.8). */
  function Pad16(n: nat): (r: Bytes)
    ensures (n + |r|) % 16 == 0
  {
    Zeros((16 - n % 16) % 16)
  }

  /** The string authenticated by the AEAD construction of section 2.8. */
  function MacData(aad: Bytes, ct: Bytes): Bytes {
    aad + Pad16(|aad|) + ct + Pad16(|ct|) + LE(|aad|, 8) + LE(|ct|, 8)
  }

  lemma {:induction false} AbsorbConcat(r: nat, acc: nat, x: Bytes, y: Bytes, pad: bool)
    requires |x| % 16 == 0
    ensures Absorb(r, acc, x + y, pad) == Absorb(r, Absorb(r, acc, x, pad), y, pad)
    decreases |x|
  {
    hide Step;
    if x == [] {
      assert x + y == y;
    } else {
      var chunk := Prefix(x, 16);
      assert Prefix(x + y, 16) == chunk;
      assert (x + y)[16..] == x[16..] + y;
      AbsorbConcat(r, Step(r, acc, BlockValue(chunk, pad)), x[16..], y, pad);
    }
  }

  lemma Pad16Tail(x: Bytes)
    requires |x| >= 16
    ensures (x + Pad16(|x|))[16..] == x[16..] + Pad16(|x[16..]|)
  {
    assert Pad16(|x|) == Pad16(|x| - 16);
  }

  /** A short block absorbed with `pad` set weighs the same as its zero extension. */
  lemma BlockValuePadded(x: Bytes)
    requires 0 < |x| <= 16
    ensures |x + Pad16(|x|)| == 16
    ensures BlockValue(x, true) == BlockValue(x + Pad16(|x|), false)
  {
    hide FromLE, Pow256;
    FromLEZeroExtend(x, |Pad16(|x|)|);
  }

  /** Absorbing with `pad` set is absorbing the zero-padded string without it. */
  lemma {:induction false} AbsorbPadded(r: nat, acc: nat, x: Bytes)
    ensures Absorb(r, acc, x, true) == Absorb(r, acc, x + Pad16(|x|), false)
    decreases |x|
  {
    hide Step, BlockValue, FromLE;
    var padded := x + Pad16(|x|);
    if x == [] {
      assert padded == [];
    } else if |x| <= 16 {
      BlockValuePadded(x);
      assert Prefix(padded, 16) == padded && Prefix(x, 16) == x;
      assert padded[16..] == [] && x[|x|..] == [];
    } else {
      var chunk := Prefix(x, 16);
      assert BlockValue(chunk, true) == BlockValue(chunk, false) by {
        BlockValuePadded(chunk);
        assert chunk + Pad16(16) == chunk;
      }
      assert Prefix(padded, 16) == chunk;
      Pad16Tail(x);
      AbsorbPadded(r, Step(r, acc, BlockValue(chunk, true)), x[16..]);
    }
  }

  /** The three `add` calls of the AEAD functions are one pass over `MacData`. */
  lemma ThreeAddsAreOnePass(r: nat, aad: Bytes, ct: Bytes)
    ensures var a1 := Absorb(r, 0, aad, true);
            var a2 := Absorb(r, a1, ct, true);
            Absorb(r, a2, LE(|aad|, 8) + LE(|ct|, 8), false) == Absorb(r, 0, MacData(aad, ct), false)
  {
    hide Absorb, LE, Pad16;
    var x, y, z := aad + Pad16(|aad|), ct + Pad16(|ct|), LE(|aad|, 8) + LE(|ct|, 8);
    AbsorbPadded(r, 0, aad);
    AbsorbPadded(r, Absorb(r, 0, x, false), ct);
    AbsorbConcat(r, 0, x, y, false);
    AbsorbConcat(r, 0, x + y, z, false);
    assert MacData(aad, ct) == x + y + z;
  }

  /** Section 2.5 clears the top four bits of bytes 3, 7, 11, 15 of `r` and the low two
      bits of bytes 4, 8, 12. */
  function ClampByte(i: nat, b: Byte): Byte {
    if i % 4 == 3 then b % 16
    else if i % 4 == 0 && i > 0 then b - b % 4
    else b
  }

  function ClampBytes(s: Bytes): Bytes {
    seq(|s|, i requires 0 <= i < |s| => ClampByte(i, s[i]))
  }

  function MaskByte(i: nat): Byte {
    if i % 4 == 3 then 15 else if i % 4 == 0 && i > 0 then 252 else 255
  }

  /** The number of section 2.5's mask bytes `i`, `i + 1`, ..., `i + n - 1`. */
  function MaskFrom(i: nat, n: nat): nat
    decreases n
  {
    if n == 0 then 0 else MaskByte(i) + 256 * MaskFrom(i + 1, n - 1)
  }

  lemma AndUnfold(a: nat, b: nat)
    ensures And(a, b) == (a % 2) * (b % 2) + 2 * And(a / 2, b / 2)
  {}

  lemma DoubleTimes(p: nat, x: nat)
    ensures 2 * p * x == 2 * (p * x)
  {}

  lemma {:induction false} AndSplit(lo: nat, hi: nat, mlo: nat, mhi: nat, k: nat)
    requires lo < Pow2(k) && mlo < Pow2(k)
    ensures And(lo + Pow2(k) * hi, mlo + Pow2(k) * mhi) == And(lo, mlo) + Pow2(k) * And(hi, mhi)
  {
    hide And;
    if k == 0 {
      AndUnfold(0, 0);
    } else {
      var p := Pow2(k - 1);
      DoubleTimes(p, hi);
      DoubleTimes(p, mhi);
      DoubleTimes(p, And(hi, mhi));
      var x, y, z := p * hi, p * mhi, p * And(hi, mhi);
      AndSplit(lo / 2, hi, mlo / 2, mhi, k - 1);
      assert And(lo / 2 + x, mlo / 2 + y) == And(lo / 2, mlo / 2) + z;
      AndUnfold(lo + 2 * x, mlo + 2 * y);
      AndUnfold(lo, mlo);
    }
  }

  lemma AndZero(b: nat)
    ensures And(b, 0) == 0
  {}

  lemma {:induction false} AndOnes(b: nat, k: nat)
    requires b < Pow2(k)
    ensures And(b, Pow2(k) - 1) == b
  {
    hide And;
    AndUnfold(b, Pow2(k) - 1);
    if k > 0 {
      AndOnes(b / 2, k - 1);
    } else {
      AndZero(b);
    }
  }

  lemma AndMaskByte(i: nat, b: Byte)
    ensures And(b, MaskByte(i)) == ClampByte(i, b)
  {
    assert Pow2(2) == 4 && Pow2(4) == 16 && Pow2(8) == 256 && Pow2(6) == 64;
    if MaskByte(i) == 255 {
      AndOnes(b, 8);
    } else if MaskByte(i) == 15 {
      AndSplit(b % 16, b / 16, 15, 0, 4);
      AndOnes(b % 16, 4);
    } else {
      AndSplit(b % 4, b / 4, 0, 63, 2);
      AndOnes(b / 4, 6);
    }
  }

  lemma {:induction false} ClampFrom(s: Bytes, i: nat, clamped: Bytes)
    requires |clamped| == |s|
    requires forall j :: 0 <= j < |s| ==> clamped[j] == ClampByte(i + j, s[j])
    ensures And(FromLE(s), MaskFrom(i, |s|)) == FromLE(clamped)
  {
    if s != [] {
      assert Pow2(8) == 256;
      AndSplit(s[0], FromLE(s[1..]), MaskByte(i), MaskFrom(i + 1, |s| - 1), 8);
      AndMaskByte(i, s[0]);
      ClampFrom(s[1..], i + 1, clamped[1..]);
    }
  }

  lemma ClampMask()
    ensures MaskFrom(0, 16) == CLAMP
  {
    assert MaskFrom(12, 4) == 0x0FFFFFFC;
    assert MaskFrom(8, 8) == 0x0FFFFFFC0FFFFFFC;
    assert MaskFrom(4, 12) == 0x0FFFFFFC0FFFFFFC0FFFFFFC;
  }

  /** The integer mask applied to `r` is the bytewise clamp of section 2.5. */
  lemma ClampIsRfc(s: Bytes)
    requires |s| == 16
    ensures And(FromLE(s), CLAMP) == FromLE(ClampBytes(s))
  {
    ClampMask();
    ClampFrom(s, 0, ClampBytes(s));
  }
}
