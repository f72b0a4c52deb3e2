/** The key hashers of crates/rbitcoin-consensus/src/id_map.rs, lines 7-53, on 64-bit
    words written out as integers below 2^64. */
module Hashers {
  import opened ByteStrings
  import Radix

  type Word = w: nat | w < 0x1_0000_0000_0000_0000

  lemma WordBits()
    ensures Pow2(64) == 0x1_0000_0000_0000_0000
  {
    hide Pow2;
    Pow2Four();
    Pow2Sum(4, 4);
    Pow2Sum(8, 8);
    Pow2Sum(16, 16);
    Pow2Sum(32, 32);
  }

  /** Xor in a byte, then a wrapping multiplication. */
  function Mix(h: Word, b: Byte): Word {
    XorBits(h, b, 64) * 0x0100_0000_01b3 % 0x1_0000_0000_0000_0000
  }

  function MixAll(h: Word, bytes: Bytes): Word
    decreases |bytes|
  {
    if bytes == [] then h else MixAll(Mix(h, bytes[0]), bytes[1..])
  }

  class OutPointHasher {
    var state: Word

    constructor ()
      ensures state == 0
    {
      state := 0;
    }

    method Write(bytes: Bytes)
      modifies this
      ensures state == MixAll(old(state), bytes)
    {
      hide Mix;
      for i := 0 to |bytes|
        invariant MixAll(state, bytes[i..]) == MixAll(old(state), bytes)
      {
        assert bytes[i..][1..] == bytes[i + 1..];
        state := Mix(state, bytes[i]);
      }
    }
  }

  /** The hash does not depend on how the bytes are split into writes. */
  lemma {:induction false} MixAllSplit(h: Word, a: Bytes, b: Bytes)
    ensures MixAll(h, a + b) == MixAll(MixAll(h, a), b)
    decreases |a|
  {
    hide Mix;
    if a == [] {
      assert a + b == b;
    } else {
      assert (a + b)[1..] == a[1..] + b;
      MixAllSplit(Mix(h, a[0]), a[1..], b);
    }
  }

  lemma {:induction false} XorBitsSymmetric(a: nat, b: nat, k: nat)
    ensures XorBits(a, b, k) == XorBits(b, a, k)
  {
    if k > 0 {
      XorBitsSymmetric(a / 2, b / 2, k - 1);
    }
  }

  /** The odd multiplier has an inverse modulo 2^64. */
  lemma UnMultiply(x: Word)
    ensures (x * 0x0100_0000_01b3 % 0x1_0000_0000_0000_0000) * 0xce96_5057_aff6_957b % 0x1_0000_0000_0000_0000 == x
  {
    var r, d := x * 0x0100_0000_01b3 % 0x1_0000_0000_0000_0000, x * 0x0100_0000_01b3 / 0x1_0000_0000_0000_0000;
    var t := x * 0xce_9650_590f - d * 0xce96_5057_aff6_957b;
    assert 0x0100_0000_01b3 * 0xce96_5057_aff6_957b == 1 + 0xce_9650_590f * 0x1_0000_0000_0000_0000;
    assert r * 0xce96_5057_aff6_957b == 0x1_0000_0000_0000_0000 * t + x;
    assert t >= 0;
    Radix.DivModUnique(0x1_0000_0000_0000_0000, t, x);
  }

  /** `Mix` is one to one in the state, and in the byte. */
  lemma MixInjective(h: Word, b: Byte, g: Word, c: Byte)
    requires Mix(h, b) == Mix(g, c) && (h == g || b == c)
    ensures h == g && b == c
  {
    WordBits();
    var x, y := XorBits(h, b, 64), XorBits(g, c, 64);
    UnMultiply(x);
    UnMultiply(y);
    assert x == y;
    XorBitsCancel(h, b, 64);
    XorBitsCancel(g, c, 64);
    XorBitsSymmetric(h, b, 64);
    XorBitsSymmetric(g, c, 64);
    XorBitsCancel(b, h, 64);
    XorBitsCancel(c, g, 64);
  }

  /** `Mix` run backwards: the inverse multiplication, then the byte xored out. */
  function UnMix(h: Word, b: Byte): Word {
    WordBits();
    XorBits(h * 0xce96_5057_aff6_957b % 0x1_0000_0000_0000_0000, b, 64)
  }

  /** Every step can be undone by the multiplier's inverse, which settles the step. */
  lemma UnMixMix(h: Word, b: Byte)
    ensures UnMix(Mix(h, b), b) == h
  {
    hide XorBits;
    WordBits();
    UnMultiply(XorBits(h, b, 64));
    XorBitsCancel(h, b, 64);
  }

  lemma {:induction false} MixAllInjective(h: Word, g: Word, s: Bytes)
    requires MixAll(h, s) == MixAll(g, s)
    ensures h == g
    decreases |s|
  {
    hide Mix;
    if s != [] {
      MixAllInjective(Mix(h, s[0]), Mix(g, s[0]), s[1..]);
      MixInjective(h, s[0], g, s[0]);
    }
  }

  /** Inputs that differ in exactly one byte hash differently. */
  lemma OneByteMatters(h: Word, front: Bytes, b: Byte, c: Byte, back: Bytes)
    requires b != c
    ensures MixAll(h, front + [b] + back) != MixAll(h, front + [c] + back)
  {
    hide Mix;
    var at := MixAll(h, front);
    forall x: Byte ensures MixAll(h, front + [x] + back) == MixAll(Mix(at, x), back) {
      MixAllSplit(h, front + [x], back);
      MixAllSplit(h, front, [x]);
      assert [x][1..] == [];
    }
    if MixAll(Mix(at, b), back) == MixAll(Mix(at, c), back) {
      MixAllInjective(Mix(at, b), Mix(at, c), back);
      MixInjective(at, b, at, c);
    }
  }

  lemma SmallXor(a: nat, b: Byte)
    requires a < Pow2(64)
    ensures XorBits(a, b, 64) / 256 == a / 256
  {
    hide XorBits;
    HighBitsKept(a, b, 64, 8);
    assert Pow2(8) == 256;
  }

  /** Only the low `k` bits change. */
  lemma {:induction false} HighBitsKept(a: nat, b: nat, n: nat, k: nat)
    requires a < Pow2(n) && b < Pow2(k) && k <= n
    ensures XorBits(a, b, n) / Pow2(k) == a / Pow2(k)
  {
    var x := XorBits(a, b, n);
    if k == 0 {
      XorZero(a, n);
    } else {
      var p := Pow2(k - 1);
      HighBitsKept(a / 2, b / 2, n - 1, k - 1);
      assert x / 2 == XorBits(a / 2, b / 2, n - 1);
      Radix.DivDiv(x, 2, p);
      Radix.DivDiv(a, 2, p);
    }
  }

  /** From the initial state, two different bytes hash differently in the other order. */
  lemma OrderMatters(a: Byte, b: Byte)
    requires a != b
    ensures MixAll(0, [a, b]) != MixAll(0, [b, a])
  {
    hide Mix;
    assert [a, b][1..] == [b] && [b, a][1..] == [a] && [a][1..] == [] && [b][1..] == [];
    FirstMix(a);
    FirstMix(b);
    var x, y := Mix(0, a), Mix(0, b);
    assert MixAll(0, [a, b]) == MixAll(x, [b]) == MixAll(Mix(x, b), []) == Mix(x, b);
    assert MixAll(0, [b, a]) == MixAll(y, [a]) == MixAll(Mix(y, a), []) == Mix(y, a);
    if Mix(x, b) == Mix(y, a) {
      SecondMix(x, b, y, a);
    }
  }

  lemma FirstMix(a: Byte)
    ensures Mix(0, a) == a * 0x0100_0000_01b3
  {
    hide XorBits;
    WordBits();
    XorBitsSymmetric(0, a, 64);
    XorZero(a, 64);
  }

  lemma SecondMix(x: Word, b: Byte, y: Word, a: Byte)
    requires Mix(x, b) == Mix(y, a)
    ensures -256 < x - y < 256
  {
    hide XorBits;
    WordBits();
    UnMultiply(XorBits(x, b, 64));
    UnMultiply(XorBits(y, a, 64));
    SmallXor(x, b);
    SmallXor(y, a);
  }

  // ----- TxidHasher

  /** Bitwise or. */
  function Or(a: nat, b: nat): nat {
    if a == 0 then b
    else if b == 0 then a
    else (if a % 2 == 0 && b % 2 == 0 then 0 else 1) + 2 * Or(a / 2, b / 2)
  }

  /** A number or-ed in above all bits of another is added to it. */
  lemma {:induction false} OrAbove(low: nat, k: nat, high: nat)
    requires low < Pow2(k)
    ensures Or(low, Pow2(k) * high) == low + Pow2(k) * high
  {
    if k > 0 && low > 0 && high > 0 {
      Radix.MulAssociate(2, Pow2(k - 1), high);
      OrAbove(low / 2, k - 1, high);
    }
  }

  lemma ShortIsWord(s: Bytes)
    requires |s| <= 8
    ensures FromLE(s) < 0x1_0000_0000_0000_0000
  {
    assert Pow256(8) == 0x1_0000_0000_0000_0000;
    FromLEZeroExtend(s, 8 - |s|);
    FromLEBound(s + Zeros(8 - |s|));
  }

  /** The next byte of a short write lands above those before it. */
  lemma OrNextByte(s: Bytes, b: Byte)
    ensures Or(FromLE(s), b * Pow2(8 * |s|)) == FromLE(s + [b])
  {
    hide Or, FromLE, Pow2, Pow256;
    FromLEBound(s);
    BytePower(|s|);
    OrAbove(FromLE(s), 8 * |s|, b);
    FromLEAppend(s, b);
  }

  /** The hash of a write: its first eight bytes, or all of a shorter one. */
  function TxidWord(bytes: Bytes): Word {
    ShortIsWord(Prefix(bytes, 8));
    FromLE(Prefix(bytes, 8))
  }

  class TxidHasher {
    var state: Word

    constructor ()
      ensures state == 0
    {
      state := 0;
    }

    method Write(bytes: Bytes)
      modifies this
      ensures state == TxidWord(bytes)
    {
      hide FromLE, Or, Pow2;
      if |bytes| >= 8 {
        ShortIsWord(bytes[..8]);
        assert bytes[..8] == Prefix(bytes, 8);
        state := FromLE(bytes[..8]);
      } else {
        NothingRead();
        state := 0;
        for i := 0 to |bytes|
          invariant state == FromLE(bytes[..i])
        {
          OrNextByte(bytes[..i], bytes[i]);
          assert bytes[..i] + [bytes[i]] == bytes[..i + 1];
          ShortIsWord(bytes[..i + 1]);
          state := Or(state, bytes[i] * Pow2(8 * i));
        }
        assert bytes[..|bytes|] == bytes;
      }
    }
  }

  lemma NothingRead()
    ensures FromLE([]) == 0
  {}

  /** The state after a run of writes. */
  function TxidState(state: Word, writes: seq<Bytes>): Word
    decreases |writes|
  {
    if writes == [] then state else TxidState(TxidWord(writes[0]), writes[1..])
  }

  /** A key's writes, as `Hash` makes them. */
  method WriteAll(hasher: TxidHasher, writes: seq<Bytes>)
    modifies hasher
    ensures hasher.state == TxidState(old(hasher.state), writes)
  {
    hide TxidWord;
    for i := 0 to |writes|
      invariant TxidState(hasher.state, writes[i..]) == TxidState(old(hasher.state), writes)
    {
      assert writes[i..][1..] == writes[i + 1..];
      hasher.Write(writes[i]);
    }
  }

  /** Only the last write counts: hashers with any histories agree after it. */
  lemma {:induction false} LastWriteDecides(s: Word, t: Word, before: seq<Bytes>, other: seq<Bytes>, last: Bytes)
    ensures TxidState(s, before + [last]) == TxidState(t, other + [last]) == TxidWord(last)
    decreases |before| + |other|
  {
    hide TxidWord;
    if before != [] {
      assert (before + [last])[1..] == before[1..] + [last];
      LastWriteDecides(TxidWord(before[0]), t, before[1..], other, last);
    } else if other != [] {
      assert (other + [last])[1..] == other[1..] + [last];
      LastWriteDecides(s, TxidWord(other[0]), before, other[1..], last);
    } else {
      assert [] + [last] == [last] && [last][1..] == [];
    }
  }

  /** Why an outpoint needs the other hasher: its four output-index bytes are written last,
      so the hash is the index whatever the txid was. */
  lemma OutPointLosesTxid(s: Word, before: seq<Bytes>, vout: nat)
    requires vout < 0x1_0000_0000
    ensures TxidState(s, before + [LE(vout, 4)]) == vout
  {
    LastWriteDecides(s, s, before, before, LE(vout, 4));
    assert Pow256(4) == 0x1_0000_0000;
    FromLEOfLE(vout, 4);
  }

  /** Two writes collide exactly when their first eight bytes agree, a shorter write being
      filled up with zeros. For two txids that is their first eight bytes. */
  lemma TxidCollisionIff(a: Bytes, b: Bytes)
    ensures TxidWord(a) == TxidWord(b) <==> Prefix(a + Zeros(8), 8) == Prefix(b + Zeros(8), 8)
    ensures |a| >= 8 && |b| >= 8 ==> (TxidWord(a) == TxidWord(b) <==> a[..8] == b[..8])
  {
    hide FromLE, LE;
    FilledUp(a);
    FilledUp(b);
    LEOfFromLE(Prefix(a + Zeros(8), 8));
    LEOfFromLE(Prefix(b + Zeros(8), 8));
  }

  lemma FilledUp(a: Bytes)
    ensures TxidWord(a) == FromLE(Prefix(a + Zeros(8), 8)) && |Prefix(a + Zeros(8), 8)| == 8
    ensures |a| >= 8 ==> Prefix(a + Zeros(8), 8) == a[..8]
  {
    hide FromLE;
    if |a| < 8 {
      FromLEZeroExtend(a, 8 - |a|);
      assert Prefix(a + Zeros(8), 8) == a + Zeros(8 - |a|);
    } else {
      assert Prefix(a + Zeros(8), 8) == a[..8] == Prefix(a, 8);
    }
  }
}
