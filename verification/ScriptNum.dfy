/** Script numbers: `encode_scriptnum` in scripts/script-kernel-seeds.py, lines 72-86,
    against `_scriptnum` in scripts/core-functional/rpc_util.py, lines 918-929. */
module ScriptNum {
  import opened ByteStrings

  /** Little-endian magnitude `m`, with the sign in the top bit of the last byte. */
  function Encoded(m: nat, neg: bool): (r: Bytes)
    requires m > 0
    ensures |r| >= 1
    decreases m
  {
    var sign := if neg then 128 else 0;
    if m < 128 then [m + sign]
    else if m < 256 then [m, sign]
    else [m % 256] + Encoded(m / 256, neg)
  }

  function EncodeSpec(n: int): Bytes {
    if n == 0 then [] else if n < 0 then Encoded(-n, true) else Encoded(n, false)
  }

  /** The bytes of a magnitude, least significant first. */
  function MagnitudeBytes(m: nat): (r: Bytes)
    ensures m > 0 ==> r != [] && r[|r| - 1] != 0
  {
    if m == 0 then [] else [m % 256] + MagnitudeBytes(m / 256)
  }

  /** Sets the sign in the last byte, or in one more byte if its top bit is taken. */
  function WithSign(bytes: Bytes, neg: bool): Bytes
    requires bytes != []
  {
    var k := |bytes| - 1;
    if bytes[k] >= 128 then bytes + [if neg then 128 else 0]
    else if neg then bytes[k := bytes[k] + 128]
    else bytes
  }

  lemma {:induction false} WithSignIsEncoded(m: nat, neg: bool)
    requires m > 0
    ensures WithSign(MagnitudeBytes(m), neg) == Encoded(m, neg)
    decreases m
  {
    if m < 256 {
      assert MagnitudeBytes(m) == [m] by {
        assert MagnitudeBytes(m / 256) == [];
      }
    } else {
      var rest := MagnitudeBytes(m / 256);
      WithSignIsEncoded(m / 256, neg);
      assert WithSign([m % 256] + rest, neg) == [m % 256] + WithSign(rest, neg);
    }
  }

  lemma NextByte(m: nat)
    ensures MagnitudeBytes(m) == if m == 0 then [] else [m % 256] + MagnitudeBytes(m / 256)
  {}

  method MagnitudeLoop(magnitude: nat) returns (out: Bytes)
    ensures out == MagnitudeBytes(magnitude)
  {
    hide MagnitudeBytes;
    var m := magnitude;
    out := [];
    while m > 0
      invariant out + MagnitudeBytes(m) == MagnitudeBytes(magnitude)
      decreases m
    {
      NextByte(m);
      var byte: Byte := m % 256;
      assert out + ([byte] + MagnitudeBytes(m / 256)) == out + [byte] + MagnitudeBytes(m / 256);
      out := out + [byte];
      m := m / 256;
    }
    NextByte(0);
  }

  /** `encode_scriptnum`: the byte loop, then the sign. */
  method EncodeScriptNum(n: int) returns (out: Bytes)
    ensures out == EncodeSpec(n)
  {
    hide Encoded, MagnitudeBytes;
    if n == 0 {
      return [];
    }
    var neg, m := n < 0, if n < 0 then -n else n;
    out := MagnitudeLoop(m);
    WithSignIsEncoded(m, neg);
    var k := |out| - 1;
    if out[k] >= 128 {
      out := out + [if neg then 128 else 0];
    } else if neg {
      out := out[k := out[k] + 128];
    }
  }

  /** The number in any byte string, of any length. */
  function Decoded(data: Bytes): int {
    if data == [] then 0
    else
      var result := FromLE(data);
      if data[|data| - 1] >= 128 then -(result - 128 * Pow256(|data| - 1)) else result
  }

  /** `_scriptnum`: at most four bytes. */
  function DecodeSpec(data: Bytes): Option<int> {
    if |data| > 4 then None else Some(Decoded(data))
  }

  method DecodeScriptNum(data: Bytes) returns (r: Option<int>)
    ensures r == DecodeSpec(data)
  {
    if |data| == 0 {
      return Some(0);
    }
    if |data| > 4 {
      return None;
    }
    hide FromLE, Pow256;
    var result := 0;
    NoBytes();
    for i := 0 to |data|
      invariant result == FromLE(data[..i])
    {
      FromLESplit(data[..i + 1]);
      assert data[..i + 1][..i] == data[..i];
      result := result + data[i] * Pow256(i);
    }
    assert data[..|data|] == data;
    if data[|data| - 1] >= 128 {
      return Some(-(result - 128 * Pow256(|data| - 1)));
    }
    return Some(result);
  }

  lemma NoBytes()
    ensures FromLE([]) == 0
  {}

  function Signed(m: nat, neg: bool): int {
    if neg then -(m as int) else m
  }

  lemma DecodedOneByte(b: Byte)
    ensures Decoded([b]) == Signed(b % 128, b >= 128)
  {
    var d := [b];
    assert d[1..] == [] && FromLE(d) == b;
    assert |d| - 1 == 0 && Pow256(|d| - 1) == 1;
    assert if b >= 128 then Decoded(d) == 128 - b else Decoded(d) == b;
  }

  lemma DecodedTwoBytes(a: Byte, b: Byte)
    ensures Decoded([a, b]) == Signed(a + 256 * (b % 128), b >= 128)
  {
    var d := [a, b];
    var e := [b];
    assert d[1..] == e && e[1..] == [];
    assert FromLE(e) == b;
    assert FromLE(d) == a + 256 * b;
    assert |d| - 1 == 1 && Pow256(|d| - 1) == 256;
    assert if b >= 128 then Decoded(d) == 128 * 256 - (a + 256 * b) else Decoded(d) == a + 256 * b;
  }

  lemma DecodedPrepend(a: Byte, rest: Bytes)
    requires rest != []
    ensures Decoded([a] + rest) == if rest[|rest| - 1] >= 128 then 256 * Decoded(rest) - a else 256 * Decoded(rest) + a
  {
    var r := [a] + rest;
    assert r[1..] == rest && r[|r| - 1] == rest[|rest| - 1];
    assert Pow256(|r| - 1) == 256 * Pow256(|rest| - 1);
  }

  lemma {:induction false} EncodedSign(m: nat, neg: bool)
    requires m > 0
    ensures Encoded(m, neg)[|Encoded(m, neg)| - 1] >= 128 <==> neg
    decreases m
  {
    if m >= 256 {
      EncodedSign(m / 256, neg);
    }
  }

  lemma {:induction false} DecodedEncoded(m: nat, neg: bool)
    requires m > 0
    ensures Decoded(Encoded(m, neg)) == Signed(m, neg)
    decreases m
  {
    hide Decoded;
    if m < 128 {
      DecodedOneByte(if neg then m + 128 else m);
    } else if m < 256 {
      DecodedTwoBytes(m, if neg then 128 else 0);
    } else {
      DecodedEncoded(m / 256, neg);
      EncodedSign(m / 256, neg);
      DecodedPrepend(m % 256, Encoded(m / 256, neg));
    }
  }

  /** `k` bytes hold exactly the magnitudes below `128 * 256^(k - 1)`. */
  lemma {:induction false} EncodedLength(m: nat, neg: bool, k: nat)
    requires m > 0 && k > 0
    ensures |Encoded(m, neg)| <= k <==> m < 128 * Pow256(k - 1)
    decreases m
  {
    if k == 1 {
      assert Pow256(0) == 1;
    } else if m >= 256 {
      EncodedLength(m / 256, neg, k - 1);
      assert Pow256(k - 1) == 256 * Pow256(k - 2);
    } else {
      assert Pow256(k - 1) == 256 * Pow256(k - 2);
    }
  }

  /** Encoding then decoding gives the number back exactly when its magnitude is below
      2^31, and otherwise gives no number. */
  lemma ScriptNumRoundTrip(n: int)
    ensures DecodeSpec(EncodeSpec(n)) == if -0x8000_0000 < n < 0x8000_0000 then Some(n) else None
  {
    if n != 0 {
      var m, neg := if n < 0 then -n else n, n < 0;
      DecodedEncoded(m, neg);
      EncodedLength(m, neg, 4);
      assert Pow256(3) == 0x100_0000;
    }
  }

  /** No byte string for a number is shorter than its encoding. */
  lemma EncodingIsShortest(data: Bytes)
    ensures |EncodeSpec(Decoded(data))| <= |data|
  {
    hide FromLE, Pow256, Encoded;
    if data != [] {
      var k, top := |data|, data[|data| - 1];
      FromLESplit(data);
      FromLEBound(data[..k - 1]);
      var low, p, t := FromLE(data[..k - 1]), Pow256(k - 1), if top >= 128 then top - 128 else top;
      TopByteBound(low, p, t);
      assert top >= 128 ==> top * p - 128 * p == t * p;
      var n := Decoded(data);
      if n != 0 {
        EncodedLength(if n < 0 then -n else n, n < 0, k);
      }
    }
  }

  lemma TopByteBound(low: nat, p: nat, t: nat)
    requires low < p && t < 128
    ensures 0 <= low + t * p < 128 * p
  {
    assert (127 - t) * p >= 0;
  }

  lemma {:induction false} FromLESplit(data: Bytes)
    requires data != []
    ensures FromLE(data) == FromLE(data[..|data| - 1]) + data[|data| - 1] * Pow256(|data| - 1)
  {
    if |data| > 1 {
      var rest := data[1..];
      FromLESplit(rest);
      assert data[..|data| - 1][1..] == rest[..|rest| - 1];
    } else {
      assert data[1..] == [] && data[..0] == [];
    }
  }
}
