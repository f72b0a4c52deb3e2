/** The pure-Python AEAD of scripts/ibd-serve-bench.py, lines 427-454, against the
    construction of section 2.8 of RFC 8439. The ChaCha20 block function is a parameter:
    every result holds for every function from key, nonce and counter to 64 bytes. */
module Aead {
  import opened ByteStrings
  import Poly1305

  type Block = s: Bytes | |s| == 64 witness Zeros(64)

  type BlockFn = (Bytes, Bytes, nat) -> Block

  /** Section 2.4 of RFC 8439 with initial counter 1: byte `i` is masked with byte
      `i % 64` of block `i / 64 + 1`. */
  function XorStream(f: BlockFn, key: Bytes, nonce: Bytes, data: Bytes): (r: Bytes)
    ensures |r| == |data|
  {
    seq(|data|, i requires 0 <= i < |data| => Xor(data[i], f(key, nonce, i / 64 + 1)[i % 64]))
  }

  /** The tag of section 2.8. */
  function Mac(f: BlockFn, key: Bytes, nonce: Bytes, aad: Bytes, ct: Bytes): (r: Bytes)
    ensures |r| == 16
  {
    var otk := f(key, nonce, 0)[..32];
    var r := FromLE(Poly1305.ClampBytes(otk[..16]));
    var acc := Poly1305.Polynomial(r, Poly1305.MacData(aad, ct)) % Poly1305.Prime();
    LE((acc + FromLE(otk[16..])) % Pow256(16), 16)
  }

  function Seal(f: BlockFn, key: Bytes, nonce: Bytes, aad: Bytes, pt: Bytes): (r: Bytes)
    ensures |r| == |pt| + 16
  {
    var ct := XorStream(f, key, nonce, pt);
    ct + Mac(f, key, nonce, aad, ct)
  }

  function Open(f: BlockFn, key: Bytes, nonce: Bytes, aad: Bytes, sealed: Bytes): (r: Option<Bytes>)
    ensures r.Some? ==> |sealed| == |r.value| + 16
  {
    if |sealed| < 16 then None
    else
      var ct := sealed[..|sealed| - 16];
      if sealed[|sealed| - 16..] != Mac(f, key, nonce, aad, ct) then None
      else Some(XorStream(f, key, nonce, ct))
  }

  lemma XorStreamCancel(f: BlockFn, key: Bytes, nonce: Bytes, data: Bytes)
    ensures XorStream(f, key, nonce, XorStream(f, key, nonce, data)) == data
  {
    forall i | 0 <= i < |data|
      ensures XorStream(f, key, nonce, XorStream(f, key, nonce, data))[i] == data[i]
    {
      XorCancel(data[i], f(key, nonce, i / 64 + 1)[i % 64]);
    }
  }

  /** Blocks `1` to `q` of the stream, one after the other. */
  function Keystream(f: BlockFn, key: Bytes, nonce: Bytes, q: nat): (r: Bytes)
    ensures |r| == 64 * q
  {
    if q == 0 then [] else Keystream(f, key, nonce, q - 1) + f(key, nonce, q)
  }

  lemma {:induction false} KeystreamAt(f: BlockFn, key: Bytes, nonce: Bytes, q: nat, i: nat)
    requires i < 64 * q
    ensures Keystream(f, key, nonce, q)[i] == f(key, nonce, i / 64 + 1)[i % 64]
  {
    if i < 64 * (q - 1) {
      KeystreamAt(f, key, nonce, q - 1, i);
    } else {
      assert i / 64 == q - 1 && i % 64 == i - 64 * (q - 1);
    }
  }

  /** The mask is the serialized key stream of section 2.4 from block 1 on, cut to the length
      of the data. */
  lemma MaskIsKeystream(f: BlockFn, key: Bytes, nonce: Bytes, data: Bytes)
    ensures XorStream(f, key, nonce, data)
         == XorAll(data, Keystream(f, key, nonce, (|data| + 63) / 64)[..|data|])
  {
    hide Xor, Keystream;
    var q := (|data| + 63) / 64;
    forall i | 0 <= i < |data| ensures Keystream(f, key, nonce, q)[i] == f(key, nonce, i / 64 + 1)[i % 64] {
      KeystreamAt(f, key, nonce, q, i);
    }
  }

  /** Decryption returns a plaintext exactly for that plaintext's own encryption. */
  lemma OpenIffSealed(f: BlockFn, key: Bytes, nonce: Bytes, aad: Bytes, sealed: Bytes, pt: Bytes)
    ensures Open(f, key, nonce, aad, sealed) == Some(pt) <==> sealed == Seal(f, key, nonce, aad, pt)
  {
    hide Mac;
    if sealed == Seal(f, key, nonce, aad, pt) {
      assert sealed[..|pt|] == XorStream(f, key, nonce, pt);
      XorStreamCancel(f, key, nonce, pt);
    }
    if Open(f, key, nonce, aad, sealed) == Some(pt) {
      XorStreamCancel(f, key, nonce, sealed[..|sealed| - 16]);
      assert sealed == sealed[..|sealed| - 16] + sealed[|sealed| - 16..];
    }
  }

  /** The keystream loop shared by both directions. */
  method Crypt(f: BlockFn, key: Bytes, nonce: Bytes, data: Bytes, n: nat) returns (out: Bytes)
    requires n <= |data|
    ensures out == XorStream(f, key, nonce, data[..n])
  {
    hide Xor, XorStream;
    out := [];
    NoData(f, key, nonce, data);
    for i := 0 to (n + 63) / 64
      invariant 64 * i < n + 64
      invariant |out| == if 64 * i < n then 64 * i else n
      invariant out == XorStream(f, key, nonce, data[..|out|])
    {
      var now := if n - 64 * i < 64 then n - 64 * i else 64;
      var ks := f(key, nonce, i + 1);
      var part := seq(now, j requires 0 <= j < now => Xor(data[j + 64 * i], ks[j]));
      NextBlock(f, key, nonce, data, i, now, part);
      out := out + part;
    }
  }

  lemma NextBlock(f: BlockFn, key: Bytes, nonce: Bytes, data: Bytes, i: nat, now: nat, part: Bytes)
    requires now <= 64 && 64 * i + now <= |data| && |part| == now
    requires forall j :: 0 <= j < now ==> part[j] == Xor(data[j + 64 * i], f(key, nonce, i + 1)[j])
    ensures XorStream(f, key, nonce, data[..64 * i]) + part == XorStream(f, key, nonce, data[..64 * i + now])
  {
    hide Xor;
    var all := XorStream(f, key, nonce, data[..64 * i + now]);
    forall j | 0 <= j < now ensures part[j] == all[64 * i + j] {
      assert (64 * i + j) / 64 == i && (64 * i + j) % 64 == j;
    }
  }

  lemma NoData(f: BlockFn, key: Bytes, nonce: Bytes, data: Bytes)
    ensures XorStream(f, key, nonce, data[..0]) == []
  {}

  /** The tag as the code computes it: masked integer key, three `add` calls. */
  method ComputeTag(f: BlockFn, key: Bytes, nonce: Bytes, aad: Bytes, ct: Bytes, n: nat) returns (tag: Bytes)
    requires n <= |ct|
    ensures tag == Mac(f, key, nonce, aad, ct[..n])
  {
    hide FromLE, LE, And, Pow256, Poly1305.Absorb, Poly1305.MacData, Poly1305.ClampBytes,
         Poly1305.Polynomial, Poly1305.Prime;
    var otk := f(key, nonce, 0)[..32];
    var poly := new Poly1305.Authenticator(otk);
    poly.Add(aad, |aad|, true);
    poly.Add(ct, n, true);
    var lengths := LE(|aad|, 8) + LE(n, 8);
    poly.Add(lengths, |lengths|, false);
    tag := poly.Tag();
    assert aad[..|aad|] == aad && lengths[..|lengths|] == lengths;
    Poly1305.ThreeAddsAreOnePass(poly.r, aad, ct[..n]);
    Poly1305.ClampIsRfc(otk[..16]);
    Poly1305.AbsorbIsPolynomial(poly.r, 0, Poly1305.MacData(aad, ct[..n]));
  }

  method Encrypt(f: BlockFn, key: Bytes, nonce: Bytes, aad: Bytes, pt: Bytes) returns (sealed: Bytes)
    ensures sealed == Seal(f, key, nonce, aad, pt)
  {
    var out := Crypt(f, key, nonce, pt, |pt|);
    assert pt[..|pt|] == pt;
    var tag := ComputeTag(f, key, nonce, aad, out, |out|);
    assert out[..|out|] == out;
    sealed := out + tag;
  }

  method Decrypt(f: BlockFn, key: Bytes, nonce: Bytes, aad: Bytes, sealed: Bytes) returns (r: Option<Bytes>)
    ensures r == Open(f, key, nonce, aad, sealed)
  {
    if |sealed| < 16 {
      return None;
    }
    var n := |sealed| - 16;
    var tag := ComputeTag(f, key, nonce, aad, sealed, n);
    if sealed[|sealed| - 16..] != tag {
      return None;
    }
    var out := Crypt(f, key, nonce, sealed, n);
    r := Some(out);
  }
}
