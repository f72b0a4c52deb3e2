/** The two rekeying wrappers of scripts/ibd-serve-bench.py, lines 472-525, against the
    definitions in the BIP 324 section "Rekeying wrappers: FSChaCha20Poly1305 and
    FSChaCha20". */
module FsCiphers {
  import opened ByteStrings
  import opened Aead

  /** Every 224th packet changes the key: packet `n` is number `Slot(n)` of epoch `Epoch(n)`. */
  function Epoch(n: nat): nat { n / 224 }

  function Slot(n: nat): nat { n % 224 }

  predicate RekeysAfter(n: nat) { (n + 1) % 224 == 0 }

  lemma NextSlot(n: nat)
    ensures if RekeysAfter(n) then Slot(n) == 223 && Slot(n + 1) == 0 && Epoch(n + 1) == Epoch(n) + 1
            else Slot(n + 1) == Slot(n) + 1 < 224 && Epoch(n + 1) == Epoch(n)
  {}

  // ----- FSChaCha20Poly1305

  datatype PacketCipher = PacketCipher(key: Bytes, n: nat)

  function PacketNonce(n: nat): (r: Bytes)
    ensures |r| == 12
  {
    LE(Slot(n), 4) + LE(Epoch(n), 8)
  }

  function AfterPacket(f: BlockFn, c: PacketCipher, aad: Bytes): PacketCipher {
    var key := if RekeysAfter(c.n)
               then Seal(f, c.key, [255, 255, 255, 255] + PacketNonce(c.n)[4..], aad, Zeros(32))[..32]
               else c.key;
    PacketCipher(key, c.n + 1)
  }

  function SealPacket(f: BlockFn, c: PacketCipher, aad: Bytes, pt: Bytes): (r: Bytes)
    ensures |r| == |pt| + 16
  {
    Seal(f, c.key, PacketNonce(c.n), aad, pt)
  }

  function OpenPacket(f: BlockFn, c: PacketCipher, aad: Bytes, sealed: Bytes): (r: Option<Bytes>)
    ensures r.Some? ==> |sealed| == |r.value| + 16
  {
    Open(f, c.key, PacketNonce(c.n), aad, sealed)
  }

  /** The cipher that has passed one packet for each of these AADs. */
  function AfterPackets(f: BlockFn, c: PacketCipher, aads: seq<Bytes>): PacketCipher {
    if aads == [] then c
    else AfterPacket(f, AfterPackets(f, c, aads[..|aads| - 1]), aads[|aads| - 1])
  }

  /** The key of epoch `e` in BIP 324: the first 32 bytes of a zero plaintext sealed
      without AAD under the previous key. */
  function PacketKey(f: BlockFn, initial: Bytes, e: nat): Bytes {
    if e == 0 then initial
    else Seal(f, PacketKey(f, initial, e - 1), [255, 255, 255, 255] + LE(e - 1, 8), [], Zeros(32))[..32]
  }

  /** The AAD decides the tag alone, so a rekey with any AAD is the rekey without one. */
  lemma RekeyIgnoresAad(f: BlockFn, key: Bytes, nonce: Bytes, aad: Bytes)
    ensures Seal(f, key, nonce, aad, Zeros(32))[..32] == Seal(f, key, nonce, [], Zeros(32))[..32]
  {
    hide XorStream, Mac;
    var ct := XorStream(f, key, nonce, Zeros(32));
    assert Seal(f, key, nonce, aad, Zeros(32))[..32] == ct == Seal(f, key, nonce, [], Zeros(32))[..32];
  }

  /** After any packets with any AADs, the key is the BIP 324 key of the current epoch: it
      depends on the initial key and the number of packets alone. */
  lemma {:induction false} PacketCipherRefinesBip324(f: BlockFn, initial: Bytes, aads: seq<Bytes>)
    ensures AfterPackets(f, PacketCipher(initial, 0), aads)
         == PacketCipher(PacketKey(f, initial, Epoch(|aads|)), |aads|)
  {
    hide Seal, LE;
    if aads != [] {
      var n := |aads| - 1;
      PacketCipherRefinesBip324(f, initial, aads[..n]);
      NextSlot(n);
      assert PacketNonce(n)[4..] == LE(Epoch(n), 8);
      RekeyIgnoresAad(f, PacketKey(f, initial, Epoch(n)), [255, 255, 255, 255] + PacketNonce(n)[4..], aads[n]);
    }
  }

  /** The nonce of packet `n`: its number in the epoch, then the epoch. The source raises
      OverflowError when the epoch outgrows eight bytes, which the bound excludes. */
  lemma NonceParts(n: nat)
    ensures FromLE(PacketNonce(n)[..4]) == n % 224
    ensures n < 224 * Pow256(8) ==> FromLE(PacketNonce(n)[4..]) == n / 224
  {
    hide LE, FromLE, Pow256;
    assert PacketNonce(n)[..4] == LE(Slot(n), 4) && PacketNonce(n)[4..] == LE(Epoch(n), 8);
    FourBytes();
    FromLEOfLE(Slot(n), 4);
    if n < 224 * Pow256(8) {
      FromLEOfLE(Epoch(n), 8);
    }
  }

  lemma FourBytes()
    ensures Pow256(4) == 0x1_0000_0000 && FromLE([255, 255, 255, 255]) == 0xFFFF_FFFF
  {
    assert [255, 255, 255, 255][1..] == [255, 255, 255];
    assert [255, 255, 255][1..] == [255, 255] && [255, 255][1..] == [255];
  }

  /** No two packets have one nonce, and no packet has that of a rekey. */
  lemma NoncesAreFresh(n: nat, m: nat, e: nat)
    requires n < 224 * Pow256(8) && m < 224 * Pow256(8)
    ensures PacketNonce(n) == PacketNonce(m) <==> n == m
    ensures PacketNonce(n) != [255, 255, 255, 255] + LE(e, 8)
  {
    hide LE, FromLE, Pow256, PacketNonce;
    NonceParts(n);
    NonceParts(m);
    FourBytes();
    assert ([255, 255, 255, 255] + LE(e, 8))[..4] == [255, 255, 255, 255];
  }

  /** What packet `n` of a run is sealed with: the key of epoch `n / 224` and the nonce of
      BIP 324. */
  lemma SealedWith(f: BlockFn, initial: Bytes, aads: seq<Bytes>, aad: Bytes, pt: Bytes)
    ensures var n := |aads|;
            SealPacket(f, AfterPackets(f, PacketCipher(initial, 0), aads), aad, pt)
            == Seal(f, PacketKey(f, initial, n / 224), LE(n % 224, 4) + LE(n / 224, 8), aad, pt)
  {
    hide Seal, LE;
    PacketCipherRefinesBip324(f, initial, aads);
  }

  class FSChaCha20Poly1305 {
    const f: BlockFn
    var key: Bytes
    var n: nat

    ghost function State(): PacketCipher
      reads this
    {
      PacketCipher(key, n)
    }

    constructor (f: BlockFn, key: Bytes)
      ensures this.f == f && State() == PacketCipher(key, 0)
    {
      this.f, this.key, this.n := f, key, 0;
    }

    method Rekey(aad: Bytes)
      modifies this
      ensures State() == AfterPacket(f, old(State()), aad)
    {
      hide Seal, PacketNonce;
      if RekeysAfter(n) {
        var rn := [255, 255, 255, 255] + PacketNonce(n)[4..];
        var sealed := Aead.Encrypt(f, key, rn, aad, Zeros(32));
        key := sealed[..32];
      }
      n := n + 1;
    }

    method Encrypt(aad: Bytes, pt: Bytes) returns (sealed: Bytes)
      modifies this
      ensures sealed == SealPacket(f, old(State()), aad, pt)
      ensures State() == AfterPacket(f, old(State()), aad)
    {
      sealed := Aead.Encrypt(f, key, PacketNonce(n), aad, pt);
      Rekey(aad);
    }

    /** A packet that does not authenticate leaves the cipher where it was. */
    method Decrypt(aad: Bytes, sealed: Bytes) returns (r: Option<Bytes>)
      modifies this
      ensures r == OpenPacket(f, old(State()), aad, sealed)
      ensures State() == if r.Some? then AfterPacket(f, old(State()), aad) else old(State())
    {
      r := Aead.Decrypt(f, key, PacketNonce(n), aad, sealed);
      if r.Some? {
        Rekey(aad);
      }
    }
  }

  // ----- FSChaCha20

  /** The fields of the buffered length cipher. */
  datatype LengthCipher = LengthCipher(key: Bytes, blockCounter: nat, chunkCounter: nat, keystream: Bytes)

  function EpochNonce(e: nat): (r: Bytes)
    ensures |r| == 12
  {
    LE(0, 4) + LE(e, 8)
  }

  /** No two epochs have one nonce. */
  lemma EpochNonceParts(e: nat)
    ensures FromLE(EpochNonce(e)[..4]) == 0
    ensures e < Pow256(8) ==> FromLE(EpochNonce(e)[4..]) == e
  {
    hide LE, FromLE, Pow256;
    assert EpochNonce(e)[..4] == LE(0, 4) && EpochNonce(e)[4..] == LE(e, 8);
    FourBytes();
    FromLEOfLE(0, 4);
    if e < Pow256(8) {
      FromLEOfLE(e, 8);
    }
  }

  /** The cipher once at least `n` keystream bytes are buffered. */
  function Fill(f: BlockFn, c: LengthCipher, n: nat): (r: LengthCipher)
    ensures |r.keystream| >= n && r.key == c.key && r.chunkCounter == c.chunkCounter
    decreases n - |c.keystream|
  {
    if |c.keystream| >= n then c
    else
      var block := f(c.key, EpochNonce(Epoch(c.chunkCounter)), c.blockCounter);
      Fill(f, c.(keystream := c.keystream + block, blockCounter := c.blockCounter + 1), n)
  }

  function Drop(f: BlockFn, c: LengthCipher, n: nat): LengthCipher {
    var filled := Fill(f, c, n);
    filled.(keystream := filled.keystream[n..])
  }

  function CryptChunk(f: BlockFn, c: LengthCipher, chunk: Bytes): (r: Bytes)
    ensures |r| == |chunk|
  {
    XorAll(chunk, Fill(f, c, |chunk|).keystream[..|chunk|])
  }

  /** The cipher after a chunk of `n` bytes. */
  function AfterChunk(f: BlockFn, c: LengthCipher, n: nat): LengthCipher {
    var used := Drop(f, c, n);
    if RekeysAfter(c.chunkCounter) then
      LengthCipher(Fill(f, used, 32).keystream[..32], 0, c.chunkCounter + 1, Drop(f, used, 32).keystream)
    else
      used.(chunkCounter := c.chunkCounter + 1)
  }

  class FSChaCha20 {
    const f: BlockFn
    var key: Bytes
    var blockCounter: nat
    var chunkCounter: nat
    var keystream: Bytes

    ghost function State(): LengthCipher
      reads this
    {
      LengthCipher(key, blockCounter, chunkCounter, keystream)
    }

    constructor (f: BlockFn, key: Bytes)
      ensures this.f == f && State() == LengthCipher(key, 0, 0, [])
    {
      this.f, this.key := f, key;
      blockCounter, chunkCounter, keystream := 0, 0, [];
    }

    method Ks(n: nat) returns (out: Bytes)
      modifies this
      ensures out == Fill(f, old(State()), n).keystream[..n]
      ensures State() == Drop(f, old(State()), n)
    {
      while |keystream| < n
        invariant Fill(f, State(), n) == Fill(f, old(State()), n)
        invariant chunkCounter == old(chunkCounter)
        decreases n - |keystream|
      {
        var nonce := EpochNonce(Epoch(chunkCounter));
        keystream := keystream + f(key, nonce, blockCounter);
        blockCounter := blockCounter + 1;
      }
      out, keystream := keystream[..n], keystream[n..];
    }

    method Crypt(chunk: Bytes) returns (out: Bytes)
      modifies this
      ensures out == CryptChunk(f, old(State()), chunk)
      ensures State() == AfterChunk(f, old(State()), |chunk|)
    {
      hide Fill;
      var ks := Ks(|chunk|);
      out := XorAll(chunk, ks);
      if RekeysAfter(chunkCounter) {
        key := Ks(32);
        blockCounter := 0;
      }
      chunkCounter := chunkCounter + 1;
    }
  }

  /** Applying the cipher again from the same state undoes it, and the state after a chunk
      depends on its length only, so the two ends move together. */
  lemma CryptChunkCancel(f: BlockFn, c: LengthCipher, chunk: Bytes)
    ensures CryptChunk(f, c, CryptChunk(f, c, chunk)) == chunk
  {
    XorAllCancel(chunk, Fill(f, c, |chunk|).keystream[..|chunk|]);
  }

  // ----- the definition in BIP 324

  /** Bytes `lo` up to `hi` of the ChaCha20 stream of epoch `e`. */
  function EpochBytes(f: BlockFn, key: Bytes, e: nat, lo: nat, hi: nat): (r: Bytes)
    requires lo <= hi
    ensures |r| == hi - lo
  {
    seq(hi - lo, i requires 0 <= i < hi - lo => f(key, EpochNonce(e), (lo + i) / 64)[(lo + i) % 64])
  }

  /** Each epoch's key is the 32 bytes that follow the 224 three-byte masks of the last. */
  function EpochKey(f: BlockFn, initial: Bytes, e: nat): Bytes {
    if e == 0 then initial else EpochBytes(f, EpochKey(f, initial, e - 1), e - 1, 672, 704)
  }

  /** The cipher stands at byte `pos` of its epoch's stream, with less than a block of
      that stream buffered ahead. */
  ghost predicate Buffered(f: BlockFn, c: LengthCipher, pos: nat) {
    && pos <= 64 * c.blockCounter < pos + 64
    && c.keystream == EpochBytes(f, c.key, Epoch(c.chunkCounter), pos, 64 * c.blockCounter)
  }

  lemma EpochBytesAppend(f: BlockFn, key: Bytes, e: nat, lo: nat, b: nat)
    requires lo <= 64 * b
    ensures EpochBytes(f, key, e, lo, 64 * b) + f(key, EpochNonce(e), b) == EpochBytes(f, key, e, lo, 64 * (b + 1))
  {
    var block, whole := f(key, EpochNonce(e), b), EpochBytes(f, key, e, lo, 64 * (b + 1));
    forall j | 0 <= j < 64 ensures block[j] == whole[64 * b - lo + j] {
      assert (64 * b + j) / 64 == b && (64 * b + j) % 64 == j;
    }
  }

  lemma {:induction false} FillBuffered(f: BlockFn, c: LengthCipher, pos: nat, n: nat)
    requires pos <= 64 * c.blockCounter < pos + n + 64
    requires c.keystream == EpochBytes(f, c.key, Epoch(c.chunkCounter), pos, 64 * c.blockCounter)
    ensures var r := Fill(f, c, n);
            && pos + n <= 64 * r.blockCounter < pos + n + 64
            && r.keystream == EpochBytes(f, c.key, Epoch(c.chunkCounter), pos, 64 * r.blockCounter)
    decreases n - |c.keystream|
  {
    if |c.keystream| < n {
      var e := Epoch(c.chunkCounter);
      EpochBytesAppend(f, c.key, e, pos, c.blockCounter);
      var block := f(c.key, EpochNonce(e), c.blockCounter);
      FillBuffered(f, c.(keystream := c.keystream + block, blockCounter := c.blockCounter + 1), pos, n);
    }
  }

  lemma DropBuffered(f: BlockFn, c: LengthCipher, pos: nat, n: nat)
    requires Buffered(f, c, pos)
    ensures var r := Drop(f, c, n);
            && r.key == c.key && r.chunkCounter == c.chunkCounter && Buffered(f, r, pos + n)
    ensures Fill(f, c, n).keystream[..n] == EpochBytes(f, c.key, Epoch(c.chunkCounter), pos, pos + n)
  {
    FillBuffered(f, c, pos, n);
  }

  /** The cipher that has masked `k` three-byte chunks. */
  function AfterLengths(f: BlockFn, c: LengthCipher, k: nat): LengthCipher {
    if k == 0 then c else AfterChunk(f, AfterLengths(f, c, k - 1), 3)
  }

  /** Three-byte chunks keep the cipher on the BIP 324 schedule. */
  ghost predicate OnSchedule(f: BlockFn, initial: Bytes, c: LengthCipher) {
    && c.key == EpochKey(f, initial, Epoch(c.chunkCounter))
    && Buffered(f, c, 3 * Slot(c.chunkCounter))
  }

  lemma AfterLengthOnSchedule(f: BlockFn, initial: Bytes, c: LengthCipher)
    requires OnSchedule(f, initial, c)
    ensures OnSchedule(f, initial, AfterChunk(f, c, 3))
    ensures AfterChunk(f, c, 3).chunkCounter == c.chunkCounter + 1
  {
    hide Fill, EpochBytes;
    NextSlot(c.chunkCounter);
    var pos := 3 * Slot(c.chunkCounter);
    DropBuffered(f, c, pos, 3);
    if RekeysAfter(c.chunkCounter) {
      var used := Drop(f, c, 3);
      DropBuffered(f, used, 672, 32);
      assert Drop(f, used, 32).blockCounter == 11;
    }
  }

  lemma {:induction false} AfterLengthsOnSchedule(f: BlockFn, initial: Bytes, k: nat)
    ensures OnSchedule(f, initial, AfterLengths(f, LengthCipher(initial, 0, 0, []), k))
    ensures AfterLengths(f, LengthCipher(initial, 0, 0, []), k).chunkCounter == k
  {
    if k > 0 {
      AfterLengthsOnSchedule(f, initial, k - 1);
      AfterLengthOnSchedule(f, initial, AfterLengths(f, LengthCipher(initial, 0, 0, []), k - 1));
    }
  }

  /** The buffered cipher refines BIP 324: chunk `k` is masked with bytes
      `3 * (k % 224)` onwards of epoch `k / 224`, and nothing of one epoch's stream is
      left in the buffer when the next begins. */
  lemma LengthCipherRefinesBip324(f: BlockFn, initial: Bytes, k: nat, chunk: Bytes)
    requires |chunk| == 3
    ensures var c := AfterLengths(f, LengthCipher(initial, 0, 0, []), k);
            var e, at := Epoch(k), 3 * Slot(k);
            && CryptChunk(f, c, chunk) == XorAll(chunk, EpochBytes(f, EpochKey(f, initial, e), e, at, at + 3))
            && c.key == EpochKey(f, initial, e)
            && (Slot(k) == 0 ==> c.keystream == [] && c.blockCounter == 0)
  {
    AfterLengthsOnSchedule(f, initial, k);
    var c := AfterLengths(f, LengthCipher(initial, 0, 0, []), k);
    DropBuffered(f, c, 3 * Slot(k), 3);
  }

  function TotalLength(lens: seq<nat>): nat {
    if lens == [] then 0 else TotalLength(lens[..|lens| - 1]) + lens[|lens| - 1]
  }

  /** The cipher that has masked chunks of these lengths. */
  function AfterChunks(f: BlockFn, c: LengthCipher, lens: seq<nat>): LengthCipher {
    if lens == [] then c
    else AfterChunk(f, AfterChunks(f, c, lens[..|lens| - 1]), lens[|lens| - 1])
  }

  lemma {:induction false} WithinEpoch(f: BlockFn, c: LengthCipher, lens: seq<nat>)
    requires Slot(c.chunkCounter) == 0 && c.blockCounter == 0 && c.keystream == []
    requires |lens| < 224
    ensures var r := AfterChunks(f, c, lens);
            && r.chunkCounter == c.chunkCounter + |lens| && r.key == c.key && Buffered(f, r, TotalLength(lens))
  {
    hide Fill, EpochBytes;
    if lens != [] {
      var init, n := lens[..|lens| - 1], lens[|lens| - 1];
      WithinEpoch(f, c, init);
      DropBuffered(f, AfterChunks(f, c, init), TotalLength(init), n);
    }
  }

  lemma WholeBlocksIff(x: nat, b: nat)
    requires x <= 64 * b < x + 64
    ensures 64 * b == x <==> x % 64 == 0
  {}

  /** For chunks of any lengths, the buffer is empty after a rekey exactly when the epoch's
      chunks and the next key fill whole blocks. Otherwise old-key bytes mask the next
      epoch's first chunk. Three-byte chunks qualify because 224 * 3 + 32 == 11 * 64. */
  lemma RekeyLeavesNothingIff(f: BlockFn, c: LengthCipher, lens: seq<nat>)
    requires Slot(c.chunkCounter) == 0 && c.blockCounter == 0 && c.keystream == []
    requires |lens| == 224
    ensures AfterChunks(f, c, lens).keystream == [] <==> (TotalLength(lens) + 32) % 64 == 0
  {
    hide Fill, EpochBytes, Drop, AfterChunk, Buffered;
    var init, n := lens[..|lens| - 1], lens[|lens| - 1];
    WithinEpoch(f, c, init);
    var before := AfterChunks(f, c, init);
    RekeyTakes(f, before, n, TotalLength(init));
  }

  /** The chunk before a rekey and the next key come off the same stream. */
  lemma RekeyTakes(f: BlockFn, c: LengthCipher, n: nat, pos: nat)
    requires RekeysAfter(c.chunkCounter) && Buffered(f, c, pos)
    ensures AfterChunk(f, c, n).keystream == [] <==> (pos + n + 32) % 64 == 0
  {
    hide Fill, EpochBytes;
    DropBuffered(f, c, pos, n);
    var used := Drop(f, c, n);
    DropBuffered(f, used, pos + n, 32);
    WholeBlocksIff(pos + n + 32, Drop(f, used, 32).blockCounter);
  }

  lemma {:induction false} TotalOfEqual(k: nat, n: nat)
    ensures TotalLength(seq(k, _ => n)) == k * n
  {
    if k > 0 {
      TotalOfEqual(k - 1, n);
      assert seq(k, _ => n)[..k - 1] == seq(k - 1, _ => n);
    }
  }

  /** An instance: an epoch of two-byte chunks leaves half a block of old keystream. */
  lemma TwoByteChunksLeaveSome(f: BlockFn, c: LengthCipher)
    requires Slot(c.chunkCounter) == 0 && c.blockCounter == 0 && c.keystream == []
    ensures AfterChunks(f, c, seq(224, _ => 2)).keystream != []
  {
    hide AfterChunks;
    TotalOfEqual(224, 2);
    RekeyLeavesNothingIff(f, c, seq(224, _ => 2));
  }
}
