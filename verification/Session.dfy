/** Whole sessions of scripts/ibd-serve-bench.py on values: the receive loop, the
    garbage scan, key setup and the handshake, and what an honest peer's stream yields. */
module Session {
  import opened ByteStrings
  import opened Aead
  import Poly1305
  import opened FsCiphers
  import opened Wire

  // ----- receiving messages

  datatype Received = Got(message: Message, half: Half, rest: Bytes) | Ended | Broken

  /** `recv_msg`: the first packet that is neither a decoy nor skipped. */
  function RecvMsg(f: BlockFn, h: Half, stream: Bytes): (r: Received)
    ensures r.Got? ==> |r.rest| < |stream|
    decreases |stream|
  {
    match DecPacket(f, h, [], stream)
    case Short => Ended
    case Forged => Broken
    case Packet(contents, ignore, rest) =>
      var next := NextHalf(f, h, []);
      if ignore || DecodeMessage(contents).None? then RecvMsg(f, next, rest)
      else Got(DecodeMessage(contents).value, next, rest)
  }

  /** A packet the receiver passes over: a decoy, or contents it cannot read as a message. */
  datatype Noise = Noise(ignore: bool, contents: Bytes)

  predicate IsNoise(n: Noise) {
    |n.contents| < CONTENTS_LIMIT && (n.ignore || DecodeMessage(n.contents).None?)
  }

  /** One message with the noise sent before it. */
  datatype Turn = Turn(noise: seq<Noise>, message: Message)

  predicate IsTurn(t: Turn) {
    && (forall i :: 0 <= i < |t.noise| ==> IsNoise(t.noise[i]))
    && Framable(t.message.command)
    && |EncodeMessage(t.message)| < CONTENTS_LIMIT
  }

  /** The sender's ciphers after `k` packets without AAD. */
  function HalfAfter(f: BlockFn, h: Half, k: nat): Half
    decreases k
  {
    if k == 0 then h else HalfAfter(f, NextHalf(f, h, []), k - 1)
  }

  function NoiseWire(f: BlockFn, h: Half, noise: seq<Noise>): Bytes
    decreases |noise|
  {
    if noise == [] then []
    else EncPacket(f, h, [], noise[0].ignore, noise[0].contents)
         + NoiseWire(f, NextHalf(f, h, []), noise[1..])
  }

  function TurnWire(f: BlockFn, h: Half, t: Turn): Bytes
    requires IsTurn(t)
  {
    NoiseWire(f, h, t.noise) + EncPacket(f, HalfAfter(f, h, |t.noise|), [], false, EncodeMessage(t.message))
  }

  function AfterTurn(f: BlockFn, h: Half, t: Turn): Half {
    HalfAfter(f, h, |t.noise| + 1)
  }

  function TurnsWire(f: BlockFn, h: Half, turns: seq<Turn>): Bytes
    requires forall i :: 0 <= i < |turns| ==> IsTurn(turns[i])
    decreases |turns|
  {
    if turns == [] then []
    else TurnWire(f, h, turns[0]) + TurnsWire(f, AfterTurn(f, h, turns[0]), turns[1..])
  }

  function AfterTurns(f: BlockFn, h: Half, turns: seq<Turn>): Half
    decreases |turns|
  {
    if turns == [] then h else AfterTurns(f, AfterTurn(f, h, turns[0]), turns[1..])
  }

  lemma {:induction false} HalfAfterStep(f: BlockFn, h: Half, k: nat)
    ensures HalfAfter(f, h, k + 1) == NextHalf(f, HalfAfter(f, h, k), [])
    decreases k
  {
    hide NextHalf;
    if k > 0 {
      HalfAfterStep(f, NextHalf(f, h, []), k - 1);
    }
  }

  lemma {:induction false} RecvPastNoise(f: BlockFn, h: Half, noise: seq<Noise>, tail: Bytes)
    requires forall i :: 0 <= i < |noise| ==> IsNoise(noise[i])
    ensures RecvMsg(f, h, NoiseWire(f, h, noise) + tail) == RecvMsg(f, HalfAfter(f, h, |noise|), tail)
    decreases |noise|
  {
    hide NextHalf, DecPacket, EncPacket, DecodeMessage;
    if noise == [] {
      assert NoiseWire(f, h, noise) + tail == tail;
    } else {
      var n, next := noise[0], NextHalf(f, h, []);
      var rest := NoiseWire(f, next, noise[1..]) + tail;
      assert NoiseWire(f, h, noise) + tail == EncPacket(f, h, [], n.ignore, n.contents) + rest;
      DecodesEncoded(f, h, [], n.ignore, n.contents, rest);
      RecvPastNoise(f, next, noise[1..], tail);
    }
  }

  lemma RecvTurn(f: BlockFn, h: Half, t: Turn, tail: Bytes)
    requires IsTurn(t)
    ensures RecvMsg(f, h, TurnWire(f, h, t) + tail) == Got(t.message, AfterTurn(f, h, t), tail)
  {
    hide NextHalf, DecPacket, EncPacket, DecodeMessage, EncodeMessage, HalfAfter, NoiseWire;
    var at, contents := HalfAfter(f, h, |t.noise|), EncodeMessage(t.message);
    var packet := EncPacket(f, at, [], false, contents);
    assert TurnWire(f, h, t) + tail == NoiseWire(f, h, t.noise) + (packet + tail);
    RecvPastNoise(f, h, t.noise, packet + tail);
    DecodesEncoded(f, at, [], false, contents, tail);
    FramingIff(t.message);
    HalfAfterStep(f, h, |t.noise|);
  }

  /** A packet with the header byte it was sealed with. */
  datatype Sealed = Sealed(header: Byte, contents: Bytes)

  predicate IsSkipped(p: Sealed) {
    |p.contents| < CONTENTS_LIMIT && (p.header >= 128 || DecodeMessage(p.contents).None?)
  }

  predicate Brings(p: Sealed, m: Message) {
    |p.contents| < CONTENTS_LIMIT && p.header < 128 && DecodeMessage(p.contents) == Some(m)
  }

  function SealedWire(f: BlockFn, h: Half, packets: seq<Sealed>): Bytes
    decreases |packets|
  {
    if packets == [] then []
    else SealedPacket(f, h, [], packets[0].header, packets[0].contents)
         + SealedWire(f, NextHalf(f, h, []), packets[1..])
  }

  /** The stream is these skipped packets, then one that brings `m`, then `rest`, all of them
      sealed from the states the receiver passes through, the last of which is `half`. */
  ghost predicate ConsistsOf(f: BlockFn, h: Half, stream: Bytes, m: Message, half: Half, rest: Bytes,
                             skipped: seq<Sealed>, last: Sealed)
  {
    && (forall i :: 0 <= i < |skipped| ==> IsSkipped(skipped[i])) && Brings(last, m)
    && half == HalfAfter(f, h, |skipped| + 1)
    && stream == SealedWire(f, h, skipped)
                 + (SealedPacket(f, HalfAfter(f, h, |skipped|), [], last.header, last.contents) + rest)
  }

  lemma {:induction false} ConsistsReceives(f: BlockFn, h: Half, stream: Bytes, m: Message, half: Half, rest: Bytes,
                                            skipped: seq<Sealed>, last: Sealed)
    requires ConsistsOf(f, h, stream, m, half, rest, skipped, last)
    ensures RecvMsg(f, h, stream) == Got(m, half, rest)
    decreases |skipped|
  {
    hide NextHalf, DecPacket, SealedPacket, DecodeMessage;
    if skipped == [] {
      assert stream == SealedPacket(f, h, [], last.header, last.contents) + rest;
      assert half == NextHalf(f, h, []) by { assert HalfAfter(f, NextHalf(f, h, []), 0) == NextHalf(f, h, []); }
      DecodesSealed(f, h, [], last.header, last.contents, rest);
    } else {
      var p, next, k := skipped[0], NextHalf(f, h, []), |skipped| - 1;
      var tail := SealedWire(f, next, skipped[1..])
                  + (SealedPacket(f, HalfAfter(f, next, k), [], last.header, last.contents) + rest);
      assert stream == SealedPacket(f, h, [], p.header, p.contents) + tail;
      DecodesSealed(f, h, [], p.header, p.contents, tail);
      ConsistsReceives(f, next, tail, m, half, rest, skipped[1..], last);
    }
  }

  lemma {:induction false} ReceivedConsists(f: BlockFn, h: Half, stream: Bytes, m: Message, half: Half, rest: Bytes)
    returns (skipped: seq<Sealed>, last: Sealed)
    requires RecvMsg(f, h, stream) == Got(m, half, rest)
    ensures ConsistsOf(f, h, stream, m, half, rest, skipped, last)
    decreases |stream|
  {
    hide NextHalf, DecPacket, SealedPacket, DecodeMessage;
    var d, next := DecPacket(f, h, [], stream), NextHalf(f, h, []);
    AcceptedWasSealed(f, h, [], stream);
    var header: Byte :| (header >= 128 <==> d.ignore)
                        && stream == SealedPacket(f, h, [], header, d.contents) + d.rest;
    var p := Sealed(header, d.contents);
    if d.ignore || DecodeMessage(d.contents).None? {
      var s, l := ReceivedConsists(f, next, d.rest, m, half, rest);
      skipped, last := [p] + s, l;
      assert skipped[1..] == s;
      var end := SealedPacket(f, HalfAfter(f, next, |s|), [], l.header, l.contents) + rest;
      assert SealedWire(f, h, skipped) + end
          == SealedPacket(f, h, [], header, d.contents) + (SealedWire(f, next, s) + end);
    } else {
      skipped, last := [], p;
      assert HalfAfter(f, h, 1) == HalfAfter(f, next, 0) == next;
      assert SealedWire(f, h, []) + (SealedPacket(f, h, [], header, d.contents) + rest)
          == SealedPacket(f, h, [], header, d.contents) + rest;
    }
  }

  /** A call delivers a message exactly when the stream is skipped packets and then one that
      brings the message, every one of them sealed from the receiver's own states. */
  lemma ReceivesIffSealed(f: BlockFn, h: Half, stream: Bytes, m: Message, half: Half, rest: Bytes)
    ensures RecvMsg(f, h, stream) == Got(m, half, rest)
       <==> exists skipped: seq<Sealed>, last: Sealed :: ConsistsOf(f, h, stream, m, half, rest, skipped, last)
  {
    hide RecvMsg, ConsistsOf;
    if RecvMsg(f, h, stream) == Got(m, half, rest) {
      var skipped, last := ReceivedConsists(f, h, stream, m, half, rest);
    }
    forall skipped: seq<Sealed>, last: Sealed | ConsistsOf(f, h, stream, m, half, rest, skipped, last)
      ensures RecvMsg(f, h, stream) == Got(m, half, rest)
    {
      ConsistsReceives(f, h, stream, m, half, rest, skipped, last);
    }
  }

  // ----- calling `recv_msg` again after a timeout inside a packet

  /** How far the length cipher is ahead of the packet cipher: zero on a fresh connection. */
  function Lead(h: Half): int {
    h.l.chunkCounter - h.p.n
  }

  /** The ciphers once a packet's length has been read and its body has not. */
  function LengthTaken(f: BlockFn, h: Half): Half {
    h.(l := AfterChunk(f, h.l, 3))
  }

  lemma LengthTakenLeads(f: BlockFn, h: Half)
    ensures Lead(LengthTaken(f, h)) == Lead(h) + 1
  {
    hide Fill;
  }

  lemma PacketKeepsLead(f: BlockFn, h: Half, aad: Bytes)
    ensures Lead(NextHalf(f, h, aad)) == Lead(h)
  {
    hide Fill, Seal;
  }

  lemma {:induction false} MessageKeepsLead(f: BlockFn, h: Half, stream: Bytes)
    ensures RecvMsg(f, h, stream).Got? ==> Lead(RecvMsg(f, h, stream).half) == Lead(h)
    decreases |stream|
  {
    hide NextHalf, DecPacket, DecodeMessage, Lead;
    PacketKeepsLead(f, h, []);
    var d := DecPacket(f, h, [], stream);
    if d.Packet? && (d.ignore || DecodeMessage(d.contents).None?) {
      MessageKeepsLead(f, NextHalf(f, h, []), d.rest);
    }
  }

  /** A call that starts behind a packet's length never gives the answer, that is message,
      ciphers and unread rest, of a call that would have delivered a message, whatever
      follows in the stream: the ciphers stay one step apart. */
  lemma LostLengthIsNeverMadeGood(f: BlockFn, h: Half, stream: Bytes)
    requires |stream| >= 3 && RecvMsg(f, h, stream).Got?
    ensures RecvMsg(f, LengthTaken(f, h), stream[3..]) != RecvMsg(f, h, stream)
  {
    hide RecvMsg, LengthTaken, Lead;
    LengthTakenLeads(f, h);
    MessageKeepsLead(f, h, stream);
    MessageKeepsLead(f, LengthTaken(f, h), stream[3..]);
  }

  /** Nor does any later message put the ciphers back in step. */
  lemma {:induction false} MessagesKeepLead(f: BlockFn, h: Half, stream: Bytes, k: nat)
    ensures var b := RecvMany(f, h, stream, k); b.Some? ==> Lead(b.value.half) == Lead(h)
    decreases k
  {
    hide RecvMsg, Lead;
    MessageKeepsLead(f, h, stream);
    var r := RecvMsg(f, h, stream);
    if k > 0 && r.Got? {
      MessagesKeepLead(f, r.half, r.rest, k - 1);
    }
  }

  /** What a timeout leaves of a call that would have answered `answer`: everything that is
      needed for the same answer, or the stream and ciphers behind some packet's length. */
  ghost predicate Interrupted(f: BlockFn, answer: Received, half: Half, stream: Bytes) {
    || RecvMsg(f, half, stream) == answer
    || exists h: Half, s: Bytes ::
         |s| >= 3 && RecvMsg(f, h, s) == answer && half == LengthTaken(f, h) && stream == s[3..]
  }

  /** The least case: with its length gone, a message of at most two bytes at the end of the
      stream is lost and the call waits for more. */
  lemma LostLengthLosesMessage(f: BlockFn, h: Half, contents: Bytes)
    requires |contents| <= 2 && DecodeMessage(contents).Some?
    ensures var wire := EncPacket(f, h, [], false, contents);
            && RecvMsg(f, h, wire) == Got(DecodeMessage(contents).value, NextHalf(f, h, []), [])
            && RecvMsg(f, LengthTaken(f, h), wire[3..]) == Ended
  {
    hide EncPacket, NextHalf, AfterChunk, DecodeMessage, CryptChunk, FromLE, OpenPacket;
    var wire := EncPacket(f, h, [], false, contents);
    assert wire + [] == wire;
    DecodesEncoded(f, h, [], false, contents, []);
  }

  // ----- the message alone can come out the same

  /** A block function whose keystream is zero. */
  function NoMask(key: Bytes, nonce: Bytes, counter: nat): Block {
    Zeros(64)
  }

  ghost predicate AllZero(s: Bytes) {
    forall i :: 0 <= i < |s| ==> s[i] == 0
  }

  lemma ByteXorZero(b: Byte)
    ensures Xor(b, 0) == b
  {
    XorZero(b, 8);
  }

  lemma {:induction false} FromLEZeros(s: Bytes)
    requires AllZero(s)
    ensures FromLE(s) == 0
  {
    if s != [] {
      FromLEZeros(s[1..]);
    }
  }

  lemma {:induction false} LEZero(width: nat)
    ensures LE(0, width) == Zeros(width)
  {
    if width > 0 {
      LEZero(width - 1);
      assert [0] + Zeros(width - 1) == Zeros(width);
    }
  }

  lemma {:induction false} PolynomialAtZero(msg: Bytes)
    ensures Poly1305.Polynomial(0, msg) == 0
    decreases |msg|
  {
    hide FromLE, Pow2;
    if msg != [] {
      var n := if |msg| < 16 then |msg| else 16;
      PolynomialAtZero(msg[n..]);
      assert (|msg| + 15) / 16 >= 1;
    }
  }

  lemma ClampZeros(s: Bytes)
    requires AllZero(s)
    ensures AllZero(Poly1305.ClampBytes(s))
  {}

  lemma PlainMac(key: Bytes, nonce: Bytes, aad: Bytes, ct: Bytes)
    ensures Mac(NoMask, key, nonce, aad, ct) == Zeros(16)
  {
    hide Poly1305.Polynomial, Poly1305.Prime, Poly1305.MacData, Poly1305.ClampBytes, FromLE, LE, Pow256;
    var otk := NoMask(key, nonce, 0)[..32];
    ClampZeros(otk[..16]);
    FromLEZeros(Poly1305.ClampBytes(otk[..16]));
    FromLEZeros(otk[16..]);
    PolynomialAtZero(Poly1305.MacData(aad, ct));
    LEZero(16);
  }

  lemma PlainSeal(key: Bytes, nonce: Bytes, aad: Bytes, pt: Bytes)
    ensures Seal(NoMask, key, nonce, aad, pt) == pt + Zeros(16)
  {
    hide Mac, Xor;
    var ct := XorStream(NoMask, key, nonce, pt);
    forall i | 0 <= i < |pt| ensures ct[i] == pt[i] {
      ByteXorZero(pt[i]);
    }
    PlainMac(key, nonce, aad, ct);
  }

  lemma {:induction false} PlainFill(c: LengthCipher, n: nat)
    requires AllZero(c.keystream)
    ensures AllZero(Fill(NoMask, c, n).keystream)
    decreases n - |c.keystream|
  {
    if |c.keystream| < n {
      PlainFill(c.(keystream := c.keystream + Zeros(64), blockCounter := c.blockCounter + 1), n);
    }
  }

  lemma PlainChunk(c: LengthCipher, chunk: Bytes)
    requires AllZero(c.keystream)
    ensures CryptChunk(NoMask, c, chunk) == chunk && AllZero(AfterChunk(NoMask, c, |chunk|).keystream)
  {
    hide Fill, Xor;
    PlainFill(c, |chunk|);
    PlainFill(Drop(NoMask, c, |chunk|), 32);
    forall i | 0 <= i < |chunk| ensures CryptChunk(NoMask, c, chunk)[i] == chunk[i] {
      ByteXorZero(chunk[i]);
    }
  }

  /** Under `NoMask` a packet looks the same in every state without buffered keystream of
      another kind. */
  lemma PlainPacket(h: Half, header: Byte, contents: Bytes)
    requires AllZero(h.l.keystream)
    ensures SealedPacket(NoMask, h, [], header, contents) == LE(|contents|, 3) + ([header] + contents + Zeros(16))
  {
    hide LE, CryptChunk, AfterChunk, Seal;
    PlainChunk(h.l, LE(|contents|, 3));
    PlainSeal(h.p.key, PacketNonce(h.p.n), [], [header] + contents);
  }

  /** Why the converse is about whole answers: for some block functions and streams, a call
      that starts behind a length delivers the very message, and only the ciphers tell. The
      decoy's contents hold a shorter decoy, and the packets fall into step behind it. */
  lemma SameMessageByChance(key: Bytes, m: Message)
    requires Framable(m.command) && |EncodeMessage(m)| < CONTENTS_LIMIT
    ensures var h := FreshHalf(key, key);
            var next := NextHalf(NoMask, h, []);
            var stream := EncPacket(NoMask, h, [], true, [0, 0, 128] + Zeros(128))
                          + EncPacket(NoMask, next, [], false, EncodeMessage(m));
            var a, b := RecvMsg(NoMask, h, stream), RecvMsg(NoMask, LengthTaken(NoMask, h), stream[3..]);
            && a.Got? && b.Got? && a.message == b.message == m && a.rest == b.rest == []
            && Lead(b.half) == Lead(a.half) + 1
  {
    hide NextHalf, LengthTaken, AfterChunk, SealedPacket, DecodeMessage, EncodeMessage, RecvMsg, HalfAfter, Lead, LE;
    var h := FreshHalf(key, key);
    var late := LengthTaken(NoMask, h);
    var contents, decoy, inner := EncodeMessage(m), [0, 0, 128] + Zeros(128), Zeros(128);
    FreshZero(key, contents);
    FramingIff(m);
    var packet := EncPacket(NoMask, NextHalf(NoMask, h, []), [], false, contents);
    var stream := EncPacket(NoMask, h, [], true, decoy) + packet;
    SkipOne(NoMask, h, stream, decoy, packet);
    DecoyInside(key, decoy, inner, packet);
    SkipOne(NoMask, late, stream[3..], inner, packet);
    MessageNow(NoMask, NextHalf(NoMask, h, []), contents, packet);
    MessageNow(NoMask, NextHalf(NoMask, late, []), contents, packet);
    LengthTakenLeads(NoMask, h);
    MessageKeepsLead(NoMask, h, stream);
    MessageKeepsLead(NoMask, late, stream[3..]);
  }

  lemma SkipOne(f: BlockFn, h: Half, stream: Bytes, contents: Bytes, rest: Bytes)
    requires |contents| < CONTENTS_LIMIT && stream == SealedPacket(f, h, [], 128, contents) + rest
    ensures RecvMsg(f, h, stream) == RecvMsg(f, NextHalf(f, h, []), rest)
  {
    hide NextHalf, DecPacket, SealedPacket, DecodeMessage;
    DecodesSealed(f, h, [], 128, contents, rest);
  }

  lemma MessageNow(f: BlockFn, h: Half, contents: Bytes, packet: Bytes)
    requires |contents| < CONTENTS_LIMIT && DecodeMessage(contents).Some?
    requires packet == SealedPacket(f, h, [], 0, contents)
    ensures RecvMsg(f, h, packet) == Got(DecodeMessage(contents).value, NextHalf(f, h, []), [])
  {
    hide NextHalf, DecPacket, SealedPacket, DecodeMessage;
    assert packet + [] == packet;
    DecodesSealed(f, h, [], 0, contents, []);
  }

  /** The message packet is the same bytes in step and one step ahead. */
  lemma FreshZero(key: Bytes, contents: Bytes)
    ensures var h := FreshHalf(key, key);
            && AllZero(h.l.keystream) && AllZero(LengthTaken(NoMask, h).l.keystream)
            && SealedPacket(NoMask, NextHalf(NoMask, h, []), [], 0, contents)
               == SealedPacket(NoMask, NextHalf(NoMask, LengthTaken(NoMask, h), []), [], 0, contents)
  {
    hide AfterChunk, AfterPacket, SealedPacket;
    var h := FreshHalf(key, key);
    var late := LengthTaken(NoMask, h);
    PlainChunk(h.l, [0, 0, 0]);
    PlainChunk(late.l, [0, 0, 0]);
    PlainPacket(NextHalf(NoMask, h, []), 0, contents);
    PlainPacket(NextHalf(NoMask, late, []), 0, contents);
  }

  lemma DecoyInside(key: Bytes, decoy: Bytes, inner: Bytes, rest: Bytes)
    requires decoy == [0, 0, 128] + Zeros(128) && inner == Zeros(128)
    ensures var h := FreshHalf(key, key);
            (SealedPacket(NoMask, h, [], 128, decoy) + rest)[3..]
            == SealedPacket(NoMask, LengthTaken(NoMask, h), [], 128, inner) + rest
  {
    hide SealedPacket, LengthTaken, LE, Zeros;
    var h := FreshHalf(key, key);
    FreshZero(key, []);
    PlainPacket(h, 128, decoy);
    PlainPacket(LengthTaken(NoMask, h), 128, inner);
    DecoyBytes(LE(131, 3), Zeros(128), Zeros(16), rest);
  }

  lemma DecoyBytes(length: Bytes, inner: Bytes, tag: Bytes, rest: Bytes)
    requires |length| == 3
    ensures (length + ([128] + ([0, 0, 128] + inner) + tag) + rest)[3..] == LE(128, 3) + ([128] + inner + tag) + rest
  {
    hide LE;
    LE128();
    var body, short := [128] + ([0, 0, 128] + inner) + tag, [128] + inner + tag;
    assert body == [128, 0, 0] + short;
    assert (length + body + rest)[3..] == body + rest;
  }

  lemma LE128()
    ensures LE(128, 3) == [128, 0, 0]
  {}

  datatype Batch = Batch(messages: seq<Message>, half: Half, rest: Bytes)

  /** `k` calls of `recv_msg` in a row. */
  function RecvMany(f: BlockFn, h: Half, stream: Bytes, k: nat): Option<Batch>
    decreases k
  {
    if k == 0 then Some(Batch([], h, stream))
    else
      match RecvMsg(f, h, stream)
      case Got(m, next, rest) =>
        (match RecvMany(f, next, rest, k - 1)
         case Some(b) => Some(b.(messages := [m] + b.messages))
         case None => None)
      case _ => None
  }

  function MessagesOf(turns: seq<Turn>): (r: seq<Message>)
    ensures |r| == |turns|
  {
    seq(|turns|, i requires 0 <= i < |turns| => turns[i].message)
  }

  /** Every message arrives, in order, across any number of rekeys and any noise, and the
      receiver ends in the sender's cipher state with exactly the unread tail. */
  lemma {:induction false} SessionDelivers(f: BlockFn, h: Half, turns: seq<Turn>, tail: Bytes)
    requires forall i :: 0 <= i < |turns| ==> IsTurn(turns[i])
    ensures RecvMany(f, h, TurnsWire(f, h, turns) + tail, |turns|)
         == Some(Batch(MessagesOf(turns), AfterTurns(f, h, turns), tail))
    decreases |turns|
  {
    hide RecvMsg, TurnWire, AfterTurn, IsTurn;
    if turns == [] {
      assert TurnsWire(f, h, turns) + tail == tail;
    } else {
      var t, next := turns[0], AfterTurn(f, h, turns[0]);
      var rest := TurnsWire(f, next, turns[1..]) + tail;
      assert TurnsWire(f, h, turns) + tail == TurnWire(f, h, t) + rest;
      RecvTurn(f, h, t, rest);
      SessionDelivers(f, next, turns[1..], tail);
      assert MessagesOf(turns) == [t.message] + MessagesOf(turns[1..]);
    }
  }

  // ----- garbage and terminator

  const MAX_GARBAGE: nat := 4095

  /** `needle` stands at index `i` of `hay`. */
  predicate OccursAt(hay: Bytes, needle: Bytes, i: nat) {
    i + |needle| <= |hay| && hay[i..i + |needle|] == needle
  }

  function FindFrom(hay: Bytes, needle: Bytes, from: nat): (r: Option<nat>)
    ensures r.Some? ==> from <= r.value && OccursAt(hay, needle, r.value)
                        && forall i :: from <= i < r.value ==> !OccursAt(hay, needle, i)
    ensures r.None? ==> forall i :: from <= i ==> !OccursAt(hay, needle, i)
    decreases |hay| - from
  {
    if from + |needle| > |hay| then None
    else if OccursAt(hay, needle, from) then Some(from)
    else if from == |hay| then None
    else FindFrom(hay, needle, from + 1)
  }

  /** Python's `find`. */
  function Find(hay: Bytes, needle: Bytes): (r: Option<nat>)
    ensures r.Some? ==> OccursAt(hay, needle, r.value) && forall i :: 0 <= i < r.value ==> !OccursAt(hay, needle, i)
    ensures r.None? ==> forall i :: 0 <= i ==> !OccursAt(hay, needle, i)
  {
    FindFrom(hay, needle, 0)
  }

  datatype Scan = Found(garbage: Bytes, rest: Bytes) | Missing | Incomplete

  /** The scan on the whole stream after the peer's key. */
  function ScanGarbage(body: Bytes, term: Bytes): Scan {
    match Find(Prefix(body, MAX_GARBAGE + 16), term)
    case Some(i) => if i + 16 <= |body| then Found(body[..i], body[i + 16..]) else Incomplete
    case None => if |body| >= MAX_GARBAGE + 16 then Missing else Incomplete
  }

  lemma FindInPrefix(short: Bytes, hay: Bytes, needle: Bytes)
    requires short <= hay && Find(short, needle).Some?
    ensures Find(hay, needle) == Find(short, needle)
  {
    var i := Find(short, needle).value;
    assert OccursAt(hay, needle, i);
    forall j | 0 <= j < i ensures !OccursAt(hay, needle, j) {
      assert !OccursAt(short, needle, j);
      assert short[j..j + |needle|] == hay[j..j + |needle|];
    }
  }

  /** A terminator found in the bytes that have arrived is the one the whole stream has. */
  lemma ScanFoundEarly(arrived: Bytes, later: Bytes, term: Bytes)
    requires |term| == 16 && Find(Prefix(arrived, MAX_GARBAGE + 16), term).Some?
    ensures var i := Find(Prefix(arrived, MAX_GARBAGE + 16), term).value;
            i + 16 <= |arrived| && ScanGarbage(arrived + later, term) == Found(arrived[..i], arrived[i + 16..] + later)
  {
    hide Find;
    var body := arrived + later;
    FindInPrefix(Prefix(arrived, MAX_GARBAGE + 16), Prefix(body, MAX_GARBAGE + 16), term);
    var i := Find(Prefix(arrived, MAX_GARBAGE + 16), term).value;
    assert body[..i] == arrived[..i] && body[i + 16..] == arrived[i + 16..] + later;
  }

  lemma ScanNotFound(arrived: Bytes, later: Bytes, term: Bytes)
    requires |term| == 16 && (|arrived| < 16 || Find(Prefix(arrived, MAX_GARBAGE + 16), term).None?)
    ensures |arrived| >= MAX_GARBAGE + 16 ==> ScanGarbage(arrived + later, term) == Missing
    ensures |arrived| < MAX_GARBAGE + 16 && later == [] ==> ScanGarbage(arrived + later, term) == Incomplete
  {
    hide Find;
    if |arrived| >= MAX_GARBAGE + 16 {
      assert Prefix(arrived + later, MAX_GARBAGE + 16) == Prefix(arrived, MAX_GARBAGE + 16);
    } else if later == [] {
      assert arrived + later == arrived;
    }
  }

  /** The scan gives up exactly when 4111 bytes have come without a terminator. */
  lemma ScanMissingIff(body: Bytes, term: Bytes)
    requires |term| == 16
    ensures ScanGarbage(body, term).Missing? <==>
              |body| >= 4111 && forall i :: 0 <= i <= 4095 ==> !OccursAt(body, term, i)
  {
    hide Find;
    var window := Prefix(body, MAX_GARBAGE + 16);
    forall i | 0 <= i <= MAX_GARBAGE && |body| >= MAX_GARBAGE + 16
      ensures OccursAt(body, term, i) <==> OccursAt(window, term, i)
    {
      assert window[i..i + 16] == body[i..i + 16];
    }
  }

  /** The terminator does not also stand earlier, overlapping the end of the garbage or inside it. */
  predicate CleanGarbage(garbage: Bytes, term: Bytes) {
    |garbage| <= 4095 && Find(garbage + term, term) == Some(|garbage|)
  }

  /** An honest peer's garbage is recovered exactly when it is at most 4095 bytes and the
      terminator's first occurrence is the one the peer sent. */
  lemma ScanRecoversIff(garbage: Bytes, term: Bytes, rest: Bytes)
    requires |term| == 16
    ensures ScanGarbage(garbage + term + rest, term) == Found(garbage, rest) <==> CleanGarbage(garbage, term)
  {
    hide Find;
    var body, head := garbage + term + rest, garbage + term;
    var window := Prefix(body, MAX_GARBAGE + 16);
    assert OccursAt(head, term, |garbage|);
    if CleanGarbage(garbage, term) {
      assert head <= window;
      FindInPrefix(head, window, term);
      assert body[..|garbage|] == garbage && body[|garbage| + 16..] == rest;
    }
    if ScanGarbage(body, term) == Found(garbage, rest) {
      var i := Find(window, term).value;
      assert i == |body[..i]| == |garbage|;
      assert window[..i + 16] == head;
      assert Find(head, term).Some?;
      FindInPrefix(head, window, term);
    }
  }

  // ----- key setup

  type Secret = s: Bytes | |s| == 32 witness Zeros(32)

  /** `hkdf_sha256` with a 32-byte output, from key material, salt and info. */
  type Kdf = (Bytes, Bytes, Bytes) -> Secret

  /** What `init_ciphers` returns, as values. */
  datatype Keys = Keys(send: Half, sendTerm: Bytes, recv: Half, recvTerm: Bytes)

  function DeriveKey(kdf: Kdf, ecdh: Bytes, magic: Bytes, name: string): Secret
    requires IsAscii(name)
  {
    kdf(ecdh, AsciiBytes("bitcoin_v2_shared_secret") + magic, AsciiBytes(name))
  }

  function FreshHalf(lKey: Bytes, pKey: Bytes): Half {
    Half(LengthCipher(lKey, 0, 0, []), PacketCipher(pKey, 0))
  }

  function InitCiphers(kdf: Kdf, ecdh: Bytes, magic: Bytes, initiating: bool): (r: Keys)
    ensures |r.sendTerm| == 16 && |r.recvTerm| == 16
  {
    var i := FreshHalf(DeriveKey(kdf, ecdh, magic, "initiator_L"), DeriveKey(kdf, ecdh, magic, "initiator_P"));
    var r := FreshHalf(DeriveKey(kdf, ecdh, magic, "responder_L"), DeriveKey(kdf, ecdh, magic, "responder_P"));
    var terms := DeriveKey(kdf, ecdh, magic, "garbage_terminators");
    if initiating then Keys(i, terms[..16], r, terms[16..]) else Keys(r, terms[16..], i, terms[..16])
  }

  /** `v2_ecdh` after the curve operation: the initiator's key always comes first. */
  function EcdhSecret(hash: Bytes -> Bytes, x: Bytes, theirs: Bytes, ours: Bytes, initiating: bool): Bytes {
    if initiating then hash(ours + theirs + x) else hash(theirs + ours + x)
  }

  /** Opposite roles over one shared point derive mirrored ciphers and terminators, and both
      from the initiator's key before the responder's: the initiator sends with the keys that
      carry its name and the first half of the terminators. */
  lemma RolesMirror(kdf: Kdf, hash: Bytes -> Bytes, x: Bytes, mine: Bytes, yours: Bytes, magic: Bytes, initiating: bool)
    ensures var ecdh := hash((if initiating then mine + yours else yours + mine) + x);
            var a := InitCiphers(kdf, EcdhSecret(hash, x, yours, mine, initiating), magic, initiating);
            var b := InitCiphers(kdf, EcdhSecret(hash, x, mine, yours, !initiating), magic, !initiating);
            var salt := AsciiBytes("bitcoin_v2_shared_secret") + magic;
            var (fromInitiator, fromResponder) := if initiating then (a.send, a.recv) else (a.recv, a.send);
            && a.send == b.recv && a.recv == b.send && a.sendTerm == b.recvTerm && a.recvTerm == b.sendTerm
            && (if initiating then a.sendTerm + a.recvTerm else a.recvTerm + a.sendTerm)
               == kdf(ecdh, salt, AsciiBytes("garbage_terminators"))
            && fromInitiator == FreshHalf(kdf(ecdh, salt, AsciiBytes("initiator_L")),
                                          kdf(ecdh, salt, AsciiBytes("initiator_P")))
            && fromResponder == FreshHalf(kdf(ecdh, salt, AsciiBytes("responder_L")),
                                          kdf(ecdh, salt, AsciiBytes("responder_P")))
  {}

  // ----- the handshake

  datatype Negotiated = Version(half: Half, rest: Bytes) | NoVersion | BadVersion

  /** Decoys up to the first packet that is not one. Only the first packet carries `aad`. */
  function AwaitVersion(f: BlockFn, h: Half, aad: Bytes, stream: Bytes): Negotiated
    decreases |stream|
  {
    match DecPacket(f, h, aad, stream)
    case Short => NoVersion
    case Forged => BadVersion
    case Packet(_, ignore, rest) =>
      var next := NextHalf(f, h, aad);
      if ignore then AwaitVersion(f, next, [], rest) else Version(next, rest)
  }

  datatype Handshake =
    | Ready(keys: Keys, recv: Half, rest: Bytes)
    | Eof
    | NoTerminator
    | BadPacket

  /** The part after the peer's key: garbage, terminator, decoys and version packet. */
  function Negotiate(f: BlockFn, keys: Keys, body: Bytes): Handshake {
    match ScanGarbage(body, keys.recvTerm)
    case Missing => NoTerminator
    case Incomplete => Eof
    case Found(garbage, rest) =>
      match AwaitVersion(f, keys.recv, garbage, rest)
      case Version(half, tail) => Ready(keys, half, tail)
      case NoVersion => Eof
      case BadVersion => BadPacket
  }

  /** `handshake` over everything the peer will ever send, for either role. */
  function HandshakeOn(f: BlockFn, kdf: Kdf, magic: Bytes, secret: Bytes -> Bytes,
                       initiating: bool, stream: Bytes): Handshake
  {
    if |stream| < 64 then Eof
    else Negotiate(f, InitCiphers(kdf, secret(stream[..64]), magic, initiating), stream[64..])
  }

  /** An endpoint's packets up to its version packet: decoys first, garbage as first AAD. */
  function VersionWire(f: BlockFn, h: Half, aad: Bytes, decoys: seq<Bytes>, version: Bytes): Bytes
    decreases |decoys|
  {
    if decoys == [] then EncPacket(f, h, aad, false, version)
    else EncPacket(f, h, aad, true, decoys[0]) + VersionWire(f, NextHalf(f, h, aad), [], decoys[1..], version)
  }

  function AfterVersion(f: BlockFn, h: Half, aad: Bytes, decoys: seq<Bytes>): Half
    decreases |decoys|
  {
    var next := NextHalf(f, h, aad);
    if decoys == [] then next else AfterVersion(f, next, [], decoys[1..])
  }

  lemma {:induction false} AwaitsVersion(f: BlockFn, h: Half, aad: Bytes, decoys: seq<Bytes>, version: Bytes,
                                         tail: Bytes)
    requires |version| < CONTENTS_LIMIT
    requires forall i :: 0 <= i < |decoys| ==> |decoys[i]| < CONTENTS_LIMIT
    ensures AwaitVersion(f, h, aad, VersionWire(f, h, aad, decoys, version) + tail)
         == Version(AfterVersion(f, h, aad, decoys), tail)
    decreases |decoys|
  {
    hide NextHalf, DecPacket, EncPacket;
    if decoys == [] {
      DecodesEncoded(f, h, aad, false, version, tail);
    } else {
      var next := NextHalf(f, h, aad);
      var rest := VersionWire(f, next, [], decoys[1..], version) + tail;
      assert VersionWire(f, h, aad, decoys, version) + tail == EncPacket(f, h, aad, true, decoys[0]) + rest;
      DecodesEncoded(f, h, aad, true, decoys[0], rest);
      AwaitsVersion(f, next, [], decoys[1..], version, tail);
    }
  }

  /** Everything an endpoint sends up to its version packet. */
  function Greeting(f: BlockFn, keys: Keys, ellswift: Bytes, garbage: Bytes, decoys: seq<Bytes>,
                    version: Bytes): Bytes
  {
    ellswift + garbage + keys.sendTerm + VersionWire(f, keys.send, garbage, decoys, version)
  }

  /** What one endpoint of a connection may send before its messages. */
  predicate IsGreeting(keys: Keys, garbage: Bytes, decoys: seq<Bytes>, version: Bytes) {
    && CleanGarbage(garbage, keys.sendTerm) && |version| < CONTENTS_LIMIT
    && forall i :: 0 <= i < |decoys| ==> |decoys[i]| < CONTENTS_LIMIT
  }

  lemma NoGarbageIsClean(term: Bytes)
    requires |term| == 16
    ensures CleanGarbage([], term)
  {
    assert [] + term == term && OccursAt(term, term, 0);
  }

  /** An endpoint of either role completes the handshake on a greeting of a peer of the
      opposite role, and has then the receiving ciphers the peer sends with. */
  lemma GreetingCompletes(f: BlockFn, kdf: Kdf, hash: Bytes -> Bytes, x: Bytes, magic: Bytes,
                          mine: Bytes, yours: Bytes, initiating: bool, secret: Bytes -> Bytes,
                          garbage: Bytes, decoys: seq<Bytes>, version: Bytes, tail: Bytes)
    requires |yours| == 64 && secret(yours) == EcdhSecret(hash, x, yours, mine, initiating)
    requires IsGreeting(InitCiphers(kdf, EcdhSecret(hash, x, mine, yours, !initiating), magic, !initiating),
                        garbage, decoys, version)
    ensures var ours := InitCiphers(kdf, secret(yours), magic, initiating);
            var peer := InitCiphers(kdf, EcdhSecret(hash, x, mine, yours, !initiating), magic, !initiating);
            && ours.send == peer.recv && ours.sendTerm == peer.recvTerm
            && HandshakeOn(f, kdf, magic, secret, initiating, Greeting(f, peer, yours, garbage, decoys, version) + tail)
               == Ready(ours, AfterVersion(f, peer.send, garbage, decoys), tail)
  {
    hide CleanGarbage, InitCiphers, VersionWire, ScanGarbage, AwaitVersion, AfterVersion, EcdhSecret;
    var ours := InitCiphers(kdf, secret(yours), magic, initiating);
    var peer := InitCiphers(kdf, EcdhSecret(hash, x, mine, yours, !initiating), magic, !initiating);
    assert ours.recv == peer.send && ours.recvTerm == peer.sendTerm
           && ours.send == peer.recv && ours.sendTerm == peer.recvTerm by {
      RolesMirror(kdf, hash, x, mine, yours, magic, initiating);
    }
    var packets := VersionWire(f, peer.send, garbage, decoys, version) + tail;
    var stream := Greeting(f, peer, yours, garbage, decoys, version) + tail;
    assert stream == yours + (garbage + peer.sendTerm + packets);
    assert stream[..64] == yours && stream[64..] == garbage + peer.sendTerm + packets;
    ScanRecoversIff(garbage, peer.sendTerm, packets);
    AwaitsVersion(f, peer.send, garbage, decoys, version, tail);
  }

  /** End to end, in both directions: over one shared point, an endpoint of either role
      completes the handshake on the stream of a peer of the opposite role and then receives
      exactly the peer's messages in order, ending in the peer's cipher state. */
  lemma EndToEnd(f: BlockFn, kdf: Kdf, hash: Bytes -> Bytes, x: Bytes, magic: Bytes,
                 mine: Bytes, yours: Bytes, initiating: bool, secret: Bytes -> Bytes, garbage: Bytes,
                 decoys: seq<Bytes>, version: Bytes, turns: seq<Turn>, tail: Bytes)
    requires |yours| == 64 && secret(yours) == EcdhSecret(hash, x, yours, mine, initiating)
    requires IsGreeting(InitCiphers(kdf, EcdhSecret(hash, x, mine, yours, !initiating), magic, !initiating),
                        garbage, decoys, version)
    requires forall i :: 0 <= i < |turns| ==> IsTurn(turns[i])
    ensures var peer := InitCiphers(kdf, EcdhSecret(hash, x, mine, yours, !initiating), magic, !initiating);
            var start := AfterVersion(f, peer.send, garbage, decoys);
            var wire := Greeting(f, peer, yours, garbage, decoys, version) + TurnsWire(f, start, turns);
            var hs := HandshakeOn(f, kdf, magic, secret, initiating, wire + tail);
            && hs.Ready? && hs.recv == start
            && RecvMany(f, hs.recv, hs.rest, |turns|)
               == Some(Batch(MessagesOf(turns), AfterTurns(f, start, turns), tail))
  {
    hide IsTurn, IsGreeting, InitCiphers, TurnsWire, Greeting, HandshakeOn, RecvMany,
         AfterVersion, AfterTurns, EcdhSecret;
    var peer := InitCiphers(kdf, EcdhSecret(hash, x, mine, yours, !initiating), magic, !initiating);
    var start := AfterVersion(f, peer.send, garbage, decoys);
    var greeting, messages := Greeting(f, peer, yours, garbage, decoys, version), TurnsWire(f, start, turns);
    assert greeting + messages + tail == greeting + (messages + tail);
    GreetingCompletes(f, kdf, hash, x, magic, mine, yours, initiating, secret,
                      garbage, decoys, version, messages + tail);
    SessionDelivers(f, start, turns, tail);
  }
}
