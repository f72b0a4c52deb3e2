/** The `V2` endpoint of scripts/ibd-serve-bench.py, lines 563-659, with its receive
    buffer and ciphers updated in place over a socket that delivers the peer's bytes in
    arbitrary pieces and may time out between them. */
module Endpoint {
  import opened ByteStrings
  import opened Aead
  import opened FsCiphers
  import Wire
  import opened Session

  type Chunk = s: Bytes | s != [] witness [0]

  /** One outcome of `recv`: some bytes, or a socket timeout. No arrivals left is EOF. */
  datatype Arrival = Data(bytes: Chunk) | Timeout

  function DataOf(arrivals: seq<Arrival>): Bytes {
    if arrivals == [] then []
    else
      match arrivals[0]
      case Data(bytes) => bytes + DataOf(arrivals[1..])
      case Timeout => DataOf(arrivals[1..])
  }

  /** What arrives before the first timeout. */
  function Soon(arrivals: seq<Arrival>): Bytes {
    if arrivals == [] || arrivals[0].Timeout? then [] else arrivals[0].bytes + Soon(arrivals[1..])
  }

  ghost predicate Quiet(arrivals: seq<Arrival>) {
    forall i :: 0 <= i < |arrivals| ==> arrivals[i].Data?
  }

  lemma {:induction false} NextArrival(buf: Bytes, arrivals: seq<Arrival>)
    requires arrivals != []
    ensures var rest := arrivals[1..];
            match arrivals[0]
            case Timeout => buf + DataOf(arrivals) == buf + DataOf(rest) && Soon(arrivals) == [] && !Quiet(arrivals)
            case Data(bytes) =>
              && buf + DataOf(arrivals) == buf + bytes + DataOf(rest)
              && buf + Soon(arrivals) == buf + bytes + Soon(rest)
              && (Quiet(arrivals) <==> Quiet(rest))
  {
    if Quiet(arrivals[1..]) && arrivals[0].Data? {
      forall i | 0 <= i < |arrivals| ensures arrivals[i].Data? {
        assert i > 0 ==> arrivals[i] == arrivals[1..][i - 1];
      }
    }
  }

  lemma {:induction false} DataAppend(arrivals: seq<Arrival>, a: Arrival)
    requires a.Data?
    ensures DataOf(arrivals + [a]) == DataOf(arrivals) + a.bytes
  {
    if arrivals == [] {
      assert [] + [a] == [a] && [a][1..] == [];
    } else {
      assert (arrivals + [a])[1..] == arrivals[1..] + [a];
      DataAppend(arrivals[1..], a);
    }
  }

  /** The exceptions an endpoint raises. */
  datatype Result<+T> = Ok(value: T) | EndOfStream | TimedOut | AeadFailed | NoGarbageTerminator {
    predicate IsFailure() {
      !Ok?
    }

    function PropagateFailure<U>(): (r: Result<U>)
      requires IsFailure()
      ensures EndOfStream? ==> r.EndOfStream?
      ensures TimedOut? ==> r.TimedOut?
      ensures AeadFailed? ==> r.AeadFailed?
      ensures NoGarbageTerminator? ==> r.NoGarbageTerminator?
    {
      match this
      case EndOfStream => EndOfStream
      case TimedOut => TimedOut
      case AeadFailed => AeadFailed
      case NoGarbageTerminator => NoGarbageTerminator
    }

    function Extract(): T
      requires Ok?
    {
      value
    }
  }

  /** `init_ciphers` as objects. */
  method MakeCiphers(f: BlockFn, kdf: Kdf, ecdh: Bytes, magic: Bytes, initiating: bool)
    returns (sendL: FSChaCha20, sendP: FSChaCha20Poly1305, sendTerm: Bytes,
             recvL: FSChaCha20, recvP: FSChaCha20Poly1305, recvTerm: Bytes)
    ensures fresh({sendL, sendP, recvL, recvP}) && sendL != recvL && sendP != recvP
    ensures sendL.f == f && sendP.f == f && recvL.f == f && recvP.f == f
    ensures Keys(Wire.Half(sendL.State(), sendP.State()), sendTerm, Wire.Half(recvL.State(), recvP.State()), recvTerm)
         == InitCiphers(kdf, ecdh, magic, initiating)
  {
    var il := new FSChaCha20(f, DeriveKey(kdf, ecdh, magic, "initiator_L"));
    var ip := new FSChaCha20Poly1305(f, DeriveKey(kdf, ecdh, magic, "initiator_P"));
    var rl := new FSChaCha20(f, DeriveKey(kdf, ecdh, magic, "responder_L"));
    var rp := new FSChaCha20Poly1305(f, DeriveKey(kdf, ecdh, magic, "responder_P"));
    var terms := DeriveKey(kdf, ecdh, magic, "garbage_terminators");
    if initiating {
      return il, ip, terms[..16], rl, rp, terms[16..];
    }
    return rl, rp, terms[16..], il, ip, terms[..16];
  }

  /** Before the last piece taken from the socket, fewer than `n` bytes were at hand. */
  ghost predicate TakesNoMore(buf: Bytes, before: seq<Arrival>, n: nat, after: seq<Arrival>) {
    && |after| <= |before| && after == before[|before| - |after|..]
    && (|after| < |before| ==> |buf + DataOf(before[..|before| - |after| - 1])| < n)
  }

  lemma NoArrivals()
    ensures DataOf([]) == [] && Soon([]) == [] && Quiet([])
  {}

  lemma NothingTaken(buf: Bytes, arrivals: seq<Arrival>, n: nat)
    ensures TakesNoMore(buf, arrivals, n, arrivals)
    ensures buf == buf + DataOf(arrivals[..0])
  {}

  /** The next piece is taken while `now`, the buffer so far, is short. */
  lemma OneMore(buf: Bytes, before: seq<Arrival>, n: nat, after: seq<Arrival>, now: Bytes)
    requires |after| <= |before| && after == before[|before| - |after|..]
    requires now == buf + DataOf(before[..|before| - |after|]) && |now| < n
    requires after != []
    ensures after[1..] == before[|before| - |after| + 1..] && TakesNoMore(buf, before, n, after[1..])
    ensures after[0].Data? ==> now + after[0].bytes == buf + DataOf(before[..|before| - |after| + 1])
  {
    hide DataOf;
    var k := |before| - |after|;
    assert before[..k + 1] == before[..k] + [after[0]];
    if after[0].Data? {
      DataAppend(before[..k], after[0]);
    }
  }

  class V2 {
    const f: BlockFn
    const kdf: Kdf
    const magic: Bytes
    /** What the socket has yet to deliver, and everything written to it. */
    var arrivals: seq<Arrival>
    var sent: Bytes
    var buf: Bytes
    var sendL: FSChaCha20?
    var sendP: FSChaCha20Poly1305?
    var recvL: FSChaCha20?
    var recvP: FSChaCha20Poly1305?

    constructor (f: BlockFn, kdf: Kdf, magic: Bytes, arrivals: seq<Arrival>)
      ensures this.f == f && this.kdf == kdf && this.magic == magic
      ensures this.arrivals == arrivals && buf == [] && sent == []
      ensures Stream() == DataOf(arrivals)
    {
      this.f, this.kdf, this.magic, this.arrivals := f, kdf, magic, arrivals;
      sent, buf := [], [];
      sendL, sendP, recvL, recvP := null, null, null, null;
    }

    ghost predicate Ready()
      reads this
    {
      && sendL != null && sendP != null && recvL != null && recvP != null
      && sendL != recvL && sendP != recvP
      && sendL.f == f && sendP.f == f && recvL.f == f && recvP.f == f
    }

    ghost function SendHalf(): Wire.Half
      requires Ready()
      reads this, sendL, sendP
    {
      Wire.Half(sendL.State(), sendP.State())
    }

    ghost function RecvHalf(): Wire.Half
      requires Ready()
      reads this, recvL, recvP
    {
      Wire.Half(recvL.State(), recvP.State())
    }

    /** The unread bytes of the peer's stream, however they are split. */
    ghost function Stream(): Bytes
      reads this
    {
      buf + DataOf(arrivals)
    }

    /** The part of them that can be read before a timeout. */
    ghost function Available(): Bytes
      reads this
    {
      buf + Soon(arrivals)
    }

    method ReadMore() returns (r: Result<()>)
      modifies this`arrivals, this`buf
      ensures Stream() == old(Stream())
      ensures arrivals == if old(arrivals) == [] then [] else old(arrivals)[1..]
      ensures r.Ok? <==> old(arrivals) != [] && old(arrivals)[0].Data?
      ensures r.EndOfStream? <==> old(arrivals) == []
      ensures r.Ok? || r.EndOfStream? || r.TimedOut?
      ensures if r.Ok? then buf == old(buf) + old(arrivals)[0].bytes else buf == old(buf)
      ensures r.Ok? ==> Available() == old(Available()) && (Quiet(arrivals) <==> Quiet(old(arrivals)))
      ensures !r.Ok? ==> old(Available()) == old(buf) && (r.EndOfStream? <==> Quiet(old(arrivals)))
    {
      hide DataOf, Soon, Quiet;
      if arrivals == [] {
        NoArrivals();
        return EndOfStream;
      }
      NextArrival(buf, arrivals);
      var next := arrivals[0];
      arrivals := arrivals[1..];
      match next
      case Timeout =>
        r := TimedOut;
      case Data(bytes) =>
        buf := buf + bytes;
        r := Ok(());
    }

    /** Independent of the splitting: the first `n` bytes of the stream, or nothing. They are
        there exactly when they are buffered or arrive before a timeout, and no more is read
        from the socket than that takes. */
    method ReadExact(n: nat) returns (r: Result<Bytes>)
      modifies this`arrivals, this`buf
      ensures r.Ok? <==> |old(Available())| >= n
      ensures r.TimedOut? <==> |old(Available())| < n && !Quiet(old(arrivals))
      ensures r.EndOfStream? <==> |old(Available())| < n && Quiet(old(arrivals))
      ensures r.Ok? ==> |old(Stream())| >= n && r.value == old(Stream())[..n] && Stream() == old(Stream())[n..]
      ensures r.Ok? ==> r.value == old(Available())[..n] && Available() == old(Available())[n..]
      ensures !r.TimedOut? ==> (Quiet(arrivals) <==> Quiet(old(arrivals)))
      ensures !r.Ok? ==> Stream() == old(Stream())
      ensures r.EndOfStream? ==> |Stream()| < n
      ensures TakesNoMore(old(buf), old(arrivals), n, arrivals)
    {
      hide DataOf, Soon, Quiet, TakesNoMore;
      NothingTaken(buf, arrivals, n);
      while |buf| < n
        invariant Stream() == old(Stream()) && Available() == old(Available())
        invariant Quiet(arrivals) <==> Quiet(old(arrivals))
        invariant |arrivals| <= |old(arrivals)| && arrivals == old(arrivals)[|old(arrivals)| - |arrivals|..]
        invariant buf == old(buf) + DataOf(old(arrivals)[..|old(arrivals)| - |arrivals|])
        invariant TakesNoMore(old(buf), old(arrivals), n, arrivals)
        decreases |arrivals|
      {
        if arrivals != [] {
          OneMore(old(buf), old(arrivals), n, arrivals, buf);
        }
        NoArrivals();
        var _ :- ReadMore();
      }
      r := Ok(buf[..n]);
      buf := buf[n..];
    }

    method SendAll(b: Bytes)
      modifies this`sent
      ensures sent == old(sent) + b
    {
      sent := sent + b;
    }

    /** Contents too long for the three-byte length fail only after the body is sealed, so
        the packet cipher has already moved on while the length cipher has not. */
    method EncPacket(contents: Bytes, aad: Bytes, ignore: bool) returns (r: Option<Bytes>)
      requires Ready()
      modifies sendL, sendP
      ensures r.Some? <==> |contents| < Wire.CONTENTS_LIMIT
      ensures r.Some? ==> r.value == Wire.EncPacket(f, old(SendHalf()), aad, ignore, contents)
                          && SendHalf() == Wire.NextHalf(f, old(SendHalf()), aad)
      ensures r.None? ==> SendHalf() == old(SendHalf()).(p := AfterPacket(f, old(SendHalf()).p, aad))
    {
      var header := if ignore then 128 else 0;
      var body := sendP.Encrypt(aad, [header] + contents);
      if |contents| >= Wire.CONTENTS_LIMIT {
        return None;
      }
      var elen := sendL.Crypt(LE(|contents|, 3));
      r := Some(elen + body);
    }

    method SendMsg(m: Wire.Message) returns (ok: bool)
      requires Ready()
      modifies this`sent, sendL, sendP
      ensures ok <==> |Wire.EncodeMessage(m)| < Wire.CONTENTS_LIMIT
      ensures ok ==> sent == old(sent) + Wire.EncPacket(f, old(SendHalf()), [], false, Wire.EncodeMessage(m))
                     && SendHalf() == Wire.NextHalf(f, old(SendHalf()), [])
      ensures !ok ==> sent == old(sent)
                      && SendHalf() == old(SendHalf()).(p := AfterPacket(f, old(SendHalf()).p, []))
    {
      var packet := EncPacket(Wire.EncodeMessage(m), [], false);
      ok := packet.Some?;
      if ok {
        SendAll(packet.value);
      }
    }

    /** A timeout before the length is complete changes nothing. A timeout in the body has
        already consumed the length and moved the length cipher. */
    method DecPacket(aad: Bytes) returns (r: Result<(Bytes, bool)>)
      requires Ready()
      modifies this`arrivals, this`buf, recvL, recvP
      ensures !r.TimedOut? ==> (Quiet(arrivals) <==> Quiet(old(arrivals)))
      ensures r.TimedOut? <==>
                !Quiet(old(arrivals)) && Wire.DecPacket(f, old(RecvHalf()), aad, old(Available())) == Wire.Short
      ensures r.Ok? ==>
                && Wire.DecPacket(f, old(RecvHalf()), aad, old(Stream())) == Wire.Packet(r.value.0, r.value.1, Stream())
                && RecvHalf() == Wire.NextHalf(f, old(RecvHalf()), aad)
                && Wire.DecPacket(f, old(RecvHalf()), aad, old(Available()))
                   == Wire.Packet(r.value.0, r.value.1, Available())
      ensures r.AeadFailed? ==> Wire.DecPacket(f, old(RecvHalf()), aad, old(Available())) == Wire.Forged
      ensures r.EndOfStream? ==> Quiet(old(arrivals))
      ensures r.AeadFailed? ==> Wire.DecPacket(f, old(RecvHalf()), aad, old(Stream())) == Wire.Forged
      ensures r.EndOfStream? ==> Wire.DecPacket(f, old(RecvHalf()), aad, old(Stream())) == Wire.Short
      ensures r.TimedOut? ==>
                || (Stream() == old(Stream()) && RecvHalf() == old(RecvHalf()))
                || (|old(Stream())| >= 3 && Stream() == old(Stream())[3..]
                    && RecvHalf() == LengthTaken(f, old(RecvHalf())))
      ensures !r.NoGarbageTerminator?
    {
      hide CryptChunk, AfterChunk, AfterPacket, OpenPacket, FromLE, DataOf, Soon, Quiet;
      ghost var stream, soon := Stream(), Available();
      var encLen :- ReadExact(3);
      var lenBytes := recvL.Crypt(encLen);
      var n := FromLE(lenBytes);
      assert n == Wire.PacketLength(f, old(RecvHalf()), stream) == Wire.PacketLength(f, old(RecvHalf()), soon);
      var rest :- ReadExact(1 + n + 16);
      assert rest == stream[3..20 + n] && Stream() == stream[20 + n..];
      assert rest == soon[3..20 + n] && Available() == soon[20 + n..];
      var pt := recvP.Decrypt(aad, rest);
      if pt.None? {
        return AeadFailed;
      }
      r := Ok((pt.value[1..], pt.value[0] >= 128));
    }

    /** The garbage is what precedes the terminator's first occurrence in the stream, in
        whatever pieces it arrives. */
    method ReadGarbage(term: Bytes) returns (r: Result<Bytes>)
      requires |term| == 16
      modifies this`arrivals, this`buf
      ensures !r.TimedOut? ==> (Quiet(arrivals) <==> Quiet(old(arrivals)))
      ensures r.TimedOut? <==> !Quiet(old(arrivals)) && ScanGarbage(old(Available()), term) == Incomplete
      ensures r.Ok? ==> ScanGarbage(old(Available()), term) == Found(r.value, Available())
      ensures r.NoGarbageTerminator? ==> ScanGarbage(old(Available()), term) == Missing
      ensures r.EndOfStream? ==> Quiet(old(arrivals))
      ensures r.Ok? ==> ScanGarbage(old(Stream()), term) == Found(r.value, Stream())
      ensures r.NoGarbageTerminator? ==> ScanGarbage(old(Stream()), term) == Missing
      ensures r.EndOfStream? ==> ScanGarbage(old(Stream()), term) == Incomplete
      ensures !r.AeadFailed?
    {
      hide Find, ScanGarbage, DataOf, Soon, Quiet;
      while true
        invariant Stream() == old(Stream()) && Available() == old(Available())
        invariant Quiet(arrivals) <==> Quiet(old(arrivals))
        decreases |arrivals|
      {
        if |buf| >= 16 {
          var idx := Find(Prefix(buf, MAX_GARBAGE + 16), term);
          if idx.Some? {
            ScanFoundEarly(buf, DataOf(arrivals), term);
            ScanFoundEarly(buf, Soon(arrivals), term);
            r := Ok(buf[..idx.value]);
            buf := buf[idx.value + 16..];
            return;
          }
        }
        ScanNotFound(buf, DataOf(arrivals), term);
        ScanNotFound(buf, Soon(arrivals), term);
        if |buf| >= MAX_GARBAGE + 16 {
          return NoGarbageTerminator;
        }
        NoArrivals();
        ScanNotFound(buf, [], term);
        assert buf + [] == buf;
        var _ :- ReadMore();
      }
    }

    method ReadVersion(garbage: Bytes) returns (r: Result<()>)
      requires Ready()
      modifies this`arrivals, this`buf, recvL, recvP
      ensures !r.TimedOut? ==> (Quiet(arrivals) <==> Quiet(old(arrivals)))
      ensures r.TimedOut? <==>
                !Quiet(old(arrivals)) && AwaitVersion(f, old(RecvHalf()), garbage, old(Available())) == NoVersion
      ensures r.Ok? ==> AwaitVersion(f, old(RecvHalf()), garbage, old(Available())) == Version(RecvHalf(), Available())
      ensures r.AeadFailed? ==> AwaitVersion(f, old(RecvHalf()), garbage, old(Available())) == BadVersion
      ensures r.EndOfStream? ==> Quiet(old(arrivals))
      ensures r.Ok? ==> AwaitVersion(f, old(RecvHalf()), garbage, old(Stream())) == Version(RecvHalf(), Stream())
      ensures r.AeadFailed? ==> AwaitVersion(f, old(RecvHalf()), garbage, old(Stream())) == BadVersion
      ensures r.EndOfStream? ==> AwaitVersion(f, old(RecvHalf()), garbage, old(Stream())) == NoVersion
      ensures !r.NoGarbageTerminator?
    {
      hide DataOf, Soon, Quiet, Wire.DecPacket, Wire.NextHalf;
      var aad := garbage;
      while true
        invariant Ready()
        invariant AwaitVersion(f, RecvHalf(), aad, Stream())
               == AwaitVersion(f, old(RecvHalf()), garbage, old(Stream()))
        invariant AwaitVersion(f, RecvHalf(), aad, Available())
               == AwaitVersion(f, old(RecvHalf()), garbage, old(Available()))
        invariant Quiet(arrivals) <==> Quiet(old(arrivals))
        decreases |Stream()|
      {
        var packet :- DecPacket(aad);
        if !packet.1 {
          return Ok(());
        }
        aad := [];
      }
    }

    method FinishHandshake(ghost keys: Keys, recvTerm: Bytes) returns (r: Result<()>)
      requires Ready() && |recvTerm| == 16 && recvTerm == keys.recvTerm && RecvHalf() == keys.recv
      modifies this`arrivals, this`buf, recvL, recvP
      ensures !r.TimedOut? ==> (Quiet(arrivals) <==> Quiet(old(arrivals)))
      ensures r.TimedOut? <==> !Quiet(old(arrivals)) && Negotiate(f, keys, old(Available())) == Eof
      ensures r.EndOfStream? ==> Quiet(old(arrivals))
      ensures r.Ok? ==> Negotiate(f, keys, old(Stream())) == Session.Ready(keys, RecvHalf(), Stream())
      ensures r.NoGarbageTerminator? ==> Negotiate(f, keys, old(Stream())) == NoTerminator
      ensures r.AeadFailed? ==> Negotiate(f, keys, old(Stream())) == BadPacket
      ensures r.EndOfStream? ==> Negotiate(f, keys, old(Stream())) == Eof
    {
      hide DataOf, Soon, Quiet, ScanGarbage, AwaitVersion;
      var garbage :- ReadGarbage(recvTerm);
      r := ReadVersion(garbage);
    }

    /** Keys in both directions, then the initiator's terminator and version packet. `ours`
        is the local ElligatorSwift key and `secret` the ECDH with the peer's. */
    method Introduce(ours: Bytes, secret: Bytes -> Bytes) returns (r: Result<Bytes>)
      modifies this
      ensures !r.TimedOut? ==> (Quiet(arrivals) <==> Quiet(old(arrivals)))
      ensures r.TimedOut? <==> !Quiet(old(arrivals)) && |old(Available())| < 64
      ensures r.Ok? || r.EndOfStream? || r.TimedOut?
      ensures r.EndOfStream? ==> |old(Stream())| < 64 && Quiet(old(arrivals))
      ensures r.Ok? ==>
                && |old(Available())| >= 64 && Available() == old(Available())[64..]
                && |old(Stream())| >= 64 && old(Available())[..64] == old(Stream())[..64]
      ensures r.Ok? ==>
                && Ready() && fresh({sendL, sendP, recvL, recvP})
                && |old(Stream())| >= 64 && Stream() == old(Stream())[64..]
                && var keys := InitCiphers(kdf, secret(old(Stream())[..64]), magic, true);
                && r.value == keys.recvTerm && RecvHalf() == keys.recv && SendHalf() == Wire.NextHalf(f, keys.send, [])
                && sent == old(sent) + ours + (keys.sendTerm + Wire.EncPacket(f, keys.send, [], false, []))
    {
      hide DataOf, Soon, Quiet, InitCiphers, Wire.NextHalf, Wire.EncPacket, AfterPacket;
      SendAll(ours);
      var theirs :- ReadExact(64);
      var sendTerm, recvTerm;
      sendL, sendP, sendTerm, recvL, recvP, recvTerm := MakeCiphers(f, kdf, secret(theirs), magic, true);
      var version := EncPacket([], [], false);
      SendAll(sendTerm + version.value);
      r := Ok(recvTerm);
    }

    method Handshake(ours: Bytes, secret: Bytes -> Bytes) returns (r: Result<()>)
      modifies this
      ensures !r.TimedOut? ==> (Quiet(arrivals) <==> Quiet(old(arrivals)))
      ensures r.TimedOut? <==>
                !Quiet(old(arrivals)) && HandshakeOn(f, kdf, magic, secret, true, old(Available())) == Eof
      ensures r.Ok? ==>
                && Ready() && fresh({sendL, sendP, recvL, recvP})
                && var hs := HandshakeOn(f, kdf, magic, secret, true, old(Stream()));
                && hs.Ready? && hs.recv == RecvHalf() && hs.rest == Stream()
                && SendHalf() == Wire.NextHalf(f, hs.keys.send, [])
                && sent == old(sent) + ours + (hs.keys.sendTerm + Wire.EncPacket(f, hs.keys.send, [], false, []))
      ensures r.NoGarbageTerminator? ==> HandshakeOn(f, kdf, magic, secret, true, old(Stream())) == NoTerminator
      ensures r.AeadFailed? ==> HandshakeOn(f, kdf, magic, secret, true, old(Stream())) == BadPacket
      ensures r.EndOfStream? ==> HandshakeOn(f, kdf, magic, secret, true, old(Stream())) == Eof
    {
      hide DataOf, Soon, Quiet, Negotiate, InitCiphers, Wire.NextHalf, Wire.EncPacket, AfterPacket;
      var recvTerm :- Introduce(ours, secret);
      ghost var keys := InitCiphers(kdf, secret(old(Stream())[..64]), magic, true);
      r := FinishHandshake(keys, recvTerm);
    }

    /** Delivers what `RecvMsg` says the stream holds, however it is split. It times out
        exactly when a timeout comes before the bytes of the answer do. After a timeout
        a second call gives the answer of the first, if that is a message with the ciphers and
        rest behind it, exactly when the two receiving ciphers have moved equally far. */
    method ReceiveMessage() returns (r: Result<Wire.Message>)
      requires Ready()
      modifies this`arrivals, this`buf, recvL, recvP
      ensures r.Ok? ==> RecvMsg(f, old(RecvHalf()), old(Stream())) == Got(r.value, RecvHalf(), Stream())
      ensures r.AeadFailed? ==> RecvMsg(f, old(RecvHalf()), old(Stream())) == Broken
      ensures r.EndOfStream? ==> RecvMsg(f, old(RecvHalf()), old(Stream())) == Ended
      ensures r.TimedOut? ==> Interrupted(f, RecvMsg(f, old(RecvHalf()), old(Stream())), RecvHalf(), Stream())
      ensures r.TimedOut? && Lead(RecvHalf()) == Lead(old(RecvHalf())) ==>
                RecvMsg(f, RecvHalf(), Stream()) == RecvMsg(f, old(RecvHalf()), old(Stream()))
      ensures r.TimedOut? && RecvMsg(f, old(RecvHalf()), old(Stream())).Got? ==>
                (RecvMsg(f, RecvHalf(), Stream()) == RecvMsg(f, old(RecvHalf()), old(Stream()))
                 <==> Lead(RecvHalf()) == Lead(old(RecvHalf())))
      ensures r.TimedOut? <==> !Quiet(old(arrivals)) && RecvMsg(f, old(RecvHalf()), old(Available())) == Ended
      ensures r.Ok? ==> RecvMsg(f, old(RecvHalf()), old(Available())) == Got(r.value, RecvHalf(), Available())
      ensures !r.TimedOut? ==> (Quiet(arrivals) <==> Quiet(old(arrivals)))
      ensures !r.NoGarbageTerminator?
    {
      hide DataOf, Soon, Quiet, Wire.DecPacket, Wire.NextHalf, Wire.DecodeMessage, Lead, AfterChunk;
      while true
        invariant Ready() && Lead(RecvHalf()) == Lead(old(RecvHalf()))
        invariant RecvMsg(f, RecvHalf(), Stream()) == RecvMsg(f, old(RecvHalf()), old(Stream()))
        invariant RecvMsg(f, RecvHalf(), Available()) == RecvMsg(f, old(RecvHalf()), old(Available()))
        invariant Quiet(arrivals) <==> Quiet(old(arrivals))
        decreases |Stream()|
      {
        ghost var half, stream := RecvHalf(), Stream();
        var packet := DecPacket([]);
        if packet.TimedOut? {
          TimeoutLeaves(f, half, stream, RecvHalf(), Stream());
        }
        if packet.IsFailure() {
          r := packet.PropagateFailure();
          return;
        }
        PacketKeepsLead(f, half, []);
        var (contents, ignore) := packet.value;
        var m := Wire.DecodeMessage(contents);
        if !ignore && m.Some? {
          r := Ok(m.value);
          return;
        }
      }
    }
  }

  /** The two states a timeout can leave, and which of them still holds the answer. */
  lemma TimeoutLeaves(f: BlockFn, half: Wire.Half, stream: Bytes, half': Wire.Half, stream': Bytes)
    requires || (stream' == stream && half' == half)
             || (|stream| >= 3 && stream' == stream[3..] && half' == LengthTaken(f, half))
    ensures Interrupted(f, RecvMsg(f, half, stream), half', stream')
    ensures Lead(half') == Lead(half) ==> RecvMsg(f, half', stream') == RecvMsg(f, half, stream)
    ensures RecvMsg(f, half, stream).Got? ==>
              (RecvMsg(f, half', stream') == RecvMsg(f, half, stream) <==> Lead(half') == Lead(half))
  {
    hide RecvMsg, Lead, LengthTaken;
    LengthTakenLeads(f, half);
    if RecvMsg(f, half, stream).Got? && |stream| >= 3 {
      LostLengthIsNeverMadeGood(f, half, stream);
    }
  }
}
