/** Two `V2` endpoints of opposite roles: the handshake in both directions, then `send_msg`
    and `recv_msg` at both ends in any order, over sockets that cut the bytes anywhere. */
module Conversation {
  import opened ByteStrings
  import opened Aead
  import opened FsCiphers
  import Wire
  import opened Session
  import opened Endpoint

  /** A socket hands on bytes in arbitrary pieces. */
  method Cut(bytes: Bytes) returns (pieces: seq<Arrival>)
    ensures Quiet(pieces) && DataOf(pieces) == bytes
  {
    if bytes == [] {
      return [];
    }
    var k :| 1 <= k <= |bytes|;
    var rest := Cut(bytes[k..]);
    pieces := [Data(bytes[..k])] + rest;
    assert pieces[1..] == rest && bytes[..k] + bytes[k..] == bytes;
  }

  // ----- sending

  method SendNoise(v: V2, noise: seq<Noise>)
    requires v.Ready() && forall i :: 0 <= i < |noise| ==> IsNoise(noise[i])
    modifies v`sent, v.sendL, v.sendP
    ensures v.sent == old(v.sent) + NoiseWire(v.f, old(v.SendHalf()), noise)
    ensures v.SendHalf() == HalfAfter(v.f, old(v.SendHalf()), |noise|)
    decreases |noise|
  {
    hide Wire.EncPacket, Wire.NextHalf, AfterPacket, Wire.DecodeMessage;
    if noise == [] {
      return;
    }
    var packet := v.EncPacket(noise[0].contents, [], noise[0].ignore);
    v.SendAll(packet.value);
    ghost var half := v.SendHalf();
    SendNoise(v, noise[1..]);
    Associate(old(v.sent), packet.value, NoiseWire(v.f, half, noise[1..]));
  }

  /** Any noise and then `send_msg`. */
  method SendTurn(v: V2, t: Turn)
    requires v.Ready() && IsTurn(t)
    modifies v`sent, v.sendL, v.sendP
    ensures v.sent == old(v.sent) + TurnWire(v.f, old(v.SendHalf()), t)
    ensures v.SendHalf() == AfterTurn(v.f, old(v.SendHalf()), t)
  {
    hide Wire.EncPacket, Wire.NextHalf, AfterPacket, NoiseWire, HalfAfter, Wire.EncodeMessage, IsNoise, Wire.Framable;
    SendNoise(v, t.noise);
    HalfAfterStep(v.f, old(v.SendHalf()), |t.noise|);
    ghost var noise, half := NoiseWire(v.f, old(v.SendHalf()), t.noise), v.SendHalf();
    var _ := v.SendMsg(t.message);
    Associate(old(v.sent), noise, Wire.EncPacket(v.f, half, [], false, Wire.EncodeMessage(t.message)));
  }

  lemma Associate(x: Bytes, y: Bytes, z: Bytes)
    ensures x + y + z == x + (y + z)
  {}

  lemma {:induction false} TurnsAppend(f: BlockFn, h: Wire.Half, turns: seq<Turn>, t: Turn)
    requires IsTurn(t) && forall i :: 0 <= i < |turns| ==> IsTurn(turns[i])
    ensures TurnsWire(f, h, turns + [t]) == TurnsWire(f, h, turns) + TurnWire(f, AfterTurns(f, h, turns), t)
    ensures AfterTurns(f, h, turns + [t]) == AfterTurn(f, AfterTurns(f, h, turns), t)
    decreases |turns|
  {
    hide TurnWire, AfterTurn, IsTurn;
    if turns == [] {
      assert turns + [t] == [t] && [t][1..] == [];
      assert TurnsWire(f, h, [t]) == TurnWire(f, h, t) + TurnsWire(f, AfterTurn(f, h, t), []);
    } else {
      assert (turns + [t])[1..] == turns[1..] + [t];
      TurnsAppend(f, AfterTurn(f, h, turns[0]), turns[1..], t);
    }
  }

  /** Any run of sends puts exactly its turns on the wire. */
  method SendTurns(v: V2, turns: seq<Turn>)
    requires forall i :: 0 <= i < |turns| ==> IsTurn(turns[i])
    requires v.Ready()
    modifies v`sent, v.sendL, v.sendP
    ensures v.Ready() && v.SendHalf() == AfterTurns(v.f, old(v.SendHalf()), turns)
    ensures v.sent == old(v.sent) + TurnsWire(v.f, old(v.SendHalf()), turns)
  {
    hide TurnWire, AfterTurn, IsTurn, TurnsWire, AfterTurns;
    ghost var half := v.SendHalf();
    NoTurns(v.f, half);
    for i := 0 to |turns|
      invariant v.Ready()
      invariant v.sent == old(v.sent) + TurnsWire(v.f, half, turns[..i])
      invariant v.SendHalf() == AfterTurns(v.f, half, turns[..i])
    {
      SendTurn(v, turns[i]);
      assert turns[..i + 1] == turns[..i] + [turns[i]];
      TurnsAppend(v.f, half, turns[..i], turns[i]);
      Associate(old(v.sent), TurnsWire(v.f, half, turns[..i]),
                TurnWire(v.f, AfterTurns(v.f, half, turns[..i]), turns[i]));
    }
    assert turns[..|turns|] == turns;
  }

  lemma NoTurns(f: BlockFn, h: Wire.Half)
    ensures TurnsWire(f, h, []) == [] && AfterTurns(f, h, []) == h
  {}

  // ----- one direction of a connection

  /** The receiver has yet to read exactly these turns, and the sender's ciphers are where
      reading them will take the receiver's. */
  ghost predicate Carries(f: BlockFn, send: Wire.Half, recv: Wire.Half, stream: Bytes, pending: seq<Turn>) {
    && (forall i :: 0 <= i < |pending| ==> IsTurn(pending[i]))
    && stream == TurnsWire(f, recv, pending) && send == AfterTurns(f, recv, pending)
  }

  lemma NothingPending(f: BlockFn, half: Wire.Half)
    ensures Carries(f, half, half, [], [])
  {}

  /** Distinct endpoints that share no cipher. */
  ghost predicate Apart(a: V2, b: V2)
    reads a, b
  {
    && a != b && a.Ready() && b.Ready() && a.f == b.f
    && {a.sendL, a.recvL} !! {b.sendL, b.recvL} && {a.sendP, a.recvP} !! {b.sendP, b.recvP}
  }

  /** The direction from `a` to `b`. */
  ghost predicate Channel(a: V2, b: V2, pending: seq<Turn>)
    requires Apart(a, b)
    reads a, b, a.sendL, a.sendP, b.recvL, b.recvP
  {
    Quiet(b.arrivals) && Carries(a.f, a.SendHalf(), b.RecvHalf(), b.Stream(), pending)
  }

  /** `a` sends a turn and the socket hands it on with what `b` has not read yet. */
  method Post(a: V2, b: V2, t: Turn, ghost pending: seq<Turn>)
    requires Apart(a, b) && Channel(a, b, pending)
    requires IsTurn(t)
    modifies a`sent, a.sendL, a.sendP, b`arrivals
    ensures Apart(a, b) && Channel(a, b, pending + [t])
  {
    hide TurnWire, AfterTurn, IsTurn, TurnsWire, AfterTurns, DataOf;
    var before := |a.sent|;
    SendTurn(a, t);
    var wire := a.sent[before..];
    var undelivered := DataOf(b.arrivals);
    var pieces := Cut(undelivered + wire);
    b.arrivals := pieces;
    assert b.buf + (undelivered + wire) == b.buf + undelivered + wire;
    TurnsAppend(a.f, b.RecvHalf(), pending, t);
  }

  /** `b` receives the first pending message. */
  method Collect(ghost a: V2, b: V2, ghost pending: seq<Turn>) returns (m: Wire.Message)
    requires Apart(a, b) && Channel(a, b, pending)
    requires pending != []
    modifies b`arrivals, b`buf, b.recvL, b.recvP
    ensures m == pending[0].message
    ensures Apart(a, b) && Channel(a, b, pending[1..])
  {
    hide TurnWire, AfterTurn, IsTurn, DataOf, RecvMsg;
    RecvTurn(b.f, b.RecvHalf(), pending[0], TurnsWire(b.f, AfterTurn(b.f, b.RecvHalf(), pending[0]), pending[1..]));
    var r := b.ReceiveMessage();
    m := r.value;
  }

  // ----- both directions

  /** What one of the two endpoints does next. */
  datatype Step = Send(byInitiator: bool, turn: Turn) | Receive(byInitiator: bool)

  /** The turns one side sends in a script. */
  function SentBy(script: seq<Step>, initiator: bool): (r: seq<Turn>)
    ensures (forall i :: 0 <= i < |script| && script[i].Send? ==> IsTurn(script[i].turn)) ==>
              forall i :: 0 <= i < |r| ==> IsTurn(r[i])
  {
    if script == [] then []
    else
      var k := |script| - 1;
      SentBy(script[..k], initiator)
      + if script[k].Send? && script[k].byInitiator == initiator then [script[k].turn] else []
  }

  /** How many messages one side has received: a receive with nothing to read yet is a
      wait and delivers nothing. */
  function ReceivedBy(script: seq<Step>, initiator: bool): (r: nat)
    ensures r <= |SentBy(script, !initiator)|
  {
    if script == [] then 0
    else
      var k := |script| - 1;
      var n := ReceivedBy(script[..k], initiator);
      if script[k].Receive? && script[k].byInitiator == initiator && n < |SentBy(script[..k], !initiator)|
      then n + 1 else n
  }

  /** What is still on its way to one side. */
  function PendingFor(script: seq<Step>, initiator: bool): seq<Turn> {
    SentBy(script, !initiator)[ReceivedBy(script, initiator)..]
  }

  function MessagesFor(script: seq<Step>, initiator: bool): seq<Wire.Message> {
    MessagesOf(SentBy(script, !initiator)[..ReceivedBy(script, initiator)])
  }

  lemma MessagesAppend(turns: seq<Turn>, t: Turn)
    ensures MessagesOf(turns + [t]) == MessagesOf(turns) + [t.message]
  {}

  lemma NoSteps(initiator: bool)
    ensures PendingFor([], initiator) == [] && MessagesFor([], initiator) == []
  {}

  /** The turns sent and the number received by a script with one more step. */
  lemma StepCounts(script: seq<Step>, i: nat, initiator: bool)
    requires i < |script|
    ensures var now, next, step := script[..i], script[..i + 1], script[i];
            && SentBy(next, initiator)
               == SentBy(now, initiator) + (if step.Send? && step.byInitiator == initiator then [step.turn] else [])
            && ReceivedBy(next, initiator)
               == ReceivedBy(now, initiator)
                  + (if step.Receive? && step.byInitiator == initiator && PendingFor(now, initiator) != []
                     then 1 else 0)
  {
    var now, next := script[..i], script[..i + 1];
    assert next[..i] == now && next[i] == script[i];
  }

  /** A step of the other side at most adds to what is on its way. */
  lemma OthersStep(script: seq<Step>, i: nat, initiator: bool)
    requires i < |script| && script[i].byInitiator != initiator
    ensures PendingFor(script[..i + 1], initiator)
         == (if script[i].Send? then PendingFor(script[..i], initiator) + [script[i].turn]
             else PendingFor(script[..i], initiator))
    ensures MessagesFor(script[..i + 1], initiator) == MessagesFor(script[..i], initiator)
  {
    hide SentBy, ReceivedBy, MessagesOf;
    StepCounts(script, i, initiator);
    StepCounts(script, i, !initiator);
    var sent, n := SentBy(script[..i], !initiator), ReceivedBy(script[..i], initiator);
    var more := if script[i].Send? then [script[i].turn] else [];
    assert (sent + more)[n..] == sent[n..] + more && (sent + more)[..n] == sent[..n];
  }

  /** A step of one's own at most takes the first message that is on its way. */
  lemma OwnStep(script: seq<Step>, i: nat, initiator: bool)
    requires i < |script| && script[i].byInitiator == initiator
    ensures var now, next, pending := script[..i], script[..i + 1], PendingFor(script[..i], initiator);
            if script[i].Receive? && pending != [] then
              && PendingFor(next, initiator) == pending[1..]
              && MessagesFor(next, initiator) == MessagesFor(now, initiator) + [pending[0].message]
            else
              PendingFor(next, initiator) == pending && MessagesFor(next, initiator) == MessagesFor(now, initiator)
  {
    hide SentBy, ReceivedBy, MessagesOf;
    StepCounts(script, i, initiator);
    StepCounts(script, i, !initiator);
    var sent, n := SentBy(script[..i], !initiator), ReceivedBy(script[..i], initiator);
    assert SentBy(script[..i + 1], !initiator) == sent by {
      assert sent + [] == sent;
    }
    if script[i].Receive? && n < |sent| {
      TakeFirst(sent, n);
    }
  }

  lemma TakeFirst(sent: seq<Turn>, n: nat)
    requires n < |sent|
    ensures sent[n..] != [] && sent[n..][1..] == sent[n + 1..] && sent[n..][0] == sent[n]
    ensures MessagesOf(sent[..n + 1]) == MessagesOf(sent[..n]) + [sent[n].message]
  {
    hide MessagesOf;
    assert sent[..n + 1] == sent[..n] + [sent[n]];
    MessagesAppend(sent[..n], sent[n]);
  }

  /** Both directions carry what the script has sent and not yet received. */
  ghost predicate Connected(a: V2, b: V2, forA: seq<Turn>, forB: seq<Turn>)
    requires Apart(a, b)
    reads a, b, a.sendL, a.sendP, a.recvL, a.recvP, b.sendL, b.sendP, b.recvL, b.recvP
  {
    Channel(b, a, forA) && Channel(a, b, forB)
  }

  /** One step of endpoint `v` against `peer`. */
  method Act(v: V2, peer: V2, step: Step, waiting: nat, ghost forV: seq<Turn>, ghost forPeer: seq<Turn>)
    returns (got: seq<Wire.Message>)
    requires Apart(v, peer) && Connected(v, peer, forV, forPeer) && waiting == |forV|
    requires step.Send? ==> IsTurn(step.turn)
    modifies v`sent, v`arrivals, v`buf, v.sendL, v.sendP, v.recvL, v.recvP, peer`arrivals
    ensures Apart(v, peer)
    ensures step.Send? ==> got == [] && Connected(v, peer, forV, forPeer + [step.turn])
    ensures step.Receive? && forV != [] ==> got == [forV[0].message] && Connected(v, peer, forV[1..], forPeer)
    ensures step.Receive? && forV == [] ==> got == [] && Connected(v, peer, forV, forPeer)
  {
    hide Carries, IsTurn, DataOf;
    got := [];
    match step
    case Send(_, turn) =>
      Post(v, peer, turn, forPeer);
    case Receive(_) =>
      if waiting > 0 {
        var m := Collect(peer, v, forV);
        got := [m];
      }
  }

  /** Any script of sends and receives at both ends: each side has received exactly the
      messages the other gave to `send_msg`, in order, up to those it has not read yet. */
  method Exchange(a: V2, b: V2, script: seq<Step>) returns (atA: seq<Wire.Message>, atB: seq<Wire.Message>)
    requires Apart(a, b) && Connected(a, b, [], [])
    requires forall i :: 0 <= i < |script| && script[i].Send? ==> IsTurn(script[i].turn)
    modifies a, a.sendL, a.sendP, a.recvL, a.recvP, b, b.sendL, b.sendP, b.recvL, b.recvP
    ensures atA == MessagesFor(script, true) && atB == MessagesFor(script, false)
    ensures Apart(a, b) && Connected(a, b, PendingFor(script, true), PendingFor(script, false))
  {
    hide Connected, IsTurn, PendingFor, MessagesFor;
    atA, atB := [], [];
    var waitA: nat, waitB: nat := 0, 0;
    NoSteps(true);
    NoSteps(false);
    for i := 0 to |script|
      invariant a.sendL == old(a.sendL) && a.sendP == old(a.sendP) && a.recvL == old(a.recvL) && a.recvP == old(a.recvP)
      invariant b.sendL == old(b.sendL) && b.sendP == old(b.sendP) && b.recvL == old(b.recvL) && b.recvP == old(b.recvP)
      invariant Apart(a, b) && Connected(a, b, PendingFor(script[..i], true), PendingFor(script[..i], false))
      invariant waitA == |PendingFor(script[..i], true)| && waitB == |PendingFor(script[..i], false)|
      invariant atA == MessagesFor(script[..i], true) && atB == MessagesFor(script[..i], false)
    {
      ghost var forA, forB := PendingFor(script[..i], true), PendingFor(script[..i], false);
      var step := script[i];
      OwnStep(script, i, step.byInitiator);
      OthersStep(script, i, !step.byInitiator);
      if step.byInitiator {
        var got := Act(a, b, step, waitA, forA, forB);
        atA := atA + got;
        if step.Send? { waitB := waitB + 1; } else { waitA := waitA - |got|; }
      } else {
        Swap(a, b, forA, forB);
        var got := Act(b, a, step, waitB, forB, forA);
        atB := atB + got;
        if step.Send? { waitA := waitA + 1; } else { waitB := waitB - |got|; }
        Swap(b, a, PendingFor(script[..i + 1], false), PendingFor(script[..i + 1], true));
      }
    }
    assert script[..|script|] == script;
  }

  lemma Swap(a: V2, b: V2, forA: seq<Turn>, forB: seq<Turn>)
    requires Apart(a, b) && Connected(a, b, forA, forB)
    ensures Apart(b, a) && Connected(b, a, forB, forA)
  {}

  // ----- the handshake at both ends

  method SendVersion(v: V2, aad: Bytes, decoys: seq<Bytes>, version: Bytes)
    requires v.Ready() && |version| < Wire.CONTENTS_LIMIT
    requires forall i :: 0 <= i < |decoys| ==> |decoys[i]| < Wire.CONTENTS_LIMIT
    modifies v`sent, v.sendL, v.sendP
    ensures v.sent == old(v.sent) + VersionWire(v.f, old(v.SendHalf()), aad, decoys, version)
    ensures v.SendHalf() == AfterVersion(v.f, old(v.SendHalf()), aad, decoys)
    decreases |decoys|
  {
    hide Wire.EncPacket, Wire.NextHalf, AfterPacket;
    if decoys == [] {
      var packet := v.EncPacket(version, aad, false);
      v.SendAll(packet.value);
    } else {
      var packet := v.EncPacket(decoys[0], aad, true);
      v.SendAll(packet.value);
      ghost var half := v.SendHalf();
      SendVersion(v, [], decoys[1..], version);
      Associate(old(v.sent), packet.value, VersionWire(v.f, half, [], decoys[1..], version));
    }
  }

  /** The responder's half of the handshake up to its version packet. */
  method Greet(f: BlockFn, kdf: Kdf, magic: Bytes, ours: Bytes, secret: Bytes,
               garbage: Bytes, decoys: seq<Bytes>, version: Bytes)
    returns (b: V2, recvTerm: Bytes)
    requires IsGreeting(InitCiphers(kdf, secret, magic, false), garbage, decoys, version)
    ensures fresh(b) && b.Ready() && fresh({b.sendL, b.sendP, b.recvL, b.recvP})
    ensures b.f == f && b.kdf == kdf && b.magic == magic && b.arrivals == [] && b.buf == []
    ensures var keys := InitCiphers(kdf, secret, magic, false);
            && recvTerm == keys.recvTerm && b.RecvHalf() == keys.recv
            && b.SendHalf() == AfterVersion(f, keys.send, garbage, decoys)
            && b.sent == Greeting(f, keys, ours, garbage, decoys, version)
  {
    hide InitCiphers, CleanGarbage, VersionWire, AfterVersion;
    b := new V2(f, kdf, magic, []);
    var sendTerm;
    b.sendL, b.sendP, sendTerm, b.recvL, b.recvP, recvTerm := MakeCiphers(f, kdf, secret, magic, false);
    b.SendAll(ours + garbage + sendTerm);
    SendVersion(b, garbage, decoys, version);
  }

  /** The initiator's handshake on everything the responder has sent. */
  method Initiate(f: BlockFn, kdf: Kdf, magic: Bytes, mine: Bytes, secret: Bytes -> Bytes, wire: Bytes,
                  ghost keys: Keys, ghost recv: Wire.Half)
    returns (a: V2)
    requires HandshakeOn(f, kdf, magic, secret, true, wire) == Session.Ready(keys, recv, [])
    ensures fresh(a) && a.Ready() && fresh({a.sendL, a.sendP, a.recvL, a.recvP}) && a.f == f
    ensures Quiet(a.arrivals) && a.Stream() == [] && a.RecvHalf() == recv
    ensures a.SendHalf() == Wire.NextHalf(f, keys.send, [])
    ensures a.sent == [] + mine + (keys.sendTerm + Wire.EncPacket(f, keys.send, [], false, []))
  {
    hide HandshakeOn, DataOf, Wire.NextHalf, Wire.EncPacket;
    var pieces := Cut(wire);
    a := new V2(f, kdf, magic, pieces);
    assert a.Stream() == wire;
    var _ := a.Handshake(mine, secret);
  }

  /** The responder's other half, on everything the initiator has sent. */
  method Welcome(b: V2, wire: Bytes, ghost keys: Keys, recvTerm: Bytes, ghost recv: Wire.Half)
    requires b.Ready() && b.arrivals == [] && b.buf == [] && b.RecvHalf() == keys.recv
    requires recvTerm == keys.recvTerm && |recvTerm| == 16
    requires |wire| >= 64 && Negotiate(b.f, keys, wire[64..]) == Session.Ready(keys, recv, [])
    modifies b`arrivals, b`buf, b.recvL, b.recvP
    ensures Quiet(b.arrivals) && b.Stream() == [] && b.RecvHalf() == recv
  {
    hide DataOf, Negotiate;
    var pieces := Cut(wire);
    b.arrivals := pieces;
    assert b.Stream() == wire;
    var _ := b.ReadExact(64);
    var _ := b.FinishHandshake(keys, recvTerm);
  }

  /** What the initiator sends is a greeting without garbage or decoys and with empty version
      contents, and the responder completes the handshake on it. */
  lemma InitiatorGreeting(f: BlockFn, kdf: Kdf, hash: Bytes -> Bytes, x: Bytes, magic: Bytes, mine: Bytes, yours: Bytes,
                          secret: Bytes -> Bytes, keys: Keys)
    requires |mine| == 64 && secret(mine) == EcdhSecret(hash, x, mine, yours, false)
    requires keys == InitCiphers(kdf, EcdhSecret(hash, x, yours, mine, true), magic, true)
    ensures var wire := [] + mine + (keys.sendTerm + Wire.EncPacket(f, keys.send, [], false, []));
            var peer := InitCiphers(kdf, secret(mine), magic, false);
            && wire == Greeting(f, keys, mine, [], [], []) && |wire| >= 64 && wire[..64] == mine
            && Negotiate(f, peer, wire[64..]) == Ready(peer, Wire.NextHalf(f, keys.send, []), [])
  {
    hide InitCiphers, EcdhSecret, CleanGarbage, Negotiate, Wire.EncPacket, Wire.NextHalf;
    var wire := [] + mine + (keys.sendTerm + Wire.EncPacket(f, keys.send, [], false, []));
    assert wire == Greeting(f, keys, mine, [], [], []) == Greeting(f, keys, mine, [], [], []) + [];
    assert wire[..64] == mine;
    NoGarbageIsClean(keys.sendTerm);
    GreetingCompletes(f, kdf, hash, x, magic, yours, mine, false, secret, [], [], [], []);
  }

  /** Both ends complete the handshake, with any garbage, decoys and version contents of the
      responder, and are connected with nothing on its way. */
  method Connect(f: BlockFn, kdf: Kdf, hash: Bytes -> Bytes, x: Bytes, magic: Bytes, mine: Bytes, yours: Bytes,
                 secretA: Bytes -> Bytes, secretB: Bytes -> Bytes, garbage: Bytes, decoys: seq<Bytes>, version: Bytes)
    returns (a: V2, b: V2)
    requires |mine| == 64 && |yours| == 64
    requires secretA(yours) == EcdhSecret(hash, x, yours, mine, true)
    requires secretB(mine) == EcdhSecret(hash, x, mine, yours, false)
    requires IsGreeting(InitCiphers(kdf, secretB(mine), magic, false), garbage, decoys, version)
    ensures fresh(a) && fresh(b) && Apart(a, b) && Connected(a, b, [], [])
    ensures fresh({a.sendL, a.sendP, a.recvL, a.recvP}) && fresh({b.sendL, b.sendP, b.recvL, b.recvP})
  {
    hide InitCiphers, EcdhSecret, IsGreeting, HandshakeOn, AfterVersion, DataOf, Carries, Wire.NextHalf, Greeting,
         Negotiate, Wire.EncPacket;
    ghost var keysA := InitCiphers(kdf, secretA(yours), magic, true);
    ghost var keysB := InitCiphers(kdf, secretB(mine), magic, false);
    var recvTerm;
    b, recvTerm := Greet(f, kdf, magic, yours, secretB(mine), garbage, decoys, version);
    GreetingCompletes(f, kdf, hash, x, magic, mine, yours, true, secretA, garbage, decoys, version, []);
    assert b.sent == Greeting(f, keysB, yours, garbage, decoys, version) + [];
    a := Initiate(f, kdf, magic, mine, secretA, b.sent, keysA, b.SendHalf());
    InitiatorGreeting(f, kdf, hash, x, magic, mine, yours, secretB, keysA);
    Welcome(b, a.sent, keysB, recvTerm, a.SendHalf());
    NothingPending(f, a.SendHalf());
    NothingPending(f, b.SendHalf());
  }

  /** The whole property: two endpoints of opposite roles over one shared point connect, and
      whatever they then send and receive in whatever order, each receives exactly what the
      other sent. */
  method Converse(f: BlockFn, kdf: Kdf, hash: Bytes -> Bytes, x: Bytes, magic: Bytes, mine: Bytes, yours: Bytes,
                  secretA: Bytes -> Bytes, secretB: Bytes -> Bytes, garbage: Bytes, decoys: seq<Bytes>, version: Bytes,
                  script: seq<Step>)
    returns (atInitiator: seq<Wire.Message>, atResponder: seq<Wire.Message>)
    requires |mine| == 64 && |yours| == 64
    requires secretA(yours) == EcdhSecret(hash, x, yours, mine, true)
    requires secretB(mine) == EcdhSecret(hash, x, mine, yours, false)
    requires IsGreeting(InitCiphers(kdf, secretB(mine), magic, false), garbage, decoys, version)
    requires forall i :: 0 <= i < |script| && script[i].Send? ==> IsTurn(script[i].turn)
    ensures atInitiator == MessagesFor(script, true) && atResponder == MessagesFor(script, false)
  {
    hide Connected, IsTurn, IsGreeting, EcdhSecret, InitCiphers, MessagesFor, PendingFor;
    var a, b := Connect(f, kdf, hash, x, magic, mine, yours, secretA, secretB, garbage, decoys, version);
    atInitiator, atResponder := Exchange(a, b, script);
  }
}
