/** The windowed block download of scripts/ibd-serve-bench.py, lines 813-943: header
    hashes are queued once, requested in order, and at most `window` are in flight. */
module Download {
  import opened Sequences

  /** What the main loop wakes up for. `Block` is a payload of at least 80 bytes. */
  datatype Event<Hash> =
    | Headers(hashes: seq<Hash>)
    | Block(hash: Hash, size: nat)
    | NotFound(missing: seq<Hash>)
    | Stall
    | SocketTimeout
    | Other

  datatype Outcome = LimitReached | Exhausted | Disconnected

  const MAX_HEADERS: nat := 2000

  /** The hashes not seen before, in order of first appearance. */
  function FirstSeen<T(==)>(hashes: seq<T>, seen: set<T>): seq<T> {
    if hashes == [] then []
    else if hashes[0] in seen then FirstSeen(hashes[1..], seen)
    else [hashes[0]] + FirstSeen(hashes[1..], seen + {hashes[0]})
  }

  function Flatten<T>(batches: seq<seq<T>>): seq<T> {
    if batches == [] then [] else Flatten(batches[..|batches| - 1]) + batches[|batches| - 1]
  }

  lemma FlattenAppend<T>(batches: seq<seq<T>>, batch: seq<T>)
    ensures Flatten(batches + [batch]) == Flatten(batches) + batch
  {
    assert (batches + [batch])[..|batches|] == batches;
  }

  lemma {:induction false} FirstSeenProperties<T>(hashes: seq<T>, seen: set<T>)
    ensures Distinct(FirstSeen(hashes, seen))
    ensures Elements(FirstSeen(hashes, seen)) == Elements(hashes) - seen
    decreases |hashes|
  {
    if hashes != [] {
      var h, rest := hashes[0], hashes[1..];
      assert Elements(hashes) == {h} + Elements(rest);
      if h in seen {
        FirstSeenProperties(rest, seen);
      } else {
        FirstSeenProperties(rest, seen + {h});
        var tail := FirstSeen(rest, seen + {h});
        assert h !in Elements(tail);
        assert Elements([h] + tail) == {h} + Elements(tail);
      }
    }
  }

  lemma {:induction false} FirstSeenConcat<T>(a: seq<T>, b: seq<T>, seen: set<T>)
    ensures FirstSeen(a + b, seen) == FirstSeen(a, seen) + FirstSeen(b, seen + Elements(a))
    decreases |a|
  {
    if a == [] {
      assert a + b == b;
      assert seen + Elements(a) == seen;
    } else {
      var h, rest := a[0], a[1..];
      var next := if h in seen then seen else seen + {h};
      assert (a + b)[1..] == rest + b;
      assert seen + Elements(a) == next + Elements(rest);
      FirstSeenConcat(rest, b, next);
    }
  }

  /** An earlier element of the result has appeared before a later one first does. */
  lemma {:induction false} FirstSeenOrder<T>(hashes: seq<T>, seen: set<T>, i: nat, j: nat)
    requires i < j < |FirstSeen(hashes, seen)|
    ensures exists p :: 0 <= p < |hashes| && hashes[p] == FirstSeen(hashes, seen)[i]
                        && FirstSeen(hashes, seen)[j] !in hashes[..p + 1]
    decreases |hashes|
  {
    var h, rest, r := hashes[0], hashes[1..], FirstSeen(hashes, seen);
    var next := if h in seen then seen else seen + {h};
    var tail := FirstSeen(rest, next);
    FirstSeenProperties(rest, next);
    if h !in seen && i == 0 {
      assert r[j] == tail[j - 1] && tail[j - 1] in Elements(tail);
      assert hashes[..0 + 1] == [h];
    } else {
      var k := if h in seen then 0 else 1;
      FirstSeenOrder(rest, next, i - k, j - k);
      var p :| 0 <= p < |rest| && rest[p] == tail[i - k] && tail[j - k] !in rest[..p + 1];
      assert tail[j - k] in Elements(tail);
      assert hashes[..p + 2] == [h] + rest[..p + 1];
      assert hashes[p + 1] == r[i] && r[j] !in hashes[..p + 1 + 1];
    }
  }

  // ----- the state on values

  /** The queue, the requests in flight, the header hashes seen, and every getdata sent,
      one batch of hashes each. */
  datatype Pool<H> = Pool(want: seq<H>, inflight: set<H>, seen: set<H>, getdata: seq<seq<H>>)

  /** How many hashes a top-up moves from the queue into the window. */
  function Room<H>(window: int, p: Pool<H>): (k: nat)
    ensures k <= |p.want|
  {
    if window <= |p.inflight| then 0
    else if window - |p.inflight| <= |p.want| then window - |p.inflight|
    else |p.want|
  }

  /** One request for as much of the front of the queue as the window has room for. */
  function Topped<H>(window: int, p: Pool<H>): Pool<H> {
    var k := Room(window, p);
    if k == 0 then p
    else p.(want := p.want[k..], inflight := p.inflight + Elements(p.want[..k]), getdata := p.getdata + [p.want[..k]])
  }

  function Queued<H>(p: Pool<H>, hashes: seq<H>): Pool<H> {
    p.(want := p.want + FirstSeen(hashes, p.seen), seen := p.seen + Elements(hashes))
  }

  function After<H>(window: int, p: Pool<H>, e: Event<H>): Pool<H> {
    match e
    case Headers(hashes) => Topped(window, Queued(p, hashes))
    case Block(hash, _) => Topped(window, p.(inflight := p.inflight - {hash}))
    case NotFound(missing) => Topped(window, p.(inflight := p.inflight - Elements(missing)))
    case Stall => Topped(window, p.(inflight := {}))
    case SocketTimeout => p
    case Other => p
  }

  function RunPool<H>(window: int, events: seq<Event<H>>): Pool<H> {
    if events == [] then Pool([], {}, {}, [])
    else After(window, RunPool(window, events[..|events| - 1]), events[|events| - 1])
  }

  function HeadersOf<H>(e: Event<H>): seq<H> {
    if e.Headers? then e.hashes else []
  }

  /** All header hashes in a run of events. */
  function HeadersIn<H>(events: seq<Event<H>>): seq<H> {
    if events == [] then [] else HeadersIn(events[..|events| - 1]) + HeadersOf(events[|events| - 1])
  }

  function BlocksIn<H>(events: seq<Event<H>>): nat {
    if events == [] then 0
    else BlocksIn(events[..|events| - 1]) + if events[|events| - 1].Block? then 1 else 0
  }

  function BytesIn<H>(events: seq<Event<H>>): nat {
    if events == [] then 0
    else BytesIn(events[..|events| - 1]) + if events[|events| - 1].Block? then events[|events| - 1].size else 0
  }

  /** The blocks or bytes of these events reach a limit; zero is no limit. */
  predicate AtLimit<H>(maxBlocks: nat, maxBytes: nat, events: seq<Event<H>>) {
    (maxBlocks > 0 && BlocksIn(events) >= maxBlocks) || (maxBytes > 0 && BytesIn(events) >= maxBytes)
  }

  /** The requests so far and the queue are the header hashes in order of first
      appearance, so nothing is requested twice, dropped or reordered, and no more than
      the window is in flight. */
  ghost predicate InOrder<H>(window: int, p: Pool<H>, headers: seq<H>) {
    && p.seen == Elements(headers)
    && Flatten(p.getdata) + p.want == FirstSeen(headers, {})
    && p.inflight <= Elements(Flatten(p.getdata))
    && (p.inflight == {} || |p.inflight| <= window)
    && forall i :: 0 <= i < |p.getdata| ==> 0 < |p.getdata[i]| <= window
  }

  /** A queued hash is never in flight. */
  lemma QueuedIsNotInFlight<H>(window: int, p: Pool<H>, headers: seq<H>, i: nat)
    requires InOrder(window, p, headers) && i < |p.want|
    ensures p.want[i] !in p.inflight
  {
    hide FirstSeen;
    var requested := Flatten(p.getdata);
    FirstSeenProperties(headers, {});
    forall j | 0 <= j < |requested| ensures requested[j] != p.want[i] {
      assert (requested + p.want)[j] != (requested + p.want)[|requested| + i];
    }
  }

  lemma WantIsDistinct<H>(window: int, p: Pool<H>, headers: seq<H>)
    requires InOrder(window, p, headers)
    ensures Distinct(p.want) && Distinct(Flatten(p.getdata))
  {
    hide FirstSeen, Flatten, Elements;
    var requested := Flatten(p.getdata);
    FirstSeenProperties(headers, {});
    DistinctSplit(requested + p.want, |requested|);
    assert (requested + p.want)[|requested|..] == p.want && (requested + p.want)[..|requested|] == requested;
  }

  /** The hashes a top-up requests are all new to the window. */
  lemma BatchFits<H>(window: int, p: Pool<H>, headers: seq<H>, k: nat)
    requires InOrder(window, p, headers) && k <= |p.want|
    ensures |p.inflight + Elements(p.want[..k])| == |p.inflight| + k
  {
    hide FirstSeen, Flatten;
    var batch := p.want[..k];
    forall i | 0 <= i < k ensures batch[i] !in p.inflight {
      QueuedIsNotInFlight(window, p, headers, i);
    }
    WantIsDistinct(window, p, headers);
    ElementsSize(batch);
    assert p.inflight !! Elements(batch);
  }

  lemma ToppedKeeps<H>(window: int, p: Pool<H>, headers: seq<H>)
    requires InOrder(window, p, headers)
    ensures var r := Topped(window, p); InOrder(window, r, headers) && (r.want == [] || |r.inflight| >= window)
  {
    hide FirstSeen, Flatten, Elements;
    var k := Room(window, p);
    if k > 0 {
      var batch := p.want[..k];
      BatchFits(window, p, headers, k);
      FlattenAppend(p.getdata, batch);
      ElementsConcat(Flatten(p.getdata), batch);
      assert p.want == batch + p.want[k..];
    }
  }

  lemma QueuedKeeps<H>(window: int, p: Pool<H>, headers: seq<H>, hashes: seq<H>)
    requires InOrder(window, p, headers)
    ensures InOrder(window, Queued(p, hashes), headers + hashes)
  {
    hide FirstSeen, Flatten, Elements;
    FirstSeenConcat(headers, hashes, {});
    ElementsConcat(headers, hashes);
    assert {} + p.seen == p.seen;
    var more := FirstSeen(hashes, p.seen);
    assert Flatten(p.getdata) + (p.want + more) == Flatten(p.getdata) + p.want + more;
  }

  lemma FewerInFlight<H>(window: int, p: Pool<H>, headers: seq<H>, inflight: set<H>)
    requires InOrder(window, p, headers) && inflight <= p.inflight
    ensures InOrder(window, p.(inflight := inflight), headers)
  {
    hide FirstSeen, Flatten, Elements;
    var gone := p.inflight - inflight;
    assert p.inflight == inflight + gone;
  }

  lemma AfterKeeps<H>(window: int, p: Pool<H>, headers: seq<H>, e: Event<H>)
    requires InOrder(window, p, headers) && (p.want == [] || |p.inflight| >= window)
    ensures var r := After(window, p, e);
            InOrder(window, r, headers + HeadersOf(e)) && (r.want == [] || |r.inflight| >= window)
  {
    hide InOrder, Topped, Queued, Elements;
    assert headers + [] == headers;
    match e {
      case Headers(hashes) =>
        QueuedKeeps(window, p, headers, hashes);
        ToppedKeeps(window, Queued(p, hashes), headers + hashes);
      case Block(hash, _) =>
        FewerInFlight(window, p, headers, p.inflight - {hash});
        ToppedKeeps(window, p.(inflight := p.inflight - {hash}), headers);
      case NotFound(missing) =>
        FewerInFlight(window, p, headers, p.inflight - Elements(missing));
        ToppedKeeps(window, p.(inflight := p.inflight - Elements(missing)), headers);
      case Stall =>
        FewerInFlight(window, p, headers, {});
        ToppedKeeps(window, p.(inflight := {}), headers);
      case SocketTimeout =>
      case Other =>
    }
  }

  lemma {:induction false} RunKeeps<H>(window: int, events: seq<Event<H>>)
    ensures var p := RunPool(window, events);
            InOrder(window, p, HeadersIn(events)) && (p.want == [] || |p.inflight| >= window)
    decreases |events|
  {
    hide After, InOrder;
    if events == [] {
      NothingSeen<H>(window);
    } else {
      var init, e := events[..|events| - 1], events[|events| - 1];
      RunKeeps(window, init);
      AfterKeeps(window, RunPool(window, init), HeadersIn(init), e);
    }
  }

  lemma NothingSeen<H>(window: int)
    ensures InOrder<H>(window, Pool([], {}, {}, []), [])
  {}

  /** In every run at most the window is in flight, the queue has no duplicates and
      nothing that is in flight, no hash is requested twice, and requests and queue
      together are the header hashes in order of first appearance. The window is full
      whenever anything is queued. */
  lemma DownloadIsInOrder<H>(window: int, events: seq<Event<H>>)
    ensures var p := RunPool(window, events);
            && (p.inflight == {} || |p.inflight| <= window)
            && Distinct(p.want) && Elements(p.want) !! p.inflight
            && Distinct(Flatten(p.getdata))
            && Flatten(p.getdata) + p.want == FirstSeen(HeadersIn(events), {})
            && (p.want == [] || |p.inflight| >= window)
  {
    hide RunPool, HeadersIn, FirstSeen, Flatten;
    RunKeeps(window, events);
    var p := RunPool(window, events);
    WantIsDistinct(window, p, HeadersIn(events));
    forall i | 0 <= i < |p.want| ensures p.want[i] !in p.inflight {
      QueuedIsNotInFlight(window, p, HeadersIn(events), i);
    }
  }

  // ----- what is in flight

  /** The events after which a request is no longer waited for. */
  predicate Drops<H(==)>(e: Event<H>, h: H) {
    (e.Block? && e.hash == h) || (e.NotFound? && h in e.missing) || e.Stall?
  }

  function Requested<H>(p: Pool<H>): set<H> {
    Elements(Flatten(p.getdata))
  }

  /** The request for `h` goes out on event `i`. */
  ghost predicate AskedAt<H>(window: int, events: seq<Event<H>>, i: nat, h: H)
    requires i < |events|
  {
    h in Requested(RunPool(window, events[..i + 1])) && h !in Requested(RunPool(window, events[..i]))
  }

  /** A top-up brings into flight exactly what it requests. */
  lemma ToppedAdds<H>(window: int, p: Pool<H>, headers: seq<H>)
    requires InOrder(window, p, headers)
    ensures var r := Topped(window, p);
            Requested(p) <= Requested(r) && r.inflight == p.inflight + (Requested(r) - Requested(p))
  {
    hide FirstSeen, Flatten;
    var k := Room(window, p);
    if k > 0 {
      var batch := p.want[..k];
      FlattenAppend(p.getdata, batch);
      ElementsConcat(Flatten(p.getdata), batch);
      forall i | 0 <= i < k ensures batch[i] !in Requested(p) {
        QueuedIsNotRequested(window, p, headers, i);
      }
    }
  }

  lemma QueuedIsNotRequested<H>(window: int, p: Pool<H>, headers: seq<H>, i: nat)
    requires InOrder(window, p, headers) && i < |p.want|
    ensures p.want[i] !in Requested(p)
  {
    hide FirstSeen, Flatten;
    var requested := Flatten(p.getdata);
    FirstSeenProperties(headers, {});
    forall j | 0 <= j < |requested| ensures requested[j] != p.want[i] {
      assert (requested + p.want)[j] != (requested + p.want)[|requested| + i];
    }
  }

  /** One event: what it drops leaves, and what it requests comes in. */
  lemma EventMoves<H>(window: int, p: Pool<H>, headers: seq<H>, e: Event<H>, h: H)
    requires InOrder(window, p, headers)
    ensures var r := After(window, p, e);
            && Requested(p) <= Requested(r)
            && (h in r.inflight <==> (h in p.inflight && !Drops(e, h)) || (h in Requested(r) && h !in Requested(p)))
  {
    hide InOrder, Topped, FirstSeen, Flatten;
    match e {
      case Headers(hashes) =>
        QueuedKeeps(window, p, headers, hashes);
        ToppedAdds(window, Queued(p, hashes), headers + hashes);
      case Block(hash, _) =>
        FewerInFlight(window, p, headers, p.inflight - {hash});
        ToppedAdds(window, p.(inflight := p.inflight - {hash}), headers);
      case NotFound(missing) =>
        FewerInFlight(window, p, headers, p.inflight - Elements(missing));
        ToppedAdds(window, p.(inflight := p.inflight - Elements(missing)), headers);
      case Stall =>
        FewerInFlight(window, p, headers, {});
        ToppedAdds(window, p.(inflight := {}), headers);
      case SocketTimeout =>
      case Other =>
    }
  }

  /** In every run, what is in flight is exactly what was requested and neither received nor
      reported missing nor given up since. */
  lemma {:induction false} InFlightIff<H>(window: int, events: seq<Event<H>>, h: H)
    ensures h in RunPool(window, events).inflight <==>
              exists i :: && 0 <= i < |events| && AskedAt(window, events, i, h)
                          && forall j :: i < j < |events| ==> !Drops(events[j], h)
    decreases |events|
  {
    hide After, InOrder, Requested, Drops;
    if events != [] {
      var last := |events| - 1;
      var init, e := events[..last], events[last];
      assert events[..last + 1] == events;
      forall i | 0 <= i < last ensures AskedAt(window, events, i, h) <==> AskedAt(window, init, i, h) {
        assert init[..i] == events[..i] && init[..i + 1] == events[..i + 1];
      }
      InFlightIff(window, init, h);
      RunKeeps(window, init);
      EventMoves(window, RunPool(window, init), HeadersIn(init), e, h);
      if h in RunPool(window, events).inflight && !AskedAt(window, events, last, h) {
        var i :| 0 <= i < last && AskedAt(window, init, i, h) && forall j :: i < j < last ==> !Drops(init[j], h);
        assert AskedAt(window, events, i, h);
      }
    }
  }

  /** A block that was waited for makes room for exactly the next hash of the queue. */
  lemma BlockBringsNext<H>(window: int, events: seq<Event<H>>, hash: H, size: nat)
    requires hash in RunPool(window, events).inflight && RunPool(window, events).want != []
    ensures var p, q := RunPool(window, events), RunPool(window, events + [Block(hash, size)]);
            && q.inflight == p.inflight - {hash} + {p.want[0]} && hash != p.want[0]
            && q.want == p.want[1..] && q.getdata == p.getdata + [[p.want[0]]]
  {
    hide InOrder, Flatten, FirstSeen;
    var p, next := RunPool(window, events), events + [Block(hash, size)];
    assert next[..|events|] == events;
    RunKeeps(window, events);
    DownloadIsInOrder(window, events);
    QueuedIsNotInFlight(window, p, HeadersIn(events), 0);
    assert |p.inflight - {hash}| == window - 1;
    assert p.want[..1] == [p.want[0]];
  }

  // ----- the end of a run

  /** The last header message has come: one that is not full, or enough headers in all. */
  predicate HeadersEnd<H>(window: int, maxBlocks: nat, events: seq<Event<H>>) {
    if events == [] then false
    else
      var k := |events| - 1;
      || HeadersEnd(window, maxBlocks, events[..k])
      || (events[k].Headers?
          && (|events[k].hashes| < 2000 || (maxBlocks > 0 && |HeadersIn(events)| >= maxBlocks + window)))
  }

  /** Nothing is left to wait for. */
  ghost predicate Finished<H>(window: int, maxBlocks: nat, events: seq<Event<H>>) {
    var p := RunPool(window, events);
    HeadersEnd(window, maxBlocks, events) && p.want == [] && p.inflight == {}
  }

  // ----- the loop

  class Downloader<Hash(==)> {
    const window: int
    const maxBlocks: nat
    const maxBytes: nat
    var want: seq<Hash>
    var inflight: set<Hash>
    var seenHeaders: set<Hash>
    var getdata: seq<seq<Hash>>
    var headersDone: bool
    var nHeaders: nat
    var nBlocks: nat
    var nBytes: nat

    constructor (window: int, maxBlocks: nat, maxBytes: nat)
      ensures State() == Pool([], {}, {}, []) && !headersDone && nHeaders == nBlocks == nBytes == 0
      ensures this.window == window && this.maxBlocks == maxBlocks && this.maxBytes == maxBytes
    {
      this.window, this.maxBlocks, this.maxBytes := window, maxBlocks, maxBytes;
      want, inflight, seenHeaders, getdata := [], {}, {}, [];
      headersDone, nHeaders, nBlocks, nBytes := false, 0, 0, 0;
    }

    ghost function State(): Pool<Hash>
      reads this
    {
      Pool(want, inflight, seenHeaders, getdata)
    }

    /** The inner loop. Its skip of a hash in flight is never taken. */
    method TakeBatch(ghost headers: seq<Hash>) returns (batch: seq<Hash>)
      requires InOrder(window, State(), headers) && |inflight| < window
      modifies this`want
      ensures var k := Room(window, old(State())); batch == old(want)[..k] && want == old(want)[k..]
    {
      hide InOrder;
      ghost var p := State();
      batch := [];
      while want != [] && |batch| + |inflight| < window
        invariant batch + want == p.want
        invariant |batch| + |inflight| <= window
      {
        var h := want[0];
        QueuedIsNotInFlight(window, p, headers, |batch|);
        want := want[1..];
        if h in inflight {
          continue;
        }
        batch := batch + [h];
      }
    }

    method TopUp(ghost headers: seq<Hash>)
      requires InOrder(window, State(), headers)
      modifies this`want, this`inflight, this`getdata
      ensures State() == Topped(window, old(State()))
    {
      hide InOrder, Elements;
      ghost var p := State();
      BatchFits(window, p, headers, Room(window, p));
      while |inflight| < window && want != []
        invariant State() == p || (State() == Topped(window, p) && (want == [] || |inflight| >= window))
        decreases |want|
      {
        var batch := TakeBatch(headers);
        if batch == [] {
          break;
        }
        inflight := inflight + Elements(batch);
        getdata := getdata + [batch];
      }
    }

    method QueueHeaders(hashes: seq<Hash>)
      modifies this`want, this`seenHeaders
      ensures State() == Queued(old(State()), hashes)
    {
      hide FirstSeen, Elements;
      ghost var p := State();
      QueuedNothing(p, hashes[..0]);
      for i := 0 to |hashes|
        invariant State() == Queued(p, hashes[..i])
      {
        QueuedNext(p, hashes[..i], hashes[i]);
        assert hashes[..i + 1] == hashes[..i] + [hashes[i]];
        if hashes[i] !in seenHeaders {
          seenHeaders := seenHeaders + {hashes[i]};
          want := want + [hashes[i]];
        }
      }
      assert hashes[..|hashes|] == hashes;
    }

    method OnHeaders(hashes: seq<Hash>, ghost headers: seq<Hash>)
      requires InOrder(window, State(), headers)
      modifies this
      ensures State() == After(window, old(State()), Headers(hashes))
      ensures nHeaders == old(nHeaders) + |hashes| && nBlocks == old(nBlocks) && nBytes == old(nBytes)
      ensures headersDone <==>
                || old(headersDone) || |hashes| < MAX_HEADERS
                || (maxBlocks > 0 && nHeaders >= maxBlocks + window)
    {
      hide InOrder, Queued, Topped;
      QueuedKeeps(window, State(), headers, hashes);
      nHeaders := nHeaders + |hashes|;
      QueueHeaders(hashes);
      if !(|hashes| >= MAX_HEADERS && (maxBlocks == 0 || nHeaders < maxBlocks + window)) {
        headersDone := true;
      }
      TopUp(headers + hashes);
    }

    method OnBlock(hash: Hash, size: nat, ghost headers: seq<Hash>)
      requires InOrder(window, State(), headers)
      modifies this`want, this`inflight, this`getdata, this`nBlocks, this`nBytes
      ensures State() == After(window, old(State()), Block(hash, size))
      ensures nBlocks == old(nBlocks) + 1 && nBytes == old(nBytes) + size
    {
      hide InOrder, Topped;
      FewerInFlight(window, State(), headers, inflight - {hash});
      inflight := inflight - {hash};
      nBlocks, nBytes := nBlocks + 1, nBytes + size;
      TopUp(headers);
    }

    method OnNotFound(missing: seq<Hash>, ghost headers: seq<Hash>)
      requires InOrder(window, State(), headers)
      modifies this`want, this`inflight, this`getdata
      ensures State() == After(window, old(State()), NotFound(missing))
    {
      hide InOrder, Topped, Elements;
      FewerInFlight(window, State(), headers, inflight - Elements(missing));
      NoElements(missing[..0]);
      for i := 0 to |missing|
        invariant State() == old(State()).(inflight := old(inflight) - Elements(missing[..i]))
      {
        AppendElement(missing[..i], missing[i]);
        assert missing[..i + 1] == missing[..i] + [missing[i]];
        inflight := inflight - {missing[i]};
      }
      assert missing[..|missing|] == missing;
      TopUp(headers);
    }

    method OnStall(ghost headers: seq<Hash>)
      requires InOrder(window, State(), headers)
      modifies this`want, this`inflight, this`getdata
      ensures State() == After(window, old(State()), Stall)
    {
      hide InOrder, Topped;
      FewerInFlight(window, State(), headers, {});
      inflight := {};
      TopUp(headers);
    }
  }

  lemma QueuedNothing<H>(p: Pool<H>, hashes: seq<H>)
    requires hashes == []
    ensures Queued(p, hashes) == p
  {}

  lemma QueuedNext<H>(p: Pool<H>, hashes: seq<H>, h: H)
    ensures var q := Queued(p, hashes);
            Queued(p, hashes + [h]) == if h in q.seen then q else q.(want := q.want + [h], seen := q.seen + {h})
  {
    FirstSeenConcat(hashes, [h], p.seen);
    AppendElement(hashes, h);
    var q := Queued(p, hashes);
    assert FirstSeen([h], q.seen) == if h in q.seen then [] else [h] by {
      assert [h][1..] == [];
    }
  }

  /** The main loop over any run of events does what `RunPool` says and stops at the first
      event that reaches a limit or after which nothing is left to wait for. In the latter
      case every header hash it was told of has been requested. */
  method Run<T(==)>(window: int, maxBlocks: nat, maxBytes: nat, events: seq<Event<T>>)
    returns (d: Downloader<T>, outcome: Outcome, handled: nat)
    ensures fresh(d) && handled <= |events| && d.State() == RunPool(window, events[..handled])
    ensures d.nBlocks == BlocksIn(events[..handled]) && d.nBytes == BytesIn(events[..handled])
    ensures outcome.LimitReached? <==> AtLimit(maxBlocks, maxBytes, events[..handled])
    ensures outcome.Exhausted? <==>
              && !AtLimit(maxBlocks, maxBytes, events[..handled])
              && Finished(window, maxBlocks, events[..handled])
    ensures forall k :: 0 <= k < handled ==>
              !AtLimit(maxBlocks, maxBytes, events[..k]) && !Finished(window, maxBlocks, events[..k])
    ensures outcome.Exhausted? ==>
              && d.headersDone && d.inflight == {}
              && Flatten(d.getdata) == FirstSeen(HeadersIn(events[..handled]), {})
    ensures outcome.Disconnected? ==> handled == |events|
  {
    hide After, InOrder, FirstSeen, Flatten, HeadersIn, BlocksIn, BytesIn, HeadersEnd;
    d := new Downloader(window, maxBlocks, maxBytes);
    outcome, handled := Disconnected, 0;
    NoEvents<T>(window, maxBlocks);
    while true
      invariant fresh(d) && d.window == window && d.maxBlocks == maxBlocks && handled <= |events|
      invariant d.State() == RunPool(window, events[..handled])
      invariant d.nBlocks == BlocksIn(events[..handled]) && d.nBytes == BytesIn(events[..handled])
      invariant d.nHeaders == |HeadersIn(events[..handled])|
      invariant d.headersDone <==> HeadersEnd(window, maxBlocks, events[..handled])
      invariant forall k :: 0 <= k < handled ==>
                  !AtLimit(maxBlocks, maxBytes, events[..k]) && !Finished(window, maxBlocks, events[..k])
      decreases |events| - handled
    {
      if (maxBlocks > 0 && d.nBlocks >= maxBlocks) || (maxBytes > 0 && d.nBytes >= maxBytes) {
        outcome := LimitReached;
        break;
      }
      if d.headersDone && d.want == [] && d.inflight == {} {
        outcome := Exhausted;
        break;
      }
      if handled == |events| {
        break;
      }
      var e := events[handled];
      ghost var headers := HeadersIn(events[..handled]);
      RunKeeps(window, events[..handled]);
      NextEvent(window, maxBlocks, events, handled);
      handled := handled + 1;
      match e {
        case Headers(hashes) => d.OnHeaders(hashes, headers);
        case Block(hash, size) => d.OnBlock(hash, size, headers);
        case NotFound(missing) => d.OnNotFound(missing, headers);
        case Stall => d.OnStall(headers);
        case SocketTimeout => Idle(window, d.State(), e);
        case Other => Idle(window, d.State(), e);
      }
    }
    DownloadIsInOrder(window, events[..handled]);
    assert d.want == [] ==> Flatten(d.getdata) + d.want == Flatten(d.getdata);
  }

  lemma NoEvents<H>(window: int, maxBlocks: nat)
    ensures BlocksIn<H>([]) == 0 && BytesIn<H>([]) == 0 && |HeadersIn<H>([])| == 0
    ensures !HeadersEnd<H>(window, maxBlocks, [])
  {}

  lemma NextEvent<H>(window: int, maxBlocks: nat, events: seq<Event<H>>, i: nat)
    requires i < |events|
    ensures var now, next, e := events[..i], events[..i + 1], events[i];
            && next[..i] == now
            && BlocksIn(next) == BlocksIn(now) + (if e.Block? then 1 else 0)
            && BytesIn(next) == BytesIn(now) + (if e.Block? then e.size else 0)
            && |HeadersIn(next)| == |HeadersIn(now)| + |HeadersOf(e)|
            && (HeadersEnd(window, maxBlocks, next) <==>
                  || HeadersEnd(window, maxBlocks, now)
                  || (e.Headers? && (|e.hashes| < MAX_HEADERS
                                     || (maxBlocks > 0 && |HeadersIn(next)| >= maxBlocks + window))))
  {
    assert events[..i + 1][..i] == events[..i];
  }

  lemma Idle<H>(window: int, p: Pool<H>, e: Event<H>)
    requires e.SocketTimeout? || e.Other?
    ensures After(window, p, e) == p
  {}
}
