/** Shape-0 script kernel inputs: the Python encoder `encode_shape0` in
    scripts/script-kernel-seeds.py, lines 220-239, against the Rust decoder in
    fuzz/src/script_review.rs, lines 368-419 and 493-511. */
module SeedCodec {
  import opened ByteStrings

  const MAX_PUSH: nat := 10_000
  const MAX_WIT: nat := 32
  const MAX_LEN: nat := 2000

  /** The one-input spend a shape-0 payload describes. */
  datatype Spend = Spend(version: int, sequence: nat, lockTime: nat, amount: nat,
                         sig: Bytes, pk: Bytes, wit: seq<Bytes>)

  datatype Seed = Seed(flags: nat, spend: Spend)

  // ----- encoding

  function FieldWire(x: Bytes): (r: Bytes)
    ensures |r| == 2 + |x|
  {
    LE(|x|, 2) + x
  }

  function ItemsWire(items: seq<Bytes>): Bytes {
    if items == [] then [] else FieldWire(items[0]) + ItemsWire(items[1..])
  }

  function HeaderWire(amount: nat): (r: Bytes)
    ensures |r| == 20
  {
    LE(1, 4) + LE(0xFFFF_FFFF, 4) + LE(0, 4) + LE(amount, 8)
  }

  function PayloadWire(amount: nat, sig: Bytes, pk: Bytes, wit: seq<Bytes>): Bytes {
    HeaderWire(amount) + FieldWire(sig) + FieldWire(pk) + LE(|wit|, 2) + ItemsWire(wit)
  }

  function SeedWire(flags: int, amount: nat, sig: Bytes, pk: Bytes, wit: seq<Bytes>): Bytes {
    [0xFE] + LE(flags % 0x1_0000_0000, 4) + [0] + PayloadWire(amount, sig, pk, wit)
  }

  /** `None` from the encoder, or the OverflowError of an amount of 2^63 and more. */
  datatype Encoding = Encoded(bytes: Bytes) | Refused | Overflow

  predicate WithinLimits(sig: Bytes, pk: Bytes, wit: seq<Bytes>) {
    && |sig| <= 10_000 && |pk| <= 10_000 && |wit| <= 32
    && forall i :: 0 <= i < |wit| ==> |wit[i]| <= 10_000
  }

  method EncodeShape0(flags: int, sig: Bytes, pk: Bytes, wit: seq<Bytes>, amount: int) returns (r: Encoding)
    ensures r.Refused? <==> amount < 0 || !WithinLimits(sig, pk, wit)
                            || (amount < 0x8000_0000_0000_0000 && |SeedWire(flags, amount, sig, pk, wit)| > 2000)
    ensures r.Overflow? <==> amount >= 0x8000_0000_0000_0000 && WithinLimits(sig, pk, wit)
    ensures r.Encoded? ==> amount >= 0 && r.bytes == SeedWire(flags, amount, sig, pk, wit)
  {
    hide LE, FieldWire, HeaderWire;
    if amount < 0 || |sig| > MAX_PUSH || |pk| > MAX_PUSH || |wit| > MAX_WIT {
      return Refused;
    }
    if exists i :: 0 <= i < |wit| && |wit[i]| > MAX_PUSH {
      return Refused;
    }
    var out := [0xFE] + LE(flags % 0x1_0000_0000, 4) + [0];
    if amount >= 0x8000_0000_0000_0000 {
      return Overflow;
    }
    out := out + HeaderWire(amount) + FieldWire(sig) + FieldWire(pk) + LE(|wit|, 2);
    ghost var head := out;
    NoItems(wit);
    for i := 0 to |wit|
      invariant out + ItemsWire(wit[i..]) == head + ItemsWire(wit)
    {
      NextItem(wit, i);
      assert out + (FieldWire(wit[i]) + ItemsWire(wit[i + 1..])) == out + FieldWire(wit[i]) + ItemsWire(wit[i + 1..]);
      out := out + FieldWire(wit[i]);
    }
    assert out == head + ItemsWire(wit);
    assert out == SeedWire(flags, amount, sig, pk, wit);
    if |out| > MAX_LEN {
      return Refused;
    }
    return Encoded(out);
  }

  lemma NoItems(items: seq<Bytes>)
    ensures items[0..] == items && ItemsWire(items[|items|..]) == []
  {}

  lemma NextItem(items: seq<Bytes>, i: nat)
    requires i < |items|
    ensures ItemsWire(items[i..]) == FieldWire(items[i]) + ItemsWire(items[i + 1..])
  {
    assert items[i..][1..] == items[i + 1..];
  }

  // ----- decoding

  /** A value and the bytes after it. */
  datatype Parsed<+T> = Parsed(value: T, rest: Bytes)

  function TakeU16(s: Bytes): Option<Parsed<nat>> {
    if |s| < 2 then None else Some(Parsed(FromLE(s[..2]), s[2..]))
  }

  /** A two-byte length of at most 10000 and that many bytes. */
  function TakeField(s: Bytes): Option<Parsed<Bytes>> {
    match TakeU16(s)
    case None => None
    case Some(n) =>
      if n.value > MAX_PUSH || |n.rest| < n.value then None
      else Some(Parsed(n.rest[..n.value], n.rest[n.value..]))
  }

  function TakeItems(s: Bytes, n: nat): Option<seq<Bytes>>
    decreases n
  {
    if n == 0 then Some([])
    else
      match TakeField(s)
      case None => None
      case Some(item) =>
        match TakeItems(item.rest, n - 1)
        case None => None
        case Some(items) => Some([item.value] + items)
  }

  function Signed(v: nat, limit: nat): int {
    if v < limit then v else v - 2 * limit
  }

  /** `raw_spend`. Bytes after the last witness item are not looked at. */
  function RawSpend(payload: Bytes): Option<Spend> {
    if |payload| < 20 then None
    else
      var amount := Signed(FromLE(payload[12..20]), 0x8000_0000_0000_0000);
      if amount < 0 then None
      else
        match TakeField(payload[20..])
        case None => None
        case Some(sig) =>
          match TakeField(sig.rest)
          case None => None
          case Some(pk) =>
            match TakeU16(pk.rest)
            case None => None
            case Some(count) =>
              if count.value > MAX_WIT then None
              else
                match TakeItems(count.rest, count.value)
                case None => None
                case Some(items) =>
                  Some(Spend(Signed(FromLE(payload[0..4]), 0x8000_0000), FromLE(payload[4..8]),
                             FromLE(payload[8..12]), amount, sig.value, pk.value, items))
  }

  /** `compare_kernel_bytes` up to the point where the spend of a shape-0 input is built. */
  function DecodeSeed(data: Bytes): Option<Seed> {
    if |data| < 6 || data[0] != 0xFE || data[5] != 0 then None
    else
      match RawSpend(data[6..])
      case None => None
      case Some(spend) => Some(Seed(FromLE(data[1..5]), spend))
  }

  method ReadU16(data: Bytes, at: nat) returns (r: Option<nat>, next: nat)
    requires at <= |data|
    ensures next <= |data| && (r.None? ==> TakeU16(data[at..]).None?)
    ensures r.Some? ==> TakeU16(data[at..]) == Some(Parsed(r.value, data[next..]))
  {
    if at + 2 > |data| {
      return None, at;
    }
    SliceOfSlice(data, at, |data|, 0, 2);
    SliceOfSlice(data, at, |data|, 2, |data| - at);
    assert data[at..|data|] == data[at..] && data[at + 2..|data|] == data[at + 2..];
    return Some(FromLE(data[at..at + 2])), at + 2;
  }

  method ReadField(data: Bytes, at: nat) returns (r: Option<Bytes>, next: nat)
    requires at <= |data|
    ensures next <= |data| && (r.None? ==> TakeField(data[at..]).None?)
    ensures r.Some? ==> TakeField(data[at..]) == Some(Parsed(r.value, data[next..]))
  {
    hide FromLE, TakeU16;
    var n, from := ReadU16(data, at);
    if n.None? || n.value > MAX_PUSH || from + n.value > |data| {
      return None, at;
    }
    SliceOfSlice(data, from, |data|, 0, n.value);
    SliceOfSlice(data, from, |data|, n.value, |data| - from);
    assert data[from..|data|] == data[from..] && data[from + n.value..|data|] == data[from + n.value..];
    return Some(data[from..from + n.value]), from + n.value;
  }

  method ReadItems(data: Bytes, at: nat, n: nat) returns (r: Option<seq<Bytes>>)
    requires at <= |data|
    ensures r == TakeItems(data[at..], n)
  {
    hide TakeField;
    var items: seq<Bytes>, pos: nat := [], at;
    PrependNothing(TakeItems(data[at..], n));
    for i := 0 to n
      invariant pos <= |data|
      invariant TakeItems(data[at..], n) == Prepend(items, TakeItems(data[pos..], n - i))
    {
      var item, next := ReadField(data, pos);
      if item.None? {
        return None;
      }
      PrependNext(items, item.value, TakeItems(data[next..], n - i - 1));
      items := items + [item.value];
      pos := next;
    }
    assert items + [] == items;
    return Some(items);
  }

  function Prepend(items: seq<Bytes>, rest: Option<seq<Bytes>>): Option<seq<Bytes>> {
    if rest.None? then None else Some(items + rest.value)
  }

  lemma PrependNothing(rest: Option<seq<Bytes>>)
    ensures Prepend([], rest) == rest
  {
    assert rest.Some? ==> [] + rest.value == rest.value;
  }

  lemma PrependNext(items: seq<Bytes>, item: Bytes, rest: Option<seq<Bytes>>)
    ensures Prepend(items + [item], rest) == Prepend(items, if rest.None? then None else Some([item] + rest.value))
  {
    if rest.Some? {
      assert items + [item] + rest.value == items + ([item] + rest.value);
    }
  }

  /** The cursor-driven decoder. */
  method DecodeRawSpend(payload: Bytes) returns (r: Option<Spend>)
    ensures r == RawSpend(payload)
  {
    hide FromLE, TakeU16, TakeField, TakeItems;
    if |payload| < 20 {
      return None;
    }
    var amount := Signed(FromLE(payload[12..20]), 0x8000_0000_0000_0000);
    if amount < 0 {
      return None;
    }
    var at := 20;
    var sig, pk, count;
    sig, at := ReadField(payload, at);
    if sig.None? {
      return None;
    }
    pk, at := ReadField(payload, at);
    if pk.None? {
      return None;
    }
    count, at := ReadU16(payload, at);
    if count.None? || count.value > MAX_WIT {
      return None;
    }
    var items := ReadItems(payload, at, count.value);
    if items.None? {
      return None;
    }
    return Some(Spend(Signed(FromLE(payload[0..4]), 0x8000_0000), FromLE(payload[4..8]),
                      FromLE(payload[8..12]), amount, sig.value, pk.value, items.value));
  }

  // ----- round trip

  lemma TakesU16(n: nat, rest: Bytes)
    requires n < 0x1_0000
    ensures TakeU16(LE(n, 2) + rest) == Some(Parsed(n, rest))
  {
    hide LE, FromLE;
    assert Pow256(2) == 0x1_0000;
    FromLEOfLE(n, 2);
    assert (LE(n, 2) + rest)[..2] == LE(n, 2) && (LE(n, 2) + rest)[2..] == rest;
  }

  lemma TakesField(x: Bytes, rest: Bytes)
    requires |x| <= MAX_PUSH
    ensures TakeField(FieldWire(x) + rest) == Some(Parsed(x, rest))
  {
    hide LE, TakeU16;
    assert FieldWire(x) + rest == LE(|x|, 2) + (x + rest);
    TakesU16(|x|, x + rest);
    assert (x + rest)[..|x|] == x && (x + rest)[|x|..] == rest;
  }

  lemma {:induction false} TakesItems(items: seq<Bytes>, tail: Bytes)
    requires forall i :: 0 <= i < |items| ==> |items[i]| <= MAX_PUSH
    ensures TakeItems(ItemsWire(items) + tail, |items|) == Some(items)
  {
    hide TakeField, FieldWire;
    if items != [] {
      var rest := ItemsWire(items[1..]) + tail;
      assert ItemsWire(items) + tail == FieldWire(items[0]) + rest;
      TakesField(items[0], rest);
      TakesItems(items[1..], tail);
      assert items == [items[0]] + items[1..];
    }
  }

  /** The wire form of any spend. */
  function HeadWire(s: Spend): (r: Bytes)
    ensures |r| == 20
  {
    LE(s.version % 0x1_0000_0000, 4) + LE(s.sequence, 4) + LE(s.lockTime, 4) + LE(s.amount, 8)
  }

  function SpendWire(s: Spend): Bytes {
    HeadWire(s) + FieldWire(s.sig) + FieldWire(s.pk) + LE(|s.wit|, 2) + ItemsWire(s.wit)
  }

  /** The spends a payload can hold. */
  predicate IsSpend(s: Spend) {
    && -0x8000_0000 <= s.version < 0x8000_0000 && s.sequence < 0x1_0000_0000 && s.lockTime < 0x1_0000_0000
    && s.amount < 0x8000_0000_0000_0000 && WithinLimits(s.sig, s.pk, s.wit)
  }

  lemma Widths()
    ensures Pow256(2) == 0x1_0000 && Pow256(4) == 0x1_0000_0000 && Pow256(8) == 0x1_0000_0000_0000_0000
  {}

  lemma TakesHead(s: Spend, rest: Bytes)
    requires IsSpend(s)
    ensures var p := HeadWire(s) + rest;
            && Signed(FromLE(p[0..4]), 0x8000_0000) == s.version
            && FromLE(p[4..8]) == s.sequence && FromLE(p[8..12]) == s.lockTime
            && Signed(FromLE(p[12..20]), 0x8000_0000_0000_0000) == s.amount && p[20..] == rest
  {
    hide LE, FromLE, Pow256, WithinLimits;
    Widths();
    var version := s.version % 0x1_0000_0000;
    FromLEOfLE(version, 4);
    FromLEOfLE(s.sequence, 4);
    FromLEOfLE(s.lockTime, 4);
    FromLEOfLE(s.amount, 8);
    var p := HeadWire(s) + rest;
    assert p[0..4] == LE(version, 4) && p[4..8] == LE(s.sequence, 4);
    assert p[8..12] == LE(s.lockTime, 4) && p[12..20] == LE(s.amount, 8);
  }

  /** A payload that begins with a spend's wire form is that spend, whatever follows. */
  lemma WireDecodes(s: Spend, tail: Bytes)
    requires IsSpend(s)
    ensures RawSpend(SpendWire(s) + tail) == Some(s)
  {
    hide LE, FromLE, TakeField, TakeU16, TakeItems, FieldWire, HeadWire, ItemsWire, Signed;
    var items := ItemsWire(s.wit) + tail;
    var afterPk := LE(|s.wit|, 2) + items;
    var afterSig := FieldWire(s.pk) + afterPk;
    var body := FieldWire(s.sig) + afterSig;
    assert SpendWire(s) + tail == HeadWire(s) + body;
    TakesHead(s, body);
    TakesField(s.sig, afterSig);
    TakesField(s.pk, afterPk);
    TakesU16(|s.wit|, items);
    TakesItems(s.wit, tail);
  }

  lemma TakenU16(s: Bytes)
    requires TakeU16(s).Some?
    ensures var n := TakeU16(s).value; n.value < 0x1_0000 && s == LE(n.value, 2) + n.rest
  {
    hide LE, FromLE, Pow256;
    Widths();
    FromLEBound(s[..2]);
    LEOfFromLE(s[..2]);
    assert s == s[..2] + s[2..];
  }

  lemma TakenField(s: Bytes)
    requires TakeField(s).Some?
    ensures var x := TakeField(s).value; |x.value| <= MAX_PUSH && s == FieldWire(x.value) + x.rest
  {
    hide LE, TakeU16;
    TakenU16(s);
    var n := TakeU16(s).value;
    assert n.rest == n.rest[..n.value] + n.rest[n.value..];
  }

  lemma {:induction false} TakenItems(s: Bytes, n: nat)
    requires TakeItems(s, n).Some?
    ensures var items := TakeItems(s, n).value;
            |items| == n && (forall i :: 0 <= i < n ==> |items[i]| <= MAX_PUSH) && ItemsWire(items) <= s
    decreases n
  {
    hide TakeField, FieldWire;
    if n > 0 {
      TakenField(s);
      var item := TakeField(s).value;
      TakenItems(item.rest, n - 1);
      var items := TakeItems(item.rest, n - 1).value;
      assert ([item.value] + items)[1..] == items;
    }
  }

  lemma TakenHead(payload: Bytes, s: Spend)
    requires |payload| >= 20
    requires s.version == Signed(FromLE(payload[0..4]), 0x8000_0000)
    requires s.sequence == FromLE(payload[4..8]) && s.lockTime == FromLE(payload[8..12])
    requires s.amount == Signed(FromLE(payload[12..20]), 0x8000_0000_0000_0000)
    ensures payload == HeadWire(s) + payload[20..]
    ensures -0x8000_0000 <= s.version < 0x8000_0000 && s.sequence < 0x1_0000_0000 && s.lockTime < 0x1_0000_0000
    ensures s.amount < 0x8000_0000_0000_0000
  {
    hide LE, FromLE, Pow256;
    Widths();
    var a, b, c, d := payload[0..4], payload[4..8], payload[8..12], payload[12..20];
    FromLEBound(a);
    FromLEBound(b);
    FromLEBound(c);
    FromLEBound(d);
    LEOfFromLE(a);
    LEOfFromLE(b);
    LEOfFromLE(c);
    LEOfFromLE(d);
    assert s.version % 0x1_0000_0000 == FromLE(a);
    assert payload == a + b + c + d + payload[20..];
  }

  /** A payload decodes to a spend exactly when it begins with that spend's own wire form. */
  lemma DecodesIffWire(payload: Bytes, s: Spend)
    ensures RawSpend(payload) == Some(s) <==> IsSpend(s) && SpendWire(s) <= payload
  {
    hide LE, FromLE, TakeField, TakeU16, TakeItems, FieldWire, HeadWire, ItemsWire, Signed, IsSpend;
    if IsSpend(s) && SpendWire(s) <= payload {
      WireDecodes(s, payload[|SpendWire(s)|..]);
      assert SpendWire(s) + payload[|SpendWire(s)|..] == payload;
    }
    if RawSpend(payload) == Some(s) {
      DecodedWire(payload, s);
    }
  }

  lemma DecodedWire(payload: Bytes, s: Spend)
    requires RawSpend(payload) == Some(s)
    ensures IsSpend(s) && SpendWire(s) <= payload
  {
    hide LE, FromLE, TakeField, TakeU16, TakeItems, FieldWire, HeadWire, ItemsWire, Signed;
    TakenHead(payload, s);
    TakenField(payload[20..]);
    var sig := TakeField(payload[20..]).value;
    TakenField(sig.rest);
    var pk := TakeField(sig.rest).value;
    TakenU16(pk.rest);
    var count := TakeU16(pk.rest).value;
    TakenItems(count.rest, count.value);
    var tail := count.rest[|ItemsWire(s.wit)|..];
    assert count.rest == ItemsWire(s.wit) + tail;
    assert payload == SpendWire(s) + tail;
  }

  lemma PayloadRoundTrip(amount: nat, sig: Bytes, pk: Bytes, wit: seq<Bytes>)
    requires amount < 0x8000_0000_0000_0000 && WithinLimits(sig, pk, wit)
    ensures RawSpend(PayloadWire(amount, sig, pk, wit))
         == Some(Spend(1, 0xFFFF_FFFF, 0, amount, sig, pk, wit))
  {
    hide LE, FieldWire, ItemsWire, RawSpend, WithinLimits;
    var s := Spend(1, 0xFFFF_FFFF, 0, amount, sig, pk, wit);
    assert SpendWire(s) + [] == PayloadWire(amount, sig, pk, wit);
    WireDecodes(s, []);
  }

  /** Whatever the encoder emits, the decoder reads back: the flags word, version 1,
      maximal sequence, locktime 0 and exactly the given amount, scripts and witness. */
  lemma SeedRoundTrip(flags: int, amount: nat, sig: Bytes, pk: Bytes, wit: seq<Bytes>)
    requires amount < 0x8000_0000_0000_0000 && WithinLimits(sig, pk, wit)
    ensures DecodeSeed(SeedWire(flags, amount, sig, pk, wit))
         == Some(Seed(flags % 0x1_0000_0000, Spend(1, 0xFFFF_FFFF, 0, amount, sig, pk, wit)))
  {
    hide LE, FromLE, RawSpend, PayloadWire;
    var word := flags % 0x1_0000_0000;
    var data := SeedWire(flags, amount, sig, pk, wit);
    assert data[1..5] == LE(word, 4) && data[6..] == PayloadWire(amount, sig, pk, wit);
    assert Pow256(4) == 0x1_0000_0000;
    FromLEOfLE(word, 4);
    PayloadRoundTrip(amount, sig, pk, wit);
  }
}
