/** The BIP 324 wire format of scripts/ibd-serve-bench.py, lines 590-659, on values:
    packets, message framing, the garbage scan and whole sessions. */
module Wire {
  import opened ByteStrings
  import opened Aead
  import opened FsCiphers

  // ----- packets

  /** Both ciphers of one direction. */
  datatype Half = Half(l: LengthCipher, p: PacketCipher)

  function NextHalf(f: BlockFn, h: Half, aad: Bytes): Half {
    Half(AfterChunk(f, h.l, 3), AfterPacket(f, h.p, aad))
  }

  /** The largest contents that the three-byte length can carry, plus one. */
  const CONTENTS_LIMIT: nat := 0x100_0000

  /** A packet whose header byte is `header`. */
  function SealedPacket(f: BlockFn, h: Half, aad: Bytes, header: Byte, contents: Bytes): (r: Bytes)
    ensures |r| == 20 + |contents|
  {
    CryptChunk(f, h.l, LE(|contents|, 3)) + SealPacket(f, h.p, aad, [header] + contents)
  }

  function EncPacket(f: BlockFn, h: Half, aad: Bytes, ignore: bool, contents: Bytes): (r: Bytes)
    ensures |r| == 20 + |contents|
  {
    SealedPacket(f, h, aad, if ignore then 128 else 0, contents)
  }

  datatype Decoded = Packet(contents: Bytes, ignore: bool, rest: Bytes) | Short | Forged

  /** The length in the first three bytes of the stream. */
  function PacketLength(f: BlockFn, h: Half, stream: Bytes): nat
    requires |stream| >= 3
  {
    FromLE(CryptChunk(f, h.l, stream[..3]))
  }

  function DecPacket(f: BlockFn, h: Half, aad: Bytes, stream: Bytes): (r: Decoded)
    ensures r.Packet? ==> |r.rest| + 20 + |r.contents| == |stream|
  {
    if |stream| < 3 then Short
    else
      var n := PacketLength(f, h, stream);
      if |stream| < 20 + n then Short
      else
        var pt := OpenPacket(f, h.p, aad, stream[3..20 + n]);
        if pt.None? then Forged
        else Packet(pt.value[1..], pt.value[0] >= 128, stream[20 + n..])
  }

  lemma LimitIsThreeBytes()
    ensures Pow256(3) == CONTENTS_LIMIT
  {}

  lemma LengthRoundTrip(f: BlockFn, c: LengthCipher, n: nat)
    requires n < CONTENTS_LIMIT
    ensures FromLE(CryptChunk(f, c, CryptChunk(f, c, LE(n, 3)))) == n
  {
    hide CryptChunk;
    LimitIsThreeBytes();
    CryptChunkCancel(f, c, LE(n, 3));
    FromLEOfLE(n, 3);
  }

  /** A packet decodes, from the state it was sealed in, to what was sealed. */
  lemma DecodesSealed(f: BlockFn, h: Half, aad: Bytes, header: Byte, contents: Bytes, rest: Bytes)
    requires |contents| < CONTENTS_LIMIT
    ensures DecPacket(f, h, aad, SealedPacket(f, h, aad, header, contents) + rest)
         == Packet(contents, header >= 128, rest)
  {
    hide CryptChunk, Seal, Open, LE, FromLE, PacketNonce;
    var n := |contents|;
    var prefix, body := CryptChunk(f, h.l, LE(n, 3)), SealPacket(f, h.p, aad, [header] + contents);
    var stream := prefix + body + rest;
    assert stream == SealedPacket(f, h, aad, header, contents) + rest;
    assert stream[..3] == prefix && stream[3..20 + n] == body && stream[20 + n..] == rest;
    LengthRoundTrip(f, h.l, n);
    OpenIffSealed(f, h.p.key, PacketNonce(h.p.n), aad, body, [header] + contents);
    assert ([header] + contents)[1..] == contents;
  }

  /** The stream begins with a packet sealed in this state under this AAD. */
  ghost predicate BeginsSealed(f: BlockFn, h: Half, aad: Bytes, stream: Bytes,
                               contents: Bytes, ignore: bool, rest: Bytes)
  {
    && |contents| < CONTENTS_LIMIT
    && exists header: Byte ::
         (header >= 128 <==> ignore) && stream == SealedPacket(f, h, aad, header, contents) + rest
  }

  lemma AcceptedWasSealed(f: BlockFn, h: Half, aad: Bytes, stream: Bytes)
    requires DecPacket(f, h, aad, stream).Packet?
    ensures var r := DecPacket(f, h, aad, stream);
            BeginsSealed(f, h, aad, stream, r.contents, r.ignore, r.rest)
  {
    hide CryptChunk, Seal, Open, LE, FromLE, PacketNonce;
    var prefix, n := stream[..3], PacketLength(f, h, stream);
    var body := stream[3..20 + n];
    var pt := OpenPacket(f, h.p, aad, body).value;
    OpenIffSealed(f, h.p.key, PacketNonce(h.p.n), aad, body, pt);
    CryptChunkCancel(f, h.l, prefix);
    LEOfFromLE(CryptChunk(f, h.l, prefix));
    FromLEBound(CryptChunk(f, h.l, prefix));
    LimitIsThreeBytes();
    assert pt == [pt[0]] + pt[1..];
    assert stream == prefix + body + stream[20 + n..];
    assert stream == SealedPacket(f, h, aad, pt[0], pt[1..]) + stream[20 + n..];
  }

  /** The decoder accepts exactly the packets sealed from its own state under its own AAD. */
  lemma DecodesIffSealed(f: BlockFn, h: Half, aad: Bytes, stream: Bytes,
                         contents: Bytes, ignore: bool, rest: Bytes)
    ensures DecPacket(f, h, aad, stream) == Packet(contents, ignore, rest)
       <==> BeginsSealed(f, h, aad, stream, contents, ignore, rest)
  {
    hide DecPacket, SealedPacket;
    if DecPacket(f, h, aad, stream) == Packet(contents, ignore, rest) {
      AcceptedWasSealed(f, h, aad, stream);
    }
    if BeginsSealed(f, h, aad, stream, contents, ignore, rest) {
      var header: Byte :|
        (header >= 128 <==> ignore) && stream == SealedPacket(f, h, aad, header, contents) + rest;
      DecodesSealed(f, h, aad, header, contents, rest);
    }
  }

  lemma DecodesEncoded(f: BlockFn, h: Half, aad: Bytes, ignore: bool, contents: Bytes, rest: Bytes)
    requires |contents| < CONTENTS_LIMIT
    ensures DecPacket(f, h, aad, EncPacket(f, h, aad, ignore, contents) + rest) == Packet(contents, ignore, rest)
  {
    hide DecPacket, SealedPacket;
    DecodesSealed(f, h, aad, if ignore then 128 else 0, contents, rest);
  }

  // ----- messages

  datatype Message = Message(command: string, payload: Bytes)

  const SHORT_IDS: seq<string> := [
    "", "addr", "block", "blocktxn", "cmpctblock", "feefilter", "filteradd", "filterclear",
    "filterload", "getblocks", "getblocktxn", "getdata", "getheaders", "headers", "inv",
    "mempool", "merkleblock", "notfound", "ping", "pong", "sendcmpct", "tx", "getcfilters",
    "cfilter", "getcfheaders", "cfheaders", "getcfcheckpt", "cfcheckpt", "addrv2"]

  function ShortName(id: nat): string {
    if id < |SHORT_IDS| then SHORT_IDS[id] else ""
  }

  /** The first entry at or after `from` equal to a non-empty name. */
  function ShortIdFrom(name: string, from: nat): (r: Option<nat>)
    ensures r.Some? ==> from <= r.value < |SHORT_IDS| && ShortName(r.value) == name
    ensures r.None? ==> forall i :: from <= i < |SHORT_IDS| ==> ShortName(i) != name
    decreases |SHORT_IDS| - from
  {
    if from >= |SHORT_IDS| then None
    else if SHORT_IDS[from] == name then Some(from)
    else ShortIdFrom(name, from + 1)
  }

  /** `SHORT_BY_NAME.get`: the dictionary leaves out the empty name. */
  function ShortId(name: string): (r: Option<nat>)
    ensures r.Some? ==> 0 < r.value < 256 && ShortName(r.value) == name && name != ""
    ensures r.None? && name != "" ==> forall i :: 0 < i < |SHORT_IDS| ==> ShortName(i) != name
  {
    if name == "" then None else ShortIdFrom(name, 1)
  }

  predicate IsAscii(s: string) {
    forall i :: 0 <= i < |s| ==> s[i] as int < 128
  }

  function AsciiBytes(s: string): (r: Bytes)
    requires IsAscii(s)
    ensures |r| == |s|
  {
    seq(|s|, i requires 0 <= i < |s| => s[i] as int)
  }

  /** `decode("ascii", "replace")`. */
  function AsciiText(s: Bytes): (r: string)
    ensures |r| == |s|
  {
    seq(|s|, i requires 0 <= i < |s| => if s[i] < 128 then s[i] as char else REPLACEMENT)
  }

  function UntilNul(s: Bytes): (r: Bytes)
    ensures r <= s && 0 !in r
    ensures |r| < |s| ==> s[|r|] == 0
  {
    if s == [] || s[0] == 0 then [] else [s[0]] + UntilNul(s[1..])
  }

  const REPLACEMENT: char := '\U{FFFD}'

  /** The UTF-8 bytes of one character. */
  function Utf8(c: char): (r: Bytes)
    ensures if c as int < 128 then r == [c as int] else 2 <= |r| <= 4 && forall i :: 0 <= i < |r| ==> r[i] >= 128
  {
    var n := c as int;
    if n < 0x80 then [n]
    else if n < 0x800 then [0xC0 + n / 64, 0x80 + n % 64]
    else if n < 0x1_0000 then [0xE0 + n / 4096, 0x80 + n / 64 % 64, 0x80 + n % 64]
    else [0xF0 + n / 0x4_0000, 0x80 + n / 4096 % 64, 0x80 + n / 64 % 64, 0x80 + n % 64]
  }

  /** The code point in a UTF-8 sequence, by the number of its bytes. */
  function CodePoint(s: seq<int>): int {
    if |s| == 1 then s[0]
    else if |s| == 2 then (s[0] - 0xC0) * 0x40 + (s[1] - 0x80)
    else if |s| == 3 then (s[0] - 0xE0) * 0x1000 + (s[1] - 0x80) * 0x40 + (s[2] - 0x80)
    else if |s| == 4 then
      (s[0] - 0xF0) * 0x4_0000 + (s[1] - 0x80) * 0x1000 + (s[2] - 0x80) * 0x40 + (s[3] - 0x80)
    else -1
  }

  lemma Utf8Decodes(c: char)
    ensures CodePoint(Utf8(c)) == c as int
    ensures forall i :: 0 < i < |Utf8(c)| ==> 0x80 <= Utf8(c)[i] < 0xC0
  {
    SixBitParts(c as int);
  }

  lemma SixBitParts(n: nat)
    ensures n / 0x40 * 0x40 + n % 0x40 == n
    ensures n / 0x1000 * 0x1000 + n / 0x40 % 0x40 * 0x40 + n % 0x40 == n
    ensures n / 0x4_0000 * 0x4_0000 + n / 0x1000 % 0x40 * 0x1000 + n / 0x40 % 0x40 * 0x40 + n % 0x40 == n
  {
    assert n / 0x40 / 0x40 == n / 0x1000 && n / 0x1000 / 0x40 == n / 0x4_0000;
  }

  /** `str.encode`. */
  function Utf8Bytes(s: string): Bytes {
    if s == [] then [] else Utf8(s[0]) + Utf8Bytes(s[1..])
  }

  /** The command as a 12-byte field: padded with zeros, cut at 12. */
  function CommandField(command: string): (r: Bytes)
    ensures |r| == 12
  {
    var raw := Utf8Bytes(command);
    if |raw| < 12 then raw + Zeros(12 - |raw|) else raw[..12]
  }

  /** Contents of the packet that carries a message. */
  function EncodeMessage(m: Message): (r: Bytes)
    ensures |r| >= 1
  {
    match ShortId(m.command)
    case Some(id) => [id] + m.payload
    case None => [0] + CommandField(m.command) + m.payload
  }

  /** The message in a packet's contents, or `None` for contents that are skipped. */
  function DecodeMessage(contents: Bytes): Option<Message> {
    if contents == [] then None
    else if contents[0] != 0 then
      var name := ShortName(contents[0]);
      if name == "" then None else Some(Message(name, contents[1..]))
    else if |contents| < 13 then None
    else Some(Message(AsciiText(UntilNul(contents[1..13])), contents[13..]))
  }

  /** ASCII characters, then only replacement characters. */
  predicate PlainThenReplaced(s: string) {
    && (forall i :: 0 <= i < |s| ==> s[i] as int < 128 || s[i] == REPLACEMENT)
    && forall i, j :: 0 <= i < j < |s| && s[i] == REPLACEMENT ==> s[j] == REPLACEMENT
  }

  /** `s` comes back from its UTF-8 form cut at `m` bytes and read as ASCII. */
  predicate FitsField(s: string, m: nat) {
    (IsAscii(s) && |s| <= m) || (|s| == m && PlainThenReplaced(s))
  }

  /** A command survives framing exactly when it has a short id, or is at most 12 ASCII
      characters without a NUL, or is exactly 12 characters of which the last ones are
      U+FFFD: the cut then leaves one stray byte for each of those. */
  predicate Framable(command: string) {
    ShortId(command).Some? || ('\0' !in command && FitsField(command, 12))
  }

  lemma {:induction false} UntilNulPrefix(s: Bytes, n: nat)
    requires n <= |s| && 0 !in s[..n] && (n == |s| || s[n] == 0)
    ensures UntilNul(s) == s[..n]
  {
    if n > 0 {
      assert s[0] == s[..n][0];
      assert forall b :: b in s[1..][..n - 1] ==> b in s[..n];
      UntilNulPrefix(s[1..], n - 1);
    }
  }

  lemma {:induction false} Utf8HasNoNul(s: string)
    requires '\0' !in s
    ensures 0 !in Utf8Bytes(s)
  {
    if s != [] {
      assert s[0] in s;
      assert s[0] != '\0';
      Utf8HasNoNul(s[1..]);
    }
  }

  /** What the receiver reads is the first 12 bytes of a command without a NUL. */
  lemma FieldText(command: string)
    requires '\0' !in command
    ensures UntilNul(CommandField(command)) == Prefix(Utf8Bytes(command), 12)
  {
    var raw, field := Utf8Bytes(command), CommandField(command);
    var n := |Prefix(raw, 12)|;
    Utf8HasNoNul(command);
    assert field[..n] == raw[..n];
    UntilNulPrefix(field, n);
  }

  lemma TextHasNoNul(s: Bytes)
    ensures '\0' !in AsciiText(UntilNul(s))
  {
    var cut := UntilNul(s);
    forall i | 0 <= i < |cut| ensures AsciiText(cut)[i] != '\0' {
      assert cut[i] in cut;
    }
  }

  /** Characters outside ASCII take at least two bytes each, none of them ASCII. */
  lemma {:induction false} HighRun(s: string, k: nat)
    requires k <= |s| && forall i :: 0 <= i < k ==> s[i] as int >= 128
    ensures |Utf8Bytes(s)| >= 2 * k
    ensures forall i :: 0 <= i < 2 * k ==> Utf8Bytes(s)[i] >= 128
  {
    if k > 0 {
      HighRun(s[1..], k - 1);
      var first, rest := Utf8(s[0]), Utf8Bytes(s[1..]);
      assert forall i :: |first| <= i < 2 * k ==> (first + rest)[i] == rest[i - |first|];
    }
  }

  /** The case of a first character outside ASCII. */
  lemma HighFits(s: string, m: nat)
    requires s != [] && s[0] as int >= 128
    ensures AsciiText(Prefix(Utf8Bytes(s), m)) == s <==> FitsField(s, m)
  {
    var text := AsciiText(Prefix(Utf8Bytes(s), m));
    if k: nat :| 0 < k < |s| && s[k] as int < 128 && forall i :: 0 <= i < k ==> s[i] as int >= 128 {
      HighRun(s, k);
      assert k < m ==> text[k] == REPLACEMENT;
      assert text != s;
    } else {
      AllHigh(s, |s|);
      HighRun(s, |s|);
      assert forall i :: 0 <= i < |text| && i < 2 * |s| ==> text[i] == REPLACEMENT;
    }
  }

  /** With no first ASCII character there is none at all. */
  lemma {:induction false} AllHigh(s: string, n: nat)
    requires n <= |s| && s != [] && s[0] as int >= 128
    requires !exists k: nat :: 0 < k < |s| && s[k] as int < 128 && forall i :: 0 <= i < k ==> s[i] as int >= 128
    ensures forall i :: 0 <= i < n ==> s[i] as int >= 128
  {
    if n > 1 {
      AllHigh(s, n - 1);
    }
  }

  lemma {:induction false} FieldFitsIff(s: string, m: nat)
    ensures AsciiText(Prefix(Utf8Bytes(s), m)) == s <==> FitsField(s, m)
  {
    if s != [] && s[0] as int >= 128 {
      HighFits(s, m);
    } else if s != [] && m > 0 {
      FieldFitsIff(s[1..], m - 1);
      AsciiFirst(s, m);
    }
  }

  lemma AsciiFirst(s: string, m: nat)
    requires s != [] && s[0] as int < 128 && m > 0
    ensures AsciiText(Prefix(Utf8Bytes(s), m)) == [s[0]] + AsciiText(Prefix(Utf8Bytes(s[1..]), m - 1))
    ensures FitsField(s, m) <==> FitsField(s[1..], m - 1)
  {
    hide PlainThenReplaced, IsAscii, AsciiText, Prefix;
    var b: Byte, rest := s[0] as int, Utf8Bytes(s[1..]);
    assert Utf8Bytes(s) == [b] + rest;
    PrefixFirst(b, rest, m);
    TextFirst(b, Prefix(rest, m - 1));
    PlainFirst(s);
  }

  lemma PrefixFirst(b: Byte, rest: Bytes, m: nat)
    requires m > 0
    ensures Prefix([b] + rest, m) == [b] + Prefix(rest, m - 1)
  {}

  lemma TextFirst(b: Byte, rest: Bytes)
    requires b < 128
    ensures AsciiText([b] + rest) == [b as char] + AsciiText(rest)
  {}

  lemma PlainFirst(s: string)
    requires s != [] && s[0] as int < 128
    ensures IsAscii(s) <==> IsAscii(s[1..])
    ensures PlainThenReplaced(s) <==> PlainThenReplaced(s[1..])
  {
    var rest := s[1..];
    assert forall i :: 0 < i < |s| ==> s[i] == rest[i - 1];
    assert forall i :: 0 <= i < |rest| ==> rest[i] == s[i + 1];
  }

  lemma FramingIff(m: Message)
    ensures DecodeMessage(EncodeMessage(m)) == Some(m) <==> Framable(m.command)
  {
    hide ShortName, ShortId, UntilNul, AsciiText, CommandField, FitsField, Utf8Bytes;
    var contents := EncodeMessage(m);
    match ShortId(m.command)
    case Some(id) =>
      assert contents[1..] == m.payload;
    case None =>
      assert contents[1..13] == CommandField(m.command) && contents[13..] == m.payload;
      TextHasNoNul(CommandField(m.command));
      if '\0' !in m.command {
        FieldText(m.command);
        FieldFitsIff(m.command, 12);
      }
  }
}
