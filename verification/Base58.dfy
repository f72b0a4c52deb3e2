/** The Base58 decoder of scripts/core-functional/core_dest.py, lines 34-37 and 267-316. */
module Base58 {
  import opened ByteStrings
  import opened Radix

  /** `_MAP_B58`, with `None` for -1: the alphabet is six runs of consecutive characters,
      1-9, A-H, J-N, P-Z, a-k and m-z, numbered from 0. */
  function DigitOf(c: char): (r: Option<nat>)
    ensures r.Some? ==> r.value < 58 && CharOf(r.value) == c
  {
    if '1' <= c <= '9' then Some((c - '1') as nat)
    else if 'A' <= c <= 'H' then Some((c - 'A') as nat + 9)
    else if 'J' <= c <= 'N' then Some((c - 'J') as nat + 17)
    else if 'P' <= c <= 'Z' then Some((c - 'P') as nat + 22)
    else if 'a' <= c <= 'k' then Some((c - 'a') as nat + 33)
    else if 'm' <= c <= 'z' then Some((c - 'm') as nat + 44)
    else None
  }

  function CharOf(d: nat): char
    requires d < 58
  {
    if d < 9 then '1' + d as char
    else if d < 17 then 'A' + (d - 9) as char
    else if d < 22 then 'J' + (d - 17) as char
    else if d < 33 then 'P' + (d - 22) as char
    else if d < 44 then 'a' + (d - 33) as char
    else 'm' + (d - 44) as char
  }

  const ALPHABET: string := "123456789" + "ABCDEFGH" + "JKLMN" + "PQRSTUVWXYZ" + "abcdefghijk" + "mnopqrstuvwxyz"

  /** The digits are the places in the alphabet. */
  lemma DigitIffPlace(c: char, d: nat)
    ensures DigitOf(c) == Some(d) <==> d < |ALPHABET| && ALPHABET[d] == c
  {
    if d < 58 {
      CharIsPlace(d);
      DigitOfCharOf(d);
    }
  }

  lemma CharIsPlace(d: nat)
    requires d < 58
    ensures |ALPHABET| == 58 && ALPHABET[d] == CharOf(d)
  {
    assert d < 9 ==> "123456789"[d] == '1' + d as char;
    assert 9 <= d < 17 ==> "ABCDEFGH"[d - 9] == 'A' + (d - 9) as char;
    assert 17 <= d < 22 ==> "JKLMN"[d - 17] == 'J' + (d - 17) as char;
    assert 22 <= d < 33 ==> "PQRSTUVWXYZ"[d - 22] == 'P' + (d - 22) as char;
    assert 33 <= d < 44 ==> "abcdefghijk"[d - 33] == 'a' + (d - 33) as char;
    assert 44 <= d ==> "mnopqrstuvwxyz"[d - 44] == 'm' + (d - 44) as char;
  }

  lemma DigitOfCharOf(d: nat)
    requires d < 58
    ensures DigitOf(CharOf(d)) == Some(d)
  {}

  // ----- what a string encodes

  /** Python's `str.isspace` for one character. */
  predicate IsSpace(c: char) {
    var n := c as int;
    || 9 <= n <= 13 || 28 <= n <= 32 || n == 0x85 || n == 0xA0 || n == 0x1680
    || 0x2000 <= n <= 0x200A || n == 0x2028 || n == 0x2029 || n == 0x202F || n == 0x205F || n == 0x3000
  }

  function SkipSpaces(s: string): string {
    if s != [] && IsSpace(s[0]) then SkipSpaces(s[1..]) else s
  }

  /** The leading part without whitespace. */
  function Word(s: string): (r: string)
    ensures r <= s
    ensures |r| < |s| ==> IsSpace(s[|r|])
    ensures forall i :: 0 <= i < |r| ==> !IsSpace(r[i])
  {
    if s == [] || IsSpace(s[0]) then [] else [s[0]] + Word(s[1..])
  }

  predicate AllSpaces(s: string) {
    forall i :: 0 <= i < |s| ==> IsSpace(s[i])
  }

  predicate AllDigits(s: string) {
    forall i :: 0 <= i < |s| ==> DigitOf(s[i]).Some?
  }

  function DigitsOf(s: string): (r: seq<nat>)
    requires AllDigits(s)
    ensures |r| == |s| && Digits(58, r)
  {
    seq(|s|, i requires 0 <= i < |s| => DigitOf(s[i]).value)
  }

  function Ones(s: string): (r: nat)
    ensures r <= |s|
    ensures forall i :: 0 <= i < r ==> s[i] == '1'
    ensures r < |s| ==> s[r] != '1'
  {
    if s == [] || s[0] != '1' then 0 else 1 + Ones(s[1..])
  }

  function BytesOf(n: nat): Bytes {
    Minimal(256, n)
  }

  /** The bytes a word encodes: a zero byte for each leading '1', then the big-endian
      bytes of its base-58 value without leading zeros. */
  function Decoded(word: string): Bytes
    requires AllDigits(word)
  {
    Zeros(Ones(word)) + BytesOf(Value(58, DigitsOf(word)))
  }

  predicate WellFormed(s: string) {
    var psz := SkipSpaces(s);
    '\0' !in s && AllDigits(Word(psz)) && AllSpaces(psz[|Word(psz)|..])
  }

  // ----- the decoder

  /** The last `length` bytes of the buffer are the bytes of `v`, the others are zero. */
  ghost predicate Holds(buffer: Bytes, length: nat, v: nat) {
    && length <= |buffer|
    && buffer[|buffer| - length..] == BytesOf(v)
    && forall i :: 0 <= i < |buffer| - length ==> buffer[i] == 0
  }

  lemma HoldsValue(buffer: Bytes, length: nat, v: nat)
    requires Holds(buffer, length, v)
    ensures Value(256, buffer) == v
  {
    var zeros, rest := buffer[..|buffer| - length], buffer[|buffer| - length..];
    assert buffer == zeros + rest;
    ValueSkipsZeros(256, zeros, rest);
    ValueOfMinimal(256, v);
  }

  /** A buffer with zeros before a nonzero byte holds its own value. */
  lemma ValueHolds(buffer: Bytes, length: nat)
    requires length <= |buffer| && forall i :: 0 <= i < |buffer| - length ==> buffer[i] == 0
    requires length > 0 ==> buffer[|buffer| - length] != 0
    ensures Holds(buffer, length, Value(256, buffer))
  {
    var zeros, rest := buffer[..|buffer| - length], buffer[|buffer| - length..];
    assert buffer == zeros + rest;
    ValueSkipsZeros(256, zeros, rest);
    MinimalOfValue(256, rest);
  }

  lemma CarryArithmetic(digit: nat, c: nat, hi: nat, p: nat)
    requires digit == c % 256
    ensures digit * p + (c / 256 + 58 * hi) * (256 * p) == (c + 58 * (256 * hi)) * p
  {
    var q := c / 256;
    assert c == 256 * q + digit;
    assert (q + 58 * hi) * (256 * p) == (256 * q + 58 * (256 * hi)) * p;
    assert (c + 58 * (256 * hi)) * p == digit * p + (256 * q + 58 * (256 * hi)) * p;
  }

  /** Byte `x` at the end of the untouched part is multiplied into `done`. */
  lemma CarryStep(init: Bytes, x: Byte, done: Bytes, carry: nat, total: nat)
    requires Value(256, done) + (carry + 58 * Value(256, init + [x])) * Pow(256, |done|) == total
    ensures var c: nat := 58 * x + carry;
            Value(256, [c % 256] + done) + (c / 256 + 58 * Value(256, init)) * Pow(256, |done| + 1) == total
  {
    hide Value, Pow;
    var c: nat := 58 * x + carry;
    ValueAppend(256, init, x);
    ValuePrepend(256, c % 256, done);
    PowNext(256, |done|);
    var hi, p := Value(256, init), Pow(256, |done|);
    CarryArithmetic(c % 256, c, hi, p);
    assert carry + 58 * (256 * hi + x) == c + 58 * (256 * hi);
  }

  /** The inner loop after `j` bytes: the last `j` bytes of `b` are done, the others are
      still those of `orig`, and with the carry they make up `total`. */
  ghost predicate MidMultiply(orig: Bytes, b: Bytes, j: nat, carry: nat, length: nat, total: nat) {
    && |b| == |orig| && j <= |b| && b[..|b| - j] == orig[..|b| - j]
    && Value(256, b[|b| - j..]) + (carry + 58 * Value(256, orig[..|b| - j])) * Pow(256, j) == total
    && (j > 0 && j >= length && carry == 0 ==> b[|b| - j] != 0)
  }

  lemma MultiplyStart(orig: Bytes, digit: nat, length: nat)
    ensures MidMultiply(orig, orig, 0, digit, length, 58 * Value(256, orig) + digit)
  {
    assert orig[..|orig|] == orig;
  }

  lemma MultiplyStep(orig: Bytes, b: Bytes, j: nat, carry: nat, length: nat, total: nat)
    requires MidMultiply(orig, b, j, carry, length, total) && j < |b|
    requires length <= |orig| && (length > 0 ==> orig[|orig| - length] != 0)
    requires carry != 0 || j < length
    ensures var k := |b| - 1 - j;
            var c: nat := 58 * b[k] + carry;
            MidMultiply(orig, b[k := c % 256], j + 1, c / 256, length, total)
  {
    hide Value, Pow;
    var k := |b| - 1 - j;
    var x, done := b[k], b[k + 1..];
    assert orig[..k + 1] == orig[..k] + [x] by {
      assert b[..k + 1] == orig[..k + 1];
    }
    CarryStep(orig[..k], x, done, carry, total);
    var c: nat := 58 * x + carry;
    var next := b[k := c % 256];
    assert next[k..] == [c % 256] + done;
    assert next[..k] == b[..k] == orig[..k];
  }

  /** No carry is lost: the number fits the buffer, so what is left over is zero. */
  lemma MultiplyEnd(orig: Bytes, b: Bytes, j: nat, carry: nat, length: nat, total: nat)
    requires MidMultiply(orig, b, j, carry, length, total)
    requires length <= |b| && forall i :: 0 <= i < |b| - length ==> orig[i] == 0
    requires total < Pow(256, |b|)
    requires j == |b| || (carry == 0 && j >= length)
    ensures Holds(b, j, total)
  {
    hide Value, Pow, BytesOf;
    var zeros, rest := b[..|b| - j], b[|b| - j..];
    assert b == zeros + rest;
    var high := Value(256, orig[..|b| - j]);
    assert high == 0 by {
      ValueOfZeros(256, orig[..|b| - j]);
    }
    NoCarryLeft(carry, Value(256, rest), Pow(256, j), total, j == |b|);
    ValueSkipsZeros(256, zeros, rest);
    ValueHolds(b, j);
  }

  lemma NoCarryLeft(carry: nat, low: nat, p: nat, total: nat, full: bool)
    requires low + (carry + 58 * 0) * p == total
    requires if full then total < p else carry == 0
    ensures carry == 0 && total == low
  {
    if carry > 0 {
      MulMonotone(1, carry, p, p);
    }
  }

  lemma HoldsTop(buffer: Bytes, length: nat, v: nat)
    requires Holds(buffer, length, v) && length > 0
    ensures buffer[|buffer| - length] != 0
  {
    assert buffer[|buffer| - length..][0] == buffer[|buffer| - length];
  }

  /** The inner loop: the buffer's number times 58 plus a digit, in place. */
  method MulAdd(b256: array<Byte>, length: nat, digit: nat, ghost v: nat) returns (j: nat)
    requires Holds(b256[..], length, v) && digit < 58
    requires 58 * v + digit < Pow(256, b256.Length)
    modifies b256
    ensures Holds(b256[..], j, 58 * v + digit)
  {
    hide Value, Pow, BytesOf, MidMultiply;
    ghost var orig, total := b256[..], 58 * v + digit;
    HoldsValue(orig, length, v);
    MultiplyStart(orig, digit, length);
    if length > 0 {
      HoldsTop(orig, length, v);
    }
    var carry: nat := digit;
    j := 0;
    var k := b256.Length - 1;
    while k >= 0
      invariant -1 <= k && j + k + 1 == b256.Length
      invariant MidMultiply(orig, b256[..], j, carry, length, total)
    {
      if carry == 0 && j >= length {
        break;
      }
      MultiplyStep(orig, b256[..], j, carry, length, total);
      var x: nat := b256[k];
      carry := 58 * x + carry;
      b256[k] := carry % 256;
      carry := carry / 256;
      j := j + 1;
      k := k - 1;
    }
    MultiplyEnd(orig, b256[..], j, carry, length, total);
  }

  // ----- facts about words

  lemma WordCovers(psz: string, i: nat)
    requires i <= |psz| && forall k :: 0 <= k < i ==> !IsSpace(psz[k])
    ensures i <= |Word(psz)| && psz[..i] == Word(psz)[..i]
  {}

  lemma OnesExactly(word: string, z: nat)
    requires z <= |word| && forall k :: 0 <= k < z ==> word[k] == '1'
    ensures Ones(word) >= z
    ensures z == |word| || word[z] != '1' ==> Ones(word) == z
  {}

  lemma DigitsOfAppend(s: string, c: char)
    requires AllDigits(s) && DigitOf(c).Some?
    ensures AllDigits(s + [c]) && DigitsOf(s + [c]) == DigitsOf(s) + [DigitOf(c).value]
  {}

  lemma DigitsOfConcat(s: string, t: string)
    requires AllDigits(s + t)
    ensures AllDigits(s) && AllDigits(t) && DigitsOf(s + t) == DigitsOf(s) + DigitsOf(t)
  {
    forall i | 0 <= i < |s| ensures DigitOf(s[i]).Some? {
      assert s[i] == (s + t)[i];
    }
    forall i | 0 <= i < |t| ensures DigitOf(t[i]).Some? {
      assert t[i] == (s + t)[|s| + i];
    }
  }

  /** Leading '1's do not count: the value of `ones + rest` is that of `rest`, which is
      below 58 to its length and positive when it starts with another digit. */
  lemma ValueAfterOnes(ones: string, rest: string)
    requires AllDigits(ones + rest) && forall k :: 0 <= k < |ones| ==> ones[k] == '1'
    ensures Value(58, DigitsOf(ones + rest)) < Pow(58, |rest|)
    ensures rest != [] && rest[0] != '1' ==> Value(58, DigitsOf(ones + rest)) > 0
  {
    hide Value, Pow;
    DigitsOfConcat(ones, rest);
    ValueSkipsZeros(58, DigitsOf(ones), DigitsOf(rest));
    ValueBound(58, DigitsOf(rest));
    if rest != [] && rest[0] != '1' {
      ValuePositive(58, DigitsOf(rest));
    }
  }

  /** A longer word never has a smaller value, so its bytes are never fewer. */
  lemma LongerWord(word: string, i: nat)
    requires AllDigits(word) && i <= |word|
    ensures AllDigits(word[..i])
    ensures |BytesOf(Value(58, DigitsOf(word[..i])))| <= |BytesOf(Value(58, DigitsOf(word)))|
  {
    hide Value, Pow, Minimal;
    var front, back := word[..i], word[i..];
    assert word == front + back;
    DigitsOfConcat(front, back);
    ValueConcat(58, DigitsOf(front), DigitsOf(back));
    PowMonotone(58, 0, |back|);
    MulMonotone(1, Pow(58, |back|), Value(58, DigitsOf(front)), Value(58, DigitsOf(front)));
    MinimalLengthMonotone(256, Value(58, DigitsOf(front)), Value(58, DigitsOf(word)));
  }

  // ----- decoding

  /** What the decoder returns. The length test is not applied to an empty result. */
  function DecodeSpec(s: string, maxRet: int): Option<Bytes> {
    if !WellFormed(s) then None
    else
      var d := Decoded(Word(SkipSpaces(s)));
      if |d| <= maxRet || d == [] then Some(d) else None
  }

  lemma TooLong(s: string, maxRet: int, z: nat, i: nat)
    requires var word := Word(SkipSpaces(s));
             && z <= i <= |word| && Ones(word) >= z && 0 < i && AllDigits(word[..i])
             && maxRet < z + |BytesOf(Value(58, DigitsOf(word[..i])))|
             && (z > 0 || Value(58, DigitsOf(word[..i])) > 0)
    ensures DecodeSpec(s, maxRet) == None
  {
    var word := Word(SkipSpaces(s));
    if WellFormed(s) {
      LongerWord(word, i);
    }
  }

  lemma StartOfWord(psz: string, z: nat)
    requires z <= |psz| && forall k :: 0 <= k < z ==> psz[k] == '1'
    ensures z <= |Word(psz)| && AllDigits(Word(psz)[..z])
    ensures forall k :: 0 <= k < z ==> Word(psz)[..z][k] == '1'
  {
    WordCovers(psz, z);
  }

  lemma EmptyHolds(buffer: Bytes, ones: string)
    requires AllDigits(ones) && forall k :: 0 <= k < |ones| ==> ones[k] == '1'
    requires forall i :: 0 <= i < |buffer| ==> buffer[i] == 0
    ensures Holds(buffer, 0, Value(58, DigitsOf(ones)))
  {
    ValueOfZeros(58, DigitsOf(ones));
  }

  lemma WordGoesOn(psz: string, i: nat)
    requires i < |psz| && i <= |Word(psz)| && !IsSpace(psz[i])
    ensures i < |Word(psz)| && Word(psz)[i] == psz[i]
  {}

  lemma WordEnds(psz: string, i: nat)
    requires i <= |Word(psz)| && (i >= |psz| || IsSpace(psz[i]))
    ensures i == |Word(psz)|
  {}

  lemma NotAllDigits(s: string, maxRet: int, i: nat)
    requires var word := Word(SkipSpaces(s)); i < |word| && DigitOf(word[i]).None?
    ensures DecodeSpec(s, maxRet) == None
  {}

  lemma FitsBuffer(v: nat, n: nat, m: nat)
    requires v < Pow(58, n) && n <= m
    ensures v < Pow(256, m * 733 / 1000 + 1)
  {
    hide Pow;
    PowMonotone(58, n, m);
    BufferFits(m);
  }

  lemma ExtendValue(front: string, c: char)
    requires AllDigits(front) && DigitOf(c).Some?
    ensures AllDigits(front + [c])
    ensures Value(58, DigitsOf(front + [c])) == 58 * Value(58, DigitsOf(front)) + DigitOf(c).value
  {
    hide Value, DigitOf;
    DigitsOfAppend(front, c);
    ValueAppend(58, DigitsOf(front), DigitOf(c).value);
  }

  /** The next digit extends the value, which still fits the buffer. */
  lemma NextDigit(psz: string, word: string, z: nat, i: nat)
    requires word <= psz && z <= i < |word| && AllDigits(word[..i]) && DigitOf(word[i]).Some?
    requires forall k :: 0 <= k < z ==> psz[k] == '1'
    requires psz[z] != '1'
    ensures AllDigits(word[..i + 1])
    ensures Value(58, DigitsOf(word[..i + 1])) == 58 * Value(58, DigitsOf(word[..i])) + DigitOf(word[i]).value
    ensures 0 < Value(58, DigitsOf(word[..i + 1])) < Pow(256, (|psz| - z) * 733 / 1000 + 1)
  {
    hide Value, Pow, DigitOf, DigitsOf, AllDigits;
    assert word[..i + 1] == word[..i] + [word[i]];
    ExtendValue(word[..i], word[i]);
    var ones, rest := word[..z], word[z..i + 1];
    assert word[..i + 1] == ones + rest;
    assert rest[0] == psz[z];
    ValueAfterOnes(ones, rest);
    FitsBuffer(Value(58, DigitsOf(word[..i + 1])), |rest|, |psz| - z);
  }

  /** The main loop: the digits after `zeroes` leading ones, into a buffer. */
  method DecodeDigits(s: string, psz: string, maxRet: int, zeroes: nat)
    returns (r: Option<(Bytes, nat)>)
    requires psz == SkipSpaces(s) && zeroes <= |psz|
    requires forall k :: 0 <= k < zeroes ==> psz[k] == '1'
    requires zeroes < |psz| ==> psz[zeroes] != '1'
    ensures r.None? ==> DecodeSpec(s, maxRet) == None
    ensures r.Some? ==>
              var word := Word(psz);
              && r.value.1 == |word| && AllDigits(word) && r.value.0 == BytesOf(Value(58, DigitsOf(word)))
              && (|r.value.0| + zeroes <= maxRet || |word| == zeroes)
  {
    hide Value, Pow, BytesOf, Word, SkipSpaces, DecodeSpec, DigitOf, IsSpace;
    var size := (|psz| - zeroes) * 733 / 1000 + 1;
    var b256 := new Byte[size](_ => 0);
    var i: nat, length: nat := zeroes, 0;
    ghost var word := Word(psz);
    StartOfWord(psz, zeroes);
    EmptyHolds(b256[..], word[..zeroes]);
    while i < |psz| && !IsSpace(psz[i])
      invariant zeroes <= i <= |word| && fresh(b256)
      invariant AllDigits(word[..i]) && Holds(b256[..], length, Value(58, DigitsOf(word[..i])))
      invariant i > zeroes ==> length + zeroes <= maxRet
    {
      WordGoesOn(psz, i);
      var carry := DigitOf(psz[i]);
      if carry.None? {
        NotAllDigits(s, maxRet, i);
        return None;
      }
      ghost var v := Value(58, DigitsOf(word[..i]));
      NextDigit(psz, word, zeroes, i);
      length := MulAdd(b256, length, carry.value, v);
      if length + zeroes > maxRet {
        OnesExactly(word, zeroes);
        TooLong(s, maxRet, zeroes, i + 1);
        return None;
      }
      i := i + 1;
    }
    WordEnds(psz, i);
    assert word[..i] == word;
    r := Some((b256[size - length..], i));
  }

  /** `_decode_base58`: present exactly for well-formed strings whose bytes are at most
      `maxRet` long (or none), and then those bytes. */
  method DecodeBase58(s: string, maxRet: int) returns (r: Option<Bytes>)
    ensures r == DecodeSpec(s, maxRet)
  {
    hide Value, BytesOf, Word, SkipSpaces, IsSpace, DigitsOf, AllDigits;
    if '\0' in s {
      return None;
    }
    var psz := SkipSpaces(s);
    var zeroes: nat, i: nat := 0, 0;
    while i < |psz| && psz[i] == '1'
      invariant i == zeroes <= |psz| && forall k :: 0 <= k < i ==> psz[k] == '1'
      invariant zeroes > 0 ==> zeroes <= maxRet
    {
      zeroes := zeroes + 1;
      if zeroes > maxRet {
        ManyOnes(s, maxRet, zeroes);
        return None;
      }
      i := i + 1;
    }
    var digits := DecodeDigits(s, psz, maxRet, zeroes);
    if digits.None? {
      return None;
    }
    ghost var word := Word(psz);
    i := digits.value.1;
    while i < |psz| && IsSpace(psz[i])
      invariant |word| <= i <= |psz| && forall k :: |word| <= k < i ==> IsSpace(psz[k])
    {
      i := i + 1;
    }
    if i != |psz| {
      assert !IsSpace(psz[|word|..][i - |word|]);
      return None;
    }
    StartOfWord(psz, zeroes);
    OnesExactly(word, zeroes);
    r := Some(Zeros(zeroes) + digits.value.0);
    if |word| == zeroes {
      OnlyOnes(word);
    }
  }

  lemma ManyOnes(s: string, maxRet: int, z: nat)
    requires var psz := SkipSpaces(s); z <= |psz| && forall k :: 0 <= k < z ==> psz[k] == '1'
    requires maxRet < z && z > 0
    ensures DecodeSpec(s, maxRet) == None
  {
    var psz := SkipSpaces(s);
    StartOfWord(psz, z);
    OnesExactly(Word(psz), z);
    TooLong(s, maxRet, z, z);
  }

  lemma OnlyOnes(word: string)
    requires AllDigits(word) && Ones(word) == |word|
    ensures BytesOf(Value(58, DigitsOf(word))) == []
  {
    ValueOfZeros(58, DigitsOf(word));
  }

  // ----- the reference encoder

  function LeadingZeros(data: Bytes): (r: nat)
    ensures r <= |data|
    ensures forall i :: 0 <= i < r ==> data[i] == 0
    ensures r < |data| ==> data[r] != 0
  {
    if data == [] || data[0] != 0 then 0 else 1 + LeadingZeros(data[1..])
  }

  function CharsOf(digits: seq<nat>): (r: string)
    requires Digits(58, digits)
    ensures |r| == |digits|
  {
    seq(|digits|, i requires 0 <= i < |digits| => CharOf(digits[i]))
  }

  function OnesString(n: nat): string {
    seq(n, _ => '1')
  }

  /** Base58 by its definition: a '1' for each leading zero byte, then the base-58 digits
      of the number. */
  function Encode(data: Bytes): string {
    OnesString(LeadingZeros(data)) + CharsOf(Minimal(58, Value(256, data)))
  }

  lemma CharsOfDigits(digits: seq<nat>)
    requires Digits(58, digits)
    ensures AllDigits(CharsOf(digits)) && DigitsOf(CharsOf(digits)) == digits
  {
    forall i | 0 <= i < |digits| ensures DigitOf(CharsOf(digits)[i]) == Some(digits[i]) {
      DigitOfCharOf(digits[i]);
    }
  }

  lemma DigitsOfChars(s: string)
    requires AllDigits(s)
    ensures CharsOf(DigitsOf(s)) == s
  {}

  /** Zero bytes, then bytes without a leading zero: the number's own minimal bytes. */
  lemma SplitZeros(data: Bytes)
    ensures data == Zeros(LeadingZeros(data)) + BytesOf(Value(256, data))
  {
    hide Value, Minimal;
    var z := LeadingZeros(data);
    var zeros, rest := data[..z], data[z..];
    assert data == zeros + rest;
    ValueSkipsZeros(256, zeros, rest);
    MinimalOfValue(256, rest);
    assert zeros == Zeros(z);
  }

  lemma EncodedWord(data: Bytes)
    ensures AllDigits(Encode(data)) && Ones(Encode(data)) == LeadingZeros(data)
    ensures Value(58, DigitsOf(Encode(data))) == Value(256, data)
  {
    hide Value, Minimal;
    var z, digits := LeadingZeros(data), Minimal(58, Value(256, data));
    var ones, rest, word := OnesString(z), CharsOf(digits), Encode(data);
    CharsOfDigits(digits);
    assert word == ones + rest;
    assert DigitsOf(word) == Zeros(z) + digits;
    ValueSkipsZeros(58, Zeros(z), digits);
    ValueOfMinimal(58, Value(256, data));
    OnesExactly(word, z);
    if z < |word| {
      DigitOfCharOf(digits[0]);
      assert word[z] == rest[0];
    }
  }

  /** Decoding inverts encoding. */
  lemma DecodedEncode(data: Bytes)
    ensures AllDigits(Encode(data)) && Decoded(Encode(data)) == data
  {
    hide Value, Encode, BytesOf;
    EncodedWord(data);
    SplitZeros(data);
  }

  /** Encoding inverts decoding: distinct words encode distinct bytes. */
  lemma EncodeDecoded(word: string)
    requires AllDigits(word)
    ensures Encode(Decoded(word)) == word
  {
    hide Value;
    var z := Ones(word);
    var ones, rest := word[..z], word[z..];
    assert word == ones + rest && ones == OnesString(z);
    DigitsOfConcat(ones, rest);
    ValueSkipsZeros(58, DigitsOf(ones), DigitsOf(rest));
    var n := Value(58, DigitsOf(word));
    if rest != [] {
      assert DigitsOf(rest)[0] != 0;
    }
    MinimalOfValue(58, DigitsOf(rest));
    DigitsOfChars(rest);
    var data := Decoded(word);
    ValueSkipsZeros(256, Zeros(z), BytesOf(n));
    ValueOfMinimal(256, n);
    ZerosLead(z, BytesOf(n));
  }

  lemma ZerosLead(z: nat, rest: Bytes)
    requires rest != [] ==> rest[0] != 0
    ensures LeadingZeros(Zeros(z) + rest) == z
  {
    var data := Zeros(z) + rest;
    if z < |data| {
      assert data[z] == rest[0];
    }
  }

  lemma {:induction false} SkipLeading(lead: string, s: string)
    requires AllSpaces(lead)
    ensures SkipSpaces(lead + s) == SkipSpaces(s)
  {
    if lead == [] {
      assert lead + s == s;
    } else {
      assert (lead + s)[1..] == lead[1..] + s;
      SkipLeading(lead[1..], s);
    }
  }

  lemma WordBeforeSpaces(word: string, trail: string)
    requires AllDigits(word) && AllSpaces(trail)
    ensures SkipSpaces(word + trail) == if word == [] then [] else word + trail
    ensures Word(SkipSpaces(word + trail)) == word
  {
    if word == [] {
      SkipLeading(trail, []);
      assert word + trail == trail + [];
    } else {
      var psz := word + trail;
      forall k | 0 <= k < |word| ensures !IsSpace(psz[k]) {
        assert psz[k] == word[k] && DigitOf(word[k]).Some?;
      }
      assert SkipSpaces(psz) == psz by {
        assert !IsSpace(psz[0]);
      }
      WordCovers(psz, |word|);
      assert psz[..|word|] == word;
      if trail != [] {
        assert psz[|word|] == trail[0];
      }
    }
  }

  /** A round trip through text, with any whitespace around it: the data comes back
      exactly when it is within the limit, or empty. */
  lemma RoundTripIff(data: Bytes, lead: string, trail: string, maxRet: int)
    requires AllSpaces(lead) && AllSpaces(trail)
    ensures DecodeSpec(lead + Encode(data) + trail, maxRet)
         == if |data| <= maxRet || data == [] then Some(data) else None
  {
    hide Encode, Decoded, Word, SkipSpaces, IsSpace, DigitOf;
    var word := Encode(data);
    var s := lead + word + trail;
    DecodedEncode(data);
    assert s == lead + (word + trail);
    SkipLeading(lead, word + trail);
    WordBeforeSpaces(word, trail);
    NoNul(lead, word, trail);
    assert SkipSpaces(s)[|word|..] == if word == [] then [] else trail;
  }

  lemma NoNul(lead: string, word: string, trail: string)
    requires AllSpaces(lead) && AllDigits(word) && AllSpaces(trail)
    ensures '\0' !in lead + word + trail
  {
    var s := lead + word + trail;
    forall i | 0 <= i < |s| ensures s[i] != '\0' {
      if i < |lead| {
        assert s[i] == lead[i];
      } else if i < |lead| + |word| {
        assert s[i] == word[i - |lead|];
      } else {
        assert s[i] == trail[i - |lead| - |word|];
      }
    }
  }

  // ----- checksums

  type Digest = s: Bytes | |s| == 32 witness Zeros(32)

  /** `_decode_base58check` over any hash function: the payload whose checksum follows it. */
  method DecodeBase58Check(s: string, maxRet: int, hash256: Bytes -> Digest) returns (r: Option<Bytes>)
    ensures r.Some? <==>
              && WellFormed(s)
              && var d := Decoded(Word(SkipSpaces(s)));
              && 4 <= |d| <= CheckLimit(maxRet)
              && hash256(d[..|d| - 4])[..4] == d[|d| - 4..]
    ensures r.Some? ==> Decoded(Word(SkipSpaces(s))) == r.value + hash256(r.value)[..4]
  {
    hide Decoded, Word, SkipSpaces, WellFormed;
    var lim := if maxRet > 0x7FFF_FFFF - 4 then 0x7FFF_FFFF else maxRet + 4;
    var data := DecodeBase58(s, lim);
    if data.None? || |data.value| < 4 {
      return None;
    }
    var d := data.value;
    if hash256(d[..|d| - 4])[..4] != d[|d| - 4..] {
      return None;
    }
    assert d == d[..|d| - 4] + d[|d| - 4..];
    r := Some(d[..|d| - 4]);
  }

  function CheckLimit(maxRet: int): int {
    if maxRet + 4 > 0x7FFF_FFFF then 0x7FFF_FFFF else maxRet + 4
  }
}
