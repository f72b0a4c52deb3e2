/** Forward moves inside one byte string, as both repair loops do them. */
module Moves {
  import opened ByteStrings

  /** `orig` after `len` bytes from `src` on have been moved down to `dst`. */
  function Moved(orig: Bytes, dst: nat, src: nat, len: nat): (r: Bytes)
    requires dst <= src && src + len <= |orig|
    ensures |r| == |orig|
  {
    orig[..dst] + orig[src..src + len] + orig[dst + len..]
  }

  /** Overwriting part of a string, as a file write or `pack_into` does. */
  function Overwrite(s: Bytes, at: nat, part: Bytes): (r: Bytes)
    requires at + |part| <= |s|
    ensures |r| == |s|
  {
    s[..at] + part + s[at + |part|..]
  }

  /** The next `n` bytes are still the original ones when they are read, however far the
      move has come and even if source and destination overlap inside the piece. */
  lemma MoveStep(orig: Bytes, dst: nat, src: nat, len: nat, n: nat)
    requires dst <= src && src + len + n <= |orig|
    ensures var m := Moved(orig, dst, src, len);
            && m[src + len..src + len + n] == orig[src + len..src + len + n]
            && Overwrite(m, dst + len, m[src + len..src + len + n]) == Moved(orig, dst, src, len + n)
  {
    var m := Moved(orig, dst, src, len);
    var piece := m[src + len..src + len + n];
    assert piece == orig[src + len..src + len + n];
    assert m[..dst + len] == orig[..dst] + orig[src..src + len];
    assert m[dst + len + n..] == orig[dst + len + n..];
    assert orig[src..src + len] + piece == orig[src..src + len + n];
  }
}
