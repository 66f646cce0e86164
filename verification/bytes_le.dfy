/** The older `BytesLE` reads: the same little-endian reads as the scanner,
    reporting a short stream as `None` rather than as an error. */
module BytesLE {
  import opened Prelude
  import opened Cursor

  /** `next_u8`: the first byte (`from_le` is the identity on one byte). */
  function NextU8(s: Bytes): (r: Option<Parsed<uint8>>)
    ensures r.Some? <==> |s| >= 1
    ensures r.Some? ==> r.value.value == s[0] && r.value.rest == s[1..]
  {
    Next(s)
  }

  /** `next_u16`: `next_array().ok().map(u16::from_le_bytes)`. */
  function NextU16(s: Bytes): (r: Option<Parsed<uint16>>)
    ensures r.Some? <==> |s| >= 2
    ensures r.Some? ==> s == Le16(r.value.value) + r.value.rest
  {
    match NextArray(s, 2).ToOption()
    case None => None
    case Some(p) =>
      Pow256Widths();
      ToLeBytesOfFromLeBytes(p.value);
      Some(Parsed(FromLeBytes(p.value) as uint16, p.rest))
  }

  /** `next_u32`: `next_array().ok().map(u32::from_le_bytes)`. */
  function NextU32(s: Bytes): (r: Option<Parsed<uint32>>)
    ensures r.Some? <==> |s| >= 4
    ensures r.Some? ==> s == Le32(r.value.value) + r.value.rest
  {
    match NextArray(s, 4).ToOption()
    case None => None
    case Some(p) =>
      Pow256Widths();
      ToLeBytesOfFromLeBytes(p.value);
      Some(Parsed(FromLeBytes(p.value) as uint32, p.rest))
  }

  /** The explicit formulas: the low byte comes first. */
  lemma NextU16Formula(s: Bytes)
    requires |s| >= 2
    ensures NextU16(s) == Some(Parsed(s[0] as int + 0x100 * (s[1] as int), s[2..]))
  {
    FromLeBytesWord(s[..2]);
  }

  lemma NextU32Formula(s: Bytes)
    requires |s| >= 4
    ensures NextU32(s) == Some(Parsed(
      s[0] as int + 0x100 * (s[1] as int) + 0x1_0000 * (s[2] as int) + 0x100_0000 * (s[3] as int), s[4..]))
  {
    FromLeBytesDword(s[..4]);
  }

  lemma NextU8RoundTrip(v: uint8, rest: Bytes)
    ensures NextU8(ToLeBytes(v, 1) + rest) == Some(Parsed(v, rest))
  {
  }

  lemma NextU16RoundTrip(v: uint16, rest: Bytes)
    ensures NextU16(Le16(v) + rest) == Some(Parsed(v, rest))
  {
    Pow256Widths();
    FromLeBytesOfToLeBytes(v, 2);
    assert (Le16(v) + rest)[..2] == Le16(v);
  }

  lemma NextU32RoundTrip(v: uint32, rest: Bytes)
    ensures NextU32(Le32(v) + rest) == Some(Parsed(v, rest))
  {
    Pow256Widths();
    FromLeBytesOfToLeBytes(v, 4);
    assert (Le32(v) + rest)[..4] == Le32(v);
  }
}
