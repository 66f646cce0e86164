/** The `Scanner`: typed little-endian reads over the byte stream, each
    returning the value and the remaining stream, or `UnexpectedEof`. */
module Scanner {
  import opened Prelude
  import opened Cursor
  import opened Errors
  import opened Model
  import opened ResultHelper

  /** The string `WINDOWS_1252.decode(raw)` yields. The decoder belongs to a
      foreign library, so it stays symbolic: the model records which bytes
      were handed to it. */
  datatype Text = Windows1252(raw: Bytes)

  /** The shared shape of the fixed-width reads: `next_array`, then
      `from_le_bytes`, then `replace_err(UnexpectedEOF)`. */
  function ReadLe(s: Bytes, n: nat): (r: Result<Parsed<nat>, ParseError>)
    ensures r.Ok? <==> |s| >= n
    ensures r.Ok? ==> r.value.value < Pow256(n) && s == ToLeBytes(r.value.value, n) + r.value.rest
    ensures r.Ok? ==> r.value.value == FromLeBytes(s[..n])
    ensures r.Err? ==> r.error == UnexpectedEof
  {
    var p :- ReplaceErr(NextArray(s, n), UnexpectedEof);
    ToLeBytesOfFromLeBytes(p.value);
    assert s[..n] == p.value;
    Ok(Parsed(FromLeBytes(p.value), p.rest))
  }

  function ReadU8(s: Bytes): (r: Result<Parsed<uint8>, ParseError>)
    ensures r.Ok? <==> |s| >= 1
    ensures r.Ok? ==> r.value.value == s[0] && r.value.rest == s[1..]
    ensures r.Err? ==> r.error == UnexpectedEof
  {
    Next(s).OkOr(UnexpectedEof)
  }

  function ReadU16(s: Bytes): (r: Result<Parsed<uint16>, ParseError>)
    ensures r.Ok? <==> |s| >= 2
    ensures r.Ok? ==> s == Le16(r.value.value) + r.value.rest
    ensures r.Err? ==> r.error == UnexpectedEof
  {
    var w :- ReadLe(s, 2);
    Pow256Widths();
    Ok(Parsed(w.value as uint16, w.rest))
  }

  function ReadU32(s: Bytes): (r: Result<Parsed<uint32>, ParseError>)
    ensures r.Ok? <==> |s| >= 4
    ensures r.Ok? ==> s == Le32(r.value.value) + r.value.rest
    ensures r.Err? ==> r.error == UnexpectedEof
  {
    var w :- ReadLe(s, 4);
    Pow256Widths();
    Ok(Parsed(w.value as uint32, w.rest))
  }

  /** `f32`: the same four bytes as `u32`, reinterpreted bit for bit. */
  function ReadF32(s: Bytes): (r: Result<Parsed<F32>, ParseError>)
    ensures r.Ok? <==> |s| >= 4
    ensures r.Ok? ==> s == Le32(r.value.value.bits) + r.value.rest
    ensures r.Err? ==> r.error == UnexpectedEof
  {
    var w :- ReadLe(s, 4);
    Pow256Widths();
    Ok(Parsed(F32(w.value as uint32), w.rest))
  }

  /** Lenient: every byte is accepted and only zero means false. */
  function ReadBool(s: Bytes): (r: Result<Parsed<bool>, ParseError>)
    ensures r.Ok? <==> |s| >= 1
    ensures r.Ok? ==> (r.value.value <==> s[0] != 0) && r.value.rest == s[1..]
    ensures r.Err? ==> r.error == UnexpectedEof
  {
    var b :- ReadU8(s);
    Ok(Parsed(b.value != 0, b.rest))
  }

  /** Eight 16-bit words in the order year, month, weekday, day, hour,
      minute, seconds, milliseconds. */
  function ReadSysTime(s: Bytes): (r: Result<Parsed<SysTime>, ParseError>)
    ensures r.Ok? <==> |s| >= 16
    ensures r.Ok? ==> s == EncodeSysTime(r.value.value) + r.value.rest
    ensures r.Err? ==> r.error == UnexpectedEof
  {
    var year :- ReadU16(s);
    var month :- ReadU16(year.rest);
    var weekday :- ReadU16(month.rest);
    var day :- ReadU16(weekday.rest);
    var hour :- ReadU16(day.rest);
    var minute :- ReadU16(hour.rest);
    var seconds :- ReadU16(minute.rest);
    var milliseconds :- ReadU16(seconds.rest);
    var t := SysTime(year.value, month.value, weekday.value, day.value,
                     hour.value, minute.value, seconds.value, milliseconds.value);
    EncodeSysTimeThen(t, milliseconds.rest);
    Ok(Parsed(t, milliseconds.rest))
  }

  /** The length-prefixed window a string read looks at: up to `s[0]` bytes
      after the length byte, fewer if the stream ends first. */
  function Window(s: Bytes): Bytes
    requires |s| >= 1
  {
    s[1..1 + Min(s[0], |s| - 1)]
  }

  /** `bstring`: a length byte, then the whole window. A short body is not an
      error: the string is just shorter. */
  function ReadBString(s: Bytes): (r: Result<Parsed<Text>, ParseError>)
    ensures r.Ok? <==> |s| >= 1
    ensures r.Ok? ==> r.value.value.raw == Window(s) && r.value.rest == s[1 + |Window(s)|..]
    ensures r.Err? ==> r.error == UnexpectedEof
  {
    var len :- ReadU8(s);
    var body := Take(len.rest, len.value);
    Ok(Parsed(Windows1252(body.value), body.rest))
  }

  /** `bzstring`: a length byte, then the window up to its first zero. The
      `take_while` pulls that zero but nothing after it, so padding behind
      the zero stays in the stream. */
  function ReadBZString(s: Bytes): (r: Result<Parsed<Text>, ParseError>)
    ensures r.Ok? <==> |s| >= 1
    ensures r.Ok? ==>
      var w, t := Window(s), r.value.value.raw;
      && t <= w && 0 !in t
      && (|t| < |w| ==> w[|t|] == 0)
      && r.value.rest == s[1 + Min(|t| + 1, |w|)..]
    ensures r.Err? ==> r.error == UnexpectedEof
  {
    var len :- ReadU8(s);
    var window := Take(len.rest, len.value);
    var (text, pulled) := TakeWhileNonZero(window.value);
    Ok(Parsed(Windows1252(text), len.rest[pulled..]))
  }

  /** `bzstring` as its field layout calls for: the text stops at the first
      zero, but the whole window is consumed. */
  function ReadBZStringFixed(s: Bytes): (r: Result<Parsed<Text>, ParseError>)
    ensures r.Ok? <==> |s| >= 1
    ensures r.Ok? ==>
      var w, t := Window(s), r.value.value.raw;
      && t <= w && 0 !in t
      && (|t| < |w| ==> w[|t|] == 0)
      && r.value.rest == s[1 + |w|..]
    ensures r.Err? ==> r.error == UnexpectedEof
  {
    var len :- ReadU8(s);
    var window := Take(len.rest, len.value);
    var (text, _) := TakeWhileNonZero(window.value);
    Ok(Parsed(Windows1252(text), window.rest))
  }

  function ReadFormId(s: Bytes): (r: Result<Parsed<FormId>, ParseError>)
    ensures r.Ok? <==> |s| >= 4
    ensures r.Ok? ==> s == Le32(r.value.value.id) + r.value.rest
    ensures r.Err? ==> r.error == UnexpectedEof
  {
    var w :- ReadU32(s);
    Ok(Parsed(FormId(w.value), w.rest))
  }

  function ReadIRef(s: Bytes): (r: Result<Parsed<IRef>, ParseError>)
    ensures r.Ok? <==> |s| >= 4
    ensures r.Ok? ==> s == Le32(r.value.value.id) + r.value.rest
    ensures r.Err? ==> r.error == UnexpectedEof
  {
    var w :- ReadU32(s);
    Ok(Parsed(IRef(w.value), w.rest))
  }

  // ---------------------------------------------------------------------
  // Round trips: each read takes back exactly what the encoder wrote.
  // ---------------------------------------------------------------------

  /** The explicit formulas: the low byte comes first. */
  lemma ReadU16Formula(s: Bytes)
    requires |s| >= 2
    ensures ReadU16(s) == Ok(Parsed(s[0] as int + 0x100 * (s[1] as int), s[2..]))
  {
    FromLeBytesWord(s[..2]);
  }

  lemma ReadU32Formula(s: Bytes)
    requires |s| >= 4
    ensures ReadU32(s) == Ok(Parsed(
      s[0] as int + 0x100 * (s[1] as int) + 0x1_0000 * (s[2] as int) + 0x100_0000 * (s[3] as int), s[4..]))
  {
    FromLeBytesDword(s[..4]);
  }

  /** `u8` reads back its one-byte little-endian encoding, which is the
      byte itself. */
  lemma ReadU8RoundTrip(v: uint8, rest: Bytes)
    ensures ToLeBytes(v, 1) == [v]
    ensures ReadU8(ToLeBytes(v, 1) + rest) == Ok(Parsed(v, rest))
  {
  }

  lemma ReadU16RoundTrip(v: uint16, rest: Bytes)
    ensures ReadU16(Le16(v) + rest) == Ok(Parsed(v, rest))
  {
    var s := Le16(v) + rest;
    Pow256Widths();
    FromLeBytesOfToLeBytes(v, 2);
    assert s[..2] == Le16(v);
  }

  lemma ReadU32RoundTrip(v: uint32, rest: Bytes)
    ensures ReadU32(Le32(v) + rest) == Ok(Parsed(v, rest))
  {
    var s := Le32(v) + rest;
    Pow256Widths();
    FromLeBytesOfToLeBytes(v, 4);
    assert s[..4] == Le32(v);
  }

  /** `f32` reads back any bit pattern, so the float is taken bit for bit. */
  lemma ReadF32RoundTrip(v: uint32, rest: Bytes)
    ensures ReadF32(Le32(v) + rest) == Ok(Parsed(F32(v), rest))
  {
    var s := Le32(v) + rest;
    Pow256Widths();
    FromLeBytesOfToLeBytes(v, 4);
    assert s[..4] == Le32(v);
  }

  /** `form_id` and `iref` read back any encoded identifier. */
  lemma ReadFormIdAndIRefRoundTrip(v: uint32, rest: Bytes)
    ensures ReadFormId(Le32(v) + rest) == Ok(Parsed(FormId(v), rest))
    ensures ReadIRef(Le32(v) + rest) == Ok(Parsed(IRef(v), rest))
  {
    ReadU32RoundTrip(v, rest);
  }

  lemma ReadBoolRoundTrip(v: bool, rest: Bytes)
    ensures ReadBool([if v then 1 else 0] + rest) == Ok(Parsed(v, rest))
  {
  }

  lemma ReadSysTimeRoundTrip(t: SysTime, rest: Bytes)
    ensures ReadSysTime(EncodeSysTime(t) + rest) == Ok(Parsed(t, rest))
  {
    var r7 := Le16(t.milliseconds) + rest;
    var r6 := Le16(t.seconds) + r7;
    var r5 := Le16(t.minute) + r6;
    var r4 := Le16(t.hour) + r5;
    var r3 := Le16(t.day) + r4;
    var r2 := Le16(t.weekday) + r3;
    var r1 := Le16(t.month) + r2;
    var s := Le16(t.year) + r1;
    EncodeSysTimeThen(t, rest);
    ReadU16RoundTrip(t.year, r1);
    ReadU16RoundTrip(t.month, r2);
    ReadU16RoundTrip(t.weekday, r3);
    ReadU16RoundTrip(t.day, r4);
    ReadU16RoundTrip(t.hour, r5);
    ReadU16RoundTrip(t.minute, r6);
    ReadU16RoundTrip(t.seconds, r7);
    ReadU16RoundTrip(t.milliseconds, rest);
  }

  lemma ReadBStringRoundTrip(b: Bytes, rest: Bytes)
    requires |b| < 0x100
    ensures ReadBString([|b|] + b + rest) == Ok(Parsed(Windows1252(b), rest))
  {
    var s := [|b|] + b + rest;
    assert Window(s) == b;
    assert s[1 + |b|..] == rest;
  }

  /** A zero-terminated field padded behind its zero: the text is recovered,
      but the padding is left in the stream. */
  lemma ReadBZStringRoundTrip(b: Bytes, pad: Bytes, rest: Bytes)
    requires 0 !in b && |b| + 1 + |pad| < 0x100
    ensures ReadBZString([|b| + 1 + |pad|] + b + [0] + pad + rest) == Ok(Parsed(Windows1252(b), pad + rest))
  {
    var s := [|b| + 1 + |pad|] + b + [0] + pad + rest;
    assert s[1..] == b + [0] + pad + rest;
    assert Take(s[1..], s[0]).value == b + [0] + pad;
    TakeWhileNonZeroStopsAtZero(b, pad);
    assert s[1..][|b| + 1..] == pad + rest;
  }

  lemma ReadBZStringFixedRoundTrip(b: Bytes, pad: Bytes, rest: Bytes)
    requires 0 !in b && |b| + 1 + |pad| < 0x100
    ensures ReadBZStringFixed([|b| + 1 + |pad|] + b + [0] + pad + rest) == Ok(Parsed(Windows1252(b), rest))
  {
    var s := [|b| + 1 + |pad|] + b + [0] + pad + rest;
    assert s[1..] == b + [0] + pad + rest;
    assert Take(s[1..], s[0]) == Parsed(b + [0] + pad, rest);
    TakeWhileNonZeroStopsAtZero(b, pad);
  }

  /** With no zero in the window the two string conventions coincide. */
  lemma ReadBZStringWithoutZero(s: Bytes)
    requires |s| >= 1 && 0 !in Window(s)
    ensures ReadBZString(s) == ReadBString(s)
  {
    var t := ReadBZString(s).value.value.raw;
    assert t == Window(s);
  }

  /** A concrete input on which `bzstring` stops short of its declared
      length: three bytes are declared, but the byte after the zero is not
      consumed, while `bstring` (and the corrected read) consume all three. */
  lemma ReadBZStringLeavesPadding()
    ensures ReadBZString([3, 0x41, 0, 0x42]) == Ok(Parsed(Windows1252([0x41]), [0x42]))
    ensures ReadBString([3, 0x41, 0, 0x42]) == Ok(Parsed(Windows1252([0x41, 0, 0x42]), []))
    ensures ReadBZStringFixed([3, 0x41, 0, 0x42]) == Ok(Parsed(Windows1252([0x41]), []))
  {
    ReadBZStringRoundTrip([0x41], [0x42], []);
    ReadBZStringFixedRoundTrip([0x41], [0x42], []);
    ReadBStringRoundTrip([0x41, 0, 0x42], []);
    assert [3] + [0x41] + [0] + [0x42] + [] == [3, 0x41, 0, 0x42];
    assert [3] + [0x41, 0, 0x42] + [] == [3, 0x41, 0, 0x42];
  }

  /** The corrected read always leaves the stream where `bstring` does. */
  lemma ReadBZStringFixedConsumesLikeBString(s: Bytes)
    ensures ReadBZStringFixed(s).Ok? == ReadBString(s).Ok?
    ensures ReadBZStringFixed(s).Ok? ==> ReadBZStringFixed(s).value.rest == ReadBString(s).value.rest
  {
  }

  /** `form_id` and `iref` are the `u32` read under two different wrappers. */
  lemma ReadFormIdAndIRefWrapU32(s: Bytes)
    ensures ReadFormId(s).Ok? == ReadIRef(s).Ok? == ReadU32(s).Ok?
    ensures ReadU32(s).Ok? ==>
      && ReadFormId(s).value == Parsed(FormId(ReadU32(s).value.value), ReadU32(s).value.rest)
      && ReadIRef(s).value == Parsed(IRef(ReadU32(s).value.value), ReadU32(s).value.rest)
    ensures ReadU32(s).Err? ==> ReadFormId(s).error == ReadIRef(s).error == ReadU32(s).error
  {
  }
}
