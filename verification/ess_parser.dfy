/** The crate's entry point: `parse` decodes the file header of a save file.
    It checks the 12-byte identifier, reads the two version bytes, and reads
    the executable timestamp only when the minor version calls for it. */
module EssParser {
  import opened Prelude
  import opened Cursor
  import opened Errors
  import opened Model
  import opened BytesLE
  import opened OptionHelper
  import opened ResultHelper
  import Scanner

  /** "TES4SAVEGAME" in ASCII. */
  const Magic: FileIdBytes := [0x54, 0x45, 0x53, 0x34, 0x53, 0x41, 0x56, 0x45, 0x47, 0x41, 0x4D, 0x45]
  const MagicText: string := "TES4SAVEGAME"

  /** "CON ": the start of an Xbox 360 container. */
  const ConMarker: Bytes := [0x43, 0x4F, 0x4E, 0x20]

  /** The first minor version whose header carries `exe_time`. */
  const ExeTimeMinVersion: uint8 := 82

  lemma MagicSpellsFileId()
    ensures |Magic| == |MagicText|
    ensures forall i :: 0 <= i < |Magic| ==> Magic[i] == MagicText[i] as int
  {
  }

  /** `read_systime`: the same eight words as the scanner's `systime`, read
      through `next_u16().or_err(UnexpectedEOF)`. */
  function ReadSysTime(s: Bytes): (r: Result<Parsed<SysTime>, ParseError>)
    ensures r.Ok? <==> |s| >= 16
    ensures r.Ok? ==> s == EncodeSysTime(r.value.value) + r.value.rest
    ensures r.Err? ==> r.error == UnexpectedEof
  {
    var year :- OrErr(NextU16(s), UnexpectedEof);
    var month :- OrErr(NextU16(year.rest), UnexpectedEof);
    var weekday :- OrErr(NextU16(month.rest), UnexpectedEof);
    var day :- OrErr(NextU16(weekday.rest), UnexpectedEof);
    var hour :- OrErr(NextU16(day.rest), UnexpectedEof);
    var minute :- OrErr(NextU16(hour.rest), UnexpectedEof);
    var seconds :- OrErr(NextU16(minute.rest), UnexpectedEof);
    var milliseconds :- OrErr(NextU16(seconds.rest), UnexpectedEof);
    var t := SysTime(year.value, month.value, weekday.value, day.value,
                     hour.value, minute.value, seconds.value, milliseconds.value);
    EncodeSysTimeThen(t, milliseconds.rest);
    Ok(Parsed(t, milliseconds.rest))
  }

  /** A header `parse` can produce: the fixed identifier, and a timestamp
      exactly when the minor version is at least 82. The versions themselves
      are unconstrained. */
  predicate WellFormed(h: FileHeader)
  {
    && h.fileId == MagicText
    && (h.exeTime.Some? <==> h.minorVersion >= ExeTimeMinVersion)
  }

  /** The bytes a header occupies on disk: identifier, major and minor
      version, then the optional timestamp. */
  function EncodeFileHeader(h: FileHeader): (r: Bytes)
    ensures |r| == if h.exeTime.Some? then 30 else 14
  {
    Magic + [h.majorVersion, h.minorVersion] + ExeTimeBytes(h.exeTime)
  }

  /** The identifier check: the magic is accepted, an Xbox container is
      refused, anything else is reported with its bytes. */
  function CheckFileId(id: FileIdBytes): (r: Result<string, ParseError>)
    ensures r.Ok? <==> id == Magic
    ensures r.Ok? ==> r.value == MagicText
    ensures r == Err(XboxContainer) <==> id != Magic && id[..4] == ConMarker
    ensures r.Err? && r != Err(XboxContainer) ==> r.error == BadFileId(id)
  {
    if id == Magic then Ok(MagicText)
    else if ConMarker <= id then Err(XboxContainer)
    else Err(BadFileId(id))
  }

  /** The timestamp bytes, if any: the optional timestamp followed by
      nothing else. */
  function ExeTimeBytes(t: Option<SysTime>): (r: Bytes)
    ensures |r| == if t.Some? then 16 else 0
  {
    match t
    case Some(t) => EncodeSysTime(t)
    case None => []
  }

  /** The version gate: a timestamp is read when the minor version is at
      least 82, and is absent (not zero-filled) below that. */
  function ReadExeTime(minor: uint8, s: Bytes): (r: Result<Parsed<Option<SysTime>>, ParseError>)
    ensures r.Ok? <==> (minor >= ExeTimeMinVersion ==> |s| >= 16)
    ensures r.Ok? ==> (r.value.value.Some? <==> minor >= ExeTimeMinVersion)
    ensures r.Ok? ==> s == ExeTimeBytes(r.value.value) + r.value.rest
    ensures r.Err? ==> r.error == UnexpectedEof
  {
    if minor >= ExeTimeMinVersion then
      var t :- ReadSysTime(s);
      Ok(Parsed(Some(t.value), t.rest))
    else
      Ok(Parsed(None, s))
  }

  /** The bytes a header occupies on disk. */
  lemma EncodeFileHeaderThen(h: FileHeader, rest: Bytes)
    ensures EncodeFileHeader(h) + rest
      == Magic + ([h.majorVersion] + ([h.minorVersion] + (ExeTimeBytes(h.exeTime) + rest)))
  {
  }

  /** `parse`. On success the remainder is what is left in the iterator when
      the caller passes it by reference. */
  function Parse(s: Bytes): (r: Result<Parsed<Ess>, ParseError>)
    ensures r == Err(NoHeader) <==> |s| < 12
    ensures r.Ok? ==> WellFormed(r.value.value.fileHeader)
    ensures r.Ok? ==> s == EncodeFileHeader(r.value.value.fileHeader) + r.value.rest
  {
    var id :- ReplaceErr(NextArray(s, 12), NoHeader);
    var fileId :- CheckFileId(id.value);
    var major :- OrErr(NextU8(id.rest), UnexpectedEof);
    var minor :- OrErr(NextU8(major.rest), UnexpectedEof);
    var exeTime :- ReadExeTime(minor.value, minor.rest);
    var header := FileHeader(fileId, major.value, minor.value, exeTime.value);
    EncodeFileHeaderThen(header, exeTime.rest);
    Ok(Parsed(Ess(header), exeTime.rest))
  }

  // ---------------------------------------------------------------------
  // The three outcomes of the identifier check.
  // ---------------------------------------------------------------------

  lemma ParseAcceptsMagic(rest: Bytes)
    ensures Parse(Magic + rest).Ok? ==> Parse(Magic + rest).value.value.fileHeader.fileId == MagicText
    ensures Parse(Magic + rest).Err? ==> Parse(Magic + rest).error == UnexpectedEof
  {
    assert (Magic + rest)[..12] == Magic;
  }

  /** An Xbox container is refused whatever follows the marker. */
  lemma ParseRejectsXboxContainer(id: FileIdBytes, rest: Bytes)
    requires id != Magic && ConMarker <= id
    ensures Parse(id + rest) == Err(XboxContainer)
  {
    assert (id + rest)[..12] == id;
  }

  /** Any other identifier is reported verbatim. */
  lemma ParseRejectsBadFileId(id: FileIdBytes, rest: Bytes)
    requires id != Magic && !(ConMarker <= id)
    ensures Parse(id + rest) == Err(BadFileId(id))
  {
    assert (id + rest)[..12] == id;
  }

  // ---------------------------------------------------------------------
  // Versions and the timestamp gate.
  // ---------------------------------------------------------------------

  /** Exactly when `parse` succeeds: the magic, both version bytes, and the
      16 timestamp bytes if the minor version asks for them. */
  lemma ParseSucceedsExactly(s: Bytes)
    ensures Parse(s).Ok? <==>
      && |s| >= 14 && s[..12] == Magic
      && (s[13] >= ExeTimeMinVersion ==> |s| >= 30)
  {
    if |s| >= 12 {
      assert s == s[..12] + s[12..];
    }
  }

  /** The version bytes are taken as they are (neither a nonzero major nor a
      minor above 126 is rejected), and they decide the timestamp. */
  lemma ParseVersionsAndExeTime(s: Bytes)
    requires |s| >= 14 && s[..12] == Magic
    ensures s[13] < ExeTimeMinVersion ==>
      Parse(s) == Ok(Parsed(Ess(FileHeader(MagicText, s[12], s[13], None)), s[14..]))
    ensures s[13] >= ExeTimeMinVersion && |s| < 30 ==> Parse(s) == Err(UnexpectedEof)
    ensures s[13] >= ExeTimeMinVersion && |s| >= 30 ==>
      && Parse(s).Ok?
      && Parse(s).value.value.fileHeader.majorVersion == s[12]
      && Parse(s).value.value.fileHeader.minorVersion == s[13]
      && Parse(s).value.value.fileHeader.exeTime.Some?
      && EncodeSysTime(Parse(s).value.value.fileHeader.exeTime.value) == s[14..30]
      && Parse(s).value.rest == s[30..]
  {
    assert s == s[..12] + s[12..];
    if s[13] >= ExeTimeMinVersion && |s| >= 30 {
      var h := Parse(s).value.value.fileHeader;
      assert s == Magic + [h.majorVersion, h.minorVersion] + EncodeSysTime(h.exeTime.value) + Parse(s).value.rest;
    }
  }

  /** A file cut off inside the version bytes. */
  lemma ParseMissingVersion(s: Bytes)
    requires 12 <= |s| < 14 && s[..12] == Magic
    ensures Parse(s) == Err(UnexpectedEof)
  {
    assert s == s[..12] + s[12..];
  }

  // ---------------------------------------------------------------------
  // `parse` inverts the header layout.
  // ---------------------------------------------------------------------

  lemma ParseRoundTrip(h: FileHeader, rest: Bytes)
    requires WellFormed(h)
    ensures Parse(EncodeFileHeader(h) + rest) == Ok(Parsed(Ess(h), rest))
  {
    var s := EncodeFileHeader(h) + rest;
    EncodeFileHeaderThen(h, rest);
    assert s[..12] == Magic;
    assert s[12] == h.majorVersion && s[13] == h.minorVersion;
    var afterVersions := s[14..];
    match h.exeTime {
      case Some(t) =>
        assert afterVersions == EncodeSysTime(t) + rest;
        ReadSysTimeRoundTrip(t, rest);
      case None =>
        assert afterVersions == rest;
    }
  }

  /** Through the iterator reads, `read_systime` also takes back exactly what
      the encoder wrote. */
  lemma ReadSysTimeRoundTrip(t: SysTime, rest: Bytes)
    ensures ReadSysTime(EncodeSysTime(t) + rest) == Ok(Parsed(t, rest))
  {
    EncodeSysTimeThen(t, rest);
    var r7 := Le16(t.milliseconds) + rest;
    var r6 := Le16(t.seconds) + r7;
    var r5 := Le16(t.minute) + r6;
    var r4 := Le16(t.hour) + r5;
    var r3 := Le16(t.day) + r4;
    var r2 := Le16(t.weekday) + r3;
    var r1 := Le16(t.month) + r2;
    NextU16RoundTrip(t.year, r1);
    NextU16RoundTrip(t.month, r2);
    NextU16RoundTrip(t.weekday, r3);
    NextU16RoundTrip(t.day, r4);
    NextU16RoundTrip(t.hour, r5);
    NextU16RoundTrip(t.minute, r6);
    NextU16RoundTrip(t.seconds, r7);
    NextU16RoundTrip(t.milliseconds, rest);
  }

  // ---------------------------------------------------------------------
  // The old iterator reads and the scanner agree.
  // ---------------------------------------------------------------------

  /** Mapping `None` to `UnexpectedEof`, each `BytesLE` read gives the same
      value and remainder as the scanner's read of the same width. */
  lemma BytesLEAgreesWithScanner(s: Bytes)
    ensures OrErr(NextU8(s), UnexpectedEof) == Scanner.ReadU8(s)
    ensures OrErr(NextU16(s), UnexpectedEof) == Scanner.ReadU16(s)
    ensures OrErr(NextU32(s), UnexpectedEof) == Scanner.ReadU32(s)
  {
  }

  /** The two SYSTEMTIME readers are interchangeable. */
  lemma ReadSysTimeAgreesWithScanner(s: Bytes)
    ensures ReadSysTime(s) == Scanner.ReadSysTime(s)
  {
    if |s| >= 16 {
      var t := ReadSysTime(s).value.value;
      var rest := s[16..];
      assert s == EncodeSysTime(t) + rest;
      ReadSysTimeRoundTrip(t, rest);
      Scanner.ReadSysTimeRoundTrip(t, rest);
    }
  }
}
