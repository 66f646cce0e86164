/** The decoded values: a Windows SYSTEMTIME, the two identifier newtypes, the
    file header and the save-file root that holds it. */
module Model {
  import opened Prelude
  import opened Cursor

  /** A Windows SYSTEMTIME, kept exactly as stored: no field is range-checked. */
  datatype SysTime = SysTime(
    year: uint16,
    month: uint16,
    weekday: uint16,
    day: uint16,
    hour: uint16,
    minute: uint16,
    seconds: uint16,
    milliseconds: uint16)

  /** The 16 bytes a SYSTEMTIME occupies on disk: its eight fields in
      declaration order, each a little-endian 16-bit word. */
  function EncodeSysTime(t: SysTime): (r: Bytes)
    ensures |r| == 16
  {
    Le16(t.year) + Le16(t.month) + Le16(t.weekday) + Le16(t.day)
    + Le16(t.hour) + Le16(t.minute) + Le16(t.seconds) + Le16(t.milliseconds)
  }

  /** The encoding followed by more bytes, regrouped word by word as a
      sequence of reads sees it. */
  lemma EncodeSysTimeThen(t: SysTime, rest: Bytes)
    ensures EncodeSysTime(t) + rest
      == Le16(t.year) + (Le16(t.month) + (Le16(t.weekday) + (Le16(t.day)
         + (Le16(t.hour) + (Le16(t.minute) + (Le16(t.seconds) + (Le16(t.milliseconds) + rest)))))))
  {
  }

  /** An object identifier resolved against the loaded content files. */
  datatype FormId = FormId(id: uint32)

  /** A save-local index into the save's own reference table; deliberately a
      different type from `FormId` although both wrap a 32-bit word. */
  datatype IRef = IRef(id: uint32)

  datatype FileHeader = FileHeader(
    fileId: string,
    majorVersion: uint8,     // expected to be zero, never checked
    minorVersion: uint8,     // gates `exeTime`
    exeTime: Option<SysTime>)

  /** A decoded save file; the decoder fills in only the file header. */
  datatype Ess = Ess(fileHeader: FileHeader)
}
