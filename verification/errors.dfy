/** The parser's error type. */
module Errors {
  import opened Prelude

  /** The twelve bytes that open a save file. */
  type FileIdBytes = s: Bytes | |s| == 12
    witness [0, 0, 0, 0, 0, 0, 0, 0, 0, 0, 0, 0]

  datatype ParseError =
    | NoHeader                    // the input ended inside the 12-byte file identifier
    | XboxContainer               // the file is wrapped in an Xbox 360 `CON ` container
    | BadFileId(id: FileIdBytes)  // any other identifier, carried verbatim
    | UnexpectedEof               // the input ended inside any later field
}
