/** Value types shared by the handlers and the server: the parts of the
    Language Server Protocol records the core reads or writes, the handler
    error, and the usual Option/Result wrappers. */
module Types {

  datatype Option<+T> = None | Some(value: T)

  datatype Result<+T, +E> = Ok(value: T) | Err(error: E)

  /** An unsigned 32-bit integer, the width of LSP line/character numbers. */
  const U32_MAX: int := 0xFFFF_FFFF
  type u32 = x: int | 0 <= x <= U32_MAX

  /** A signed 32-bit integer, the width of LSP document versions. */
  type i32 = x: int | -0x8000_0000 <= x < 0x8000_0000

  /** A document identity (an LSP URI), kept opaque. */
  type Uri = string

  /** A zero-based position; the character offset is in UTF-16 code units. */
  datatype Position = Position(line: u32, character: u32)

  datatype Range = Range(start: Position, end: Position)

  datatype Severity = Error | Warning | Information | Hint

  /** A diagnostic as built by `Diagnostic::new_simple` and a severity update:
      every other field of the LSP record stays absent. */
  datatype Diagnostic = Diagnostic(range: Range, severity: Option<Severity>, message: string)

  /** The error a handler or the handler registry reports. */
  datatype HandlerError = Log(text: string) | NoSuchDocument(uri: Uri)
}
