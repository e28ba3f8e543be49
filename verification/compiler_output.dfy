/**
  What a statement compiler hands back: the `CompileResult` verdict, the
  `outCode` bytes and the `errorMsg` text of the compiler's `out` parameters.
 */
module CompilerOutput {
  import opened Results
  import opened Hp41Char
  import opened Hp41Encoding

  /** The compiler's verdict. */
  datatype CompileResult = Ok | CompileError

  /**
    The error message, by the situation it reports rather than by its exact
    wording; `NoMessage` is `string.Empty`.
   */
  datatype Message =
    | NoMessage
      /** An exception of the character codec, passed through. */
    | Codec(error: CodecError)
      /** "<item> could not be more than <limit> characters". */
    | TooLong(item: string, limit: int)
      /** The runtime's message when a byte is stored past the end of the buffer. */
    | IndexOutOfRange
      /** "Text expected \"<lexeme>\"". */
    | TextExpected(lexeme: string)

  /** The three outputs of a compile call; `None` stands for a `null` `outCode`. */
  datatype Compiled = Compiled(result: CompileResult, outCode: Option<seq<Byte>>, errorMsg: Message)
}
