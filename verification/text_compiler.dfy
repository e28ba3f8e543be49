/**
  Text literals (Compiler/CompileText.cs): the characters of a literal are
  encoded one HP-41 code at a time into a buffer of at most sixteen bytes
  that starts with the `0xF0 + length` text header.
 */
module TextCompiler {
  import opened Results
  import opened Hp41Char
  import opened Hp41Encoding
  import opened Tokens
  import opened CompilerOutput

  /** The buffer size of a text instruction, header included. */
  const TextBufferSize: nat := 16

  /** The header byte of a text instruction before its length is added. */
  const TextHeader: Byte := 0xF0

  /** The byte an append literal (the text token after an `Append` token) puts before its characters. */
  const AppendMarker: Byte := 0x7F

  /** A character reader: the code at a cursor of a text and how many characters it took. */
  type Reader = (string, nat) -> Result<Parsed, CodecError>

  /** A reader's successes take at least one character and stay inside the text. */
  ghost predicate Advances(read: Reader)
  {
    forall t: string, j: nat :: read(t, j).Success? ==> 1 <= read(t, j).value.used && j + read(t, j).value.used <= |t|
  }

  /** The codec's `ParseCharacterAtPosition` is such a reader. */
  lemma CodecAdvances()
    ensures Advances(ParseCharacterAtPosition)
  {
    forall t: string, j: nat | ParseCharacterAtPosition(t, j).Success?
      ensures 1 <= ParseCharacterAtPosition(t, j).value.used
      ensures j + ParseCharacterAtPosition(t, j).value.used <= |t|
    {
    }
  }

  /**
    `ConvertText`: encodes `characters` into buffer positions
    `startPosition` up to `maxNumberOfBytes`. On success the bytes written
    are returned; their count is the source's `numberOfGeneratedBytes`
    (which is 0 on every failure).
   */
  function ConvertText(itemName: string, characters: string, startPosition: int, maxNumberOfBytes: int)
    : (r: Result<seq<Byte>, Message>)
    ensures r.Success? ==> 0 <= startPosition && 1 <= |r.value| <= maxNumberOfBytes - startPosition
    ensures r.Failure? ==> r.error != NoMessage
  {
    CodecAdvances();
    ConvertFrom(ParseCharacterAtPosition, itemName, characters, startPosition, maxNumberOfBytes, 0, startPosition)
  }

  /**
    The do-while loop from one turn on, for the reader `read`:
    `characterIndex` characters are consumed and the next byte goes to
    buffer position `codeIndex`. The result is the bytes stored from
    `codeIndex` on.
   */
  function ConvertFrom(read: Reader, itemName: string, characters: string, startPosition: int,
                       maxNumberOfBytes: int, characterIndex: nat, codeIndex: int)
    : (r: Result<seq<Byte>, Message>)
    requires Advances(read) && characterIndex <= |characters|
    ensures r.Success? ==> 0 <= codeIndex && 1 <= |r.value| <= maxNumberOfBytes - codeIndex
    ensures r.Failure? ==> r.error != NoMessage
    decreases |characters| - characterIndex
  {
    if codeIndex == maxNumberOfBytes then
      Failure(TooLong(itemName, maxNumberOfBytes - startPosition))
    else
      match read(characters, characterIndex)
      case Failure(e) => Failure(Codec(e))
      case Success(p) =>
        // the array store's bounds check comes after the right-hand side
        if codeIndex < 0 || maxNumberOfBytes < codeIndex then Failure(IndexOutOfRange)
        else if characterIndex + p.used < |characters| then
          match ConvertFrom(read, itemName, characters, startPosition, maxNumberOfBytes,
                            characterIndex + p.used, codeIndex + 1)
          case Failure(m) => Failure(m)
          case Success(rest) => Success([p.code] + rest)
        else Success([p.code])
  }

  /** The first byte of a text instruction: the header plus the number of bytes after it. */
  function HeaderByte(n: int): (b: Byte)
    ensures 0 <= n < 16 ==> b == 0xF0 + n
    ensures (b - 0xF0 - n) % 256 == 0
  {
    ToByte(TextHeader + n)
  }

  /**
    `CompileText`: a text instruction is its header, the append marker when
    `append` is set, and the codes of the literal's characters, at most
    sixteen bytes in all.
   */
  function CompileText(token: Token, append: bool): (r: Compiled)
    ensures r.result == Ok <==> r.outCode.Some?
    ensures r.result == Ok ==>
              var out := r.outCode.value;
              2 <= |out| <= TextBufferSize && out[0] == TextHeader + (|out| - 1) &&
              (append ==> out[1] == AppendMarker) && r.errorMsg == NoMessage
    ensures r.result == CompileError ==> r.errorMsg != NoMessage
  {
    var prefix := if append then [AppendMarker] else [];
    match ConvertText("text", token.stringValue, 1 + |prefix|, TextBufferSize)
    case Failure(msg) => Compiled(CompileError, None, msg)
    case Success(bytes) =>
      var n := |prefix| + |bytes|;
      Compiled(Ok, Some([HeaderByte(n)] + prefix + bytes), NoMessage)
  }

  /**
    `CompileTextAppend`: the token after an `Append` token must be a text literal, which
    is then compiled with the append marker. `next` is the token the lexer
    delivers.
   */
  function CompileTextAppend(next: Token): (r: Compiled)
    ensures next.tokenType != Text ==>
              r == Compiled(CompileError, Some([]), TextExpected(next.stringValue))
    ensures next.tokenType == Text ==> r == CompileText(next, true)
  {
    if next.tokenType != Text then Compiled(CompileError, Some([]), TextExpected(next.stringValue))
    else CompileText(next, true)
  }
}
