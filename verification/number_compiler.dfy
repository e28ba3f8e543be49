/**
  Numeric literals (Compiler/CompileNumber.cs): every character of the
  lexeme becomes one byte of the HP-41's number-entry code.
 */
module NumberCompiler {
  import opened Results
  import opened Hp41Char
  import opened Tokens
  import opened CompilerOutput

  /** Entry code of the sign change `-`. */
  const MinusByte: Byte := 0x1C
  /** Entry code of the exponent key `E` (also written `e`). */
  const ExponentByte: Byte := 0x1B
  /** Entry code of the decimal point. */
  const PointByte: Byte := 0x1A
  /** Entry code of the digit 0; the digits follow in order. */
  const DigitZeroByte: Byte := 0x10

  /**
    The byte of one lexeme character. Any other character is treated as a
    digit: the arithmetic is done on the character's low eight bits and
    wraps modulo 256.
   */
  function NumberByte(c: char): (b: Byte)
    ensures c == '-' ==> b == 0x1C
    ensures c == 'E' || c == 'e' ==> b == 0x1B
    ensures c == '.' ==> b == 0x1A
    ensures '0' <= c <= '9' ==> b == 0x10 + (c as int - '0' as int)
    ensures c != '-' && c != 'E' && c != 'e' && c != '.' ==> b == (0x10 + c as int - '0' as int) % 256
  {
    if c == '-' then MinusByte
    else if c == 'E' || c == 'e' then ExponentByte
    else if c == '.' then PointByte
    else ToByte(DigitZeroByte + ToByte(c as int) - ToByte('0' as int))
  }

  /** The bytes of a lexeme, one per character, in order. */
  function NumberBytes(s: string): (r: seq<Byte>)
    ensures |r| == |s|
    ensures forall i :: 0 <= i < |s| ==> r[i] == NumberByte(s[i])
  {
    if |s| == 0 then [] else [NumberByte(s[0])] + NumberBytes(s[1..])
  }

  /**
    `CompileNumber`: always succeeds, with one byte per character of the
    lexeme and no message.
   */
  function CompileNumber(token: Token): (r: Compiled)
    ensures r.result == Ok && r.errorMsg == NoMessage
    ensures r.outCode.Some? && |r.outCode.value| == |token.stringValue|
    ensures forall i :: 0 <= i < |token.stringValue| ==> r.outCode.value[i] == NumberByte(token.stringValue[i])
  {
    Compiled(Ok, Some(NumberBytes(token.stringValue)), NoMessage)
  }
}
