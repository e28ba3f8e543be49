/**
  Properties of number compilation: what each character of a numeric
  lexeme becomes, an inverse that reads the codes back, and the way a
  lexeme's bytes compose.
 */
module NumberCompilerLemmas {
  import opened Results
  import opened Hp41Char
  import opened Hp41Encoding
  import opened Tokens
  import opened CompilerOutput
  import opened NumberCompiler

  /** The characters a numeric lexeme is made of. */
  predicate NumberChar(c: char)
  {
    IsDecimalDigit(c) || c == '-' || c == 'E' || c == 'e' || c == '.'
  }

  /** Reads a number-entry code back as the character that produces it; `E` stands for both spellings. */
  function NumberCharOf(b: Byte): (c: Option<char>)
  {
    if b == MinusByte then Some('-')
    else if b == ExponentByte then Some('E')
    else if b == PointByte then Some('.')
    else if DigitZeroByte <= b < DigitZeroByte + 10 then Some(('0' as int + (b - DigitZeroByte)) as char)
    else None
  }

  /** A digit becomes 0x10 plus its value. */
  lemma DigitByte(c: char)
    requires IsDecimalDigit(c)
    ensures NumberByte(c) == DigitZeroByte + (c as int - '0' as int)
  {
  }

  /** The characters of a numeric lexeme land in 0x10..0x1C, and the non-digits above the digits. */
  lemma NumberByteRange(c: char)
    requires NumberChar(c)
    ensures DigitZeroByte <= NumberByte(c) <= MinusByte
    ensures IsDecimalDigit(c) <==> NumberByte(c) < DigitZeroByte + 10
  {
  }

  /** Every code of a numeric character reads back as that character, with `e` read as `E`. */
  lemma NumberByteRoundTrip(c: char)
    requires NumberChar(c)
    ensures NumberCharOf(NumberByte(c)) == Some(if c == 'e' then 'E' else c)
  {
  }

  /** Every code that reads back comes from that character. */
  lemma NumberCharOfRoundTrip(b: Byte)
    requires NumberCharOf(b).Some?
    ensures NumberChar(NumberCharOf(b).value)
    ensures NumberByte(NumberCharOf(b).value) == b
  {
  }

  /** Two numeric characters give the same code only when they are the same, up to the case of `E`. */
  lemma NumberByteInjective(c: char, d: char)
    requires NumberChar(c) && NumberChar(d)
    ensures NumberByte(c) == NumberByte(d) <==> c == d || (c in "Ee" && d in "Ee")
  {
    NumberByteRoundTrip(c);
    NumberByteRoundTrip(d);
  }

  /**
    The code of a numeric lexeme reads back, byte by byte, as the lexeme
    (with `e` spelled `E`), and every byte lies in 0x10..0x1C.
   */
  lemma CompileNumberReadsBack(token: Token)
    requires forall i :: 0 <= i < |token.stringValue| ==> NumberChar(token.stringValue[i])
    ensures var out := CompileNumber(token).outCode.value;
            |out| == |token.stringValue| &&
            forall i :: 0 <= i < |out| ==>
              && DigitZeroByte <= out[i] <= MinusByte
              && NumberCharOf(out[i]) == Some(if token.stringValue[i] == 'e' then 'E' else token.stringValue[i])
  {
    var s := token.stringValue;
    forall i | 0 <= i < |s|
      ensures DigitZeroByte <= NumberByte(s[i]) <= MinusByte
      ensures NumberCharOf(NumberByte(s[i])) == Some(if s[i] == 'e' then 'E' else s[i])
    {
      NumberByteRange(s[i]);
      NumberByteRoundTrip(s[i]);
    }
  }

  /** The bytes of a joined lexeme are the joined bytes. */
  lemma {:induction false} NumberBytesAppend(s: string, t: string)
    ensures NumberBytes(s + t) == NumberBytes(s) + NumberBytes(t)
    decreases |s|
  {
    if |s| > 0 {
      assert (s + t)[1..] == s[1..] + t;
      NumberBytesAppend(s[1..], t);
    } else {
      assert s + t == t;
    }
  }

  /** A character outside the numeric alphabet still yields a byte: its low eight bits, less 0x20, wrapped. */
  lemma OtherCharacterByte(c: char)
    requires !(c in "-Ee.")
    ensures (NumberByte(c) - (c as int - 0x20)) % 256 == 0
  {
  }

  /** `-12.3E4` is sign, digits, point, digit, exponent key and digit. */
  lemma NumberExample(intValue: Int16)
    ensures CompileNumber(Token(Number, intValue, "-12.3E4")).outCode ==
              Some([0x1C, 0x11, 0x12, 0x1A, 0x13, 0x1B, 0x14])
  {
    var r := CompileNumber(Token(Number, intValue, "-12.3E4")).outCode.value;
    assert r[0] == 0x1C && r[1] == 0x11 && r[2] == 0x12 && r[3] == 0x1A;
    assert r[4] == 0x13 && r[5] == 0x1B && r[6] == 0x14;
    assert r == [0x1C, 0x11, 0x12, 0x1A, 0x13, 0x1B, 0x14];
  }
}
