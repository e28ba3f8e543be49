/**
  Properties of text compilation: the bounded encoder against an unbounded
  reference, the byte layout and capacity of a text instruction, and the
  round trip from decoded codes back to the same codes.
 */
module TextCompilerLemmas {
  import opened Results
  import opened Hp41Char
  import opened Hp41Encoding
  import opened Hp41EncodingLemmas
  import opened Hp41RoundTrip
  import opened Hp41Escapes
  import opened Tokens
  import opened CompilerOutput
  import opened TextCompiler

  // ------------------------------------------------------ reference encoder

  /**
    The reference encoder: the codes of the characters from position `i`
    on, read one after another, with no buffer limit. Like the do-while it
    always reads at least once.
   */
  function EncodeFrom(read: Reader, s: string, i: nat): (r: Result<seq<Byte>, CodecError>)
    requires Advances(read) && i <= |s|
    decreases |s| - i
  {
    match read(s, i)
    case Failure(e) => Failure(e)
    case Success(p) =>
      if i + p.used < |s| then
        match EncodeFrom(read, s, i + p.used)
        case Failure(e) => Failure(e)
        case Success(rest) => Success([p.code] + rest)
      else Success([p.code])
  }

  /** The codes of a whole literal, read by the codec. */
  function EncodeAll(s: string): Result<seq<Byte>, CodecError>
  {
    CodecAdvances();
    EncodeFrom(ParseCharacterAtPosition, s, 0)
  }

  /** The bytes of a text instruction whose literal has the codes `codes`. */
  function Layout(codes: seq<Byte>, append: bool): seq<Byte>
  {
    var prefix := if append then [AppendMarker] else [];
    [HeaderByte(|prefix| + |codes|)] + prefix + codes
  }

  /** How many character codes fit after the header (and append marker). */
  function Capacity(append: bool): nat
  {
    if append then 14 else 15
  }

  /**
    One loop position at a time, inside the buffer: when the reference
    codes fit, they are exactly what the bounded encoder stores.
   */
  lemma {:induction false} ConvertFromWhenFits(read: Reader, item: string, s: string, start: int, max: int,
                                               i: nat, codeIndex: int)
    requires Advances(read) && i <= |s| && 0 <= codeIndex
    requires EncodeFrom(read, s, i).Success? && codeIndex + |EncodeFrom(read, s, i).value| <= max
    ensures ConvertFrom(read, item, s, start, max, i, codeIndex) == Success(EncodeFrom(read, s, i).value)
    decreases |s| - i
  {
    var p := read(s, i).value;
    if i + p.used < |s| {
      ConvertFromWhenFits(read, item, s, start, max, i + p.used, codeIndex + 1);
    }
  }

  /**
    Inside the buffer, when the reference codes do not fit the bounded
    encoder reports the capacity counted from the start position.
   */
  lemma {:induction false} ConvertFromWhenOverflows(read: Reader, item: string, s: string, start: int, max: int,
                                                    i: nat, codeIndex: int)
    requires Advances(read) && i <= |s| && 0 <= codeIndex <= max
    requires EncodeFrom(read, s, i).Success? && codeIndex + |EncodeFrom(read, s, i).value| > max
    ensures ConvertFrom(read, item, s, start, max, i, codeIndex) == Failure(TooLong(item, max - start))
    decreases |s| - i
  {
    if codeIndex == max {
      return;
    }
    var p := read(s, i).value;
    assert i + p.used < |s|;
    ConvertFromWhenOverflows(read, item, s, start, max, i + p.used, codeIndex + 1);
  }

  /**
    When the reference encoder fails, the number of codes it read
    successfully before the read that failed.
   */
  function CodesBeforeFailure(read: Reader, s: string, i: nat): (n: nat)
    requires Advances(read) && i <= |s| && EncodeFrom(read, s, i).Failure?
    ensures n <= |s| - i
    decreases |s| - i
  {
    match read(s, i)
    case Failure(_) => 0
    case Success(p) => 1 + CodesBeforeFailure(read, s, i + p.used)
  }

  /** `CodesBeforeFailure` for the codec, from the start of the literal. */
  function CodesBeforeError(s: string): nat
    requires EncodeAll(s).Failure?
  {
    CodecAdvances();
    CodesBeforeFailure(ParseCharacterAtPosition, s, 0)
  }

  /**
    Inside the buffer, when the reference encoder fails the bounded encoder
    fails too: with the capacity message exactly when the buffer runs full
    before the failing read, and with the reference's codec error otherwise.
   */
  lemma {:induction false} ConvertFromWhenNotEncoded(read: Reader, item: string, s: string, start: int, max: int,
                                                     i: nat, codeIndex: int)
    requires Advances(read) && i <= |s| && 0 <= codeIndex <= max
    requires EncodeFrom(read, s, i).Failure?
    ensures ConvertFrom(read, item, s, start, max, i, codeIndex) ==
              if codeIndex + CodesBeforeFailure(read, s, i) >= max then Failure(TooLong(item, max - start))
              else Failure(Codec(EncodeFrom(read, s, i).error))
    decreases |s| - i
  {
    if codeIndex == max {
      return;
    }
    var r := read(s, i);
    if r.Success? {
      ConvertFromWhenNotEncoded(read, item, s, start, max, i + r.value.used, codeIndex + 1);
    }
  }

  /**
    `ConvertText` within its buffer succeeds exactly when the reference
    codes fit between the start position and the end, and then stores
    exactly those codes; otherwise it reports the capacity or the codec's
    error, whichever the bounded loop meets first.
   */
  lemma ConvertTextMatchesEncode(item: string, s: string, start: int, max: int)
    requires 0 <= start <= max
    ensures ConvertText(item, s, start, max).Success? <==>
              EncodeAll(s).Success? && |EncodeAll(s).value| <= max - start
    ensures ConvertText(item, s, start, max).Success? ==>
              ConvertText(item, s, start, max).value == EncodeAll(s).value
    ensures EncodeAll(s).Success? && |EncodeAll(s).value| > max - start ==>
              ConvertText(item, s, start, max) == Failure(TooLong(item, max - start))
    ensures EncodeAll(s).Failure? ==>
              ConvertText(item, s, start, max) ==
                if start + CodesBeforeError(s) >= max then Failure(TooLong(item, max - start))
                else Failure(Codec(EncodeAll(s).error))
  {
    if EncodeAll(s).Failure? {
      CodecAdvances();
      ConvertFromWhenNotEncoded(ParseCharacterAtPosition, item, s, start, max, 0, start);
    } else if |EncodeAll(s).value| <= max - start {
      CodecAdvances();
      ConvertFromWhenFits(ParseCharacterAtPosition, item, s, start, max, 0, start);
    } else {
      CodecAdvances();
      ConvertFromWhenOverflows(ParseCharacterAtPosition, item, s, start, max, 0, start);
    }
  }

  /**
    A start position outside the buffer: the first character is still
    parsed, and the store then fails with the runtime's index error.
   */
  lemma ConvertTextOutsideBuffer(item: string, s: string, start: int, max: int)
    requires 0 <= max && (start < 0 || max < start)
    ensures ConvertText(item, s, start, max).Failure?
    ensures ConvertText(item, s, start, max).error == IndexOutOfRange <==>
              ParseCharacterAtPosition(s, 0).Success?
  {
  }

  /**
    A text instruction holds the reference codes of its literal after the
    header (and append marker) when at most fifteen (fourteen) of them are
    needed; more is the capacity error. A codec error is passed on, unless
    the buffer runs full before the failing character, in which case the
    capacity error replaces it.
   */
  lemma CompileTextMatchesEncode(token: Token, append: bool)
    ensures CompileText(token, append).result == Ok <==>
              EncodeAll(token.stringValue).Success? && |EncodeAll(token.stringValue).value| <= Capacity(append)
    ensures EncodeAll(token.stringValue).Success? && |EncodeAll(token.stringValue).value| <= Capacity(append) ==>
              CompileText(token, append) ==
                Compiled(Ok, Some(Layout(EncodeAll(token.stringValue).value, append)), NoMessage)
    ensures EncodeAll(token.stringValue).Success? && |EncodeAll(token.stringValue).value| > Capacity(append) ==>
              CompileText(token, append) == Compiled(CompileError, None, TooLong("text", Capacity(append)))
    ensures EncodeAll(token.stringValue).Failure? ==>
              CompileText(token, append) ==
                Compiled(CompileError, None,
                         if CodesBeforeError(token.stringValue) >= Capacity(append) then TooLong("text", Capacity(append))
                         else Codec(EncodeAll(token.stringValue).error))
  {
    var start := if append then 2 else 1;
    ConvertTextMatchesEncode("text", token.stringValue, start, TextBufferSize);
  }

  // ------------------------------------------------------------ round trip

  /** The text a sequence of codes is shown as: the decoded form of each, in order. */
  function DecodeAll(codes: seq<Byte>): (s: string)
    ensures |s| >= |codes|
  {
    if |codes| == 0 then [] else Decoded(codes[0]) + DecodeAll(codes[1..])
  }

  /** The decoded text of one or more codes starts with the first code's form. */
  lemma DecodeAllStart(codes: seq<Byte>)
    requires |codes| >= 1
    ensures |DecodeAll(codes)| > |Decoded(codes[0])|  || |codes| == 1
    ensures DecodeAll(codes)[0] != '\U{0304}'
  {
    DecodedStart(codes[0]);
  }

  /** The reference encoder reads one code and carries on after it. */
  lemma EncodeFromCons(read: Reader, s: string, i: nat, p: Parsed, rest: seq<Byte>)
    requires Advances(read) && i <= |s| && read(s, i) == Success(p)
    requires i + p.used < |s| && EncodeFrom(read, s, i + p.used) == Success(rest)
    ensures EncodeFrom(read, s, i) == Success([p.code] + rest)
  {
  }

  /** The reference encoder stops after a code that uses up the text. */
  lemma EncodeFromLast(read: Reader, s: string, i: nat, p: Parsed)
    requires Advances(read) && i <= |s| && read(s, i) == Success(p)
    requires i + p.used == |s|
    ensures EncodeFrom(read, s, i) == Success([p.code])
  {
  }

  /** The pieces of a text, joined in order. */
  function Concat(forms: seq<string>): (s: string)
  {
    if |forms| == 0 then [] else forms[0] + Concat(forms[1..])
  }

  /**
    `f` is read back as `code` wherever it stands in a text, unless a
    combining macron follows it; and `f` itself does not start with one.
   */
  ghost predicate ReadsBack(read: Reader, f: string, code: Byte)
  {
    |f| >= 1 && f[0] != '\U{0304}' &&
    forall t: string, o: nat {:trigger FormAt(t, o, f)} ::
      FormAt(t, o, f) && !MacronAt(t, o + |f|) ==> read(t, o) == Success(Parsed(code, |f|))
  }

  /** The text `t` holds `f` at position `o`. */
  predicate FormAt(t: string, o: nat, f: string)
  {
    o + |f| <= |t| && t[o..o + |f|] == f
  }

  /** Every piece reads back as its code. */
  ghost predicate AllReadBack(read: Reader, forms: seq<string>, codes: seq<Byte>)
  {
    |forms| == |codes| && forall k :: 0 <= k < |forms| ==> ReadsBack(read, forms[k], codes[k])
  }

  /** The pieces after the first still read back. */
  lemma AllReadBackTail(read: Reader, forms: seq<string>, codes: seq<Byte>)
    requires AllReadBack(read, forms, codes) && |forms| >= 1
    ensures AllReadBack(read, forms[1..], codes[1..])
  {
    forall k | 0 <= k < |forms| - 1 ensures ReadsBack(read, forms[1..][k], codes[1..][k]) {
      assert forms[1..][k] == forms[k + 1] && codes[1..][k] == codes[k + 1];
    }
  }

  /** The first piece of a joined text is read back, and the text goes on with the other pieces. */
  lemma ConcatHead(read: Reader, s: string, i: nat, forms: seq<string>, codes: seq<Byte>)
    requires i <= |s| && s[i..] == Concat(forms) && |forms| >= 1
    requires AllReadBack(read, forms, codes)
    ensures i + |forms[0]| <= |s|
    ensures read(s, i) == Success(Parsed(codes[0], |forms[0]|))
    ensures |forms| == 1 ==> i + |forms[0]| == |s|
    ensures |forms| > 1 ==> i + |forms[0]| < |s| && s[i + |forms[0]|..] == Concat(forms[1..])
  {
    var f, rest := forms[0], Concat(forms[1..]);
    assert ReadsBack(read, f, codes[0]);
    assert s[i..] == f + rest;
    assert FormAt(s, i, f) by {
      assert s[i..i + |f|] == s[i..][..|f|];
    }
    assert s[i + |f|..] == rest by {
      assert s[i + |f|..] == s[i..][|f|..];
    }
    if |forms| > 1 {
      assert ReadsBack(read, forms[1], codes[1]);
      assert Concat(forms[1..]) == forms[1] + Concat(forms[2..]);
      assert s[i + |f|] == forms[1][0];
    }
  }

  /**
    A text made of pieces each of which reads back as its code encodes to
    exactly those codes.
   */
  lemma {:induction false} EncodeConcat(read: Reader, s: string, i: nat, forms: seq<string>, codes: seq<Byte>)
    requires Advances(read) && i <= |s| && s[i..] == Concat(forms) && |forms| >= 1
    requires AllReadBack(read, forms, codes)
    ensures EncodeFrom(read, s, i) == Success(codes)
    decreases |forms|
  {
    ConcatHead(read, s, i, forms, codes);
    var p := Parsed(codes[0], |forms[0]|);
    if |forms| == 1 {
      EncodeFromLast(read, s, i, p);
      assert codes == [codes[0]];
    } else {
      AllReadBackTail(read, forms, codes);
      EncodeConcat(read, s, i + p.used, forms[1..], codes[1..]);
      EncodeFromCons(read, s, i, p, codes[1..]);
      assert [codes[0]] + codes[1..] == codes;
    }
  }

  /** The decoded form of an unshadowed code reads back as that code at one position. */
  lemma DecodedReadsBackAt(code: Byte, t: string, o: nat)
    requires !Shadowed(code)
    requires o + |Decoded(code)| <= |t| && t[o..o + |Decoded(code)|] == Decoded(code)
    requires !MacronAt(t, o + |Decoded(code)|)
    ensures ParseCharacterAtPosition(t, o) == Success(Parsed(code, |Decoded(code)|))
  {
    if code == 120 {
      assert !Tabled(120);
    }
    ParseDecoded(t, o, code);
  }

  /** The decoded form of an unshadowed code reads back as that code. */
  lemma DecodedReadsBack(code: Byte)
    requires !Shadowed(code)
    ensures ReadsBack(ParseCharacterAtPosition, Decoded(code), code)
  {
    DecodedStart(code);
    forall t: string, o: nat | FormAt(t, o, Decoded(code)) && !MacronAt(t, o + |Decoded(code)|)
      ensures ParseCharacterAtPosition(t, o) == Success(Parsed(code, |Decoded(code)|))
    {
      DecodedReadsBackAt(code, t, o);
    }
  }

  /** The decoded text of codes is the join of their decoded forms. */
  lemma {:induction false} DecodeAllIsConcat(codes: seq<Byte>)
    ensures DecodeAll(codes) == Concat(seq(|codes|, k requires 0 <= k < |codes| => Decoded(codes[k])))
    decreases |codes|
  {
    var forms := seq(|codes|, k requires 0 <= k < |codes| => Decoded(codes[k]));
    if |codes| > 0 {
      DecodeAllIsConcat(codes[1..]);
      assert forms[1..] == seq(|codes| - 1, k requires 0 <= k < |codes| - 1 => Decoded(codes[1..][k]));
    }
  }

  /**
    Encoding the decoded text of codes none of which is shadowed yields
    those codes again: each form is read back whole, and the next form
    never starts with the macron that would extend an `x`.
   */
  lemma EncodeDecoded(codes: seq<Byte>)
    requires |codes| >= 1
    requires forall k :: 0 <= k < |codes| ==> !Shadowed(codes[k])
    ensures EncodeAll(DecodeAll(codes)) == Success(codes)
  {
    var forms := seq(|codes|, k requires 0 <= k < |codes| => Decoded(codes[k]));
    forall k | 0 <= k < |codes| ensures ReadsBack(ParseCharacterAtPosition, forms[k], codes[k]) {
      DecodedReadsBack(codes[k]);
    }
    assert AllReadBack(ParseCharacterAtPosition, forms, codes);
    CodecAdvances();
    DecodeAllIsConcat(codes);
    var s := DecodeAll(codes);
    assert s[0..] == s;
    EncodeConcat(ParseCharacterAtPosition, s, 0, forms, codes);
  }

  /**
    Compiling the decoded text of up to fifteen (fourteen) unshadowed codes
    gives back exactly those codes behind the header.
   */
  lemma TextRoundTrip(codes: seq<Byte>, append: bool, intValue: Int16)
    requires 1 <= |codes| <= Capacity(append)
    requires forall k :: 0 <= k < |codes| ==> !Shadowed(codes[k])
    ensures CompileText(Token(Text, intValue, DecodeAll(codes)), append) ==
              Compiled(Ok, Some(Layout(codes, append)), NoMessage)
  {
    var s := DecodeAll(codes);
    EncodeDecoded(codes);
    CompileTextMatchesEncode(Token(Text, intValue, s), append);
  }

  /** What the decompiler shows for a sequence of codes: each code's format, in order. */
  function Decompile(codes: seq<Byte>): (s: string)
    ensures |s| >= |codes|
  {
    if |codes| == 0 then [] else FormatCharacter(codes[0], false) + Decompile(codes[1..])
  }

  /** The decompiler's text is the reference decoding. */
  lemma {:induction false} DecompileIsDecodeAll(codes: seq<Byte>)
    ensures Decompile(codes) == DecodeAll(codes)
    decreases |codes|
  {
    if |codes| > 0 {
      FormOfCode(codes[0]);
      DecompileIsDecodeAll(codes[1..]);
    }
  }

  /**
    What the decompiler shows for up to fifteen (fourteen) unshadowed codes
    compiles back to exactly those codes.
   */
  lemma DecompiledTextRoundTrip(codes: seq<Byte>, append: bool, intValue: Int16)
    requires 1 <= |codes| <= Capacity(append)
    requires forall k :: 0 <= k < |codes| ==> !Shadowed(codes[k])
    ensures CompileText(Token(Text, intValue, Decompile(codes)), append) ==
              Compiled(Ok, Some(Layout(codes, append)), NoMessage)
  {
    DecompileIsDecodeAll(codes);
    TextRoundTrip(codes, append, intValue);
  }

  // ------------------------------------------------------------ plain text

  /** A printable ASCII character other than the escape introducer. */
  predicate PlainChar(c: char)
  {
    ' ' <= c <= '~' && c != Backtick
  }

  /** The codes of a plain text: each character's own value. */
  function Ords(s: string): (codes: seq<Byte>)
    requires forall k :: 0 <= k < |s| ==> PlainChar(s[k])
    ensures |codes| == |s|
  {
    seq(|s|, k requires 0 <= k < |s| && PlainChar(s[k]) => s[k] as int)
  }

  /** A plain character other than `x` and `|` leads no table entry. */
  lemma PlainNotALead(c: char)
    requires PlainChar(c) && c != 'x' && c != '|'
    ensures forall i :: 0 <= i < |CharacterTable| ==> CharacterTable[i].unicode[0] != c
  {
    assert LeadIndex(c) == -1;
    NotALead(c);
  }

  /** A plain character is read as its own value at one position. */
  lemma PlainReadsBackAt(c: char, t: string, o: nat)
    requires PlainChar(c) && o < |t| && t[o..o + 1] == [c] && !MacronAt(t, o + 1)
    ensures ParseCharacterAtPosition(t, o) == Success(Parsed(c as int, 1))
  {
    assert t[o] == c;
    if c == 'x' {
      ParseBareX(t, o);
    } else if c == '|' {
      TableFormLengths();
      assert CharacterTable[34] == FromChar(124, '|');
      ParseSingleForm(t, o, 34);
    } else {
      PlainNotALead(c);
      ParseIdentity(t, o);
    }
  }

  /** A plain character reads back as its own value. */
  lemma PlainReadsBack(c: char)
    requires PlainChar(c)
    ensures ReadsBack(ParseCharacterAtPosition, [c], c as int)
  {
    forall t: string, o: nat | FormAt(t, o, [c]) && !MacronAt(t, o + |[c]|)
      ensures ParseCharacterAtPosition(t, o) == Success(Parsed(c as int, |[c]|))
    {
      PlainReadsBackAt(c, t, o);
    }
  }

  /** A text is the join of its characters. */
  lemma {:induction false} ConcatOfCharacters(s: string)
    ensures Concat(seq(|s|, k requires 0 <= k < |s| => [s[k]])) == s
    decreases |s|
  {
    var forms := seq(|s|, k requires 0 <= k < |s| => [s[k]]);
    if |s| > 0 {
      ConcatOfCharacters(s[1..]);
      assert forms[1..] == seq(|s| - 1, k requires 0 <= k < |s| - 1 => [s[1..][k]]);
      assert s == [s[0]] + s[1..];
    }
  }

  /** A non-empty plain text encodes to its characters' own values. */
  lemma EncodePlain(s: string)
    requires |s| >= 1 && forall k :: 0 <= k < |s| ==> PlainChar(s[k])
    ensures EncodeAll(s) == Success(Ords(s))
  {
    var forms := seq(|s|, k requires 0 <= k < |s| => [s[k]]);
    var codes := Ords(s);
    forall k | 0 <= k < |s| ensures ReadsBack(ParseCharacterAtPosition, forms[k], codes[k]) {
      PlainReadsBack(s[k]);
    }
    assert AllReadBack(ParseCharacterAtPosition, forms, codes);
    CodecAdvances();
    ConcatOfCharacters(s);
    assert s[0..] == s;
    EncodeConcat(ParseCharacterAtPosition, s, 0, forms, codes);
  }

  /**
    A plain literal of up to fifteen characters (fourteen when appending)
    compiles to the header and its characters' values; a longer one is
    refused with the capacity in the message.
   */
  lemma PlainText(s: string, append: bool, intValue: Int16)
    requires forall k :: 0 <= k < |s| ==> PlainChar(s[k])
    ensures 1 <= |s| <= Capacity(append) ==>
              CompileText(Token(Text, intValue, s), append) == Compiled(Ok, Some(Layout(Ords(s), append)), NoMessage)
    ensures |s| > Capacity(append) ==>
              CompileText(Token(Text, intValue, s), append) ==
                Compiled(CompileError, None, TooLong("text", Capacity(append)))
  {
    if |s| >= 1 {
      EncodePlain(s);
      CompileTextMatchesEncode(Token(Text, intValue, s), append);
    }
  }

  /** Fifteen plain characters fill the sixteen-byte buffer, with header 0xFF. */
  lemma FullTextInstruction(s: string, intValue: Int16)
    requires |s| == 15 && forall k :: 0 <= k < |s| ==> PlainChar(s[k])
    ensures CompileText(Token(Text, intValue, s), false).result == Ok
    ensures |CompileText(Token(Text, intValue, s), false).outCode.value| == 16
    ensures CompileText(Token(Text, intValue, s), false).outCode.value[0] == 0xFF
  {
    PlainText(s, false, intValue);
  }

  /** An empty literal is rejected by the codec: the loop parses once before testing the length. */
  lemma EmptyText(append: bool, intValue: Int16)
    ensures CompileText(Token(Text, intValue, ""), append) ==
              Compiled(CompileError, None, Codec(PositionAfterEnd(0)))
  {
  }

  /** The layout of an append literal of five codes. */
  lemma AppendLayoutOfFive(codes: seq<Byte>)
    requires |codes| == 5
    ensures Layout(codes, true) == [0xF6, 0x7F] + codes
  {
  }

  /** A five-character append literal: the header 0xF6, the marker and the five codes. */
  lemma AppendFiveCharacters(s: string, intValue: Int16)
    requires |s| == 5 && forall k :: 0 <= k < |s| ==> PlainChar(s[k])
    ensures CompileText(Token(Text, intValue, s), true).outCode == Some([0xF6, 0x7F] + Ords(s))
  {
    PlainText(s, true, intValue);
    AppendLayoutOfFive(Ords(s));
  }

  /** A lone backtick is a malformed escape, and the codec's error is the compiler's message. */
  lemma LoneBacktick(append: bool, intValue: Int16)
    ensures CompileText(Token(Text, intValue, "`"), append) ==
              Compiled(CompileError, None, Codec(InvalidEscape(0)))
  {
  }

  /**
    A reader that takes one character at each position from `i` to `m` and
    then fails at `m`, before the end of the text: the reference encoder fails with that error after
    `m - i` codes.
   */
  lemma {:induction false} SingleReadsThenFailure(read: Reader, s: string, i: nat, m: nat, e: CodecError)
    requires Advances(read) && i <= m < |s| && read(s, m) == Failure(e)
    requires forall k :: i <= k < m ==> read(s, k).Success? && read(s, k).value.used == 1
    ensures EncodeFrom(read, s, i) == Failure(e)
    ensures CodesBeforeFailure(read, s, i) == m - i
    decreases m - i
  {
    if i < m {
      assert read(s, i).Success? && read(s, i).value.used == 1;
      SingleReadsThenFailure(read, s, i + 1, m, e);
    }
  }

  /**
    A plain literal that ends in a lone backtick: when the plain characters
    already fill the buffer, the capacity error is reported before the
    backtick is read; otherwise the backtick's malformed-escape error is.
   */
  lemma BacktickAfterPlainText(p: string, append: bool, intValue: Int16)
    requires forall k :: 0 <= k < |p| ==> PlainChar(p[k])
    ensures |p| >= Capacity(append) ==>
              CompileText(Token(Text, intValue, p + [Backtick]), append) ==
                Compiled(CompileError, None, TooLong("text", Capacity(append)))
    ensures |p| < Capacity(append) ==>
              CompileText(Token(Text, intValue, p + [Backtick]), append) ==
                Compiled(CompileError, None, Codec(InvalidEscape(|p|)))
  {
    var s := p + [Backtick];
    forall k | 0 <= k < |p|
      ensures ParseCharacterAtPosition(s, k).Success? && ParseCharacterAtPosition(s, k).value.used == 1
    {
      assert s[k] == p[k] && s[k..k + 1] == [s[k]];
      PlainReadsBackAt(s[k], s, k);
    }
    MalformedEscapes(s, |p|);
    CodecAdvances();
    SingleReadsThenFailure(ParseCharacterAtPosition, s, 0, |p|, InvalidEscape(|p|));
    CompileTextMatchesEncode(Token(Text, intValue, s), append);
  }

  /** A decimal escape is one byte of the instruction: "`255" is the header 0xF1 and 255. */
  lemma EscapedByte(intValue: Int16)
    ensures CompileText(Token(Text, intValue, "`255"), false) == Compiled(Ok, Some([0xF1, 255]), NoMessage)
  {
    DecimalEscapeExamples();
    CodecAdvances();
    EncodeFromLast(ParseCharacterAtPosition, "`255", 0, Parsed(255, 4));
    assert Layout([255], false) == [0xF1, 255];
    CompileTextMatchesEncode(Token(Text, intValue, "`255"), false);
  }
}
