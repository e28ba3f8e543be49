/**
  The HP-41 character codec (Helper/HP41CharacterEncoding.cs): the table of
  native codes with a special Unicode form, decoding a code to text, and
  encoding the character at a cursor of a text, including the backtick
  escape grammar.
 */
module Hp41Encoding {
  import opened Results
  import opened Hp41Char

  /** The escape introducer. */
  const Backtick: char := '`'

  /**
    The table of native codes whose form is not the identity character, in
    declaration order. Entry 2 is the composite `x` + combining macron.
    The substitutes `@`, `#`, `&` (and U+1E8D for entry 2) are stored, but no
    constructor switches them on.
   */
  const CharacterTable: seq<CharEntry> := [
    FromChar(0, '\U{203E}'),                           // overline
    FromChar(1, '\U{02E3}'),                           // modifier small x
    FromCompositeWithSubstitute(2, "x\U{0304}", '\U{1E8D}'), // x with macron
    FromChar(3, '\U{2190}'),                           // left arrow
    FromChar(4, '\U{03B1}'),                           // alpha
    FromChar(5, '\U{03B2}'),                           // beta
    FromChar(6, '\U{0393}'),                           // capital gamma
    FromChar(7, '\U{2193}'),                           // down arrow
    FromChar(8, '\U{0394}'),                           // capital delta
    FromChar(9, '\U{03C3}'),                           // sigma
    FromChar(10, '\U{2666}'),                          // diamond
    FromChar(11, '\U{03BB}'),                          // lambda
    FromChar(12, '\U{03BC}'),                          // mu
    FromCharWithSubstitute(13, '\U{2221}', '@'),       // measured angle
    FromChar(14, '\U{03C4}'),                          // tau
    FromChar(15, '\U{03A6}'),                          // capital phi
    FromChar(16, '\U{0398}'),                          // capital theta
    FromChar(17, '\U{03A9}'),                          // capital omega
    FromChar(18, '\U{03B4}'),                          // delta
    FromChar(19, '\U{0226}'),                          // A with dot above
    FromChar(20, '\U{0227}'),                          // a with dot above
    FromChar(21, '\U{00C4}'),                          // A umlaut
    FromChar(22, '\U{00E4}'),                          // a umlaut
    FromChar(23, '\U{00D6}'),                          // O umlaut
    FromChar(24, '\U{00F6}'),                          // o umlaut
    FromChar(25, '\U{00DC}'),                          // U umlaut
    FromChar(26, '\U{00FC}'),                          // u umlaut
    FromChar(27, '\U{00C6}'),                          // AE
    FromChar(28, '\U{0153}'),                          // oe
    FromCharWithSubstitute(29, '\U{2260}', '#'),       // not equal
    FromChar(30, '\U{00A3}'),                          // pound sign
    FromChar(31, '\U{2592}'),                          // medium shade
    FromChar(96, '\U{252C}'),                          // box down-and-horizontal
    FromChar(123, '\U{03C0}'),                         // pi
    FromChar(124, '|'),
    FromChar(125, '\U{2192}'),                         // right arrow
    FromCharWithSubstitute(126, '\U{03A3}', '&'),      // capital sigma
    FromChar(127, '\U{2C75}')                          // half H
  ]

  /** Every table entry has a non-empty Unicode form, so its sort code exists. */
  ghost predicate WellFormed(t: seq<CharEntry>)
  {
    forall i :: 0 <= i < |t| ==> |t[i].unicode| > 0
  }

  // ---------------------------------------------------------------- decoder

  /** The decoder dictionary: the entry with the given code, first in table order. */
  function FindByCode(t: seq<CharEntry>, code: Byte): (r: Option<CharEntry>)
    ensures r.Some? ==> r.value in t && r.value.code == code
    ensures r.Some? && WellFormed(t) ==> |r.value.unicode| > 0
    ensures r.None? <==> forall i :: 0 <= i < |t| ==> t[i].code != code
  {
    if |t| == 0 then None
    else if t[0].code == code then Some(t[0])
    else FindByCode(t[1..], code)
  }

  /** `TryGetCharacter`: the tabled entry, or an identity entry built on the fly. */
  function TryGetCharacter(value: Byte): (e: CharEntry)
    ensures e.code == value
    ensures |e.unicode| > 0
    ensures FindByCode(CharacterTable, value).None? ==> e.unicode == [value as char]
    ensures FindByCode(CharacterTable, value).Some? ==> e in CharacterTable
  {
    TableWellFormed();
    match FindByCode(CharacterTable, value)
    case Some(entry) => entry
    case None => FromChar(value, value as char)
  }

  /** `FormatCharacter`: the text shown for a native code. */
  function FormatCharacter(code: Byte, useSubstitute: bool): (s: string)
    ensures |s| >= 1
  {
    TableWellFormed();
    match FindByCode(CharacterTable, code)
    case Some(e) =>
      if useSubstitute && e.hasSubstitute then [e.substitute] else e.unicode
    case None => [code as char]
  }

  // --------------------------------------------------- registration, hidden

  /**
    `OnRegistred`: an entry hides a native character when its active
    substitute is a byte whose own form (tabled or identity) is the
    substitute itself.
   */
  function OnRegistered(e: CharEntry): (r: CharEntry)
    ensures r.code == e.code && r.unicode == e.unicode
    ensures r.hasSubstitute == e.hasSubstitute && r.substitute == e.substitute
    ensures r.substituteHidesNative <==>
              e.hasSubstitute && e.substitute as int < 256 && FormatCharacter(e.substitute as int, false) == [e.substitute]
  {
    e.(substituteHidesNative :=
         e.hasSubstitute
         && e.substitute as int < 256
         && TryGetCharacter(e.substitute as int).unicode == [e.substitute])
  }

  /** The codes of the hidden native characters, collected in table order. */
  function HiddenNatives(t: seq<CharEntry>): (r: seq<Byte>)
    ensures |r| <= |t|
    ensures (forall i :: 0 <= i < |t| ==> !t[i].hasSubstitute) ==> r == []
    ensures forall b :: b in r <==>
              exists i :: 0 <= i < |t| && OnRegistered(t[i]).substituteHidesNative && t[i].substitute as int == b
  {
    if |t| == 0 then []
    else
      var rest := HiddenNatives(t[1..]);
      if OnRegistered(t[0]).substituteHidesNative then [t[0].substitute as int] + rest else rest
  }

  /** `IsHiddenNativeChar`: membership in the (sorted) hidden list. */
  function IsHiddenNativeChar(c: char): (r: bool)
    ensures r ==> c as int < 256 && c as int in HiddenNatives(CharacterTable)
  {
    c as int < 256 && (c as int) in HiddenNatives(CharacterTable)
  }

  // ---------------------------------------------------------------- encoder

  /**
    An encoder bucket: the entries whose sort code is `c`, in declaration
    order (the intended result of the incremental dictionary build).
   */
  function Bucket(t: seq<CharEntry>, c: char): (b: seq<CharEntry>)
    requires WellFormed(t)
    ensures |b| <= |t|
    ensures forall e :: e in b <==> e in t && SortCode(e) == c
  {
    if |t| == 0 then []
    else
      var rest := Bucket(t[1..], c);
      assert forall e :: e in t <==> e == t[0] || e in t[1..];
      if SortCode(t[0]) == c then [t[0]] + rest else rest
  }

  /**
    The bucket as the incremental build actually produces it: adding to a
    one-element bucket copies the first element twice and drops the new one.
   */
  function AddAsWritten(b: seq<CharEntry>, e: CharEntry): (r: seq<CharEntry>)
    requires |b| >= 1
    ensures |r| == |b| + 1
    ensures |b| == 1 ==> e !in r || e == b[0]
  {
    if |b| == 1 then [b[0], b[0]] else b + [e]
  }

  /** The encoder dictionary's value for `c` after registering the prefix `t`, as written. */
  function BucketAsWritten(t: seq<CharEntry>, c: char): (b: seq<CharEntry>)
    requires WellFormed(t)
    ensures |b| == |Bucket(t, c)|
    decreases |t|
  {
    if |t| == 0 then []
    else
      var last := t[|t| - 1];
      var prefix := t[..|t| - 1];
      assert WellFormed(prefix);
      var before := BucketAsWritten(prefix, c);
      assert t == prefix + [last];
      BucketOfSnoc(prefix, last, c);
      if SortCode(last) != c then before
      else if |before| == 0 then [last]
      else AddAsWritten(before, last)
  }

  /** Filtering distributes over appending one entry. */
  lemma {:induction false} BucketOfSnoc(t: seq<CharEntry>, e: CharEntry, c: char)
    requires WellFormed(t) && |e.unicode| > 0
    ensures WellFormed(t + [e])
    ensures Bucket(t + [e], c) == Bucket(t, c) + (if SortCode(e) == c then [e] else [])
    decreases |t|
  {
    if |t| == 0 {
      assert (t + [e])[1..] == [];
    } else {
      var u := t + [e];
      assert u[0] == t[0] && u[1..] == t[1..] + [e];
      BucketOfSnoc(t[1..], e, c);
      if SortCode(t[0]) == c {
        assert Bucket(u, c) == [t[0]] + Bucket(u[1..], c);
      } else {
        assert Bucket(u, c) == Bucket(u[1..], c);
      }
    }
  }

  /** The encoder bucket for `c` that the codec consults. */
  function EncoderBucket(c: char): (b: seq<CharEntry>)
    ensures forall e :: e in b ==> |e.unicode| > 0 && e.unicode[0] == c
  {
    TableWellFormed();
    Bucket(CharacterTable, c)
  }

  lemma TableWellFormed()
    ensures WellFormed(CharacterTable)
  {
  }

  // ---------------------------------------------------------------- parsing

  /** Why the codec refused to encode a character. */
  datatype CodecError =
    | PositionAfterEnd(position: int)
    | InvalidEscape(start: int)
    | InvalidHexEscape(start: int)
    | InvalidHexCharacter(found: char, start: int)
    | InvalidBinaryEscape(start: int)
    | InvalidBinaryCharacter(found: char, start: int)
    | UnsupportedCharacter(found: char)

  /** One encoded native code and the number of input characters it took. */
  datatype Parsed = Parsed(code: Byte, used: nat)

  predicate IsDecimalDigit(c: char) { '0' <= c <= '9' }

  predicate IsBit(c: char) { c == '0' || c == '1' }

  predicate IsHexDigit(c: char)
  {
    '0' <= c <= '9' || 'A' <= c <= 'F' || 'a' <= c <= 'f'
  }

  /** The value of a hexadecimal digit (which also serves decimal and binary digits). */
  function HexDigitValue(c: char): (v: int)
    requires IsHexDigit(c)
    ensures 0 <= v < 16
    ensures IsDecimalDigit(c) ==> v == c as int - '0' as int
    ensures c == "0123456789ABCDEF"[v] || c == "0123456789abcdef"[v]
  {
    if c < 'A' then c as int - '0' as int
    else if c < 'a' then c as int - 'A' as int + 10
    else c as int - 'a' as int + 10
  }

  /**
    `ParseCharacterAtPosition`: encode the character at `start` of `s`,
    returning the native code and how many characters it took.
   */
  function ParseCharacterAtPosition(s: string, start: nat): (r: Result<Parsed, CodecError>)
    ensures start >= |s| <==> r == Failure(PositionAfterEnd(start))
    ensures r.Success? ==> 1 <= r.value.used && start + r.value.used <= |s|
  {
    if |s| <= start then Failure(PositionAfterEnd(start))
    else if s[start] == Backtick then ParseEscape(s, start)
    else ParseNative(s, start)
  }

  /** The escape branch: `s[start]` is the backtick. */
  function ParseEscape(s: string, start: nat): (r: Result<Parsed, CodecError>)
    requires start < |s| && s[start] == Backtick
    ensures r.Success? ==> 2 <= r.value.used && start + r.value.used <= |s|
    ensures r.Failure? ==> !r.error.PositionAfterEnd? && !r.error.UnsupportedCharacter?
  {
    if start + 1 == |s| then Failure(InvalidEscape(start))
    else
      var c := s[start + 1];
      if c == 'x' || c == 'X' then ParseHex(s, start)
      else if c == 'b' || c == 'B' then ParseBinary(s, start)
      else if !IsDecimalDigit(c) then
        if IsHiddenNativeChar(c) then Success(Parsed(ToByte(c as int), 2))
        else Failure(InvalidEscape(start))
      else ParseDecimal(s, start)
  }

  /** `` `x `` followed by one or two hexadecimal digits, read greedily. */
  function ParseHex(s: string, start: nat): (r: Result<Parsed, CodecError>)
    requires start + 1 < |s| && s[start] == Backtick
    ensures r.Success? ==> 3 <= r.value.used <= 4 && start + r.value.used <= |s|
    ensures r.Failure? ==> r.error == InvalidHexEscape(start) || r.error.InvalidHexCharacter?
  {
    if start + 2 == |s| then Failure(InvalidHexEscape(start))
    else if !IsHexDigit(s[start + 2]) then Failure(InvalidHexCharacter(s[start + 2], start))
    else
      var high := HexDigitValue(s[start + 2]);
      if start + 3 == |s| || !IsHexDigit(s[start + 3]) then Success(Parsed(ToByte(high), 3))
      else Success(Parsed(ToByte(HexDigitValue(s[start + 3]) + high * 16), 4))
  }

  /** `` `b `` followed by one to eight bits. */
  function ParseBinary(s: string, start: nat): (r: Result<Parsed, CodecError>)
    requires start + 1 < |s| && s[start] == Backtick
    ensures r.Success? ==> 3 <= r.value.used <= 10 && start + r.value.used <= |s|
    ensures r.Failure? ==> r.error == InvalidBinaryEscape(start) || r.error.InvalidBinaryCharacter?
  {
    if start + 2 == |s| then Failure(InvalidBinaryEscape(start))
    else if !IsBit(s[start + 2]) then Failure(InvalidBinaryCharacter(s[start + 2], start))
    else
      var (code, used) := ReadBits(s, start, start + 2, HexDigitValue(s[start + 2]), 7);
      Success(Parsed(ToByte(code), used))
  }

  /**
    The bit loop of the binary escape: `current` is the position of the last
    bit read, `remaining` the number of bits that may still follow. Returns the value and the number of
    characters used from `start`.
   */
  function ReadBits(s: string, start: nat, current: nat, code: int, remaining: nat): (r: (int, nat))
    requires start + 2 <= current < |s|
    requires 1 <= remaining && current - start - 2 + remaining == 7
    ensures current - start + 1 <= r.1 <= 10 && start + r.1 <= |s|
    decreases remaining
  {
    if current + 1 == |s| then (code, current - start + 1)
    else if !IsBit(s[current + 1]) then (code, current - start + 1)
    else
      var code' := code * 2 + HexDigitValue(s[current + 1]);
      if remaining - 1 > 0 then ReadBits(s, start, current + 1, code', remaining - 1)
      else (code', current + 1 - start + 1)
  }

  /**
    `` ` `` followed by one to three decimal digits; the third digit is taken
    only while the value stays at most 255.
   */
  function ParseDecimal(s: string, start: nat): (r: Result<Parsed, CodecError>)
    requires start + 1 < |s| && s[start] == Backtick && IsDecimalDigit(s[start + 1])
    ensures r.Success? && 2 <= r.value.used <= 4 && start + r.value.used <= |s|
  {
    var first := HexDigitValue(s[start + 1]);
    if start + 2 == |s| || !IsDecimalDigit(s[start + 2]) then Success(Parsed(ToByte(first), 2))
    else
      var two := first * 10 + HexDigitValue(s[start + 2]);
      if start + 3 == |s| then Success(Parsed(ToByte(two), 3))
      else if IsDecimalDigit(s[start + 3]) && two * 10 + HexDigitValue(s[start + 3]) <= 255 then
        Success(Parsed(ToByte(two * 10 + HexDigitValue(s[start + 3])), 4))
      else Success(Parsed(ToByte(two), 3))
  }

  /** A non-escape character: the first fitting bucket entry, else the identity code. */
  function ParseNative(s: string, start: nat): (r: Result<Parsed, CodecError>)
    requires start < |s| && s[start] != Backtick
    ensures r.Success? ==> 1 <= r.value.used && start + r.value.used <= |s|
    ensures r.Failure? ==> r.error == UnsupportedCharacter(s[start])
  {
    var c := s[start];
    match MatchBucket(EncoderBucket(c), s, start)
    case Some(p) => Success(p)
    case None =>
      if c as int > 255 then Failure(UnsupportedCharacter(c))
      else Success(Parsed(c as int, 1))
  }

  /**
    The `foreach` over a bucket: an active substitute, a one-character form,
    or a composite form present in full at the cursor.
   */
  function MatchBucket(b: seq<CharEntry>, s: string, start: nat): (r: Option<Parsed>)
    requires start < |s|
    requires forall e :: e in b ==> |e.unicode| > 0
    ensures r.Some? ==> 1 <= r.value.used && start + r.value.used <= |s|
    ensures r.Some? ==> exists e :: e in b && e.code == r.value.code
  {
    if |b| == 0 then None
    else
      var e := b[0];
      if e.hasSubstitute && s[start] == e.substitute then Some(Parsed(e.code, 1))
      else if |e.unicode| == 1 then Some(Parsed(e.code, 1))
      else if |s| - start >= |e.unicode| && s[start..start + |e.unicode|] == e.unicode then
        Some(Parsed(e.code, |e.unicode|))
      else
        var r := MatchBucket(b[1..], s, start);
        assert r.Some? ==> exists e' :: e' in b[1..] && e'.code == r.value.code;
        r
  }

  // -------------------------------------------------------- obsolete entries

  /** `FromHp41` (obsolete): `FormatCharacter` plus an escape for hidden characters. */
  function FromHp41(value: Byte, useSubstitute: bool): (s: string)
    ensures |s| >= 1
    ensures !useSubstitute ==> s == FormatCharacter(value, false)
  {
    TableWellFormed();
    match FindByCode(CharacterTable, value)
    case Some(e) => if useSubstitute && e.hasSubstitute then [e.substitute] else e.unicode
    case None =>
      if useSubstitute && value in HiddenNatives(CharacterTable) then [Backtick, value as char]
      else [value as char]
  }

  /** `ToHp41` (obsolete): a single character, without escapes or composites. */
  function ToHp41(c: char): (r: Result<Byte, CodecError>)
    ensures r.Failure? ==> c as int > 255 && r.error == UnsupportedCharacter(c)
    ensures c as int <= 255 ==> r.Success?
  {
    match FirstSingle(EncoderBucket(c))
    case Some(code) => Success(code)
    case None => if c as int > 255 then Failure(UnsupportedCharacter(c)) else Success(c as int)
  }

  /** The code of the first entry with a one-character form. */
  function FirstSingle(b: seq<CharEntry>): (r: Option<Byte>)
    ensures r.None? <==> forall e :: e in b ==> |e.unicode| != 1
    ensures r.Some? ==> exists e :: e in b && |e.unicode| == 1 && e.code == r.value
  {
    if |b| == 0 then None
    else if |b[0].unicode| == 1 then Some(b[0].code)
    else
      var r := FirstSingle(b[1..]);
      assert forall e :: e in b <==> e == b[0] || e in b[1..];
      r
  }
}
