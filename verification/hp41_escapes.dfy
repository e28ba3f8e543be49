/**
  The backtick escape grammar of the HP-41 codec: which escapes are
  malformed, and what the hexadecimal, binary and decimal escapes read.
 */
module Hp41Escapes {
  import opened Results
  import opened Hp41Char
  import opened Hp41Encoding
  import opened Hp41EncodingLemmas

  /** Every character of `ds` is a digit of the given base. */
  predicate AllDigits(ds: string, base: nat)
  {
    forall k :: 0 <= k < |ds| ==> IsHexDigit(ds[k]) && HexDigitValue(ds[k]) < base
  }

  /** The value of a digit string in the given base, most significant digit first. */
  function NumeralValue(ds: string, base: nat): nat
    requires AllDigits(ds, base)
    decreases |ds|
  {
    if |ds| == 0 then 0
    else NumeralValue(ds[..|ds| - 1], base) * base + HexDigitValue(ds[|ds| - 1])
  }

  /** `base` to the power `n`. */
  function Pow(base: nat, n: nat): nat
  {
    if n == 0 then 1 else base * Pow(base, n - 1)
  }

  lemma NumeralOfOne(a: char, base: nat)
    requires IsHexDigit(a) && HexDigitValue(a) < base
    ensures AllDigits([a], base) && NumeralValue([a], base) == HexDigitValue(a)
  {
    assert [a][..0] == [];
  }

  lemma NumeralOfTwo(a: char, b: char, base: nat)
    requires IsHexDigit(a) && HexDigitValue(a) < base
    requires IsHexDigit(b) && HexDigitValue(b) < base
    ensures AllDigits([a, b], base)
    ensures NumeralValue([a, b], base) == HexDigitValue(a) * base + HexDigitValue(b)
  {
    assert [a, b][..1] == [a];
    NumeralOfOne(a, base);
  }

  lemma NumeralOfThree(a: char, b: char, c: char, base: nat)
    requires IsHexDigit(a) && HexDigitValue(a) < base
    requires IsHexDigit(b) && HexDigitValue(b) < base
    requires IsHexDigit(c) && HexDigitValue(c) < base
    ensures AllDigits([a, b, c], base)
    ensures NumeralValue([a, b, c], base) == (HexDigitValue(a) * base + HexDigitValue(b)) * base + HexDigitValue(c)
  {
    assert [a, b, c][..2] == [a, b];
    NumeralOfTwo(a, b, base);
  }

  lemma {:induction false} PowMonotone(base: nat, m: nat, n: nat)
    requires 1 <= base && m <= n
    ensures Pow(base, m) <= Pow(base, n)
    decreases n
  {
    if m < n {
      PowMonotone(base, m, n - 1);
      MultiplyGrows(Pow(base, n - 1), base);
    }
  }

  lemma MultiplyGrows(x: nat, b: nat)
    requires 1 <= b
    ensures x <= b * x
  {
  }

  // ---------------------------------------------------------- malformed

  /**
    A backtick at the end of the text, or followed by anything but `x`, `X`,
    `b`, `B` or a decimal digit, is a malformed escape: no table entry hides
    a native character behind its substitute.
   */
  lemma MalformedEscapes(s: string, start: nat)
    requires start < |s| && s[start] == Backtick
    requires start + 1 == |s| || !(s[start + 1] in "xXbB" || IsDecimalDigit(s[start + 1]))
    ensures ParseCharacterAtPosition(s, start) == Failure(InvalidEscape(start))
  {
    ParseEscaped(s, start);
    if start + 1 < |s| {
      NoHiddenNativeChar(s[start + 1]);
    }
  }

  /** `` `@ `` is a malformed escape: `@` hides no native character. */
  lemma EscapedAtSignIsMalformed()
    ensures ParseCharacterAtPosition("`@", 0) == Failure(InvalidEscape(0))
  {
    MalformedEscapes("`@", 0);
  }

  // --------------------------------------------------------- hexadecimal

  /**
    Hexadecimal escape: `x` or `X`, then one or two hexadecimal digits read
    greedily; the code is their value and the cursor moves past them. With no
    digit, the error says whether the text ended or which character was found.
   */
  lemma HexEscape(s: string, start: nat)
    requires start + 1 < |s| && s[start] == Backtick && s[start + 1] in "xX"
    ensures var r := ParseCharacterAtPosition(s, start);
            r.Success? <==> start + 2 < |s| && IsHexDigit(s[start + 2])
    ensures var r := ParseCharacterAtPosition(s, start);
            start + 2 == |s| ==> r == Failure(InvalidHexEscape(start))
    ensures var r := ParseCharacterAtPosition(s, start);
            start + 2 < |s| && !IsHexDigit(s[start + 2]) ==>
              r == Failure(InvalidHexCharacter(s[start + 2], start))
    ensures var r := ParseCharacterAtPosition(s, start);
            r.Success? ==>
              var k := r.value.used - 2;
              && 1 <= k <= 2
              && AllDigits(s[start + 2..start + 2 + k], 16)
              && (k == 2 || start + 2 + k == |s| || !IsHexDigit(s[start + 2 + k]))
              && r.value.code == NumeralValue(s[start + 2..start + 2 + k], 16)
  {
    var r := ParseCharacterAtPosition(s, start);
    if r.Success? {
      if r.value.used == 3 {
        assert s[start + 2..start + 3] == [s[start + 2]];
        NumeralOfOne(s[start + 2], 16);
      } else {
        assert s[start + 2..start + 4] == [s[start + 2], s[start + 3]];
        NumeralOfTwo(s[start + 2], s[start + 3], 16);
      }
    }
  }

  lemma HexEscapeExamples()
    ensures ParseCharacterAtPosition("`x41", 0) == Success(Parsed(0x41, 4))
    ensures ParseCharacterAtPosition("`X4G", 0) == Success(Parsed(4, 3))
    ensures ParseCharacterAtPosition("`x4G", 0) == Success(Parsed(4, 3))
    ensures ParseCharacterAtPosition("`xff7", 0) == Success(Parsed(255, 4))
    ensures ParseCharacterAtPosition("`x", 0) == Failure(InvalidHexEscape(0))
    ensures ParseCharacterAtPosition("`xG", 0) == Failure(InvalidHexCharacter('G', 0))
  {
  }

  // -------------------------------------------------------------- binary

  /**
    Binary escape: `b` or `B`, then one to eight bits, stopping at a non-bit
    or the end of the text; the code is the bits' value. With no bit, the
    error says whether the text ended or which character was found.
   */
  lemma BinaryEscape(s: string, start: nat)
    requires start + 1 < |s| && s[start] == Backtick && s[start + 1] in "bB"
    ensures var r := ParseCharacterAtPosition(s, start);
            r.Success? <==> start + 2 < |s| && IsBit(s[start + 2])
    ensures var r := ParseCharacterAtPosition(s, start);
            start + 2 == |s| ==> r == Failure(InvalidBinaryEscape(start))
    ensures var r := ParseCharacterAtPosition(s, start);
            start + 2 < |s| && !IsBit(s[start + 2]) ==>
              r == Failure(InvalidBinaryCharacter(s[start + 2], start))
    ensures var r := ParseCharacterAtPosition(s, start);
            r.Success? ==>
              var k := r.value.used - 2;
              && 1 <= k <= 8 && start + 2 + k <= |s|
              && AllBits(s, start + 2, start + 2 + k)
              && (k == 8 || start + 2 + k == |s| || !IsBit(s[start + 2 + k]))
              && r.value.code == BitsValue(s, start + 2, start + 2 + k)
  {
    if start + 2 < |s| && IsBit(s[start + 2]) {
      BinaryEscapeReads(s, start);
    }
  }

  /** The successful case of `BinaryEscape`, stated on the bit loop. */
  lemma BinaryEscapeReads(s: string, start: nat)
    requires start + 2 < |s| && s[start] == Backtick && s[start + 1] in "bB" && IsBit(s[start + 2])
    ensures var r := ParseBinary(s, start);
            && r.Success?
            && var k := r.value.used - 2;
            && 1 <= k <= 8 && start + 2 + k <= |s|
            && AllBits(s, start + 2, start + 2 + k)
            && (k == 8 || start + 2 + k == |s| || !IsBit(s[start + 2 + k]))
            && r.value.code == BitsValue(s, start + 2, start + 2 + k)
  {
    BitLoopFromFirst(s, start);
    var r := ReadBits(s, start, start + 2, HexDigitValue(s[start + 2]), 7);
    assert ParseBinary(s, start) == Success(Parsed(r.0, r.1));
  }

  /** The bit loop started on the first bit reads one to eight bits, whose value is below 256. */
  lemma BitLoopFromFirst(s: string, start: nat)
    requires start + 2 < |s| && IsBit(s[start + 2])
    ensures var r := ReadBits(s, start, start + 2, HexDigitValue(s[start + 2]), 7);
            && 3 <= r.1 <= 10 && start + r.1 <= |s|
            && AllBits(s, start + 2, start + r.1)
            && (r.1 == 10 || start + r.1 == |s| || !IsBit(s[start + r.1]))
            && r.0 == BitsValue(s, start + 2, start + r.1)
            && r.0 < 256
  {
    var v := HexDigitValue(s[start + 2]);
    assert AllBits(s, start + 2, start + 3);
    assert BitsValue(s, start + 2, start + 3) == BitsValue(s, start + 2, start + 2) * 2 + v == v;
    ReadBitsReadsBits(s, start, start + 2, v, 7);
    var r := ReadBits(s, start, start + 2, v, 7);
    ByteBits(s, start + 2, start + r.1);
  }

  /** At most eight bits hold a value below 256. */
  lemma ByteBits(s: string, from: nat, end: nat)
    requires from <= end <= |s| && end - from <= 8 && AllBits(s, from, end)
    ensures BitsValue(s, from, end) < 256
  {
    BitsBound(s, from, end);
    PowMonotone(2, end - from, 8);
    assert Pow(2, 8) == 256;
  }

  /** Every character of `s[from..end]` is a bit. */
  predicate AllBits(s: string, from: nat, end: nat)
    requires from <= end <= |s|
  {
    forall k :: from <= k < end ==> IsBit(s[k])
  }

  /** The value of the bits `s[from..end]`, most significant first. */
  function BitsValue(s: string, from: nat, end: nat): nat
    requires from <= end <= |s| && AllBits(s, from, end)
    decreases end - from
  {
    if end == from then 0 else BitsValue(s, from, end - 1) * 2 + HexDigitValue(s[end - 1])
  }

  /** `n` bits hold a value below `2^n`. */
  lemma {:induction false} BitsBound(s: string, from: nat, end: nat)
    requires from <= end <= |s| && AllBits(s, from, end)
    ensures BitsValue(s, from, end) < Pow(2, end - from)
    decreases end - from
  {
    if end > from {
      BitsBound(s, from, end - 1);
    }
  }

  /** What the bit loop reads, given that the bits read so far hold `code`. */
  lemma {:induction false} ReadBitsReadsBits(s: string, start: nat, current: nat, code: int, remaining: nat)
    requires start + 2 <= current < |s|
    requires 1 <= remaining && current - start - 2 + remaining == 7
    requires AllBits(s, start + 2, current + 1)
    requires code == BitsValue(s, start + 2, current + 1)
    ensures var r := ReadBits(s, start, current, code, remaining);
            && current - start + 1 <= r.1 <= 10 && start + r.1 <= |s|
            && AllBits(s, start + 2, start + r.1)
            && (r.1 == 10 || start + r.1 == |s| || !IsBit(s[start + r.1]))
            && r.0 == BitsValue(s, start + 2, start + r.1)
    decreases remaining
  {
    if current + 1 < |s| && IsBit(s[current + 1]) {
      var code' := code * 2 + HexDigitValue(s[current + 1]);
      assert AllBits(s, start + 2, current + 2);
      assert code' == BitsValue(s, start + 2, current + 2);
      if remaining - 1 > 0 {
        ReadBitsReadsBits(s, start, current + 1, code', remaining - 1);
      }
    }
  }

  lemma BinaryEscapeExamples()
    ensures ParseCharacterAtPosition("`b101", 0) == Success(Parsed(5, 5))
    ensures ParseCharacterAtPosition("`B1101x", 0) == Success(Parsed(13, 6))
    ensures ParseCharacterAtPosition("`b", 0) == Failure(InvalidBinaryEscape(0))
    ensures ParseCharacterAtPosition("`b2", 0) == Failure(InvalidBinaryCharacter('2', 0))
  {
  }

  /** The loop stops after eight bits: a ninth bit is left for the next character. */
  lemma BinaryEscapeStopsAfterEightBits()
    ensures ParseCharacterAtPosition("`b111111110", 0) == Success(Parsed(255, 10))
  {
  }

  // ------------------------------------------------------------- decimal

  /**
    Decimal escape: one to three digits read greedily, except that a third
    digit is left unread when taking it would push the value above 255. It
    never fails.
   */
  lemma DecimalEscape(s: string, start: nat)
    requires start + 1 < |s| && s[start] == Backtick && IsDecimalDigit(s[start + 1])
    ensures var r := ParseCharacterAtPosition(s, start);
            && r.Success?
            && var k := r.value.used - 1;
            && 1 <= k <= 3
            && AllDigits(s[start + 1..start + 1 + k], 10)
            && r.value.code == NumeralValue(s[start + 1..start + 1 + k], 10)
            && (k == 3
                || start + 1 + k == |s|
                || !IsDecimalDigit(s[start + 1 + k])
                || (k == 2 && r.value.code * 10 + HexDigitValue(s[start + 3]) > 255))
  {
    var r := ParseCharacterAtPosition(s, start);
    var a := s[start + 1];
    if r.value.used == 2 {
      assert s[start + 1..start + 2] == [a];
      NumeralOfOne(a, 10);
    } else {
      var b := s[start + 2];
      assert s[start + 1..start + 3] == [a, b];
      NumeralOfTwo(a, b, 10);
      if r.value.used == 4 {
        assert s[start + 1..start + 4] == [a, b, s[start + 3]];
        NumeralOfThree(a, b, s[start + 3], 10);
      }
    }
  }

  lemma DecimalEscapeExamples()
    ensures ParseCharacterAtPosition("`255", 0) == Success(Parsed(255, 4))
    ensures ParseCharacterAtPosition("`256", 0) == Success(Parsed(25, 3))
    ensures ParseCharacterAtPosition("`7a", 0) == Success(Parsed(7, 2))
    ensures ParseCharacterAtPosition("`0", 0) == Success(Parsed(0, 2))
    ensures ParseCharacterAtPosition("`", 0) == Failure(InvalidEscape(0))
  {
  }
}
