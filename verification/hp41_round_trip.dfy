/**
  The decode/encode round trip of the HP-41 codec, and how the obsolete
  entry points relate to the current ones.
 */
module Hp41RoundTrip {
  import opened Results
  import opened Hp41Char
  import opened Hp41Encoding
  import opened Hp41EncodingLemmas

  /**
    Encoding the text of a code inside a longer text gives back the code and
    moves past exactly that text, for every code except the shadowed Latin-1
    ones; a bare `x` must not be followed by a combining macron.
   */
  lemma ParseDecoded(s: string, i: nat, code: Byte)
    requires !Shadowed(code)
    requires i + |Decoded(code)| <= |s| && s[i..i + |Decoded(code)|] == Decoded(code)
    requires code == 120 ==> !MacronAt(s, i + 1)
    ensures ParseCharacterAtPosition(s, i) == Success(Parsed(code, |Decoded(code)|))
  {
    if Tabled(code) {
      ParseTabledCode(s, i, code);
    } else {
      ParseUntabledCharacter(s, i, code);
    }
  }

  /** `ParseTabledForm` stated for a tabled code rather than a table position. */
  lemma ParseTabledCode(s: string, i: nat, code: Byte)
    requires Tabled(code)
    requires i + |CharacterTable[IndexOfCode(code)].unicode| <= |s|
    requires s[i..i + |CharacterTable[IndexOfCode(code)].unicode|] == CharacterTable[IndexOfCode(code)].unicode
    ensures ParseCharacterAtPosition(s, i) == Success(Parsed(code, |CharacterTable[IndexOfCode(code)].unicode|))
  {
    EntryOfCode(code);
    ParseTabledForm(s, i, IndexOfCode(code));
  }

  lemma ParseUntabledCharacter(s: string, i: nat, code: Byte)
    requires !Tabled(code) && !Shadowed(code)
    requires i < |s| && s[i..i + 1] == [code as char]
    requires code == 120 ==> !MacronAt(s, i + 1)
    ensures ParseCharacterAtPosition(s, i) == Success(Parsed(code, 1))
  {
    assert s[i] == s[i..i + 1][0];
    if code == 120 {
      ParseBareX(s, i);
    } else {
      ParseUntabled(s, i, code);
    }
  }

  /** The character of an untabled, unshadowed code other than `x` is that code. */
  lemma ParseUntabled(s: string, i: nat, code: Byte)
    requires !Tabled(code) && !Shadowed(code) && code != 120
    requires i < |s| && s[i] == code as char
    ensures ParseCharacterAtPosition(s, i) == Success(Parsed(code, 1))
  {
    UntabledLeadsNothing(code);
    ParseIdentity(s, i);
  }

  /**
    The decode/encode round trip on the reference decoder: re-encoding the
    text of a code gives the code back, consuming the whole text, exactly
    when the code is not one of the shadowed Latin-1 codes; a shadowed code
    comes back as the tabled code that shares its character.
   */
  lemma DecodedRoundTrip(code: Byte)
    ensures var f := Decoded(code);
            ParseCharacterAtPosition(f, 0) == Success(Parsed(code, |f|)) <==> !Shadowed(code)
    ensures Shadowed(code) ==> ParseCharacterAtPosition(Decoded(code), 0) == Success(Parsed(ShadowIndex(code), 1))
  {
    var f := Decoded(code);
    if !Shadowed(code) {
      assert f[0..|f|] == f;
      assert code == 120 ==> !MacronAt(f, 1);
      ParseDecoded(f, 0, code);
    } else {
      ParseShadowed(f, 0, code);
    }
  }

  /**
    The round trip as the codec's own functions state it: `FormatCharacter`
    then `ParseCharacterAtPosition` gives the code back, consuming the whole
    text, exactly when the code is not shadowed.
   */
  lemma FormatParseRoundTrip(code: Byte)
    ensures var f := FormatCharacter(code, false);
            ParseCharacterAtPosition(f, 0) == Success(Parsed(code, |f|)) <==> !Shadowed(code)
  {
    FormOfCode(code);
    DecodedRoundTrip(code);
  }

  /** Decoding 196 gives the Latin-1 'Ä', which re-encodes to 21; likewise '£' (163) to 30. */
  lemma ShadowedExamples()
    ensures ParseCharacterAtPosition(FormatCharacter(196, false), 0) == Success(Parsed(21, 1))
    ensures ParseCharacterAtPosition(FormatCharacter(163, false), 0) == Success(Parsed(30, 1))
  {
    FormOfCode(196);
    FormOfCode(163);
    DecodedRoundTrip(196);
    DecodedRoundTrip(163);
  }

  /** Code 2 decodes to `x` + combining macron, which re-encodes to 2. */
  lemma CompositeExample()
    ensures ParseCharacterAtPosition(FormatCharacter(2, false), 0) == Success(Parsed(2, 2))
  {
    FormOfCode(2);
    CompositeEntry();
    DecodedRoundTrip(2);
  }

  // ---------------------------------------------------- obsolete entries

  /** `FromHp41` is `FormatCharacter`: its escape branch is dead. */
  lemma FromHp41IsFormatCharacter(value: Byte, useSubstitute: bool)
    ensures FromHp41(value, useSubstitute) == FormatCharacter(value, useSubstitute)
  {
    NothingHidden();
    assert value !in HiddenNatives(CharacterTable);
  }

  /**
    `ToHp41` agrees with the codec on a lone character other than the
    backtick: same code, or the same UnsupportedCharacter error.
   */
  lemma ToHp41AgreesWithParse(c: char)
    requires c != Backtick
    ensures ParseCharacterAtPosition([c], 0) ==
              if ToHp41(c).Success? then Success(Parsed(ToHp41(c).value, 1)) else Failure(ToHp41(c).error)
  {
    TableSize();
    if c == 'x' {
      ToHp41OfLetterX(c);
      ParseBareX([c], 0);
    } else if i :| 0 <= i < |CharacterTable| && CharacterTable[i].unicode[0] == c {
      TableFormLengths();
      ToHp41OfEntry(i);
      ParseSingleForm([c], 0, i);
    } else {
      ToHp41OfNonLead(c);
      ParseIdentity([c], 0);
    }
  }

  /** The leading character of a one-character form converts to that entry's code. */
  lemma ToHp41OfEntry(i: int)
    requires 0 <= i < |CharacterTable| && i != 2
    ensures |CharacterTable[i].unicode| == 1
    ensures ToHp41(CharacterTable[i].unicode[0]) == Success(CharacterTable[i].code)
  {
    TableFormLengths();
    EncoderBucketOfEntry(i);
  }

  /** `x` leads only the composite form, so it converts to its own code. */
  lemma ToHp41OfLetterX(c: char)
    requires c == 'x'
    ensures ToHp41(c) == Success(120)
  {
    LetterXBucket();
    CompositeEntry();
    NoSingleInComposite(CharacterTable[2]);
  }

  /** A bucket holding only a composite form has no one-character form. */
  lemma NoSingleInComposite(e: CharEntry)
    requires |e.unicode| != 1
    ensures FirstSingle([e]) == None
  {
    assert [e][1..] == [];
  }

  /** A character leading no form converts to itself, or fails above 255. */
  lemma ToHp41OfNonLead(c: char)
    requires forall i :: 0 <= i < |CharacterTable| ==> CharacterTable[i].unicode[0] != c
    ensures ToHp41(c) == if c as int > 255 then Failure(UnsupportedCharacter(c)) else Success(c as int)
  {
    EncoderBucketOfNonLead(c);
  }
}
