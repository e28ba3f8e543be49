/**
  Properties of the HP-41 character codec: the shape of the table, the
  encoder buckets, the escape grammar, and the decode/encode round trip.
 */
module Hp41EncodingLemmas {
  import opened Results
  import opened Hp41Char
  import opened Hp41Encoding

  // ------------------------------------------------------------ the table

  /** The codes that have a table entry: 0-31, 96 and 123-127. */
  predicate Tabled(code: int)
  {
    0 <= code < 32 || code == 96 || 123 <= code <= 127
  }

  /** The table position of a tabled code. */
  function IndexOfCode(code: int): (i: int)
    requires Tabled(code)
    ensures 0 <= i < 38
  {
    if code < 32 then code else if code == 96 then 32 else code - 90
  }

  /**
    An independent listing of the table's leading characters: the position
    of the entry whose Unicode form starts with `c`, or -1.
   */
  function LeadIndex(c: char): int
  {
    if c == '\U{203E}' then 0
    else if c == '\U{02E3}' then 1
    else if c == 'x' then 2
    else if c == '\U{2190}' then 3
    else if c == '\U{03B1}' then 4
    else if c == '\U{03B2}' then 5
    else if c == '\U{0393}' then 6
    else if c == '\U{2193}' then 7
    else if c == '\U{0394}' then 8
    else if c == '\U{03C3}' then 9
    else if c == '\U{2666}' then 10
    else if c == '\U{03BB}' then 11
    else if c == '\U{03BC}' then 12
    else if c == '\U{2221}' then 13
    else if c == '\U{03C4}' then 14
    else if c == '\U{03A6}' then 15
    else if c == '\U{0398}' then 16
    else if c == '\U{03A9}' then 17
    else if c == '\U{03B4}' then 18
    else if c == '\U{0226}' then 19
    else if c == '\U{0227}' then 20
    else if c == '\U{00C4}' then 21
    else if c == '\U{00E4}' then 22
    else if c == '\U{00D6}' then 23
    else if c == '\U{00F6}' then 24
    else if c == '\U{00DC}' then 25
    else if c == '\U{00FC}' then 26
    else if c == '\U{00C6}' then 27
    else if c == '\U{0153}' then 28
    else if c == '\U{2260}' then 29
    else if c == '\U{00A3}' then 30
    else if c == '\U{2592}' then 31
    else if c == '\U{252C}' then 32
    else if c == '\U{03C0}' then 33
    else if c == '|' then 34
    else if c == '\U{2192}' then 35
    else if c == '\U{03A3}' then 36
    else if c == '\U{2C75}' then 37
    else -1
  }

  /** The untabled Latin-1 codes whose character is the form of a tabled code. */
  predicate Shadowed(code: int)
  {
    code in {163, 196, 198, 214, 220, 228, 246, 252}
  }

  /** The table position whose form is the character of a shadowed code. */
  function ShadowIndex(code: int): (j: int)
    requires Shadowed(code)
    ensures 21 <= j <= 30
  {
    if code == 163 then 30
    else if code == 196 then 21
    else if code == 198 then 27
    else if code == 214 then 23
    else if code == 220 then 25
    else if code == 228 then 22
    else if code == 246 then 24
    else 26
  }

  /** A combining macron sits at position `k` of `s`. */
  predicate MacronAt(s: string, k: nat)
  {
    k < |s| && s[k] == '\U{0304}'
  }

  ghost predicate CodesIncreasing(t: seq<CharEntry>)
  {
    forall i :: 0 <= i < |t| - 1 ==> t[i].code < t[i + 1].code
  }

  ghost predicate CodesDistinct(t: seq<CharEntry>)
  {
    forall i, j :: 0 <= i < j < |t| ==> t[i].code != t[j].code
  }

  ghost predicate LeadsDistinct(t: seq<CharEntry>)
    requires WellFormed(t)
  {
    forall i, j :: 0 <= i < j < |t| ==> t[i].unicode[0] != t[j].unicode[0]
  }

  lemma TableSize()
    ensures |CharacterTable| == 38 && WellFormed(CharacterTable)
  {
  }

  lemma TableCodesIncrease()
    ensures CodesIncreasing(CharacterTable)
  {
    TableSize();
    forall i | 0 <= i < |CharacterTable| - 1
      ensures CharacterTable[i].code < CharacterTable[i + 1].code
    {
      if i < 19 {
        CodesIncreaseLow(i);
      } else {
        CodesIncreaseHigh(i);
      }
    }
  }

  /** The codes increase over the first half of the table. */
  lemma CodesIncreaseLow(i: int)
    requires 0 <= i < 19
    ensures |CharacterTable| == 38 && CharacterTable[i].code < CharacterTable[i + 1].code
  {
  }

  /** The codes increase over the second half of the table. */
  lemma CodesIncreaseHigh(i: int)
    requires 19 <= i < 37
    ensures |CharacterTable| == 38 && CharacterTable[i].code < CharacterTable[i + 1].code
  {
  }

  /** Position `i` of the table holds the code `IndexOfCode` maps back to `i`. */
  lemma TableCodePositions()
    ensures |CharacterTable| == 38
    ensures forall i :: 0 <= i < 38 ==> Tabled(CharacterTable[i].code) && IndexOfCode(CharacterTable[i].code) == i
    ensures forall code :: Tabled(code) ==> CharacterTable[IndexOfCode(code)].code == code
  {
  }

  /** No table entry has an active substitute or hides a native character. */
  lemma TableSubstitutesInactive()
    ensures |CharacterTable| == 38
    ensures forall i :: 0 <= i < 38 ==> !CharacterTable[i].hasSubstitute && !CharacterTable[i].substituteHidesNative
  {
  }

  /** Every form is one character, except the composite `x` + combining macron of code 2. */
  lemma TableFormLengths()
    ensures |CharacterTable| == 38
    ensures forall i :: 0 <= i < 38 && i != 2 ==> |CharacterTable[i].unicode| == 1
    ensures CharacterTable[2].unicode == "x\U{0304}" && CharacterTable[2].code == 2
  {
  }

  /** Entry 2 is the composite `x` + combining macron, without an active substitute. */
  lemma CompositeEntry()
    ensures |CharacterTable| == 38
    ensures CharacterTable[2].unicode == "x\U{0304}" && CharacterTable[2].code == 2
    ensures !CharacterTable[2].hasSubstitute
  {
  }

  /** `LeadIndex` lists the leading characters correctly. */
  lemma TableLeadIndex()
    ensures |CharacterTable| == 38 && WellFormed(CharacterTable)
    ensures forall i :: 0 <= i < |CharacterTable| ==> LeadIndex(CharacterTable[i].unicode[0]) == i
  {
    TableSize();
    // The table is checked in six slices to keep each proof small.
    forall i | 0 <= i < |CharacterTable|
      ensures LeadIndex(CharacterTable[i].unicode[0]) == i
    {
      if i < 7 {
        LeadIndexSlice0(i);
      } else if i < 14 {
        LeadIndexSlice1(i);
      } else if i < 20 {
        LeadIndexSlice2(i);
      } else if i < 26 {
        LeadIndexSlice3(i);
      } else if i < 32 {
        LeadIndexSlice4(i);
      } else {
        LeadIndexSlice5(i);
      }
    }
  }

  lemma LeadIndexSlice0(i: int)
    requires 0 <= i < 7
    ensures |CharacterTable| == 38 && |CharacterTable[i].unicode| > 0
    ensures LeadIndex(CharacterTable[i].unicode[0]) == i
  {
    TableSize();
  }

  lemma LeadIndexSlice1(i: int)
    requires 7 <= i < 14
    ensures |CharacterTable| == 38 && |CharacterTable[i].unicode| > 0
    ensures LeadIndex(CharacterTable[i].unicode[0]) == i
  {
    TableSize();
  }

  lemma LeadIndexSlice2(i: int)
    requires 14 <= i < 20
    ensures |CharacterTable| == 38 && |CharacterTable[i].unicode| > 0
    ensures LeadIndex(CharacterTable[i].unicode[0]) == i
  {
    TableSize();
  }

  lemma LeadIndexSlice3(i: int)
    requires 20 <= i < 26
    ensures |CharacterTable| == 38 && |CharacterTable[i].unicode| > 0
    ensures LeadIndex(CharacterTable[i].unicode[0]) == i
  {
    TableSize();
  }

  lemma LeadIndexSlice4(i: int)
    requires 26 <= i < 32
    ensures |CharacterTable| == 38 && |CharacterTable[i].unicode| > 0
    ensures LeadIndex(CharacterTable[i].unicode[0]) == i
  {
    TableSize();
  }

  lemma LeadIndexSlice5(i: int)
    requires 32 <= i < 38
    ensures |CharacterTable| == 38 && |CharacterTable[i].unicode| > 0
    ensures LeadIndex(CharacterTable[i].unicode[0]) == i
  {
    TableSize();
  }

  lemma LeadIndexSound(c: char)
    ensures -1 <= LeadIndex(c) < 38
    ensures 0 <= LeadIndex(c) ==> |CharacterTable[LeadIndex(c)].unicode| > 0 && CharacterTable[LeadIndex(c)].unicode[0] == c
  {
  }

  /** Strictly increasing codes are pairwise distinct. */
  lemma {:induction false} IncreasingCodesAreDistinct(t: seq<CharEntry>)
    requires CodesIncreasing(t)
    ensures CodesDistinct(t)
  {
    forall i, j | 0 <= i < j < |t|
      ensures t[i].code != t[j].code
    {
      IncreasingCodesOrdered(t, i, j);
    }
  }

  lemma {:induction false} IncreasingCodesOrdered(t: seq<CharEntry>, i: int, j: int)
    requires CodesIncreasing(t) && 0 <= i < j < |t|
    ensures t[i].code < t[j].code
    decreases j - i
  {
    if j > i + 1 {
      IncreasingCodesOrdered(t, i, j - 1);
    }
  }

  /** The 38 entries have pairwise distinct codes and pairwise distinct leading characters. */
  lemma TableKeysDistinct()
    ensures CodesDistinct(CharacterTable)
    ensures WellFormed(CharacterTable) && LeadsDistinct(CharacterTable)
  {
    TableCodesIncrease();
    IncreasingCodesAreDistinct(CharacterTable);
    TableLeadIndex();
  }

  // ------------------------------------------------------------- decoder

  /** With distinct codes the decoder finds each entry under its own code. */
  lemma {:induction false} FindByCodeFindsEntry(t: seq<CharEntry>, i: int)
    requires CodesDistinct(t) && 0 <= i < |t|
    ensures FindByCode(t, t[i].code) == Some(t[i])
  {
    if i > 0 {
      assert t[0].code != t[i].code;
      assert CodesDistinct(t[1..]) by {
        forall a, b | 0 <= a < b < |t[1..]| ensures t[1..][a].code != t[1..][b].code {
          assert t[1..][a] == t[a + 1] && t[1..][b] == t[b + 1];
        }
      }
      FindByCodeFindsEntry(t[1..], i - 1);
    }
  }

  /** The decoder holds exactly the tabled codes, each mapped to its own entry. */
  lemma DecoderTable(code: Byte)
    ensures Tabled(code) ==> FindByCode(CharacterTable, code) == Some(CharacterTable[IndexOfCode(code)])
    ensures !Tabled(code) <==> FindByCode(CharacterTable, code).None?
  {
    TableKeysDistinct();
    TableCodePositions();
    if Tabled(code) {
      FindByCodeFindsEntry(CharacterTable, IndexOfCode(code));
    }
  }

  /** The substitute flag never changes the decoded text, since no substitute is active. */
  lemma FormatIgnoresSubstituteFlag(code: Byte)
    ensures FormatCharacter(code, true) == FormatCharacter(code, false)
  {
    DecoderTable(code);
    TableSubstitutesInactive();
  }

  // ------------------------------------------------ registration, hidden

  /** Registration leaves every table entry as it was: no entry hides a native character. */
  lemma RegistrationChangesNothing()
    ensures forall i :: 0 <= i < |CharacterTable| ==> OnRegistered(CharacterTable[i]) == CharacterTable[i]
    ensures HiddenNatives(CharacterTable) == []
    ensures forall c :: !IsHiddenNativeChar(c)
  {
    TableSubstitutesInactive();
  }

  /**
    `TryGetCharacter` returns the decoder's own table entry for a tabled
    code, and in every case an entry whose form is the reference decoding.
   */
  lemma TryGetCharacterOfCode(code: Byte)
    ensures Tabled(code) ==> TryGetCharacter(code) == CharacterTable[IndexOfCode(code)]
    ensures TryGetCharacter(code).unicode == Decoded(code)
  {
    DecoderTable(code);
  }

  /** The list of hidden native characters is empty. */
  lemma NothingHidden()
    ensures HiddenNatives(CharacterTable) == []
  {
    RegistrationChangesNothing();
  }

  /** No character is a hidden native character. */
  lemma NoHiddenNativeChar(c: char)
    ensures !IsHiddenNativeChar(c)
  {
    RegistrationChangesNothing();
  }

  /**
    Were a substitute switched on, an untabled byte as substitute would hide
    the native character of that byte (as the comments at
    Helper/HP41CharacterEncoding.cs:136-137 and 162-163 say of `@` and `&`).
   */
  lemma ActiveSubstituteHidesUntabledByte(e: CharEntry)
    requires e.hasSubstitute && e.substitute as int < 256 && !Tabled(e.substitute as int)
    ensures OnRegistered(e).substituteHidesNative
  {
    DecoderTable(e.substitute as int);
  }

  // ------------------------------------------------------ encoder buckets

  /** A bucket for a character that leads no entry is empty. */
  lemma BucketWithoutLead(t: seq<CharEntry>, c: char)
    requires WellFormed(t)
    requires forall i :: 0 <= i < |t| ==> t[i].unicode[0] != c
    ensures Bucket(t, c) == []
  {
  }

  /** With distinct leading characters, each entry's bucket holds just that entry. */
  lemma {:induction false} BucketOfDistinctLead(t: seq<CharEntry>, i: int)
    requires WellFormed(t) && LeadsDistinct(t) && 0 <= i < |t|
    ensures Bucket(t, t[i].unicode[0]) == [t[i]]
  {
    var c := t[i].unicode[0];
    assert WellFormed(t[1..]);
    assert LeadsDistinct(t[1..]) by {
      forall a, b | 0 <= a < b < |t[1..]| ensures t[1..][a].unicode[0] != t[1..][b].unicode[0] {
        assert t[1..][a] == t[a + 1] && t[1..][b] == t[b + 1];
      }
    }
    if i == 0 {
      assert forall k :: 0 <= k < |t[1..]| ==> t[1..][k].unicode[0] != c by {
        forall k | 0 <= k < |t[1..]| ensures t[1..][k].unicode[0] != c {
          assert t[1..][k] == t[k + 1];
        }
      }
      BucketWithoutLead(t[1..], c);
    } else {
      assert t[1..][i - 1] == t[i];
      BucketOfDistinctLead(t[1..], i - 1);
    }
  }

  /** A character that `LeadIndex` does not list leads no table entry. */
  lemma NotALead(c: char)
    requires LeadIndex(c) == -1
    ensures forall i :: 0 <= i < |CharacterTable| ==> CharacterTable[i].unicode[0] != c
  {
    TableLeadIndex();
  }

  /** The encoder bucket of an entry's leading character holds just that entry. */
  lemma EncoderBucketOfEntry(i: int)
    requires 0 <= i < |CharacterTable|
    ensures |CharacterTable[i].unicode| > 0
    ensures EncoderBucket(CharacterTable[i].unicode[0]) == [CharacterTable[i]]
  {
    TableKeysDistinct();
    BucketOfDistinctLead(CharacterTable, i);
  }

  /** The encoder bucket of a character that leads no entry is empty. */
  lemma EncoderBucketOfNonLead(c: char)
    requires forall i :: 0 <= i < |CharacterTable| ==> CharacterTable[i].unicode[0] != c
    ensures EncoderBucket(c) == []
  {
    TableSize();
    BucketWithoutLead(CharacterTable, c);
  }

  /** Every encoder bucket holds at most one entry. */
  lemma EncoderBucketsAreSingletons(c: char)
    ensures |EncoderBucket(c)| <= 1
    ensures (exists i :: 0 <= i < |CharacterTable| && CharacterTable[i].unicode[0] == c) <==> |EncoderBucket(c)| == 1
  {
    TableSize();
    if i :| 0 <= i < |CharacterTable| && CharacterTable[i].unicode[0] == c {
      EncoderBucketOfEntry(i);
    } else {
      EncoderBucketOfNonLead(c);
    }
  }

  /** Building a bucket as written agrees with the intended build while no merge is needed. */
  lemma {:induction false} BucketAsWrittenWithoutMerge(t: seq<CharEntry>, c: char)
    requires WellFormed(t) && |Bucket(t, c)| <= 1
    ensures BucketAsWritten(t, c) == Bucket(t, c)
    decreases |t|
  {
    if |t| > 0 {
      var last := t[|t| - 1];
      var prefix := t[..|t| - 1];
      assert t == prefix + [last];
      assert WellFormed(prefix);
      BucketOfSnoc(prefix, last, c);
      BucketAsWrittenWithoutMerge(prefix, c);
    }
  }

  /** On the shipped table the faulty two-element merge is never reached. */
  lemma EncoderTableAsWrittenIsFaithful(c: char)
    ensures WellFormed(CharacterTable)
    ensures BucketAsWritten(CharacterTable, c) == EncoderBucket(c)
  {
    TableSize();
    EncoderBucketsAreSingletons(c);
    BucketAsWrittenWithoutMerge(CharacterTable, c);
  }

  /**
    The merge as written loses the second entry of a bucket: two entries
    led by `x` build the bucket `[first, first]`.
   */
  lemma MergeAsWrittenLosesEntry()
    ensures var t := [FromComposite(2, "x\U{0304}"), FromComposite(200, "x\U{0305}")];
            WellFormed(t)
            && BucketAsWritten(t, 'x') == [t[0], t[0]]
            && Bucket(t, 'x') == [t[0], t[1]]
  {
    var t := [FromComposite(2, "x\U{0304}"), FromComposite(200, "x\U{0305}")];
    assert t[..1] == [t[0]];
    assert t[1..] == [t[1]];
    assert t[1..][1..] == [];
  }

  // -------------------------------------------------- plain characters

  /** A character that leads a one-character form encodes to that entry's code. */
  lemma ParseSingleForm(s: string, start: nat, i: int)
    requires start < |s| && 0 <= i < |CharacterTable| && i != 2
    requires |CharacterTable[i].unicode| > 0 && s[start] == CharacterTable[i].unicode[0]
    ensures ParseCharacterAtPosition(s, start) == Success(Parsed(CharacterTable[i].code, 1))
  {
    TableFormLengths();
    TableLeadIndex();
    assert s[start] != Backtick by {
      assert LeadIndex(s[start]) == i;
    }
    EncoderBucketOfEntry(i);
  }

  /** Outside an escape the native path decides alone. */
  lemma ParseUnescaped(s: string, start: nat)
    requires start < |s| && s[start] != Backtick
    ensures ParseCharacterAtPosition(s, start) == ParseNative(s, start)
  {
  }

  /** At a backtick the escape grammar decides alone. */
  lemma ParseEscaped(s: string, start: nat)
    requires start < |s| && s[start] == Backtick
    ensures ParseCharacterAtPosition(s, start) == ParseEscape(s, start)
  {
  }

  /** The encoder bucket of `x` holds the composite entry only. */
  lemma LetterXBucket()
    ensures EncoderBucket('x') == [CharacterTable[2]]
  {
    CompositeEntry();
    EncoderBucketOfEntry(2);
  }

  /** A bucket holding one two-character form matches only when both characters are present. */
  lemma MatchComposite(e: CharEntry, s: string, start: nat)
    requires start < |s| && |e.unicode| == 2 && s[start] == e.unicode[0] && !e.hasSubstitute
    ensures MatchBucket([e], s, start) ==
              if start + 1 < |s| && s[start + 1] == e.unicode[1] then Some(Parsed(e.code, 2)) else None
  {
    if start + 1 < |s| && s[start + 1] == e.unicode[1] {
      assert s[start..start + 2] == e.unicode;
    } else {
      if |s| - start >= |e.unicode| {
        assert s[start..start + |e.unicode|][1] == s[start + 1];
      }
      assert MatchBucket([e][1..], s, start) == None;
    }
  }

  /** `x` followed by a combining macron encodes to 2; any other `x` to 120. */
  lemma ParseLetterX(s: string, start: nat)
    requires start < |s| && s[start] == 'x'
    ensures ParseCharacterAtPosition(s, start) ==
              if start + 1 < |s| && s[start + 1] == '\U{0304}' then Success(Parsed(2, 2))
              else Success(Parsed(120, 1))
  {
    ParseUnescaped(s, start);
    LetterXBucket();
    CompositeEntry();
    MatchComposite(CharacterTable[2], s, start);
  }

  /** The form of table entry `ShadowIndex(code)` is the lone character of the shadowed code. */
  lemma ShadowedEntry(code: int)
    requires Shadowed(code)
    ensures |CharacterTable| == 38
    ensures CharacterTable[ShadowIndex(code)].unicode == [code as char]
    ensures CharacterTable[ShadowIndex(code)].code == ShadowIndex(code)
  {
    TableFormLengths();
    TableCodePositions();
  }

  /** The character of a shadowed code encodes to the tabled code sharing it. */
  lemma ParseShadowed(s: string, start: nat, code: int)
    requires Shadowed(code) && start < |s| && s[start] == code as char
    ensures ParseCharacterAtPosition(s, start) == Success(Parsed(ShadowIndex(code), 1))
  {
    ShadowedEntry(code);
    ParseSingleForm(s, start, ShadowIndex(code));
  }

  /** An `x` not followed by a combining macron is the plain letter, code 120. */
  lemma ParseBareX(s: string, start: nat)
    requires start < |s| && s[start] == 'x'
    requires !MacronAt(s, start + 1)
    ensures ParseCharacterAtPosition(s, start) == Success(Parsed(120, 1))
  {
    ParseLetterX(s, start);
  }

  /**
    A character that is not the backtick and leads no entry is its own
    code, or UnsupportedCharacter above 255.
   */
  lemma ParseIdentity(s: string, start: nat)
    requires start < |s| && s[start] != Backtick
    requires forall i :: 0 <= i < |CharacterTable| ==> CharacterTable[i].unicode[0] != s[start]
    ensures ParseCharacterAtPosition(s, start) ==
              if s[start] as int > 255 then Failure(UnsupportedCharacter(s[start]))
              else Success(Parsed(s[start] as int, 1))
  {
    EncoderBucketOfNonLead(s[start]);
  }

  /** `@` is the plain character 64: its substitute role is inert. */
  lemma AtSignIsPlain()
    ensures ParseCharacterAtPosition("@", 0) == Success(Parsed(64, 1))
  {
    NotALead('@');
    ParseIdentity("@", 0);
  }

  // ---------------------------------------------------------- round trip

  /** No form starts with the escape introducer or a combining macron. */
  lemma LeadsAreOrdinary()
    ensures |CharacterTable| == 38 && WellFormed(CharacterTable)
    ensures forall i :: 0 <= i < |CharacterTable| ==>
              CharacterTable[i].unicode[0] != Backtick && CharacterTable[i].unicode[0] != '\U{0304}'
  {
    TableLeadIndex();
    assert LeadIndex(Backtick) == -1 && LeadIndex('\U{0304}') == -1;
  }

  /**
    An independent statement of the decoder: the form of the code's entry
    when the code is tabled, else the code's own character.
   */
  function Decoded(code: Byte): (s: string)
    ensures |s| >= 1
  {
    TableFormLengths();
    if Tabled(code) then CharacterTable[IndexOfCode(code)].unicode else [code as char]
  }

  /** `FormatCharacter` (without substitutes) is the reference decoder. */
  lemma FormOfCode(code: Byte)
    ensures FormatCharacter(code, false) == Decoded(code)
  {
    DecoderTable(code);
  }

  /** The first character of a decoded text is never the escape introducer nor a combining macron. */
  lemma DecodedStart(code: Byte)
    ensures Decoded(code)[0] != Backtick
    ensures Decoded(code)[0] != '\U{0304}'
  {
    if Tabled(code) {
      LeadsAreOrdinary();
      var i := IndexOfCode(code);
      assert CharacterTable[i].unicode[0] != Backtick;
    }
  }

  /** The character of an untabled code that is neither shadowed nor `x` leads no entry. */
  lemma UntabledLeadsNothing(code: Byte)
    requires !Tabled(code) && !Shadowed(code) && code != 120
    ensures forall i :: 0 <= i < |CharacterTable| ==> CharacterTable[i].unicode[0] != code as char
  {
    assert LeadIndex(code as char) == -1;
    NotALead(code as char);
  }

  /** The entry at a tabled code's position carries that code. */
  lemma EntryOfCode(code: int)
    requires Tabled(code)
    ensures |CharacterTable| == 38 && CharacterTable[IndexOfCode(code)].code == code
  {
    TableCodePositions();
  }

  /** The form of table entry `idx`, found in a text, encodes to that entry's code. */
  lemma ParseTabledForm(s: string, i: nat, idx: int)
    requires 0 <= idx < |CharacterTable|
    requires i + |CharacterTable[idx].unicode| <= |s|
    requires s[i..i + |CharacterTable[idx].unicode|] == CharacterTable[idx].unicode
    ensures ParseCharacterAtPosition(s, i) == Success(Parsed(CharacterTable[idx].code, |CharacterTable[idx].unicode|))
  {
    TableFormLengths();
    var f := CharacterTable[idx].unicode;
    assert s[i] == f[0] by {
      assert s[i..i + |f|][0] == s[i];
    }
    if idx == 2 {
      assert s[i + 1] == s[i..i + |f|][1];
      ParseLetterX(s, i);
    } else {
      ParseSingleForm(s, i, idx);
    }
  }

}
