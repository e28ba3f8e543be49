# FocalMaster: program text to HP-41 byte code

FocalMaster compiles FOCAL programs for the HP-41 calculator into the
calculator's byte code. This project models the part of that path that turns
literals into bytes, and it proves properties of the model:

- **The HP-41 character codec** (`Helper/HP41CharacterEncoding.cs`, with the
  entry record `Helper/HP41Character.cs`).
  - A constant table of 38 native codes. Each code has a Unicode form; one
    form, code 2, is the composite `x` + combining macron.
  - The decoder `FormatCharacter`.
  - The encoder `ParseCharacterAtPosition`. It reads one native code at a
    cursor. It handles the backtick escapes (hexadecimal, binary, decimal,
    hidden native) and the table lookup by leading character, and falls back
    to the identity code.
- **Text literals** (`Compiler/CompileText.cs`). The literal is encoded one
  code at a time into a 16-byte buffer. The buffer starts with the header
  `0xF0 + n` and, for a text token that follows an `Append` token, the
  marker `0x7F`.
- **Numeric literals** (`Compiler/CompileNumber.cs`). Each lexeme character
  becomes one number-entry byte.
- **The token** (`Compiler/Token.cs`). It becomes a datatype.

Everything is pure:

- Exceptions become `Result` failures: `CodecError` for the codec and
  `Message` for the compiler.
- The `out` parameters of a compile call become the `Compiled` record.
- The dictionaries built by the static constructor become functions over the
  constant table.

Modules:

- `Results`: `Option`, `Result`.
- `Hp41Char`: the entry record.
- `Hp41Encoding`: the table, the decoder and the encoder.
- `Hp41EncodingLemmas`, `Hp41Escapes`, `Hp41RoundTrip`: the table's shape,
  the escape grammar, and the round trip from decoding to encoding.
- `Tokens`: the token.
- `CompilerOutput`: the `Compiled` record and `Message`.
- `TextCompiler` and `TextCompilerLemmas`: text literals.
- `NumberCompiler` and `NumberCompilerLemmas`: numeric literals.

Reference definitions that the lemmas compare the source's functions with:

- `Hp41EncodingLemmas.Decoded`, the decoder written out by code ranges.
- `Hp41EncodingLemmas.LeadIndex`, an independent listing of the table's
  leading characters.
- `TextCompilerLemmas.EncodeFrom`/`EncodeAll`, an encoder with no buffer
  limit.
- `TextCompilerLemmas.CodesBeforeFailure` and `TextCompilerLemmas.CodesBeforeError`,
  the number of codes read before the read that fails.
- `TextCompilerLemmas.Layout`, the byte layout of a text instruction.
- `TextCompilerLemmas.DecodeAll` and `TextCompilerLemmas.Decompile`, the text
  shown for a sequence of codes.
- `NumberCompilerLemmas.NumberCharOf`, the inverse of the number-entry code.

Where the code and its own comments disagree, the model follows the code:

- **Substitutes.** The table gives codes 13, 29 and 126 the substitutes
  `@`, `#` and `&`. The comments at `Helper/HP41CharacterEncoding.cs:136-137`
  and `:162-163` say that the `@` and `&` substitutes hide the native
  characters. But `HasSubstitute` has a private setter that defaults to
  false (`Helper/HP41Character.cs:12`), and no constructor of
  `HP41Character` sets it. So:
  - the substitutes are inert;
  - `SubstituteHidesNativeCharacter` is always false;
  - the list of hidden native characters is empty;
  - `` `@ `` is a malformed escape, and `@` encodes to 64.
- **Capacity message.** It says "characters" but counts bytes: an escape
  such as `` `255 `` is four characters and one byte. The limit it names is
  `16 − startPosition`, that is 15, or 14 for the append form.

## Model

| member | source | states |
|---|---|---|
| Hp41Char.ToByte | Helper/HP41CharacterEncoding.cs:305 | the unchecked `(byte)` cast keeps values 0..255 and otherwise agrees with its argument modulo 256 |
| Hp41Char.FromChar | Helper/HP41Character.cs:32-37 | an entry built from a character has that code, a one-character form equal to the character, and no active substitute |
| Hp41Char.FromComposite | Helper/HP41Character.cs:39-44 | an entry built from a string keeps the string unchanged as its form, with no active substitute |
| Hp41Char.FromCompositeWithSubstitute | Helper/HP41Character.cs:46-54 | the substitute is stored, but `HasSubstitute` stays false and nothing is hidden |
| Hp41Char.FromCharWithSubstitute | Helper/HP41Character.cs:56-64 | the substitute is stored on a one-character form, but `HasSubstitute` stays false |
| Hp41Char.SortCode | Helper/HP41Character.cs:16-17 | the sort code is the first character of the form; `Equals` on its one-character string holds exactly for a one-character form or an active substitute |
| Hp41Char.EqualsChar | Helper/HP41Character.cs:23-25 | equal exactly when the character is the active substitute or the whole form is that one character; without an active substitute, a composite form never equals a character |
| Hp41Char.EqualsString | Helper/HP41Character.cs:27-30 | the form itself is always equal, and so is the one-character string of an active substitute; any other equal string is exactly that substitute |
| Hp41Char.CompareTo | Helper/HP41Character.cs:20-21 | the sign of the result orders the entry's code against the byte: negative, zero, positive exactly for below, equal, above |
| Hp41Char.EqualsCharIsEqualsString | Helper/HP41Character.cs:23-30 | comparing with a character is comparing with its one-character string |
| Hp41Encoding.FindByCode | Helper/HP41CharacterEncoding.cs:174-175 | the decoder finds an entry of the table carrying the code, and finds none exactly when no entry carries it |
| Hp41Encoding.TryGetCharacter | Helper/HP41CharacterEncoding.cs:241-247 | always yields an entry with the requested code; a tabled code yields an entry of the table itself, an untabled code an entry whose form is the code's own character |
| Hp41Encoding.FormatCharacter | Helper/HP41CharacterEncoding.cs:251-261 | the decoded text is never empty (its content is stated by `Hp41EncodingLemmas.FormOfCode`) |
| Hp41Encoding.OnRegistered | Helper/HP41Character.cs:66-74 | registration changes only the hiding flag, and sets it exactly for an active substitute below 256 that the decoder shows as itself |
| Hp41Encoding.HiddenNatives | Helper/HP41CharacterEncoding.cs:188-196 | a code is in the hidden list exactly when some entry hides the native character of its substitute and that substitute is the code; the list is empty when no entry has an active substitute |
| Hp41Encoding.IsHiddenNativeChar | Helper/HP41CharacterEncoding.cs:199-201 | a hidden character is below 256 and in the hidden list |
| Hp41Encoding.Bucket | Helper/HP41CharacterEncoding.cs:176-187 | the corrected encoder bucket holds exactly the table entries whose form starts with the character |
| Hp41Encoding.AddAsWritten | Helper/HP41CharacterEncoding.cs:80-112 | adding to a one-element bucket as written grows it by one, but the added entry is not in it unless it equals the first |
| Hp41Encoding.BucketAsWritten | Helper/HP41CharacterEncoding.cs:176-187 | the bucket as the source builds it has the length of the corrected bucket |
| Hp41Encoding.BucketOfSnoc | Helper/HP41CharacterEncoding.cs:176-187 | registering one more entry appends it to its own bucket and leaves every other bucket alone |
| Hp41Encoding.EncoderBucket | Helper/HP41CharacterEncoding.cs:390-391 | every entry of the bucket consulted for a character has a form starting with that character |
| Hp41Encoding.TableWellFormed | Helper/HP41CharacterEncoding.cs:120-165 | every table entry has a non-empty form, so its sort code exists |
| Hp41Encoding.HexDigitValue | Helper/HP41CharacterEncoding.cs:308-311 | a hexadecimal digit is worth 0..15, its position in `0123456789ABCDEF` or `0123456789abcdef`, and a decimal digit its distance from `0` |
| Hp41Encoding.ParseCharacterAtPosition | Helper/HP41CharacterEncoding.cs:265-273 | fails with the position error exactly when the cursor is at or after the end; on success it uses at least one character and stays inside the text |
| Hp41Encoding.ParseEscape | Helper/HP41CharacterEncoding.cs:276-388 | an escape uses at least two characters and never reports the position or unsupported-character errors |
| Hp41Encoding.ParseHex | Helper/HP41CharacterEncoding.cs:288-320 | a hexadecimal escape uses three or four characters, or fails with the missing-digit or bad-digit error |
| Hp41Encoding.ParseBinary | Helper/HP41CharacterEncoding.cs:321-350 | a binary escape uses three to ten characters, or fails with the missing-bit or bad-bit error |
| Hp41Encoding.ReadBits | Helper/HP41CharacterEncoding.cs:335-349 | the bit loop ends past the bits already read, at most ten characters from the backtick and inside the text |
| Hp41Encoding.ParseDecimal | Helper/HP41CharacterEncoding.cs:360-387 | a decimal escape always succeeds, using two to four characters |
| Hp41Encoding.ParseNative | Helper/HP41CharacterEncoding.cs:390-421 | outside an escape, success stays inside the text; the only failure is the unsupported-character error for the character at the cursor |
| Hp41Encoding.MatchBucket | Helper/HP41CharacterEncoding.cs:393-416 | a match is the code of some bucket entry and stays inside the text |
| Hp41Encoding.FromHp41 | Helper/HP41CharacterEncoding.cs:205-217 | never empty; without substitutes it is `FormatCharacter` |
| Hp41Encoding.ToHp41 | Helper/HP41CharacterEncoding.cs:221-237 | fails only above 255, with the unsupported-character error, and always succeeds up to 255 |
| Hp41Encoding.FirstSingle | Helper/HP41CharacterEncoding.cs:227-232 | finds a code exactly when the bucket holds a one-character form, and the code is that entry's |
| Hp41EncodingLemmas.TableCodesIncrease | Helper/HP41CharacterEncoding.cs:120-165 | the table's codes strictly increase in declaration order |
| Hp41EncodingLemmas.TableCodePositions | Helper/HP41CharacterEncoding.cs:120-165 | the tabled codes are 0-31, 96 and 123-127, and `IndexOfCode` finds each one's position |
| Hp41EncodingLemmas.TableSubstitutesInactive | Helper/HP41CharacterEncoding.cs:120-165 | no table entry has an active substitute or hides a native character |
| Hp41EncodingLemmas.TableFormLengths | Helper/HP41CharacterEncoding.cs:120-165 | every form is one character except entry 2, the two-character `x` + combining macron |
| Hp41EncodingLemmas.CompositeEntry | Helper/HP41CharacterEncoding.cs:124 | entry 2 is the composite `x` + combining macron with code 2 and no active substitute |
| Hp41EncodingLemmas.TableLeadIndex | Helper/HP41CharacterEncoding.cs:120-165 | the independent listing of leading characters agrees with every entry |
| Hp41EncodingLemmas.LeadIndexSound | Helper/HP41CharacterEncoding.cs:120-165 | whatever position the listing names has a form that starts with the character |
| Hp41EncodingLemmas.TableKeysDistinct | Helper/HP41CharacterEncoding.cs:120-187 | the 38 entries have pairwise distinct codes and pairwise distinct leading characters |
| Hp41EncodingLemmas.FindByCodeFindsEntry | Helper/HP41CharacterEncoding.cs:174-175 | when codes are distinct, the decoder finds each entry under its own code |
| Hp41EncodingLemmas.DecoderTable | Helper/HP41CharacterEncoding.cs:174-175 | the decoder holds exactly the tabled codes, each mapped to its own entry |
| Hp41EncodingLemmas.TryGetCharacterOfCode | Helper/HP41CharacterEncoding.cs:241-247 | a tabled code yields the decoder's table entry for that code, and every code yields an entry whose form is the reference decoding `Decoded` |
| Hp41EncodingLemmas.FormatIgnoresSubstituteFlag | Helper/HP41CharacterEncoding.cs:251-261 | the `useSubstitute` flag never changes the decoded text |
| Hp41EncodingLemmas.RegistrationChangesNothing | Helper/HP41CharacterEncoding.cs:188-196 | registration leaves every entry as it was, the hidden list is empty and no character is hidden |
| Hp41EncodingLemmas.NothingHidden | Helper/HP41CharacterEncoding.cs:188-196 | the hidden list is empty |
| Hp41EncodingLemmas.NoHiddenNativeChar | Helper/HP41CharacterEncoding.cs:199-201 | no character is a hidden native character |
| Hp41EncodingLemmas.ActiveSubstituteHidesUntabledByte | Helper/HP41Character.cs:66-74 | if a substitute were active, an untabled byte used as substitute would hide its native character |
| Hp41EncodingLemmas.BucketWithoutLead | Helper/HP41CharacterEncoding.cs:176-187 | a character that leads no entry has an empty bucket |
| Hp41EncodingLemmas.BucketOfDistinctLead | Helper/HP41CharacterEncoding.cs:176-187 | with distinct leading characters, each entry's bucket holds just that entry |
| Hp41EncodingLemmas.NotALead | Helper/HP41CharacterEncoding.cs:120-165 | a character the listing does not name leads no table entry |
| Hp41EncodingLemmas.EncoderBucketOfEntry | Helper/HP41CharacterEncoding.cs:176-187 | the bucket of an entry's leading character is exactly that entry |
| Hp41EncodingLemmas.EncoderBucketOfNonLead | Helper/HP41CharacterEncoding.cs:176-187 | the bucket of a character that leads no entry is empty |
| Hp41EncodingLemmas.EncoderBucketsAreSingletons | Helper/HP41CharacterEncoding.cs:176-187 | every bucket holds at most one entry, and exactly one when the character leads an entry |
| Hp41EncodingLemmas.BucketAsWrittenWithoutMerge | Helper/HP41CharacterEncoding.cs:176-187 | while no bucket needs a second entry, the build as written gives the corrected bucket |
| Hp41EncodingLemmas.EncoderTableAsWrittenIsFaithful | Helper/HP41CharacterEncoding.cs:176-187 | on the shipped table the faulty merge is never reached: the build as written equals the corrected bucket for every character |
| Hp41EncodingLemmas.MergeAsWrittenLosesEntry | Helper/HP41CharacterEncoding.cs:84-86 | two entries led by `x` give the bucket `[first, first]` as written, where the corrected bucket is `[first, second]` |
| Hp41EncodingLemmas.ParseSingleForm | Helper/HP41CharacterEncoding.cs:402-408 | the leading character of a one-character form encodes to that entry's code, using one character |
| Hp41EncodingLemmas.ParseUnescaped | Helper/HP41CharacterEncoding.cs:390-421 | the dispatch step: a character other than the backtick is read by the native branch (table lookup and identity fallback) |
| Hp41EncodingLemmas.ParseEscaped | Helper/HP41CharacterEncoding.cs:276-388 | the dispatch step: a backtick is read by the escape branch |
| Hp41EncodingLemmas.LetterXBucket | Helper/HP41CharacterEncoding.cs:390-393 | the bucket of `x` holds only the composite entry |
| Hp41EncodingLemmas.MatchComposite | Helper/HP41CharacterEncoding.cs:409-415 | a two-character form matches only when both characters are present at the cursor |
| Hp41EncodingLemmas.ParseLetterX | Helper/HP41CharacterEncoding.cs:390-421 | `x` followed by a combining macron encodes to 2 using two characters; any other `x` encodes to 120 using one |
| Hp41EncodingLemmas.ParseShadowed | Helper/HP41CharacterEncoding.cs:402-408 | the character of a shadowed Latin-1 code encodes to the tabled code that shares it |
| Hp41EncodingLemmas.ParseBareX | Helper/HP41CharacterEncoding.cs:409-421 | an `x` not followed by a macron is the letter, code 120 |
| Hp41EncodingLemmas.ParseIdentity | Helper/HP41CharacterEncoding.cs:418-421 | a character that leads no entry is its own code up to 255, and the unsupported-character error above |
| Hp41EncodingLemmas.AtSignIsPlain | Helper/HP41CharacterEncoding.cs:135 | `@` encodes to 64: its substitute role is inert |
| Hp41EncodingLemmas.LeadsAreOrdinary | Helper/HP41CharacterEncoding.cs:120-165 | no form starts with the backtick or a combining macron |
| Hp41EncodingLemmas.FormOfCode | Helper/HP41CharacterEncoding.cs:251-261 | `FormatCharacter` is the reference decoder: the entry's form for a tabled code, else the code's own character |
| Hp41EncodingLemmas.DecodedStart | Helper/HP41CharacterEncoding.cs:251-261 | no decoded text starts with the backtick or a combining macron |
| Hp41EncodingLemmas.UntabledLeadsNothing | Helper/HP41CharacterEncoding.cs:120-165 | the character of an untabled, unshadowed code other than `x` leads no entry |
| Hp41EncodingLemmas.ParseTabledForm | Helper/HP41CharacterEncoding.cs:390-416 | the form of any table entry, found at the cursor, encodes to the entry's code and uses the whole form |
| Hp41Escapes.MalformedEscapes | Helper/HP41CharacterEncoding.cs:351-358 | a backtick at the end, or followed by anything but `x X b B` or a digit, is the malformed-escape error |
| Hp41Escapes.EscapedAtSignIsMalformed | Helper/HP41CharacterEncoding.cs:351-358 | `` `@ `` is a malformed escape, because `@` hides nothing |
| Hp41Escapes.HexEscape | Helper/HP41CharacterEncoding.cs:288-320 | succeeds exactly when a hexadecimal digit follows `x`; it reads one or two digits greedily and returns their value; the two error cases are told apart |
| Hp41Escapes.HexEscapeExamples | Helper/HP41CharacterEncoding.cs:288-320 | `` `x41 `` gives 0x41 using 4; `` `X4G `` and `` `x4G `` give 4 using 3; `` `xff7 `` gives 255 using 4; `` `x `` and `` `xG `` fail |
| Hp41Escapes.BinaryEscape | Helper/HP41CharacterEncoding.cs:321-350 | succeeds exactly when a bit follows `b`; it reads one to eight bits, stopping at a non-bit, the end or the eighth bit, and returns their value; the two error cases are told apart |
| Hp41Escapes.BinaryEscapeReads | Helper/HP41CharacterEncoding.cs:327-349 | the successful binary escape reads the maximal run of at most eight bits and returns their value |
| Hp41Escapes.BitLoopFromFirst | Helper/HP41CharacterEncoding.cs:331-349 | the bit loop started on the first bit reads one to eight bits, whose value is below 256 |
| Hp41Escapes.ReadBitsReadsBits | Helper/HP41CharacterEncoding.cs:335-349 | each turn of the bit loop keeps the code equal to the value of the bits read, and the loop stops only at a non-bit, the end or the eighth bit |
| Hp41Escapes.BinaryEscapeExamples | Helper/HP41CharacterEncoding.cs:321-350 | `` `b101 `` gives 5 using 5; `` `B1101x `` gives 13 using 6; `` `b `` and `` `b2 `` fail |
| Hp41Escapes.BinaryEscapeStopsAfterEightBits | Helper/HP41CharacterEncoding.cs:334-348 | a ninth bit is never read: `` `b111111110 `` gives 255 using 10 |
| Hp41Escapes.DecimalEscape | Helper/HP41CharacterEncoding.cs:360-387 | always succeeds; it reads one to three digits and returns their value, leaving a third digit only when taking it would exceed 255 |
| Hp41Escapes.DecimalEscapeExamples | Helper/HP41CharacterEncoding.cs:360-387 | `` `255 `` gives 255 using 4; `` `256 `` gives 25 using 3; `` `7a `` gives 7 using 2; a lone backtick fails |
| Hp41RoundTrip.ParseDecoded | Helper/HP41CharacterEncoding.cs:251-421 | inside any text, the decoded form of an unshadowed code encodes back to that code and uses exactly the form (for `x`, when no macron follows) |
| Hp41RoundTrip.ParseTabledCode | Helper/HP41CharacterEncoding.cs:390-416 | the form of a tabled code, found at the cursor, encodes to that code |
| Hp41RoundTrip.ParseUntabledCharacter | Helper/HP41CharacterEncoding.cs:418-421 | the character of an untabled, unshadowed code encodes to itself (for `x`, when no macron follows) |
| Hp41RoundTrip.ParseUntabled | Helper/HP41CharacterEncoding.cs:418-421 | the character of an untabled, unshadowed code other than `x` encodes to itself |
| Hp41RoundTrip.DecodedRoundTrip | Helper/HP41CharacterEncoding.cs:251-421 | decoding then encoding gives back the code and uses the whole text exactly when the code is not shadowed; a shadowed code comes back as the tabled code sharing its character |
| Hp41RoundTrip.FormatParseRoundTrip | Helper/HP41CharacterEncoding.cs:251-421 | `FormatCharacter` then `ParseCharacterAtPosition` is the identity, using the whole text, exactly for the codes other than 163, 196, 198, 214, 220, 228, 246 and 252 |
| Hp41RoundTrip.ShadowedExamples | Helper/HP41CharacterEncoding.cs:145 | 196 decodes to `Ä`, which re-encodes to 21; 163 `£` re-encodes to 30 |
| Hp41RoundTrip.CompositeExample | Helper/HP41CharacterEncoding.cs:124 | code 2 decodes to `x` + combining macron, which re-encodes to 2 using two characters |
| Hp41RoundTrip.FromHp41IsFormatCharacter | Helper/HP41CharacterEncoding.cs:205-217 | `FromHp41` equals `FormatCharacter` for both flag values: its escape branch is dead |
| Hp41RoundTrip.ToHp41AgreesWithParse | Helper/HP41CharacterEncoding.cs:221-237 | on a lone character other than the backtick, `ToHp41` and the codec give the same code or the same error |
| Hp41RoundTrip.ToHp41OfEntry | Helper/HP41CharacterEncoding.cs:221-233 | the character of a one-character form converts to the entry's code |
| Hp41RoundTrip.ToHp41OfLetterX | Helper/HP41CharacterEncoding.cs:221-237 | `x` leads only the composite, so it converts to 120 |
| Hp41RoundTrip.ToHp41OfNonLead | Helper/HP41CharacterEncoding.cs:234-236 | a character that leads no form converts to itself, or fails above 255 |
| Tokens.Ordinal | Compiler/Token.cs:11-23 | the token kind is one of exactly ten enumerators, numbered 0 to 9 |
| Tokens.DefaultToken | Compiler/Token.cs:29-31 | a new token has the first kind, the integer 0 and an empty text |
| Tokens.Copy | Compiler/Token.cs:33-38 | the copy has the original's kind, 16-bit integer and text |
| Tokens.CopyIsIdentity | Compiler/Token.cs:33-38 | a copy is indistinguishable from the original, and copying again changes nothing |
| Tokens.OrdinalRoundTrip | Compiler/Token.cs:11-23 | each kind's number names that kind back |
| Tokens.KindOfRoundTrip | Compiler/Token.cs:11-23 | the numbers of the kinds are exactly 0 through 9 |
| Tokens.OrdinalInjective | Compiler/Token.cs:11-23 | two kinds with the same number are the same kind |
| TextCompiler.CodecAdvances | Compiler/CompileText.cs:35-42 | every successful codec read moves the cursor forward and stays inside the text, so the loop terminates |
| TextCompiler.ConvertText | Compiler/CompileText.cs:12-54 | on success it stores between one byte and the room left after the start position; every failure carries a message |
| TextCompiler.ConvertFrom | Compiler/CompileText.cs:25-50 | from any turn of the loop, success stores at least one byte and no more than the room left; every failure carries a message |
| TextCompiler.HeaderByte | Compiler/CompileText.cs:77 | the header is `0xF0` plus the count for counts below 16, and agrees with `0xF0` plus the count modulo 256 in general, as the `byte` addition wraps |
| TextCompiler.CompileText | Compiler/CompileText.cs:56-81 | success exactly when there is output; the output is 2 to 16 bytes, its first byte is `0xF0` plus the number of bytes after it, and `0x7F` follows for the append form; every error carries a message |
| TextCompiler.CompileTextAppend | Compiler/CompileText.cs:85-97 | a next token that is not text gives the error with empty output and a message quoting the lexeme; a text token is compiled with the append marker |
| TextCompilerLemmas.ConvertFromWhenFits | Compiler/CompileText.cs:25-50 | when the reference codes fit in the room left, the loop stores exactly them |
| TextCompilerLemmas.ConvertFromWhenOverflows | Compiler/CompileText.cs:27-32 | when the reference codes do not fit, the loop reports the capacity counted from the start position |
| TextCompilerLemmas.ConvertFromWhenNotEncoded | Compiler/CompileText.cs:25-50 | when the reference encoder fails, the loop fails with the capacity error exactly when the buffer fills before the failing read (the codes read before it reach the end of the buffer), and with the codec's error otherwise |
| TextCompilerLemmas.ConvertTextMatchesEncode | Compiler/CompileText.cs:12-54 | inside the buffer, success holds exactly when the literal's codes fit after the start position, and the stored bytes are those codes; too many codes give the capacity error; when encoding fails, the capacity error comes exactly when the codes before the failing character already fill the buffer, and the codec's error otherwise |
| TextCompilerLemmas.ConvertTextOutsideBuffer | Compiler/CompileText.cs:33-48 | a start position outside the buffer always fails; the failure is the index error exactly when the first character parses |
| TextCompilerLemmas.CompileTextMatchesEncode | Compiler/CompileText.cs:56-81 | success holds exactly when the literal encodes to at most 15 codes (14 when appending); the output is then the header layout of those codes; more codes give the capacity error naming 15 or 14; when encoding fails there is no output, and the codec's error is passed on unless 15 (14) codes precede the failing character, in which case the capacity error replaces it |
| TextCompilerLemmas.SingleReadsThenFailure | Compiler/CompileText.cs:25-50 | when every read before a position takes one character and the read there fails, the reference encoder fails with that error after exactly that many codes |
| TextCompilerLemmas.EncodeConcat | Compiler/CompileText.cs:25-50 | a text joined from pieces, each read back as its code, encodes to exactly those codes |
| TextCompilerLemmas.DecodedReadsBack | Helper/HP41CharacterEncoding.cs:251-421 | the decoded form of an unshadowed code is read back as that code wherever it stands, unless a macron follows |
| TextCompilerLemmas.EncodeDecoded | Helper/HP41CharacterEncoding.cs:251-421 | the decoded text of unshadowed codes encodes back to exactly those codes |
| TextCompilerLemmas.TextRoundTrip | Compiler/CompileText.cs:56-81 | compiling the decoded text of 1 to 15 (14) unshadowed codes gives exactly those codes behind the header |
| TextCompilerLemmas.Decompile | Helper/HP41CharacterEncoding.cs:251-261 | the decompiled text is at least one character per code |
| TextCompilerLemmas.DecompileIsDecodeAll | Helper/HP41CharacterEncoding.cs:251-261 | the text `FormatCharacter` shows for a sequence of codes is the reference decoding |
| TextCompilerLemmas.DecompiledTextRoundTrip | Compiler/CompileText.cs:56-81 | what `FormatCharacter` shows for 1 to 15 (14) unshadowed codes compiles back to exactly those codes |
| TextCompilerLemmas.PlainReadsBack | Helper/HP41CharacterEncoding.cs:390-421 | a printable ASCII character other than the backtick is read back as its own value |
| TextCompilerLemmas.EncodePlain | Compiler/CompileText.cs:25-50 | a non-empty plain text encodes to its characters' own values |
| TextCompilerLemmas.PlainText | Compiler/CompileText.cs:56-81 | a plain literal of 1 to 15 (14) characters compiles to the header and its characters' values; a longer one gives the capacity error naming 15 (14) |
| TextCompilerLemmas.FullTextInstruction | Compiler/CompileText.cs:61-78 | fifteen plain characters give 16 bytes with header 0xFF |
| TextCompilerLemmas.EmptyText | Compiler/CompileText.cs:25-48 | an empty literal is the codec's position error with no output, because the loop parses once before testing the length |
| TextCompilerLemmas.AppendFiveCharacters | Compiler/CompileText.cs:56-81 | a five-character append literal gives `0xF6, 0x7F` and its five codes |
| TextCompilerLemmas.LoneBacktick | Compiler/CompileText.cs:44-48 | a literal that is a lone backtick gives the codec's malformed-escape error with no output |
| TextCompilerLemmas.BacktickAfterPlainText | Compiler/CompileText.cs:25-50 | plain text then a lone backtick gives the capacity error when the plain characters fill the buffer (15, or 14 when appending), and the backtick's malformed-escape error otherwise |
| TextCompilerLemmas.EscapedByte | Compiler/CompileText.cs:56-81 | the escape `` `255 `` occupies one byte: the output is `0xF1, 255` |
| NumberCompiler.NumberByte | Compiler/CompileNumber.cs:21-36 | `-` is 0x1C, `E` and `e` are 0x1B, `.` is 0x1A, a digit d is 0x10 + d, and any other character is 0x10 plus its distance from `0`, modulo 256 |
| NumberCompiler.NumberBytes | Compiler/CompileNumber.cs:19-39 | one byte per lexeme character, each depending only on the character at the same position |
| NumberCompiler.CompileNumber | Compiler/CompileNumber.cs:14-42 | always Ok with an empty message; the output has the lexeme's length and is pointwise |
| NumberCompilerLemmas.DigitByte | Compiler/CompileNumber.cs:33-36 | a digit `d` becomes `0x10 + d` |
| NumberCompilerLemmas.NumberByteRange | Compiler/CompileNumber.cs:21-36 | characters of a numeric lexeme become bytes in 0x10..0x1C, below 0x1A exactly for the digits |
| NumberCompilerLemmas.NumberByteRoundTrip | Compiler/CompileNumber.cs:21-36 | every numeric character's byte reads back as the character, with `e` read as `E` |
| NumberCompilerLemmas.NumberCharOfRoundTrip | Compiler/CompileNumber.cs:21-36 | every byte that reads back is produced by the character it reads as |
| NumberCompilerLemmas.NumberByteInjective | Compiler/CompileNumber.cs:21-36 | two numeric characters share a byte exactly when they are equal or both spell the exponent |
| NumberCompilerLemmas.CompileNumberReadsBack | Compiler/CompileNumber.cs:14-42 | the code of a numeric lexeme lies in 0x10..0x1C and reads back byte by byte as the lexeme |
| NumberCompilerLemmas.NumberBytesAppend | Compiler/CompileNumber.cs:19-39 | the bytes of two joined lexemes are the joined bytes |
| NumberCompilerLemmas.OtherCharacterByte | Compiler/CompileNumber.cs:35 | any other character still yields a byte: its value less 0x20, modulo 256 |
| NumberCompilerLemmas.NumberExample | Compiler/CompileNumber.cs:14-42 | `-12.3E4` gives exactly `1C 11 12 1A 13 1B 14` |

## Left out

- The lexer is not part of this model. `CompileTextAppend` takes the token that the lexer's `GetToken` delivers as a parameter.
- `Dictionary`, `LinkedList`, `Array.Sort`, `Array.BinarySearch` and `Array.Resize` are not modelled. Constant sequences and pure lookups stand for them. Sorting the hidden list does not matter because the list is empty.
- Exception types and interpolated message texts are not modelled. The model keeps the error kind and the position, character, item name or limit that the text quotes.
- The caller's byte buffer is not modelled. `ConvertText` returns the bytes it would store; their count is the source's `numberOfGeneratedBytes`. On a failure that count is 0 and the model returns no bytes.
- `null` strings are not modelled. A token's `null` `StringValue` is the empty string, so the source's null-reference failures are not modelled. A `null` `outCode` is `None`.
- Hp41Encoding.ParseCharacterAtPosition: the cursor is a `nat`. The source's negative `startPosition` would raise the runtime's index error, but no caller passes one: `ConvertText` starts at index 0 and only adds used counts.
- Surrogate pairs of UTF-16 are not modelled. Every table form lies in the Basic Multilingual Plane, so a `char` is one UTF-16 unit.
- Hp41Encoding.FormatCharacter: its own contract says only that the text is non-empty. Its content is stated by `Hp41EncodingLemmas.FormOfCode` against the reference decoder.
- A round trip for the eight shadowed codes is not claimed, because the source does not have one: their Latin-1 characters are also table forms, so they re-encode to the tabled code. `Hp41RoundTrip.FormatParseRoundTrip` and `Hp41RoundTrip.DecodedRoundTrip` state this exactly.
- Substitutes with `HasSubstitute` set are never built by the source. The model states only what an active substitute would do at registration (`ActiveSubstituteHidesUntabledByte`). It proves nothing about encoding with active substitutes.
- The PDF reader and the barcode generator are not part of this model. They are WPF and floating-point code outside the compile path.

## Findings

| source | as written | input that shows it | evidently intended | confidence | as-written member | corrected member |
|---|---|---|---|---|---|---|
| Helper/HP41CharacterEncoding.cs:84-94 | both two-element `HP41ManyCharacters` constructors store the first character twice and drop the second | a table with two entries whose forms start with `x`, such as codes 2 (`x` + macron) and 200 (`x` + overline) | the bucket holds both entries in declaration order | not executed; unreachable with the shipped table, whose leading characters are distinct | Hp41EncodingLemmas.MergeAsWrittenLosesEntry | Hp41Encoding.Bucket |
