/**
  One entry of the HP-41 character table (Helper/HP41Character.cs): a native
  code together with the Unicode text that stands for it on screen.
 */
module Hp41Char {

  /** An unsigned 8-bit value, C#'s `byte`. */
  type Byte = b: int | 0 <= b < 256

  /** C#'s unchecked `(byte)x`: keeps the low eight bits. */
  function ToByte(x: int): (b: Byte)
    ensures 0 <= x < 256 ==> b == x
    ensures (b - x) % 256 == 0
  {
    x % 256
  }

  /** C#'s `default(char)`. */
  const DefaultChar: char := 0 as char

  /**
    The fields of an `HP41Character`. `substituteHidesNative` is the flag
    that registration (`OnRegistred`) computes once the table is built.
   */
  datatype CharEntry = CharEntry(
    hasSubstitute: bool,
    substitute: char,
    substituteHidesNative: bool,
    unicode: string,
    code: Byte)

  /** `new HP41Character(value, character)`. */
  function FromChar(value: Byte, c: char): (e: CharEntry)
    ensures e.code == value && |e.unicode| == 1 && e.unicode[0] == c
    ensures !e.hasSubstitute && !e.substituteHidesNative
  {
    CharEntry(false, DefaultChar, false, [c], value)
  }

  /** `new HP41Character(value, compositeCharacter)`. */
  function FromComposite(value: Byte, composite: string): (e: CharEntry)
    ensures e.code == value && e.unicode == composite
    ensures !e.hasSubstitute && !e.substituteHidesNative
  {
    CharEntry(false, DefaultChar, false, composite, value)
  }

  /**
    `new HP41Character(value, compositeCharacter, substituteCharacter)`:
    the substitute is stored but `HasSubstitute` is left at its default.
   */
  function FromCompositeWithSubstitute(value: Byte, composite: string, sub: char): (e: CharEntry)
    ensures e.code == value && e.unicode == composite && e.substitute == sub
    ensures !e.hasSubstitute && !e.substituteHidesNative
  {
    CharEntry(false, sub, false, composite, value)
  }

  /**
    `new HP41Character(value, character, substituteCharacter)`: as above,
    `HasSubstitute` stays false.
   */
  function FromCharWithSubstitute(value: Byte, c: char, sub: char): (e: CharEntry)
    ensures e.code == value && |e.unicode| == 1 && e.unicode[0] == c && e.substitute == sub
    ensures !e.hasSubstitute && !e.substituteHidesNative
  {
    CharEntry(false, sub, false, [c], value)
  }

  /** The key under which the encoder files an entry: its leading character. */
  function SortCode(e: CharEntry): (c: char)
    requires |e.unicode| > 0
    ensures c in e.unicode && e.unicode == [c] + e.unicode[1..]
    ensures EqualsString(e, e.unicode[..1]) <==> |e.unicode| == 1 || (e.hasSubstitute && c == e.substitute)
  {
    e.unicode[0]
  }

  /** `Equals(char)`: the character is the active substitute or the whole Unicode form. */
  function EqualsChar(e: CharEntry, c: char): (r: bool)
    ensures !e.hasSubstitute ==> (r <==> e.unicode == [c])
    ensures |e.unicode| != 1 && !e.hasSubstitute ==> !r
    ensures r ==> (e.hasSubstitute && c == e.substitute) || (|e.unicode| == 1 && e.unicode[0] == c)
    ensures e.hasSubstitute && c == e.substitute ==> r
    ensures [c] == e.unicode ==> r
  {
    (e.hasSubstitute && c == e.substitute) || [c] == e.unicode
  }

  /** `Equals(string)`: the text is the Unicode form, or exactly the active substitute. */
  function EqualsString(e: CharEntry, s: string): (r: bool)
    ensures s == e.unicode ==> r
    ensures r && s != e.unicode ==> e.hasSubstitute && |s| == 1 && s[0] == e.substitute
    ensures e.hasSubstitute && |s| == 1 && s[0] == e.substitute ==> r
  {
    s == e.unicode || (e.hasSubstitute && |s| == 1 && s[0] == e.substitute)
  }

  /** `CompareTo(byte)`: `Byte.CompareTo`, whose sign orders the codes. */
  function CompareTo(e: CharEntry, b: Byte): (r: int)
    ensures r < 0 <==> e.code < b
    ensures r == 0 <==> e.code == b
    ensures r > 0 <==> e.code > b
  {
    e.code - b
  }

  /** `Equals(char)` is `Equals(string)` on a one-character string. */
  lemma EqualsCharIsEqualsString(e: CharEntry, c: char)
    ensures EqualsChar(e, c) <==> EqualsString(e, [c])
  {
  }
}
