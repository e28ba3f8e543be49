/**
  The lexer's token (Compiler/Token.cs): a kind, a 16-bit integer value and
  the lexeme text.
 */
module Tokens {
  import opened Results

  /** `Token.TokType`, in declaration order. */
  datatype TokType = Id | Int | Letter | Indirect | Komma | Append | Number | Text | Comment | Eol

  /** C#'s `short`. */
  type Int16 = x: int | -0x8000 <= x < 0x8000

  /**
    The underlying value C# gives each enumerator: its position in the
    declaration, counting from zero.
   */
  function Ordinal(k: TokType): (n: nat)
    ensures n < 10
  {
    match k
    case Id => 0
    case Int => 1
    case Letter => 2
    case Indirect => 3
    case Komma => 4
    case Append => 5
    case Number => 6
    case Text => 7
    case Comment => 8
    case Eol => 9
  }

  /** The enumerator with a given underlying value, if there is one. */
  function KindOf(n: int): (k: Option<TokType>)
  {
    if n == 0 then Some(Id)
    else if n == 1 then Some(Int)
    else if n == 2 then Some(Letter)
    else if n == 3 then Some(Indirect)
    else if n == 4 then Some(Komma)
    else if n == 5 then Some(Append)
    else if n == 6 then Some(Number)
    else if n == 7 then Some(Text)
    else if n == 8 then Some(Comment)
    else if n == 9 then Some(Eol)
    else None
  }

  /**
    A token. A `null` `StringValue` is not modelled: the empty string
    stands for it.
   */
  datatype Token = Token(tokenType: TokType, intValue: Int16, stringValue: string)

  /** `new Token()`: every field keeps its C# default. */
  function DefaultToken(): (t: Token)
    ensures Ordinal(t.tokenType) == 0
    ensures t.intValue == 0 && |t.stringValue| == 0
  {
    Token(Id, 0, "")
  }

  /** `new Token(Token2)`: a field-by-field copy. */
  function Copy(t: Token): (r: Token)
    ensures r.tokenType == t.tokenType
    ensures r.intValue == t.intValue
    ensures r.stringValue == t.stringValue
  {
    Token(t.tokenType, t.intValue, t.stringValue)
  }

  /** The copy is indistinguishable from the original, and copying twice changes nothing more. */
  lemma CopyIsIdentity(t: Token)
    ensures Copy(t) == t
    ensures Copy(Copy(t)) == Copy(t)
  {
  }

  /** Each kind has its own underlying value, and that value names it back. */
  lemma OrdinalRoundTrip(k: TokType)
    ensures KindOf(Ordinal(k)) == Some(k)
  {
  }

  /** The underlying values are exactly 0 through 9. */
  lemma KindOfRoundTrip(n: int)
    ensures KindOf(n).Some? <==> 0 <= n < 10
    ensures KindOf(n).Some? ==> Ordinal(KindOf(n).value) == n
  {
  }

  /** Two kinds with the same underlying value are the same kind. */
  lemma OrdinalInjective(j: TokType, k: TokType)
    ensures Ordinal(j) == Ordinal(k) <==> j == k
  {
    OrdinalRoundTrip(j);
    OrdinalRoundTrip(k);
  }
}
