/**
 * The tokens the Stanford `TokenScanner` hands to the parser.  The scanner
 * itself is not part of this model; a token stream is a `seq<Token>`, and the
 * end of input (the empty token the scanner returns once it is exhausted) is
 * the absence of a token.
 */
module Tokens {
  import opened Wrappers

  datatype Token =
    | Word(text: string)      // WORD: letters and digits
    | Number(value: real)     // NUMBER, already converted by `stringToReal`
    | Str(raw: string)        // STRING, including its surrounding quotes
    | Sym(text: string)       // any other single token: operators and punctuation

  /** The token at the front of a stream; `None` is the scanner's end-of-input token. */
  function Peek(ts: seq<Token>): Option<Token> {
    if ts == [] then None else Some(ts[0])
  }

  /** The four binary operator tokens. */
  predicate IsOperator(t: Token) {
    t.Sym? && t.text in {"+", "-", "*", "/"}
  }

  /** The text of a token; numbers are written with the given formatter. */
  function TokenText(t: Token, realText: real -> string): string {
    match t
    case Word(w) => w
    case Number(v) => realText(v)
    case Str(raw) => raw
    case Sym(s) => s
  }

  /**
   * Writes a token stream back out as `Expression::toString` lays it out:
   * operators surrounded by one space, every other token written as is.
   */
  function Spell(ts: seq<Token>, realText: real -> string): string {
    if ts == [] then ""
    else
      (if IsOperator(ts[0]) then " " + TokenText(ts[0], realText) + " " else TokenText(ts[0], realText))
      + Spell(ts[1..], realText)
  }

  lemma SpellOne(t: Token, realText: real -> string)
    ensures Spell([t], realText) ==
      if IsOperator(t) then " " + TokenText(t, realText) + " " else TokenText(t, realText)
  {
    assert [t][1..] == [];
  }

  lemma {:induction false} SpellAppend(a: seq<Token>, b: seq<Token>, realText: real -> string)
    ensures Spell(a + b, realText) == Spell(a, realText) + Spell(b, realText)
  {
    if a != [] {
      assert (a + b)[1..] == a[1..] + b;
      SpellAppend(a[1..], b, realText);
    } else {
      assert a + b == b;
    }
  }
}
