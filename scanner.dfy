/**
 * The parser as the source runs it: readE, readT and parseExp pull tokens
 * from a shared scanner one at a time and give one back with `saveToken`.
 * Each method is proved to yield what the corresponding function of module
 * Parser yields from the tokens that were left when it started, and to leave
 * the scanner just after what it read.
 */
module ScannerParser {
  import opened Wrappers
  import opened Ascii
  import opened Tokens
  import opened Sheet
  import opened Exp
  import Parser

  /** A token stream with a cursor: the part of `TokenScanner` the parser uses. */
  class TokenScanner {
    const tokens: seq<Token>
    var pos: nat

    ghost predicate Valid()
      reads this
    {
      pos <= |tokens|
    }

    /** The tokens not read yet. */
    function Rest(): seq<Token>
      reads this
      requires Valid()
    {
      tokens[pos..]
    }

    constructor (ts: seq<Token>)
      ensures Valid() && tokens == ts && Rest() == ts
    {
      tokens := ts;
      pos := 0;
    }

    /** hasMoreTokens */
    predicate HasMoreTokens()
      reads this
      requires Valid()
    {
      pos < |tokens|
    }

    /** nextToken: the next token, or end of input (which is not consumed). */
    method NextToken() returns (t: Option<Token>)
      requires Valid()
      modifies this
      ensures Valid()
      ensures t == Peek(old(Rest()))
      ensures Rest() == if old(Rest()) == [] then [] else old(Rest())[1..]
    {
      if pos < |tokens| {
        t := Some(tokens[pos]);
        pos := pos + 1;
      } else {
        t := None;
      }
    }

    /** saveToken: gives back the token just read, so that it is read again next. */
    method SaveToken(t: Option<Token>)
      requires Valid()
      requires t.Some? ==> 0 < pos && tokens[pos - 1] == t.value
      modifies this
      ensures Valid()
      ensures Rest() == if t.Some? then [t.value] + old(Rest()) else old(Rest())
    {
      if t.Some? {
        pos := pos - 1;
      }
    }
  }

  /** The method's result and the scanner afterwards agree with a spec result. */
  ghost predicate Agrees(r: Result<Expr, Parser.ParseError>, spec: Parser.Parsed, rest: seq<Token>) {
    match spec
    case Ok((e, left)) => r == Ok(e) && rest == left
    case Err(err) => r == Err(err)
  }

  /** readE with its `while (true)` loop. */
  method ReadE(cfg: Config, scanner: TokenScanner, prec: nat) returns (r: Result<Expr, Parser.ParseError>)
    requires scanner.Valid()
    modifies scanner
    ensures scanner.Valid()
    ensures Agrees(r, Parser.ReadE(cfg, old(scanner.Rest()), prec), scanner.Rest())
    decreases |scanner.tokens| - scanner.pos, 2
  {
    ghost var spec := Parser.ReadE(cfg, scanner.Rest(), prec);
    var exp :- ReadT(cfg, scanner);
    var token: Option<Token>;
    while true
      invariant scanner.Valid() && scanner.pos > old(scanner.pos)
      invariant spec == Parser.ReadRest(cfg, exp, scanner.Rest(), prec)
      decreases |scanner.tokens| - scanner.pos
    {
      ghost var here := scanner.Rest();
      token := scanner.NextToken();
      var tprec := Parser.Precedence(token);
      if tprec <= prec {
        scanner.SaveToken(token);
        assert scanner.Rest() == here;
        break;
      }
      var rhs :- ReadE(cfg, scanner, tprec);
      exp := Compound(OpOf(token.value), exp, rhs);
    }
    r := Ok(exp);
  }

  /** readT: a term, with the cell-name and range-call checks. */
  method ReadT(cfg: Config, scanner: TokenScanner) returns (r: Result<Expr, Parser.ParseError>)
    requires scanner.Valid()
    modifies scanner
    ensures scanner.Valid()
    ensures Agrees(r, Parser.ReadT(cfg, old(scanner.Rest())), scanner.Rest())
    decreases |scanner.tokens| - scanner.pos, 1
  {
    ghost var ts := scanner.Rest();
    var token := scanner.NextToken();
    if token.Some? && token.value.Word? {
      var word := token.value.text;
      if NameIsValid(cfg, word) {
        return Ok(Ref(Upper(word)));
      } else if RangeFnIsValid(cfg, word) {
        var rangeToken := scanner.NextToken();
        if rangeToken != Some(Sym("(")) {
          return Err(Parser.UnexpectedAfterRangeFn(rangeToken, word));
        }
        var startCell := scanner.NextToken();
        if !(startCell.Some? && startCell.value.Word? && NameIsValid(cfg, startCell.value.text)) {
          return Err(Parser.MissingStartCell);
        }
        rangeToken := scanner.NextToken();
        if rangeToken != Some(Sym(":")) {
          return Err(Parser.UnexpectedAfterRangeFn(rangeToken, word));
        }
        var endCell := scanner.NextToken();
        if !(endCell.Some? && endCell.value.Word? && NameIsValid(cfg, endCell.value.text)) {
          return Err(Parser.MissingEndCell);
        }
        rangeToken := scanner.NextToken();
        if rangeToken != Some(Sym(")")) {
          return Err(Parser.UnbalancedRangeParens);
        }
        var s, t := startCell.value.text, endCell.value.text;
        if !ValidRange(cfg, s, t) {
          return Err(Parser.InvalidRange(s, t));
        }
        assert ts[6..] == scanner.Rest();
        return Ok(Range(Lower(word), Upper(s), Upper(t)));
      } else {
        return Err(Parser.UnexpectedToken(token));
      }
    }
    if token.Some? && token.value.Number? {
      return Ok(Num(token.value.value));
    }
    if token.Some? && token.value.Str? {
      return Ok(Text(Parser.StripQuotes(token.value.raw)));
    }
    if token != Some(Sym("(")) {
      return Err(Parser.UnexpectedToken(token));
    }
    var exp :- ReadE(cfg, scanner, 0);
    var closing := scanner.NextToken();
    if closing != Some(Sym(")")) {
      return Err(Parser.UnbalancedParens);
    }
    return Ok(exp);
  }

  /** parseExp: one expression, then no tokens may remain. */
  method ParseExp(cfg: Config, scanner: TokenScanner) returns (r: Result<Expr, Parser.ParseError>)
    requires scanner.Valid()
    modifies scanner
    ensures scanner.Valid()
    ensures r == Parser.ParseExp(cfg, old(scanner.Rest()))
  {
    var exp :- ReadE(cfg, scanner, 0);
    if scanner.HasMoreTokens() {
      var token := scanner.NextToken();
      return Err(Parser.UnexpectedToken(token));
    }
    return Ok(exp);
  }
}
