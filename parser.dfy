/**
 * The precedence-climbing formula parser (parser.cpp).  The functions below
 * state what each parsing routine yields from the tokens still to be read:
 * a tree and the tokens left over, or the error the routine raises.  The
 * `TokenScanner` class and its methods at the end carry out the same routines
 * the way the source does, advancing a shared cursor, and are proved to agree
 * with these functions.
 */
module Parser {
  import opened Wrappers
  import opened Ascii
  import opened Tokens
  import opened Sheet
  import opened Exp

  /** The errors the parser raises, one per `error(...)` call. */
  datatype ParseError =
    | UnexpectedToken(token: Option<Token>)                      // "Unexpected token ..."
    | UnexpectedAfterRangeFn(token: Option<Token>, fn: string)   // "... following range function ..."
    | MissingStartCell                                           // "Missing valid spreadsheet start cell ..."
    | MissingEndCell                                             // "Missing valid spreadsheet end cell ..."
    | UnbalancedRangeParens                                      // "Unbalanced parentheses following range function"
    | InvalidRange(startCell: string, endCell: string)           // "Invalid spreadsheet range input ..."
    | UnbalancedParens                                           // "Unbalanced parentheses"

  /** A tree and the tokens after it, or an error. */
  type Parsed = Result<(Expr, seq<Token>), ParseError>

  /** precedence: 1 for + and -, 2 for * and /, 0 for every other token and for end of input. */
  function Precedence(t: Option<Token>): (p: nat)
    ensures p <= 2
    ensures p > 0 <==> t.Some? && IsOperator(t.value)
    ensures (t == Some(Sym("+")) || t == Some(Sym("-"))) ==> p == 1
    ensures (t == Some(Sym("*")) || t == Some(Sym("/"))) ==> p == 2
  {
    if t == Some(Sym("+")) || t == Some(Sym("-")) then 1
    else if t == Some(Sym("*")) || t == Some(Sym("/")) then 2
    else 0
  }

  /** The text between the quotes of a STRING token. */
  function StripQuotes(raw: string): string {
    if |raw| >= 2 then raw[1..|raw| - 1] else ""
  }

  /**
   * readE: a term, then, while the next token is an operator that binds
   * tighter than `prec`, that operator and the expression to its right read
   * at the operator's own precedence.
   */
  function ReadE(cfg: Config, ts: seq<Token>, prec: nat): (r: Parsed)
    ensures r.Ok? ==> |r.value.1| < |ts|
    ensures r.Ok? ==> Precedence(Peek(r.value.1)) <= prec
    decreases |ts|, 2
  {
    match ReadT(cfg, ts)
    case Err(e) => Err(e)
    case Ok((lhs, rest)) => ReadRest(cfg, lhs, rest, prec)
  }

  /** The `while (true)` loop of readE, with the tree read so far. */
  function ReadRest(cfg: Config, lhs: Expr, ts: seq<Token>, prec: nat): (r: Parsed)
    ensures r.Ok? ==> |r.value.1| <= |ts|
    ensures r.Ok? ==> Precedence(Peek(r.value.1)) <= prec
    decreases |ts|, 0
  {
    var p := Precedence(Peek(ts));
    if p <= prec then Ok((lhs, ts))
    else
      match ReadE(cfg, ts[1..], p)
      case Err(e) => Err(e)
      case Ok((rhs, rest)) => ReadRest(cfg, Compound(OpOf(ts[0]), lhs, rhs), rest, prec)
  }

  /**
   * readT: a cell reference, a range call, a number, a string, or a
   * parenthesised expression.
   */
  function ReadT(cfg: Config, ts: seq<Token>): (r: Parsed)
    ensures r.Ok? ==> |r.value.1| < |ts|
    decreases |ts|, 1
  {
    if ts == [] then Err(UnexpectedToken(None))
    else
      match ts[0]
      case Word(w) =>
        if NameIsValid(cfg, w) then Ok((Ref(Upper(w)), ts[1..]))
        else if RangeFnIsValid(cfg, w) then ReadRange(cfg, w, ts[1..])
        else Err(UnexpectedToken(Some(ts[0])))
      case Number(v) => Ok((Num(v), ts[1..]))
      case Str(raw) => Ok((Text(StripQuotes(raw)), ts[1..]))
      case Sym(s) =>
        if s != "(" then Err(UnexpectedToken(Some(ts[0])))
        else
          match ReadE(cfg, ts[1..], 0)
          case Err(e) => Err(e)
          case Ok((e, rest)) =>
            if Peek(rest) != Some(Sym(")")) then Err(UnbalancedParens) else Ok((e, rest[1..]))
  }

  /** True when the front token is a WORD that names a valid cell. */
  predicate FrontIsCell(cfg: Config, ts: seq<Token>) {
    ts != [] && ts[0].Word? && NameIsValid(cfg, ts[0].text)
  }

  /** The part of readT after a range-function name: `( start : end )`. */
  function ReadRange(cfg: Config, fn: string, ts: seq<Token>): (r: Parsed)
    ensures r.Ok? ==> |r.value.1| + 5 == |ts|
  {
    if Peek(ts) != Some(Sym("(")) then Err(UnexpectedAfterRangeFn(Peek(ts), fn))
    else if !FrontIsCell(cfg, ts[1..]) then Err(MissingStartCell)
    else if Peek(ts[2..]) != Some(Sym(":")) then Err(UnexpectedAfterRangeFn(Peek(ts[2..]), fn))
    else if !FrontIsCell(cfg, ts[3..]) then Err(MissingEndCell)
    else if Peek(ts[4..]) != Some(Sym(")")) then Err(UnbalancedRangeParens)
    else
      var s, t := ts[1].text, ts[3].text;
      if !ValidRange(cfg, s, t) then Err(InvalidRange(s, t))
      else Ok((Range(Lower(fn), Upper(s), Upper(t)), ts[5..]))
  }

  /** parseExp: one expression that uses up every token. */
  function ParseExp(cfg: Config, ts: seq<Token>): Result<Expr, ParseError> {
    match ReadE(cfg, ts, 0)
    case Err(e) => Err(e)
    case Ok((e, rest)) => if rest != [] then Err(UnexpectedToken(Some(rest[0]))) else Ok(e)
  }
}

module ParserProperties {
  import opened Wrappers
  import opened Ascii
  import opened Tokens
  import opened Sheet
  import opened Exp
  import opened Parser
  import opened Util

  // ----- every parsed tree is well formed -------------------------------------

  lemma {:induction false} ReadEWellFormed(cfg: Config, ts: seq<Token>, prec: nat)
    requires ConfigOk(cfg)
    ensures ReadE(cfg, ts, prec).Ok? ==> WellFormed(cfg, ReadE(cfg, ts, prec).value.0)
    decreases |ts|, 2
  {
    var t := ReadT(cfg, ts);
    ReadTWellFormed(cfg, ts);
    if t.Ok? {
      ReadRestWellFormed(cfg, t.value.0, t.value.1, prec);
    }
  }

  lemma {:induction false} ReadRestWellFormed(cfg: Config, lhs: Expr, ts: seq<Token>, prec: nat)
    requires ConfigOk(cfg) && WellFormed(cfg, lhs)
    ensures ReadRest(cfg, lhs, ts, prec).Ok? ==> WellFormed(cfg, ReadRest(cfg, lhs, ts, prec).value.0)
    decreases |ts|, 0
  {
    var p := Precedence(Peek(ts));
    if p > prec {
      ReadEWellFormed(cfg, ts[1..], p);
      var r := ReadE(cfg, ts[1..], p);
      if r.Ok? {
        ReadRestWellFormed(cfg, Compound(OpOf(ts[0]), lhs, r.value.0), r.value.1, prec);
      }
    }
  }

  lemma {:induction false} ReadTWellFormed(cfg: Config, ts: seq<Token>)
    requires ConfigOk(cfg)
    ensures ReadT(cfg, ts).Ok? ==> WellFormed(cfg, ReadT(cfg, ts).value.0)
    decreases |ts|, 1
  {
    if ts != [] {
      match ts[0]
      case Word(w) =>
        if NameIsValid(cfg, w) {
          UpperOfValidIsCanonical(cfg, w);
        } else if RangeFnIsValid(cfg, w) {
          ReadRangeWellFormed(cfg, w, ts[1..]);
        }
      case Number(_) =>
      case Str(_) =>
      case Sym(s) =>
        if s == "(" {
          ReadEWellFormed(cfg, ts[1..], 0);
        }
    }
  }

  lemma ReadRangeWellFormed(cfg: Config, fn: string, ts: seq<Token>)
    requires ConfigOk(cfg) && !NameIsValid(cfg, fn) && RangeFnIsValid(cfg, fn)
    ensures ReadRange(cfg, fn, ts).Ok? ==> WellFormed(cfg, ReadRange(cfg, fn, ts).value.0)
  {
    if ReadRange(cfg, fn, ts).Ok? {
      var s, t := ts[1].text, ts[3].text;
      UpperOfValidIsCanonical(cfg, s);
      UpperOfValidIsCanonical(cfg, t);
      LowerIdempotent(fn);
      UpperOfLower(fn);
      assert cfg.codec.toLoc(Lower(fn)) == cfg.codec.toLoc(Upper(Lower(fn))) == cfg.codec.toLoc(fn);
    }
  }

  /**
   * Every tree parseExp accepts is well formed: its references and range ends
   * are valid upper-case cell names, its ranges are valid, and its range
   * functions are lower-case names from the table.
   */
  lemma ParseExpWellFormed(cfg: Config, ts: seq<Token>)
    requires ConfigOk(cfg)
    ensures ParseExp(cfg, ts).Ok? ==> WellFormed(cfg, ParseExp(cfg, ts).value)
  {
    ReadEWellFormed(cfg, ts, 0);
  }

  // ----- the token form of a tree parses back to the tree ---------------------

  lemma OpOfOpText(op: BinOp)
    ensures IsOperator(Sym(OpText(op))) && OpOf(Sym(OpText(op))) == op
  {
  }

  lemma {:induction false} ReadTTokenForm(cfg: Config, e: Expr, rest: seq<Token>)
    requires ConfigOk(cfg) && WellFormed(cfg, e)
    ensures ReadT(cfg, TokenForm(e) + rest) == Ok((e, rest))
  {
    var ts := TokenForm(e) + rest;
    match e
    case Num(_) =>
      assert ts[1..] == rest;
    case Text(s) =>
      assert ts[1..] == rest;
      var raw := "\"" + s + "\"";
      assert raw[1..|raw| - 1] == s;
    case Ref(n) =>
      assert ts[1..] == rest;
    case Compound(op, l, r) =>
      var r2 := [Sym(")")] + rest;
      var r1 := [Sym(OpText(op))] + TokenForm(r) + r2;
      ReadTTokenForm(cfg, l, r1);
      ReadTTokenForm(cfg, r, r2);
      ReadTCompound(cfg, op, l, r, rest);
    case Range(fn, s, t) =>
      ReadRangeTokenForm(cfg, fn, s, t, rest);
  }

  /** The step of the round trip for a parenthesised binary expression. */
  lemma ReadTCompound(cfg: Config, op: BinOp, l: Expr, r: Expr, rest: seq<Token>)
    requires ReadT(cfg, TokenForm(l) + ([Sym(OpText(op))] + TokenForm(r) + ([Sym(")")] + rest)))
          == Ok((l, [Sym(OpText(op))] + TokenForm(r) + ([Sym(")")] + rest)))
    requires ReadT(cfg, TokenForm(r) + ([Sym(")")] + rest)) == Ok((r, [Sym(")")] + rest))
    ensures ReadT(cfg, TokenForm(Compound(op, l, r)) + rest) == Ok((Compound(op, l, r), rest))
  {
    var e := Compound(op, l, r);
    var r2 := [Sym(")")] + rest;
    var r1 := [Sym(OpText(op))] + TokenForm(r) + r2;
    var ts := TokenForm(e) + rest;
    Regroup(Sym("("), TokenForm(l), Sym(OpText(op)), TokenForm(r), Sym(")"), rest);
    assert ts[0] == Sym("(") && ts[1..] == TokenForm(l) + r1;
    assert r1[0] == Sym(OpText(op)) && r1[1..] == TokenForm(r) + r2;
    OpOfOpText(op);
    var p := Precedence(Peek(r1));
    assert p > 0;
    assert ReadE(cfg, r1[1..], p) == Ok((r, r2));
    assert ReadRest(cfg, l, r1, 0) == ReadRest(cfg, e, r2, 0) == Ok((e, r2));
    assert ReadE(cfg, ts[1..], 0) == Ok((e, r2));
    assert Peek(r2) == Some(Sym(")")) && r2[1..] == rest;
  }

  /** The step of the round trip for a range function. */
  lemma ReadRangeTokenForm(cfg: Config, fn: string, s: string, t: string, rest: seq<Token>)
    requires ConfigOk(cfg) && WellFormed(cfg, Range(fn, s, t))
    ensures ReadT(cfg, TokenForm(Range(fn, s, t)) + rest) == Ok((Range(fn, s, t), rest))
  {
    var ts := TokenForm(Range(fn, s, t)) + rest;
    assert ts[1..][5..] == rest;
    LowerIdempotent(fn);
  }

  /** Reading the tokens of `e.toString()` gives back `e` (for the trees the parser builds). */
  lemma ParseTokenForm(cfg: Config, e: Expr)
    requires ConfigOk(cfg) && WellFormed(cfg, e)
    ensures ParseExp(cfg, TokenForm(e)) == Ok(e)
  {
    ReadTTokenForm(cfg, e, []);
    assert TokenForm(e) + [] == TokenForm(e);
    assert ReadE(cfg, TokenForm(e), 0) == ReadRest(cfg, e, [], 0) == Ok((e, []));
  }

  /**
   * A complete expression followed by a token that is not an operator is
   * rejected, naming that token.
   */
  lemma TrailingTokenRejected(cfg: Config, e: Expr, extra: seq<Token>)
    requires ConfigOk(cfg) && WellFormed(cfg, e)
    requires extra != [] && Precedence(Some(extra[0])) == 0
    ensures ParseExp(cfg, TokenForm(e) + extra) == Err(UnexpectedToken(Some(extra[0])))
  {
    ReadTTokenForm(cfg, e, extra);
    assert ReadE(cfg, TokenForm(e) + extra, 0) == ReadRest(cfg, e, extra, 0) == Ok((e, extra));
  }

  // ----- precedence and associativity -----------------------------------------

  /**
   * `x o1 y o2 z` groups to the left when o1 binds at least as tightly as o2
   * (so `a - b - c` is `((a - b) - c)` and `a * b + c` is `((a * b) + c)`),
   * and to the right otherwise (`a + b * c` is `(a + (b * c))`), whatever
   * terms x, y and z are.
   */
  lemma ThreeOperands(cfg: Config, x: Expr, o1: Token, y: Expr, o2: Token, z: Expr)
    requires ConfigOk(cfg) && WellFormed(cfg, x) && WellFormed(cfg, y) && WellFormed(cfg, z)
    requires IsOperator(o1) && IsOperator(o2)
    ensures ParseExp(cfg, TokenForm(x) + [o1] + TokenForm(y) + [o2] + TokenForm(z)) ==
      if Precedence(Some(o1)) >= Precedence(Some(o2))
      then Ok(Compound(OpOf(o2), Compound(OpOf(o1), x, y), z))
      else Ok(Compound(OpOf(o1), x, Compound(OpOf(o2), y, z)))
  {
    assert TokenForm(x) + [o1] + TokenForm(y) + [o2] + TokenForm(z) ==
      TokenForm(x) + ([o1] + (TokenForm(y) + ([o2] + TokenForm(z))));
    if Precedence(Some(o1)) >= Precedence(Some(o2)) {
      GroupLeft(cfg, x, o1, y, o2, z);
    } else {
      GroupRight(cfg, x, o1, y, o2, z);
    }
  }

  /** The three terms of `x o1 y o2 z` are each read whole, leaving what follows them. */
  lemma ReadThreeTerms(cfg: Config, x: Expr, o1: Token, y: Expr, o2: Token, z: Expr)
    requires ConfigOk(cfg) && WellFormed(cfg, x) && WellFormed(cfg, y) && WellFormed(cfg, z)
    ensures ReadT(cfg, TokenForm(x) + ([o1] + (TokenForm(y) + ([o2] + TokenForm(z))))) ==
      Ok((x, [o1] + (TokenForm(y) + ([o2] + TokenForm(z)))))
    ensures ReadT(cfg, TokenForm(y) + ([o2] + TokenForm(z))) == Ok((y, [o2] + TokenForm(z)))
    ensures ReadT(cfg, TokenForm(z)) == Ok((z, []))
  {
    ReadTTokenForm(cfg, x, [o1] + (TokenForm(y) + ([o2] + TokenForm(z))));
    ReadTTokenForm(cfg, y, [o2] + TokenForm(z));
    ReadTTokenForm(cfg, z, []);
    assert TokenForm(z) + [] == TokenForm(z);
  }

  /** The left-grouping half of `ThreeOperands`. */
  lemma GroupLeft(cfg: Config, x: Expr, o1: Token, y: Expr, o2: Token, z: Expr)
    requires ConfigOk(cfg) && WellFormed(cfg, x) && WellFormed(cfg, y) && WellFormed(cfg, z)
    requires IsOperator(o1) && IsOperator(o2) && Precedence(Some(o1)) >= Precedence(Some(o2))
    ensures ParseExp(cfg, TokenForm(x) + ([o1] + (TokenForm(y) + ([o2] + TokenForm(z))))) ==
      Ok(Compound(OpOf(o2), Compound(OpOf(o1), x, y), z))
  {
    ReadThreeTerms(cfg, x, o1, y, o2, z);
    var p1, p2 := Precedence(Some(o1)), Precedence(Some(o2));
    var t4 := TokenForm(z);
    var t3 := [o2] + t4;
    var t2 := TokenForm(y) + t3;
    var t1 := [o1] + t2;
    assert t1[0] == o1 && t1[1..] == t2 && t3[0] == o2 && t3[1..] == t4;
    assert ReadE(cfg, t4, p2) == ReadRest(cfg, z, [], p2) == Ok((z, []));
    assert ReadRest(cfg, y, t3, p1) == Ok((y, t3));
    assert ReadE(cfg, t2, p1) == Ok((y, t3));
    var c := Compound(OpOf(o1), x, y);
    assert ReadRest(cfg, Compound(OpOf(o2), c, z), [], 0) == Ok((Compound(OpOf(o2), c, z), []));
    assert ReadRest(cfg, c, t3, 0) == Ok((Compound(OpOf(o2), c, z), []));
    assert ReadE(cfg, TokenForm(x) + t1, 0) == Ok((Compound(OpOf(o2), c, z), []));
  }

  /** The right-grouping half of `ThreeOperands`. */
  lemma GroupRight(cfg: Config, x: Expr, o1: Token, y: Expr, o2: Token, z: Expr)
    requires ConfigOk(cfg) && WellFormed(cfg, x) && WellFormed(cfg, y) && WellFormed(cfg, z)
    requires IsOperator(o1) && IsOperator(o2) && Precedence(Some(o1)) < Precedence(Some(o2))
    ensures ParseExp(cfg, TokenForm(x) + ([o1] + (TokenForm(y) + ([o2] + TokenForm(z))))) ==
      Ok(Compound(OpOf(o1), x, Compound(OpOf(o2), y, z)))
  {
    ReadThreeTerms(cfg, x, o1, y, o2, z);
    var p1, p2 := Precedence(Some(o1)), Precedence(Some(o2));
    var t4 := TokenForm(z);
    var t3 := [o2] + t4;
    var t2 := TokenForm(y) + t3;
    var t1 := [o1] + t2;
    assert t1[0] == o1 && t1[1..] == t2 && t3[0] == o2 && t3[1..] == t4;
    assert ReadE(cfg, t4, p2) == ReadRest(cfg, z, [], p2) == Ok((z, []));
    var c := Compound(OpOf(o2), y, z);
    assert ReadRest(cfg, c, [], p1) == Ok((c, []));
    assert ReadRest(cfg, y, t3, p1) == Ok((c, []));
    assert ReadE(cfg, t2, p1) == Ok((c, []));
    var d := Compound(OpOf(o1), x, c);
    assert ReadRest(cfg, d, [], 0) == Ok((d, []));
    assert ReadE(cfg, TokenForm(x) + t1, 0) == Ok((d, []));
  }

  /**
   * A lone word: a valid cell name becomes a reference to the upper-cased
   * name, whatever the function table holds; a range-function name wants `(`
   * after it; anything else is an unexpected token.
   */
  lemma ParseWord(cfg: Config, w: string)
    ensures ParseExp(cfg, [Word(w)]) ==
      if NameIsValid(cfg, w) then Ok(Ref(Upper(w)))
      else if RangeFnIsValid(cfg, w) then Err(UnexpectedAfterRangeFn(None, w))
      else Err(UnexpectedToken(Some(Word(w))))
  {
    var ts := [Word(w)];
    assert ts[1..] == [];
    if NameIsValid(cfg, w) {
      assert ReadT(cfg, ts) == Ok((Ref(Upper(w)), []));
      assert ReadE(cfg, ts, 0) == ReadRest(cfg, Ref(Upper(w)), [], 0) == Ok((Ref(Upper(w)), []));
    } else if RangeFnIsValid(cfg, w) {
      assert ReadT(cfg, ts) == ReadRange(cfg, w, []) == Err(UnexpectedAfterRangeFn(None, w));
    } else {
      assert ReadT(cfg, ts) == Err(UnexpectedToken(Some(Word(w))));
    }
  }

  /** A NUMBER is a number literal; a STRING loses its first and last characters. */
  lemma ParseLiteral(cfg: Config, v: real, raw: string)
    ensures ParseExp(cfg, [Number(v)]) == Ok(Num(v))
    ensures ParseExp(cfg, [Str(raw)]) == Ok(Text(StripQuotes(raw)))
    ensures |raw| >= 2 ==> StripQuotes(raw) == raw[1..|raw| - 1]
  {
    var n, q := [Number(v)], [Str(raw)];
    assert n[1..] == [] && q[1..] == [];
    assert ReadT(cfg, n) == Ok((Num(v), []));
    assert ReadE(cfg, n, 0) == ReadRest(cfg, Num(v), [], 0) == Ok((Num(v), []));
    var x := Text(StripQuotes(raw));
    assert ReadT(cfg, q) == Ok((x, []));
    assert ReadE(cfg, q, 0) == ReadRest(cfg, x, [], 0) == Ok((x, []));
  }

  /**
   * `fn ( s : t )` with a range-function name and two valid cell names is the
   * range call with the function name lower-cased and the ends upper-cased,
   * unless the range is inverted.
   */
  lemma ParseRangeCall(cfg: Config, fn: string, s: string, t: string)
    requires !NameIsValid(cfg, fn) && RangeFnIsValid(cfg, fn)
    requires NameIsValid(cfg, s) && NameIsValid(cfg, t)
    ensures ParseExp(cfg, [Word(fn), Sym("("), Word(s), Sym(":"), Word(t), Sym(")")]) ==
      if ValidRange(cfg, s, t) then Ok(Range(Lower(fn), Upper(s), Upper(t)))
      else Err(InvalidRange(s, t))
  {
    var ts := [Word(fn), Sym("("), Word(s), Sym(":"), Word(t), Sym(")")];
    var r := ts[1..];
    assert Peek(r) == Some(Sym("(")) && FrontIsCell(cfg, r[1..]) && Peek(r[2..]) == Some(Sym(":"));
    assert FrontIsCell(cfg, r[3..]) && Peek(r[4..]) == Some(Sym(")")) && r[5..] == [];
    assert r[1].text == s && r[3].text == t;
    assert ReadT(cfg, ts) == ReadRange(cfg, fn, r);
    if ValidRange(cfg, s, t) {
      var e := Range(Lower(fn), Upper(s), Upper(t));
      assert ReadRange(cfg, fn, r) == Ok((e, []));
      assert ReadE(cfg, ts, 0) == ReadRest(cfg, e, [], 0) == Ok((e, []));
    } else {
      assert ReadRange(cfg, fn, r) == Err(InvalidRange(s, t));
    }
  }

  /**
   * A range-function name followed by anything but `( start : end )` with
   * valid cell names is rejected, with the error for the first token out of
   * place: something other than `(`, a missing or invalid start cell,
   * something other than `:`, a missing or invalid end cell, or something
   * other than `)`.
   */
  lemma RangeCallErrors(cfg: Config, fn: string, ts: seq<Token>)
    requires !NameIsValid(cfg, fn) && RangeFnIsValid(cfg, fn)
    ensures var p := ParseExp(cfg, [Word(fn)] + ts);
      && (Peek(ts) != Some(Sym("(")) ==> p == Err(UnexpectedAfterRangeFn(Peek(ts), fn)))
      && (Peek(ts) == Some(Sym("(")) ==>
        && (!FrontIsCell(cfg, ts[1..]) ==> p == Err(MissingStartCell))
        && (FrontIsCell(cfg, ts[1..]) ==>
          && (Peek(ts[2..]) != Some(Sym(":")) ==> p == Err(UnexpectedAfterRangeFn(Peek(ts[2..]), fn)))
          && (Peek(ts[2..]) == Some(Sym(":")) ==>
            && (!FrontIsCell(cfg, ts[3..]) ==> p == Err(MissingEndCell))
            && (FrontIsCell(cfg, ts[3..]) && Peek(ts[4..]) != Some(Sym(")")) ==> p == Err(UnbalancedRangeParens)))))
  {
    var all := [Word(fn)] + ts;
    assert all[0] == Word(fn) && all[1..] == ts;
    assert ReadT(cfg, all) == ReadRange(cfg, fn, ts);
    if ReadRange(cfg, fn, ts).Err? {
      assert ReadE(cfg, all, 0) == Err(ReadRange(cfg, fn, ts).error);
    }
  }

  /** An opening parenthesis whose expression runs to the end of input is unbalanced. */
  lemma UnclosedParen(cfg: Config, e: Expr)
    requires ConfigOk(cfg) && WellFormed(cfg, e)
    ensures ParseExp(cfg, [Sym("(")] + TokenForm(e)) == Err(UnbalancedParens)
  {
    var ts := [Sym("(")] + TokenForm(e);
    ReadTTokenForm(cfg, e, []);
    assert ts[1..] == TokenForm(e) + [];
    assert ReadE(cfg, ts[1..], 0) == ReadRest(cfg, e, [], 0) == Ok((e, []));
    assert ReadT(cfg, ts) == Err(UnbalancedParens);
  }
}
