/**
 * The expression tree of a cell formula (exp.cpp): number and text-string
 * constants, cell references, the four arithmetic operators and range
 * function calls, with evaluation against the cell store, rendering and the
 * collection of the cells a formula reads.
 */
module Exp {
  import opened Ascii
  import opened Tokens
  import opened Sheet
  import opened Util

  /** The operators the parser builds compounds with. */
  datatype BinOp = Add | Sub | Mul | Div

  function OpText(op: BinOp): string {
    match op
    case Add => "+"
    case Sub => "-"
    case Mul => "*"
    case Div => "/"
  }

  /** The operator a `+ - * /` token denotes. */
  function OpOf(t: Token): (op: BinOp)
    requires IsOperator(t)
    ensures OpText(op) == t.text
  {
    if t.text == "+" then Add
    else if t.text == "-" then Sub
    else if t.text == "*" then Mul
    else Div
  }

  datatype Expr =
    | Num(value: real)                                      // DoubleExp
    | Text(str: string)                                     // TextStringExp
    | Ref(name: string)                                     // IdentifierExp
    | Compound(op: BinOp, lhs: Expr, rhs: Expr)             // CompoundExp
    | Range(fn: string, startCell: string, endCell: string) // RangeExp

  datatype ExpressionType = DoubleType | TextStringType | IdentifierType | CompoundType | RangeType

  /** getType: the tag of the variant. */
  function GetType(e: Expr): (t: ExpressionType)
    ensures t == TextStringType <==> e.Text?
    ensures t == DoubleType <==> e.Num?
    ensures t == IdentifierType <==> e.Ref?
    ensures t == CompoundType <==> e.Compound?
    ensures t == RangeType <==> e.Range?
  {
    match e
    case Num(_) => DoubleType
    case Text(_) => TextStringType
    case Ref(_) => IdentifierType
    case Compound(_, _, _) => CompoundType
    case Range(_, _, _) => RangeType
  }

  /** celldata: a cell's formula, its display text and its numeric value. */
  datatype CellData = CellData(exp: Expr, displayValue: string, value: real)

  /** The spreadsheet map, keyed by upper-case cell name. */
  type Store = map<string, CellData>

  /** getCellData: the cached value of the named cell, 0.0 when it is empty; case-insensitive. */
  function GetCellData(store: Store, name: string): real {
    var key := Upper(name);
    if key in store then store[key].value else 0.0
  }

  /** collectCellValues as a value: the value of each named cell, in order. */
  function CellValues(store: Store, names: seq<string>): (r: seq<real>)
    ensures |r| == |names|
    ensures forall i :: 0 <= i < |names| ==> r[i] == GetCellData(store, names[i])
  {
    seq(|names|, i requires 0 <= i < |names| => GetCellData(store, names[i]))
  }

  /** Collecting one more name appends that cell's value. */
  lemma CellValuesStep(store: Store, names: seq<string>, i: nat)
    requires i < |names|
    ensures CellValues(store, names[..i + 1]) == CellValues(store, names[..i]) + [GetCellData(store, names[i])]
  {
  }

  /**
   * applyRangeFunction: the table's function for the lower-cased name applied
   * to the values of the cells of the range.  The parser admits only names in
   * the table; for any other name the result is 0.0.
   */
  function ApplyRangeFunction(cfg: Config, store: Store, fn: string, startCell: string, endCell: string): real {
    var key := Lower(fn);
    if key in cfg.fnTable then cfg.fnTable[key](CellValues(store, CellRefs(cfg, startCell, endCell))) else 0.0
  }

  /** One arithmetic step; a zero divisor gives the configured stand-in for infinity. */
  function Apply(cfg: Config, op: BinOp, left: real, right: real): real {
    match op
    case Add => left + right
    case Sub => left - right
    case Mul => left * right
    case Div => if right == 0.0 then cfg.divideByZero(left) else left / right
  }

  /** eval: the numeric value of a formula against the cell store. */
  function Eval(cfg: Config, store: Store, e: Expr): real {
    match e
    case Num(v) => v
    case Text(_) => 0.0
    case Ref(n) => GetCellData(store, n)
    case Compound(op, l, r) =>
      var right := Eval(cfg, store, r);
      var left := Eval(cfg, store, l);
      Apply(cfg, op, left, right)
    case Range(fn, s, t) => ApplyRangeFunction(cfg, store, fn, s, t)
  }

  /** getDependent: the cells a formula reads directly, left to right, repeats kept. */
  function GetDependent(cfg: Config, e: Expr): seq<string> {
    match e
    case Num(_) => []
    case Text(_) => []
    case Ref(n) => [n]
    case Compound(_, l, r) => GetDependent(cfg, l) + GetDependent(cfg, r)
    case Range(_, s, t) => CellRefs(cfg, s, t)
  }

  /** toString: the formula's text, compounds fully parenthesised. */
  function ToString(e: Expr, realText: real -> string): string {
    match e
    case Num(v) => realText(v)
    case Text(s) => "\"" + s + "\""
    case Ref(n) => n
    case Compound(op, l, r) => "(" + ToString(l, realText) + " " + OpText(op) + " " + ToString(r, realText) + ")"
    case Range(fn, s, t) => fn + "(" + s + ":" + t + ")"
  }

  /** The tokens `toString`'s text is made of, in order. */
  function TokenForm(e: Expr): seq<Token> {
    match e
    case Num(v) => [Number(v)]
    case Text(s) => [Str("\"" + s + "\"")]
    case Ref(n) => [Word(n)]
    case Compound(op, l, r) => [Sym("(")] + TokenForm(l) + [Sym(OpText(op))] + TokenForm(r) + [Sym(")")]
    case Range(fn, s, t) => [Word(fn), Sym("("), Word(s), Sym(":"), Word(t), Sym(")")]
  }

  /**
   * A formula as the parser builds it: every reference and range end is a
   * canonical cell name, every range is valid, and every range function is a
   * lower-case key of the table that is not itself a cell name.
   */
  predicate WellFormed(cfg: Config, e: Expr) {
    match e
    case Num(_) => true
    case Text(_) => true
    case Ref(n) => Canonical(cfg, n)
    case Compound(_, l, r) => WellFormed(cfg, l) && WellFormed(cfg, r)
    case Range(fn, s, t) =>
      && Lower(fn) == fn && fn in cfg.fnTable && !NameIsValid(cfg, fn)
      && Canonical(cfg, s) && Canonical(cfg, t) && ValidRange(cfg, s, t)
  }

  // ----- properties -----------------------------------------------------------

  /**
   * Frame: a formula's value depends only on the values of the cells that
   * getDependent reports.
   */
  lemma {:induction false} EvalFrame(cfg: Config, s1: Store, s2: Store, e: Expr)
    requires forall n :: n in GetDependent(cfg, e) ==> GetCellData(s1, n) == GetCellData(s2, n)
    ensures Eval(cfg, s1, e) == Eval(cfg, s2, e)
  {
    match e
    case Num(_) =>
    case Text(_) =>
    case Ref(n) =>
      assert n in GetDependent(cfg, e);
    case Compound(op, l, r) =>
      EvalFrame(cfg, s1, s2, l);
      EvalFrame(cfg, s1, s2, r);
    case Range(fn, s, t) =>
      var refs := CellRefs(cfg, s, t);
      assert CellValues(s1, refs) == CellValues(s2, refs) by {
        forall i | 0 <= i < |refs| ensures GetCellData(s1, refs[i]) == GetCellData(s2, refs[i]) {
          assert refs[i] in GetDependent(cfg, e);
        }
      }
  }

  /** A formula without references or ranges. */
  predicate IsConstant(e: Expr) {
    match e
    case Num(_) => true
    case Text(_) => true
    case Ref(_) => false
    case Compound(_, l, r) => IsConstant(l) && IsConstant(r)
    case Range(_, _, _) => false
  }

  /** The arithmetic value of a constant formula, computed without any cell store. */
  function ConstantValue(cfg: Config, e: Expr): real
    requires IsConstant(e)
  {
    match e
    case Num(v) => v
    case Text(_) => 0.0
    case Compound(op, l, r) => Apply(cfg, op, ConstantValue(cfg, l), ConstantValue(cfg, r))
  }

  /**
   * A constant formula reads no cell and evaluates to its arithmetic value
   * whatever the cells hold (numbers to themselves, strings to 0.0).
   */
  lemma {:induction false} ConstantEval(cfg: Config, store: Store, e: Expr)
    requires IsConstant(e)
    ensures GetDependent(cfg, e) == []
    ensures Eval(cfg, store, e) == ConstantValue(cfg, e)
  {
    match e
    case Num(_) =>
    case Text(_) =>
    case Compound(op, l, r) =>
      ConstantEval(cfg, store, l);
      ConstantEval(cfg, store, r);
  }

  /** The cells a well-formed formula reads are all canonical names. */
  lemma {:induction false} DependentsCanonical(cfg: Config, e: Expr)
    requires ConfigOk(cfg) && WellFormed(cfg, e)
    ensures forall n :: n in GetDependent(cfg, e) ==> Canonical(cfg, n)
  {
    match e
    case Num(_) =>
    case Text(_) =>
    case Ref(n) =>
    case Compound(_, l, r) =>
      DependentsCanonical(cfg, l);
      DependentsCanonical(cfg, r);
    case Range(_, s, t) =>
      CellRefsCanonical(cfg, s, t);
  }

  /** toString spells out the formula's token form, operators set off by spaces. */
  lemma {:induction false} ToStringSpellsTokenForm(e: Expr, realText: real -> string)
    ensures ToString(e, realText) == Spell(TokenForm(e), realText)
  {
    match e
    case Num(_) =>
    case Text(_) =>
    case Ref(_) =>
    case Compound(op, l, r) =>
      ToStringSpellsTokenForm(l, realText);
      ToStringSpellsTokenForm(r, realText);
      SpellCompound(op, TokenForm(l), TokenForm(r), realText);
    case Range(fn, s, t) =>
      SpellRange(fn, s, t, realText);
  }

  lemma SpellCompound(op: BinOp, a: seq<Token>, b: seq<Token>, realText: real -> string)
    ensures Spell([Sym("(")] + a + [Sym(OpText(op))] + b + [Sym(")")], realText)
         == "(" + Spell(a, realText) + " " + OpText(op) + " " + Spell(b, realText) + ")"
  {
    var o, m, c := [Sym("(")], [Sym(OpText(op))], [Sym(")")];
    assert o + a + m + b + c == o + (a + (m + (b + c)));
    SpellAppend(o, a + (m + (b + c)), realText);
    SpellAppend(a, m + (b + c), realText);
    SpellAppend(m, b + c, realText);
    SpellAppend(b, c, realText);
    SpellOne(Sym("("), realText);
    SpellOne(Sym(OpText(op)), realText);
    SpellOne(Sym(")"), realText);
    Regroup7("(", Spell(a, realText), " ", OpText(op), " ", Spell(b, realText), ")");
  }

  lemma SpellRange(fn: string, s: string, t: string, realText: real -> string)
    ensures Spell([Word(fn), Sym("("), Word(s), Sym(":"), Word(t), Sym(")")], realText)
         == fn + "(" + s + ":" + t + ")"
  {
    var t6 := [Sym(")")];
    var t5 := [Word(t)] + t6;
    var t4 := [Sym(":")] + t5;
    var t3 := [Word(s)] + t4;
    var t2 := [Sym("(")] + t3;
    var t1 := [Word(fn)] + t2;
    assert !IsOperator(Sym("(")) && !IsOperator(Sym(":")) && !IsOperator(Sym(")"));
    assert t6[1..] == [] && t5[1..] == t6 && t4[1..] == t5 && t3[1..] == t4 && t2[1..] == t3 && t1[1..] == t2;
    assert Spell(t6, realText) == ")";
    assert Spell(t5, realText) == t + ")";
    assert Spell(t4, realText) == ":" + t + ")";
    assert Spell(t3, realText) == s + ":" + t + ")";
    assert Spell(t2, realText) == "(" + s + ":" + t + ")";
    assert t1 == [Word(fn), Sym("("), Word(s), Sym(":"), Word(t), Sym(")")];
  }

  // ----- EvaluationContext ----------------------------------------------------

  /** The symbol table wrapper of exp.cpp: a map from names to values. */
  class EvaluationContext {
    var symbolTable: map<string, real>

    constructor ()
      ensures symbolTable == map[]
    {
      symbolTable := map[];
    }

    /** getValue: the stored value, or 0.0 (the map's default) when the name is undefined. */
    function GetValue(name: string): real
      reads this
    {
      if name in symbolTable then symbolTable[name] else 0.0
    }

    /** isDefined: whether the name has a value. */
    predicate IsDefined(name: string)
      reads this
    {
      name in symbolTable
    }

    /** setValue: afterwards the name is defined with that value and nothing else changed. */
    method SetValue(name: string, value: real)
      modifies this
      ensures symbolTable == old(symbolTable)[name := value]
      ensures IsDefined(name) && GetValue(name) == value
      ensures forall other :: other != name ==>
        IsDefined(other) == old(IsDefined(other)) && GetValue(other) == old(GetValue(other))
    {
      symbolTable := symbolTable[name := value];
    }
  }
}
