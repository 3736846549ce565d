/**
 * The grid the spreadsheet model is configured with: its bounds, the
 * conversion between cell names and locations, the range-function table and
 * the number formatters, together with the pure validity queries of the model
 * (`nameIsValid`, `rangeFnIsValid`, `validRange`) and the column-major
 * expansion of a rectangular range of cells.
 */
module Sheet {
  import opened Wrappers
  import opened Ascii
  import opened Util

  /** A cell location: the column as a character code and a row number. */
  datatype Loc = Loc(col: int, row: int)

  /**
   * The library conversions between a cell name and its location
   * (`stringToLocation`, `locationToString`).  They are not part of this
   * model; `Bijective` says what the model relies on.
   */
  datatype Codec = Codec(toLoc: string -> Option<Loc>, toName: Loc -> string)

  /**
   * Every location has a name that converts back to it, a name that converts
   * to a location is that location's name up to case, and the conversion
   * ignores case.
   */
  ghost predicate Bijective(k: Codec) {
    && (forall l :: k.toLoc(k.toName(l)) == Some(l))
    && (forall s :: k.toLoc(s).Some? ==> k.toName(k.toLoc(s).value) == Upper(s))
    && (forall s :: k.toLoc(Upper(s)) == k.toLoc(s))
  }

  /**
   * What a model is constructed with: the number of rows and columns, the
   * name conversions, the range-function table keyed by lower-case name, the
   * number formatter used for cell display (`doubleToString`) and the value a
   * division by zero produces.
   */
  datatype Config = Config(
    rows: int,
    cols: int,
    codec: Codec,
    fnTable: map<string, seq<real> -> real>,
    numberText: real -> string,
    divideByZero: real -> real)

  ghost predicate ConfigOk(cfg: Config) {
    Bijective(cfg.codec)
  }

  /** The character code of column 'A'. */
  const ColumnA: int := 'A' as int

  predicate InBounds(cfg: Config, l: Loc) {
    ColumnA <= l.col < ColumnA + cfg.cols && 0 <= l.row < cfg.rows
  }

  /** nameIsValid: the name converts to a location that lies inside the grid. */
  predicate NameIsValid(cfg: Config, name: string) {
    match cfg.codec.toLoc(name)
    case None => false
    case Some(l) => InBounds(cfg, l)
  }

  /** The form in which cell names are stored: valid and upper case. */
  predicate Canonical(cfg: Config, name: string) {
    NameIsValid(cfg, name) && Upper(name) == name
  }

  function LocOf(cfg: Config, name: string): Loc
    requires NameIsValid(cfg, name)
  {
    cfg.codec.toLoc(name).value
  }

  /** rangeFnIsValid: the lower-cased name is a key of the function table. */
  predicate RangeFnIsValid(cfg: Config, name: string) {
    Lower(name) in cfg.fnTable
  }

  /** validRange: both ends are valid and the end is not left of or above the start. */
  predicate ValidRange(cfg: Config, startName: string, endName: string) {
    && NameIsValid(cfg, startName)
    && NameIsValid(cfg, endName)
    && LocOf(cfg, startName).col <= LocOf(cfg, endName).col
    && LocOf(cfg, startName).row <= LocOf(cfg, endName).row
  }

  /** A name is valid exactly when it is, up to case, the name of a location in the grid. */
  lemma NameIsValidIffNamesInBoundsLoc(cfg: Config, name: string)
    requires ConfigOk(cfg)
    ensures NameIsValid(cfg, name) <==> exists l :: InBounds(cfg, l) && cfg.codec.toName(l) == Upper(name)
  {
    var k := cfg.codec;
    if l :| InBounds(cfg, l) && k.toName(l) == Upper(name) {
      assert k.toLoc(name) == k.toLoc(Upper(name)) == k.toLoc(k.toName(l)) == Some(l);
    }
  }

  /** Upper-casing a valid name gives the canonical name of the same location. */
  lemma UpperOfValidIsCanonical(cfg: Config, name: string)
    requires ConfigOk(cfg) && NameIsValid(cfg, name)
    ensures Canonical(cfg, Upper(name))
    ensures LocOf(cfg, Upper(name)) == LocOf(cfg, name)
  {
    assert cfg.codec.toLoc(Upper(name)) == cfg.codec.toLoc(name);
    UpperIdempotent(name);
  }

  /** The name of a location inside the grid is canonical and names that location. */
  lemma NameOfLocIsCanonical(cfg: Config, l: Loc)
    requires ConfigOk(cfg) && InBounds(cfg, l)
    ensures Canonical(cfg, cfg.codec.toName(l))
    ensures LocOf(cfg, cfg.codec.toName(l)) == l
  {
    var k := cfg.codec;
    assert k.toLoc(k.toName(l)) == Some(l);
    assert k.toName(k.toLoc(k.toName(l)).value) == Upper(k.toName(l));
  }

  /** Two canonical names are equal exactly when they name the same location. */
  lemma CanonicalNamesAreLocs(cfg: Config, a: string, b: string)
    requires ConfigOk(cfg) && Canonical(cfg, a) && Canonical(cfg, b)
    ensures a == b <==> LocOf(cfg, a) == LocOf(cfg, b)
  {
    var k := cfg.codec;
    assert k.toName(LocOf(cfg, a)) == Upper(a) == a;
    assert k.toName(LocOf(cfg, b)) == Upper(b) == b;
  }

  // ----- column-major expansion of a rectangle -------------------------------

  /** Rows r0..r1 of one column, top to bottom. */
  function ColumnLocs(col: int, r0: int, r1: int): seq<Loc>
    decreases r1 - r0
  {
    if r1 < r0 then [] else ColumnLocs(col, r0, r1 - 1) + [Loc(col, r1)]
  }

  /** Columns c0..c1, each of rows r0..r1: columns outer, rows inner. */
  function BlockLocs(c0: int, c1: int, r0: int, r1: int): seq<Loc>
    decreases c1 - c0
  {
    if c1 < c0 then [] else BlockLocs(c0, c1 - 1, r0, r1) + ColumnLocs(c1, r0, r1)
  }

  /** Column-major order: by column, then by row. */
  predicate Before(a: Loc, b: Loc) {
    a.col < b.col || (a.col == b.col && a.row < b.row)
  }

  predicate ColumnMajor(s: seq<Loc>) {
    forall i, j :: 0 <= i < j < |s| ==> Before(s[i], s[j])
  }

  predicate InRect(l: Loc, c0: int, c1: int, r0: int, r1: int) {
    c0 <= l.col <= c1 && r0 <= l.row <= r1
  }

  lemma {:induction false} ColumnLocsShape(col: int, r0: int, r1: int)
    requires r0 <= r1 + 1
    ensures |ColumnLocs(col, r0, r1)| == r1 - r0 + 1
    ensures ColumnMajor(ColumnLocs(col, r0, r1))
    ensures forall l :: l in ColumnLocs(col, r0, r1) <==> InRect(l, col, col, r0, r1)
    decreases r1 - r0
  {
    if r0 <= r1 {
      var a := ColumnLocs(col, r0, r1 - 1);
      ColumnLocsShape(col, r0, r1 - 1);
      forall i, j | 0 <= i < j < |a| + 1
        ensures Before((a + [Loc(col, r1)])[i], (a + [Loc(col, r1)])[j])
      {
        if j == |a| {
          assert (a + [Loc(col, r1)])[i] == a[i] && a[i] in a;
        }
      }
    }
  }

  /**
   * The expansion of a rectangle lists (c1-c0+1)*(r1-r0+1) locations, exactly
   * those of the rectangle, in strictly column-major order (so each once).
   */
  lemma {:induction false} BlockLocsShape(c0: int, c1: int, r0: int, r1: int)
    requires c0 <= c1 + 1 && r0 <= r1 + 1
    ensures |BlockLocs(c0, c1, r0, r1)| == (c1 - c0 + 1) * (r1 - r0 + 1)
    ensures ColumnMajor(BlockLocs(c0, c1, r0, r1))
    ensures forall l :: l in BlockLocs(c0, c1, r0, r1) <==> InRect(l, c0, c1, r0, r1)
    decreases c1 - c0
  {
    if c0 <= c1 {
      var a, b := BlockLocs(c0, c1 - 1, r0, r1), ColumnLocs(c1, r0, r1);
      BlockLocsShape(c0, c1 - 1, r0, r1);
      ColumnLocsShape(c1, r0, r1);
      MulSucc(c1 - c0, r1 - r0 + 1);
      forall x, y | x in a && y in b
        ensures Before(x, y)
      {
      }
      ConcatColumnMajor(a, b);
    }
  }

  /** Two column-major lists, every element of the first before every element of the second. */
  lemma ConcatColumnMajor(a: seq<Loc>, b: seq<Loc>)
    requires ColumnMajor(a) && ColumnMajor(b)
    requires forall x, y :: x in a && y in b ==> Before(x, y)
    ensures ColumnMajor(a + b)
  {
    forall i, j | 0 <= i < j < |a + b|
      ensures Before((a + b)[i], (a + b)[j])
    {
      if j < |a| {
        assert (a + b)[i] == a[i] && (a + b)[j] == a[j];
      } else if i >= |a| {
        assert (a + b)[i] == b[i - |a|] && (a + b)[j] == b[j - |a|];
      } else {
        assert (a + b)[i] == a[i] && a[i] in a;
        assert (a + b)[j] == b[j - |a|] && b[j - |a|] in b;
      }
    }
  }

  /** The names of a list of locations, in order. */
  function Names(cfg: Config, locs: seq<Loc>): (r: seq<string>)
    ensures |r| == |locs|
    ensures forall i :: 0 <= i < |locs| ==> r[i] == cfg.codec.toName(locs[i])
  {
    seq(|locs|, i requires 0 <= i < |locs| => cfg.codec.toName(locs[i]))
  }

  lemma NamesAppend(cfg: Config, a: seq<Loc>, b: seq<Loc>)
    ensures Names(cfg, a + b) == Names(cfg, a) + Names(cfg, b)
  {
  }

  /** The names of a block are those of its leading columns followed by those of its last column. */
  lemma BlockNamesStep(cfg: Config, c0: int, c1: int, r0: int, r1: int)
    requires c0 <= c1
    ensures Names(cfg, BlockLocs(c0, c1, r0, r1))
         == Names(cfg, BlockLocs(c0, c1 - 1, r0, r1)) + Names(cfg, ColumnLocs(c1, r0, r1))
  {
    NamesAppend(cfg, BlockLocs(c0, c1 - 1, r0, r1), ColumnLocs(c1, r0, r1));
  }

  /**
   * collectCellRef as a value: the names of the cells of a valid range in
   * column-major order; nothing for an invalid range.
   */
  function CellRefs(cfg: Config, startName: string, endName: string): seq<string> {
    if ValidRange(cfg, startName, endName) then
      var a, b := LocOf(cfg, startName), LocOf(cfg, endName);
      Names(cfg, BlockLocs(a.col, b.col, a.row, b.row))
    else
      []
  }

  /**
   * A valid range expands to (endCol-startCol+1)*(endRow-startRow+1) names;
   * a name is listed exactly when it is the canonical name of a cell inside
   * the rectangle, and the listing is column-major without repeats.
   */
  lemma CellRefsShape(cfg: Config, startName: string, endName: string)
    requires ConfigOk(cfg) && ValidRange(cfg, startName, endName)
    ensures var a, b := LocOf(cfg, startName), LocOf(cfg, endName);
      && |CellRefs(cfg, startName, endName)| == (b.col - a.col + 1) * (b.row - a.row + 1)
      && (forall n :: n in CellRefs(cfg, startName, endName) <==>
            Canonical(cfg, n) && InRect(LocOf(cfg, n), a.col, b.col, a.row, b.row))
      && (forall i, j :: 0 <= i < j < |CellRefs(cfg, startName, endName)| ==>
            && NameIsValid(cfg, CellRefs(cfg, startName, endName)[i])
            && NameIsValid(cfg, CellRefs(cfg, startName, endName)[j])
            && Before(LocOf(cfg, CellRefs(cfg, startName, endName)[i]), LocOf(cfg, CellRefs(cfg, startName, endName)[j])))
  {
    var a, b := LocOf(cfg, startName), LocOf(cfg, endName);
    var locs := BlockLocs(a.col, b.col, a.row, b.row);
    var r := CellRefs(cfg, startName, endName);
    BlockLocsShape(a.col, b.col, a.row, b.row);
    assert r == Names(cfg, locs);
    assert forall l :: l in locs ==> InBounds(cfg, l);
    forall i | 0 <= i < |r|
      ensures Canonical(cfg, r[i]) && LocOf(cfg, r[i]) == locs[i]
    {
      NameOfLocIsCanonical(cfg, locs[i]);
    }
    forall n
      ensures n in r <==> Canonical(cfg, n) && InRect(LocOf(cfg, n), a.col, b.col, a.row, b.row)
    {
      if Canonical(cfg, n) && InRect(LocOf(cfg, n), a.col, b.col, a.row, b.row) {
        var l := LocOf(cfg, n);
        assert l in locs;
        var i :| 0 <= i < |locs| && locs[i] == l;
        CanonicalNamesAreLocs(cfg, n, r[i]);
      }
    }
  }

  /** Every name in the expansion of a range is canonical. */
  lemma CellRefsCanonical(cfg: Config, startName: string, endName: string)
    requires ConfigOk(cfg)
    ensures forall n :: n in CellRefs(cfg, startName, endName) ==> Canonical(cfg, n)
  {
    if ValidRange(cfg, startName, endName) {
      CellRefsShape(cfg, startName, endName);
    }
  }
}
