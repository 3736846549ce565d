/**
 * What evaluateExpression writes and what the update loop of
 * setCellFromScanner does to the cell store, as functions, with the facts
 * that make the incremental evaluation correct: each cell is written once,
 * from dependencies that are already final, so every cached value that does
 * not read its own cell agrees with its formula afterwards.
 */
module Recalc {
  import opened Ascii
  import opened Sheet
  import opened Exp
  import opened Graphs
  import opened Util

  /** A call of `view->displayCell` or `view->displayEmptySpreadsheet`. */
  datatype Notice = Display(name: string, text: string) | EmptySheet

  /** The text a cell shows: a string formula shows its text, any other formula its number. */
  function DisplayText(cfg: Config, e: Expr, value: real): string {
    if e.Text? then e.str else cfg.numberText(value)
  }

  /** A record as evaluateExpression builds it: value and display text agree with the formula. */
  ghost predicate RecordOk(cfg: Config, d: CellData) {
    && d.displayValue == DisplayText(cfg, d.exp, d.value)
    && (d.exp.Text? ==> d.value == 0.0)
  }

  ghost predicate RecordsOk(cfg: Config, store: Store) {
    forall x :: x in store ==> RecordOk(cfg, store[x])
  }

  /** evaluateExpression's record for a formula, evaluated against the store. */
  function CellRecord(cfg: Config, store: Store, e: Expr): (d: CellData)
    ensures d.exp == e && RecordOk(cfg, d)
  {
    var v := Eval(cfg, store, e);
    CellData(e, DisplayText(cfg, e, v), v)
  }

  /** One pass of the update loop: the named cell is re-evaluated from its stored formula. */
  function Step(cfg: Config, store: Store, n: string): Store {
    if n in store then store[n := CellRecord(cfg, store, store[n].exp)] else store
  }

  /** The update loop over a whole evaluation order, first name first. */
  function Recompute(cfg: Config, store: Store, order: seq<string>): (r: Store)
    ensures r.Keys == store.Keys
    ensures forall x :: x in store ==> r[x].exp == store[x].exp
    decreases |order|
  {
    if order == [] then store
    else Step(cfg, Recompute(cfg, store, order[..|order| - 1]), order[|order| - 1])
  }

  /** The formula of every cell: what the store holds apart from cached values and display text. */
  function Formulas(store: Store): (f: map<string, Expr>)
    ensures f.Keys == store.Keys
    ensures forall x :: x in store ==> f[x] == store[x].exp
  {
    map x | x in store :: store[x].exp
  }

  /** The update loop changes no cell's formula and adds or removes no cell. */
  lemma RecomputeKeepsFormulas(cfg: Config, store: Store, order: seq<string>)
    ensures Formulas(Recompute(cfg, store, order)) == Formulas(store)
  {
  }

  /** The display notices the update loop issues, one per re-evaluated cell. */
  function RecomputeNotices(cfg: Config, store: Store, order: seq<string>): seq<Notice>
    decreases |order|
  {
    if order == [] then []
    else
      var prev := Recompute(cfg, store, order[..|order| - 1]);
      var n := order[|order| - 1];
      RecomputeNotices(cfg, store, order[..|order| - 1])
        + if n in prev then [Display(n, CellRecord(cfg, prev, prev[n].exp).displayValue)] else []
  }

  /** Every cached value that does not read its own cell agrees with its formula. */
  ghost predicate Consistent(cfg: Config, store: Store, E: set<(string, string)>) {
    forall x :: x in store && (x, x) !in E ==> store[x].value == Eval(cfg, store, store[x].exp)
  }

  /** Each cell a stored formula reads is an upper-case name with an arc into the formula's cell. */
  ghost predicate DepsAreArcs(cfg: Config, store: Store, E: set<(string, string)>) {
    forall x, d :: x in store && d in GetDependent(cfg, store[x].exp) ==> (d, x) in E && Upper(d) == d
  }

  // ----- properties ------------------------------------------------------------

  /**
   * getCellData on well-built records: 0.0 for an empty cell or a string
   * cell, the cached number otherwise.
   */
  lemma GetCellDataCases(cfg: Config, store: Store, name: string)
    requires RecordsOk(cfg, store)
    ensures GetCellData(store, name) ==
      if Upper(name) in store && !store[Upper(name)].exp.Text? then store[Upper(name)].value else 0.0
  {
    var key := Upper(name);
    if key in store {
      assert RecordOk(cfg, store[key]);
    }
  }

  /**
   * A reference reads exactly its one cell and evaluates to that cell's
   * getCellData: the cached number, or 0.0 for an empty or string cell.
   */
  lemma ReferenceEval(cfg: Config, store: Store, n: string)
    requires RecordsOk(cfg, store)
    ensures GetDependent(cfg, Ref(n)) == [n]
    ensures Eval(cfg, store, Ref(n)) ==
      if Upper(n) in store && !store[Upper(n)].exp.Text? then store[Upper(n)].value else 0.0
  {
    GetCellDataCases(cfg, store, n);
  }

  /** One more pass of the update loop: the next cell is re-evaluated and shown. */
  lemma RecomputeNext(cfg: Config, store: Store, done: seq<string>, n: string)
    requires n in store
    ensures var prev := Recompute(cfg, store, done);
      var d := CellRecord(cfg, prev, prev[n].exp);
      && Recompute(cfg, store, done + [n]) == prev[n := d]
      && RecomputeNotices(cfg, store, done + [n]) == RecomputeNotices(cfg, store, done) + [Display(n, d.displayValue)]
  {
    assert (done + [n])[..|done|] == done;
  }

  /** Storing evaluateExpression's record keeps every record well built. */
  lemma StoreRecordKeepsRecordsOk(cfg: Config, store: Store, c: string, e: Expr)
    requires RecordsOk(cfg, store)
    ensures RecordsOk(cfg, store[c := CellRecord(cfg, store, e)])
  {
    var d := CellRecord(cfg, store, e);
    assert RecordOk(cfg, d);
  }

  /** Re-evaluation builds only well-built records. */
  lemma {:induction false} RecomputeKeepsRecordsOk(cfg: Config, store: Store, order: seq<string>)
    requires RecordsOk(cfg, store)
    ensures RecordsOk(cfg, Recompute(cfg, store, order))
    decreases |order|
  {
    if order != [] {
      RecomputeKeepsRecordsOk(cfg, store, order[..|order| - 1]);
    }
  }

  /** Running the loop over two orders in turn is running it over their concatenation. */
  lemma {:induction false} RecomputeAppend(cfg: Config, store: Store, a: seq<string>, b: seq<string>)
    ensures Recompute(cfg, store, a + b) == Recompute(cfg, Recompute(cfg, store, a), b)
    decreases |b|
  {
    if b == [] {
      assert a + b == a;
    } else {
      var b' := b[..|b| - 1];
      assert (a + b)[..|a + b| - 1] == a + b';
      RecomputeAppend(cfg, store, a, b');
    }
  }

  /** A cell the order does not name keeps its record. */
  lemma {:induction false} RecomputeUntouched(cfg: Config, store: Store, order: seq<string>, n: string)
    requires n !in order && n in store
    ensures Recompute(cfg, store, order)[n] == store[n]
    decreases |order|
  {
    if order != [] {
      RecomputeUntouched(cfg, store, order[..|order| - 1], n);
    }
  }

  /**
   * When no cell is named twice, each notice shows the text its cell ends
   * up with, in evaluation order.
   */
  lemma {:induction false} NoticesShowFinalText(cfg: Config, store: Store, order: seq<string>)
    requires NoDup(order) && forall n :: n in order ==> n in store
    ensures var r := Recompute(cfg, store, order);
      RecomputeNotices(cfg, store, order) == seq(|order|, i requires 0 <= i < |order| => Display(order[i], r[order[i]].displayValue))
    decreases |order|
  {
    if order != [] {
      var o := order[..|order| - 1];
      var n := order[|order| - 1];
      var prev := Recompute(cfg, store, o);
      var r := Recompute(cfg, store, order);
      NoticesShowFinalText(cfg, store, o);
      forall i | 0 <= i < |o|
        ensures prev[o[i]] == r[o[i]]
      {
        assert o[i] != n;
      }
    }
  }

  /** The record the loop leaves for the k-th cell is the one computed when its turn came. */
  lemma LastWrite(cfg: Config, store: Store, order: seq<string>, k: nat)
    requires NoDup(order) && k < |order| && order[k] in store
    ensures var before := Recompute(cfg, store, order[..k]);
      && order[k] in before
      && Recompute(cfg, store, order)[order[k]] == CellRecord(cfg, before, store[order[k]].exp)
  {
    var n := order[k];
    var before := Recompute(cfg, store, order[..k]);
    var upto := order[..k + 1];
    assert upto[..|upto| - 1] == order[..k] && upto[|upto| - 1] == n;
    var mid := Recompute(cfg, store, upto);
    assert n in before && mid == Step(cfg, before, n);
    assert mid[n] == CellRecord(cfg, before, store[n].exp);
    var after := order[k + 1..];
    assert n !in after by {
      forall j | 0 <= j < |after|
        ensures after[j] != n
      {
        assert after[j] == order[k + 1 + j];
      }
    }
    RecomputeAppend(cfg, store, upto, after);
    TakeDrop(order, k + 1);
    RecomputeUntouched(cfg, mid, after, n);
  }

  /** A cell the loop does not write from the k-th turn on reads the same at the end as before that turn. */
  lemma UnchangedFrom(cfg: Config, store: Store, order: seq<string>, k: nat, d: string)
    requires k <= |order| && d !in order[k..] && Upper(d) == d
    ensures GetCellData(Recompute(cfg, store, order), d) == GetCellData(Recompute(cfg, store, order[..k]), d)
  {
    var before := Recompute(cfg, store, order[..k]);
    RecomputeAppend(cfg, store, order[..k], order[k..]);
    TakeDrop(order, k);
    if d in before {
      RecomputeUntouched(cfg, before, order[k..], d);
    }
  }

  /**
   * In a topological order, a cell that does not read itself is consistent
   * at the end: the cells it reads were all written before it, and none is
   * written after it.
   */
  lemma OrderedCellConsistent(cfg: Config, store: Store, E: set<(string, string)>, order: seq<string>, k: nat)
    requires NoDup(order) && TopoOrdered(E, order) && DepsAreArcs(cfg, store, E)
    requires k < |order| && order[k] in store && (order[k], order[k]) !in E
    ensures var r := Recompute(cfg, store, order);
      r[order[k]].value == Eval(cfg, r, r[order[k]].exp)
  {
    var x := order[k];
    var r := Recompute(cfg, store, order);
    var before := Recompute(cfg, store, order[..k]);
    LastWrite(cfg, store, order, k);
    var e := store[x].exp;
    forall d | d in GetDependent(cfg, e)
      ensures GetCellData(r, d) == GetCellData(before, d)
    {
      assert (d, x) in E && Upper(d) == d;
      forall j | k <= j < |order|
        ensures order[j] != d
      {
        if j > k {
          assert (order[j], order[k]) in E ==> j < k;
        }
      }
      UnchangedFrom(cfg, store, order, k, d);
    }
    EvalFrame(cfg, r, before, e);
  }

  /**
   * The edited cell's record stays consistent when it does not read itself:
   * nothing it reads comes after it in the order.
   */
  lemma TargetConsistent(cfg: Config, store0: Store, E: set<(string, string)>, c: string, e: Expr, order: seq<string>)
    requires var s1 := store0[c := CellRecord(cfg, store0, e)];
      DepsAreArcs(cfg, s1, E) && TopoOrdered(E, [c] + order) && c !in order && (c, c) !in E
    ensures var r := Recompute(cfg, store0[c := CellRecord(cfg, store0, e)], order);
      c in r && r[c].value == Eval(cfg, r, r[c].exp)
  {
    var s1 := store0[c := CellRecord(cfg, store0, e)];
    var r := Recompute(cfg, s1, order);
    RecomputeUntouched(cfg, s1, order, c);
    forall d | d in GetDependent(cfg, e)
      ensures GetCellData(r, d) == GetCellData(store0, d)
    {
      assert d in GetDependent(cfg, s1[c].exp);
      assert (d, c) in E && Upper(d) == d && d != c;
      forall j | 0 <= j < |order|
        ensures order[j] != d
      {
        assert ([c] + order)[j + 1] == order[j] && ([c] + order)[0] == c;
      }
      if d in s1 {
        RecomputeUntouched(cfg, s1, order, d);
      }
    }
    EvalFrame(cfg, r, store0, e);
  }

  /** A cell outside the edited cell's reach keeps its record and stays consistent. */
  lemma UntouchedConsistent(cfg: Config, store0: Store, E: set<(string, string)>, c: string, e: Expr, order: seq<string>, x: string)
    requires var s1 := store0[c := CellRecord(cfg, store0, e)];
      DepsAreArcs(cfg, s1, E)
    requires forall a :: a in E && (a.0 == c || a.0 in order) ==> a.1 == c || a.1 in order
    requires x in store0 && x != c && x !in order
    requires store0[x].value == Eval(cfg, store0, store0[x].exp)
    ensures var r := Recompute(cfg, store0[c := CellRecord(cfg, store0, e)], order);
      x in r && r[x].value == Eval(cfg, r, r[x].exp)
  {
    var s1 := store0[c := CellRecord(cfg, store0, e)];
    var r := Recompute(cfg, s1, order);
    RecomputeUntouched(cfg, s1, order, x);
    var ex := store0[x].exp;
    forall d | d in GetDependent(cfg, ex)
      ensures GetCellData(r, d) == GetCellData(store0, d)
    {
      assert d in GetDependent(cfg, s1[x].exp);
      assert (d, x) in E && Upper(d) == d;
      assert d != c && d !in order;
      if d in s1 {
        RecomputeUntouched(cfg, s1, order, d);
      }
    }
    EvalFrame(cfg, r, store0, ex);
  }

  /**
   * The incremental update restores consistency: if every cell other than
   * the edited one was consistent, then after writing the edited cell and
   * re-evaluating everything it reaches in a topological order, every cell
   * that does not read itself is consistent.
   */
  lemma UpdateRestoresConsistency(cfg: Config, store0: Store, E: set<(string, string)>, c: string, e: Expr, order: seq<string>)
    requires var s1 := store0[c := CellRecord(cfg, store0, e)];
      DepsAreArcs(cfg, s1, E)
    requires NoDup(order) && c !in order && TopoOrdered(E, [c] + order)
    requires forall a :: a in E && (a.0 == c || a.0 in order) ==> a.1 == c || a.1 in order
    requires forall x :: x in store0 && x != c && (x, x) !in E ==> store0[x].value == Eval(cfg, store0, store0[x].exp)
    ensures Consistent(cfg, Recompute(cfg, store0[c := CellRecord(cfg, store0, e)], order), E)
  {
    var s1 := store0[c := CellRecord(cfg, store0, e)];
    var r := Recompute(cfg, s1, order);
    assert TopoOrdered(E, order) by {
      forall i, j | 0 <= i < |order| && 0 <= j < |order| && (order[i], order[j]) in E && order[i] != order[j]
        ensures i < j
      {
        assert ([c] + order)[i + 1] == order[i] && ([c] + order)[j + 1] == order[j];
      }
    }
    forall x | x in r && (x, x) !in E
      ensures r[x].value == Eval(cfg, r, r[x].exp)
    {
      if x == c {
        TargetConsistent(cfg, store0, E, c, e, order);
      } else if x in order {
        var k :| 0 <= k < |order| && order[k] == x;
        OrderedCellConsistent(cfg, s1, E, order, k);
      } else {
        UntouchedConsistent(cfg, store0, E, c, e, order, x);
      }
    }
  }
}
