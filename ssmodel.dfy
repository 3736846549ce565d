/**
 * SSModel: the spreadsheet's data model.  It keeps the cell store, the
 * dependency graph (arcs from a cell to the cells whose formulas read it)
 * and the reverse index of that graph, and after each edit re-evaluates the
 * edited cell and everything that depends on it in topological order.
 */
module SpreadsheetModel {
  import opened Wrappers
  import opened Ascii
  import opened Tokens
  import opened Sheet
  import opened Exp
  import opened Graphs
  import opened Recalc
  import Parser
  import ParserProperties
  import ScannerParser

  /** Why setCellFromScanner refused a formula. */
  datatype SetError = ParseFailed(error: Parser.ParseError) | CircularReference

  /** Why setLinesFromFile refused a line. */
  datatype LineError =
    | MissingCellAndValue
    | InvalidCellName(token: Token)
    | EqualsExpected
    | SetFailed(reason: SetError)

  /** incomingNeighbors[x], read without inserting an entry: empty for a cell without one. */
  function InOf(incoming: map<string, set<string>>, x: string): set<string> {
    if x in incoming then incoming[x] else {}
  }

  /** The reverse index mirrors the arcs, and arcs and index entries are between vertices. */
  ghost predicate IndexOk(V: set<string>, E: set<(string, string)>, incoming: map<string, set<string>>) {
    && Within(E, V)
    && incoming.Keys <= V
    && forall y :: InOf(incoming, y) == Into(E, y)
  }

  /**
   * The shape of the model between edits: the index is right, no cycle runs
   * through two cells, every vertex is a canonical cell name, every cell and
   * every arc target is a vertex with a record, and each record's formula
   * is well formed and its index entry lists exactly the cells it reads.
   */
  ghost predicate ShapeOk(cfg: Config, store: Store, V: set<string>, E: set<(string, string)>,
                          incoming: map<string, set<string>>) {
    && ConfigOk(cfg)
    && IndexOk(V, E, incoming) && NoLongCycles(E)
    && (forall v :: v in V ==> Canonical(cfg, v))
    && store.Keys <= V
    && (forall a :: a in E ==> a.1 in store)
    && (forall x :: x in store ==>
          && WellFormed(cfg, store[x].exp)
          && InOf(incoming, x) == SetOf(GetDependent(cfg, store[x].exp)))
  }

  /**
   * What holds between edits: the shape, well-built records, and every
   * cached value that does not read its own cell agrees with its formula.
   */
  ghost predicate SheetOk(cfg: Config, store: Store, V: set<string>, E: set<(string, string)>,
                          incoming: map<string, set<string>>) {
    && ShapeOk(cfg, store, V, E, incoming)
    && RecordsOk(cfg, store)
    && Consistent(cfg, store, E)
  }

  /**
   * addDataToGraph's effect on the graph and its index: c and the cells in D
   * become vertices, the arcs into c are exactly those from D, and only c's
   * index entry changes, to D.
   */
  ghost predicate Rewired(V0: set<string>, E0: set<(string, string)>, inc0: map<string, set<string>>,
                          c: string, D: set<string>, inc1: map<string, set<string>>) {
    && IndexOk(V0 + {c} + D, Replace(E0, c, D), inc1)
    && InOf(inc1, c) == D
    && forall y :: y != c ==> InOf(inc1, y) == InOf(inc0, y)
  }

  /**
   * The cells the update loop visits after an accepted edit all have records:
   * each is reached from c along an arc, and every arc ends at a cell with a
   * record or at c.
   */
  lemma OrderHasRecords(store0: Store, E0: set<(string, string)>, c: string, D: set<string>, order: seq<string>)
    requires forall a :: a in E0 ==> a.1 in store0
    requires WalkFrom(Replace(E0, c, D), c, order)
    ensures forall y :: y in order ==> y in store0
  {
    var E1 := Replace(E0, c, D);
    forall y | y in order
      ensures y in store0
    {
      ReachesEnds(E1, c, y);
      var z :| (z, y) in E1 && Reaches(E1, c, z);
    }
  }

  /**
   * The value half of the invariant after an accepted edit: the formula
   * stored for c reads only cells with arcs into c, every other formula
   * keeps its arcs, so re-evaluating c and then `order` leaves every cached
   * value that does not read its own cell equal to its formula.
   */
  lemma EditKeepsConsistent(cfg: Config, store0: Store, V0: set<string>, E0: set<(string, string)>,
                            inc0: map<string, set<string>>, c: string, e: Expr, order: seq<string>)
    requires SheetOk(cfg, store0, V0, E0, inc0)
    requires forall d :: d in GetDependent(cfg, e) ==> Canonical(cfg, d)
    requires WalkFrom(Replace(E0, c, SetOf(GetDependent(cfg, e))), c, order)
    ensures var E1 := Replace(E0, c, SetOf(GetDependent(cfg, e)));
      Consistent(cfg, Recompute(cfg, store0[c := CellRecord(cfg, store0, e)], order), E1)
  {
    var E1 := Replace(E0, c, SetOf(GetDependent(cfg, e)));
    var s1 := store0[c := CellRecord(cfg, store0, e)];
    assert DepsAreArcs(cfg, s1, E1) by {
      forall x, d | x in s1 && d in GetDependent(cfg, s1[x].exp)
        ensures (d, x) in E1 && Upper(d) == d
      {
        if x != c {
          assert d in InOf(inc0, x);
          assert (d, x) in E0;
        }
      }
    }
    forall x | x in store0 && x != c && (x, x) !in E1
      ensures store0[x].value == Eval(cfg, store0, store0[x].exp)
    {
      assert (x, x) !in E0;
    }
    UpdateRestoresConsistency(cfg, store0, E1, c, e, order);
  }

  /**
   * The shape half of the invariant after an accepted edit: the new arcs
   * keep the graph free of long cycles, and the new vertices are the
   * canonical names of c and the cells its formula reads.
   */
  lemma EditKeepsShape(cfg: Config, store0: Store, V0: set<string>, E0: set<(string, string)>,
                       inc0: map<string, set<string>>, c: string, e: Expr,
                       inc1: map<string, set<string>>, r: Store)
    requires ShapeOk(cfg, store0, V0, E0, inc0)
    requires Canonical(cfg, c) && WellFormed(cfg, e)
    requires !WouldCycle(E0, V0, c, GetDependent(cfg, e))
    requires Rewired(V0, E0, inc0, c, SetOf(GetDependent(cfg, e)), inc1)
    requires r.Keys == store0.Keys + {c} && r[c].exp == e
    requires forall x :: x in store0 && x != c ==> r[x].exp == store0[x].exp
    ensures var D := SetOf(GetDependent(cfg, e));
      ShapeOk(cfg, r, V0 + {c} + D, Replace(E0, c, D), inc1)
  {
    var deps := GetDependent(cfg, e);
    var D := SetOf(deps);
    var E1 := Replace(E0, c, D);
    var V1 := V0 + {c} + D;
    ReplaceKeepsNoLongCycles(E0, V0, c, deps);
    DependentsCanonical(cfg, e);
    assert forall v :: v in V1 ==> Canonical(cfg, v);
    assert forall a :: a in E1 ==> a.1 in r;
    forall x | x in r
      ensures WellFormed(cfg, r[x].exp) && InOf(inc1, x) == SetOf(GetDependent(cfg, r[x].exp))
    {
      if x == c {
        assert InOf(inc1, x) == D;
      } else {
        assert r[x].exp == store0[x].exp && InOf(inc1, x) == InOf(inc0, x);
      }
    }
  }

  /**
   * An accepted edit keeps the invariant: once the cycle check has passed,
   * the arcs into c are replaced by arcs from the cells the new formula
   * reads, the index follows, c is re-evaluated and then every other cell
   * reachable from c in a dependencies-first order, the sheet is SheetOk
   * again.  Every cell in that order has a record, so the update loop never
   * reads a missing one.
   */
  lemma EditKeepsSheetOk(cfg: Config, store0: Store, V0: set<string>, E0: set<(string, string)>,
                         inc0: map<string, set<string>>, c: string, e: Expr,
                         inc1: map<string, set<string>>, order: seq<string>)
    requires SheetOk(cfg, store0, V0, E0, inc0)
    requires Canonical(cfg, c) && WellFormed(cfg, e)
    requires !WouldCycle(E0, V0, c, GetDependent(cfg, e))
    requires Rewired(V0, E0, inc0, c, SetOf(GetDependent(cfg, e)), inc1)
    requires WalkFrom(Replace(E0, c, SetOf(GetDependent(cfg, e))), c, order)
    ensures var D := SetOf(GetDependent(cfg, e));
      var s1 := store0[c := CellRecord(cfg, store0, e)];
      SheetOk(cfg, Recompute(cfg, s1, order), V0 + {c} + D, Replace(E0, c, D), inc1)
  {
    var D := SetOf(GetDependent(cfg, e));
    var s1 := store0[c := CellRecord(cfg, store0, e)];
    var r := Recompute(cfg, s1, order);
    var E1 := Replace(E0, c, D);
    assert ShapeOk(cfg, r, V0 + {c} + D, E1, inc1) by {
      EditKeepsShape(cfg, store0, V0, E0, inc0, c, e, inc1, r);
    }
    assert RecordsOk(cfg, r) by {
      StoreRecordKeepsRecordsOk(cfg, store0, c, e);
      RecomputeKeepsRecordsOk(cfg, s1, order);
    }
    assert Consistent(cfg, r, E1) by {
      DependentsCanonical(cfg, e);
      EditKeepsConsistent(cfg, store0, V0, E0, inc0, c, e, order);
    }
  }

  class SSModel {
    /** Grid bounds, name conversions and the range-function table. */
    const cfg: Config
    var spreadsheet: Store
    /** The graph: its vertices and its arcs (dependency, dependent). */
    var vertices: set<string>
    var edges: set<(string, string)>
    /** incomingNeighbors */
    var incoming: map<string, set<string>>
    /** Every call the model makes on its view, oldest first. */
    ghost var log: seq<Notice>

    function In(x: string): set<string>
      reads this`incoming
    {
      InOf(incoming, x)
    }

    ghost predicate GraphOk()
      reads this
    {
      IndexOk(vertices, edges, incoming)
    }

    /** GraphOk, and no cycle runs through two different cells. */
    ghost predicate GraphValid()
      reads this
    {
      GraphOk() && NoLongCycles(edges)
    }

    ghost predicate Valid()
      reads this
    {
      SheetOk(cfg, spreadsheet, vertices, edges, incoming)
    }

    constructor (cfg: Config)
      requires ConfigOk(cfg)
      ensures Valid() && this.cfg == cfg
      ensures spreadsheet == map[] && vertices == {} && edges == {} && incoming == map[] && log == []
    {
      this.cfg := cfg;
      spreadsheet := map[];
      vertices := {};
      edges := {};
      incoming := map[];
      log := [];
      NoArcsNoLongCycles();
    }

    /**
     * dfsRecursive: walks the reverse index back from start and reports
     * whether it met end.  `visited` is the set of marked vertices; `gray`
     * holds the vertices whose walk is still in progress further up.
     */
    method DfsRecursive(start: string, end: string, visited: set<string>, ghost gray: set<string>)
      returns (found: bool, visited': set<string>)
      requires GraphOk() && start in vertices
      requires gray <= visited && start !in gray && end !in visited
      requires forall v :: v in visited - gray ==> In(v) <= visited
      ensures visited <= visited'
      ensures found ==> Reaches(edges, end, start)
      ensures !found ==> start in visited' && end !in visited' && forall v :: v in visited' - gray ==> In(v) <= visited'
      decreases vertices - visited - {start}
    {
      if start == end {
        ReachesRefl(edges, end);
        return true, visited;
      }
      visited' := visited + {start};
      var neighbors := In(start);
      while neighbors != {}
        invariant neighbors <= In(start)
        invariant visited + {start} <= visited' && end !in visited'
        invariant In(start) - neighbors <= visited'
        invariant forall v :: v in visited' - (gray + {start}) ==> In(v) <= visited'
        decreases neighbors
      {
        var n :| n in neighbors;
        neighbors := neighbors - {n};
        if n !in visited' {
          assert (n, start) in edges;
          var f;
          f, visited' := DfsRecursive(n, end, visited', gray + {start});
          if f {
            ReachesArc(edges, n, start);
            ReachesTrans(edges, end, n, start);
            return true, visited';
          }
        }
      }
      found := false;
    }

    /**
     * checkForCycle: true exactly when some dependency that is already a
     * vertex depends, directly or not, on the target, or when the dependency
     * list is the target alone.  The model is left as it was.
     */
    method CheckForCycle(c: string, deps: seq<string>) returns (r: bool)
      requires GraphOk()
      ensures r == WouldCycle(edges, vertices, c, deps)
    {
      var visited: set<string> := {};
      var i := 0;
      while i < |deps|
        invariant 0 <= i <= |deps|
        invariant c !in visited
        invariant forall v :: v in visited ==> In(v) <= visited
        invariant forall j :: 0 <= j < i && deps[j] in vertices ==> deps[j] in visited
      {
        var s := deps[i];
        if s in vertices {
          var found;
          found, visited := DfsRecursive(s, c, visited, {});
          if found {
            assert s in deps;
            return true;
          }
        }
        i := i + 1;
      }
      assert ClosedBackward(edges, visited);
      forall d | d in deps && d in vertices
        ensures !Reaches(edges, c, d)
      {
        NotReachesIntoClosed(edges, visited, c, d);
      }
      return |deps| == 1 && deps[0] == c;
    }

    /**
     * addDataToGraph: makes c a vertex, removes its incoming arcs and index
     * entry, then adds each dependency as a vertex with an arc into c.
     */
    method AddDataToGraph(c: string, deps: seq<string>)
      requires GraphOk()
      modifies this
      ensures GraphOk()
      ensures edges == Replace(old(edges), c, SetOf(deps))
      ensures vertices == old(vertices) + {c} + SetOf(deps)
      ensures In(c) == SetOf(deps) && forall y :: y != c ==> In(y) == old(In(y))
      ensures spreadsheet == old(spreadsheet) && log == old(log)
    {
      if c !in vertices {
        vertices := vertices + {c};
        assert Dropped(edges, c) == edges;
      } else {
        RemoveIncomingArcs(c);
      }
      ghost var incoming1 := incoming;
      assert incoming1 - {c} == old(incoming) - {c};
      AddIncomingArcs(c, deps);
      assert edges == Replace(old(edges), c, SetOf(deps));
      forall y
        ensures In(y) == Into(edges, y)
        ensures y != c ==> In(y) == old(In(y))
      {
        IntoReplace(old(edges), c, SetOf(deps), y);
        if y != c {
          assert y in incoming <==> y in incoming - {c};
          assert y in old(incoming) <==> y in old(incoming) - {c};
          if y in incoming {
            assert incoming[y] == (incoming - {c})[y] == (old(incoming) - {c})[y] == old(incoming)[y];
          }
        }
      }
    }

    /** The first half of addDataToGraph for a known cell: its incoming arcs and index entry go. */
    method RemoveIncomingArcs(c: string)
      requires GraphOk() && c in vertices
      modifies this
      ensures edges == Dropped(old(edges), c) && incoming == old(incoming)[c := {}]
      ensures vertices == old(vertices) && spreadsheet == old(spreadsheet) && log == old(log)
    {
      var neighbors := In(c);
      SplitAtTarget(edges, c);
      while neighbors != {}
        invariant edges == Dropped(old(edges), c) + ArcsInto(neighbors, c)
        invariant vertices == old(vertices) && incoming == old(incoming)
        invariant spreadsheet == old(spreadsheet) && log == old(log)
        decreases neighbors
      {
        var n :| n in neighbors;
        if (n, c) in edges {
          edges := edges - {(n, c)};
        }
        neighbors := neighbors - {n};
      }
      incoming := incoming[c := {}];
    }

    /** The second half of addDataToGraph: each dependency becomes a vertex with an arc into c. */
    method AddIncomingArcs(c: string, deps: seq<string>)
      requires In(c) == {}
      modifies this
      ensures edges == old(edges) + ArcsInto(SetOf(deps), c)
      ensures vertices == old(vertices) + SetOf(deps)
      ensures incoming - {c} == old(incoming) - {c} && In(c) == SetOf(deps)
      ensures incoming.Keys <= old(incoming.Keys) + {c}
      ensures spreadsheet == old(spreadsheet) && log == old(log)
    {
      var i := 0;
      ghost var added: set<string> := {};
      while i < |deps|
        invariant 0 <= i <= |deps| && added == SetOf(deps[..i])
        invariant edges == old(edges) + ArcsInto(added, c)
        invariant vertices == old(vertices) + added
        invariant incoming - {c} == old(incoming) - {c} && In(c) == added
        invariant incoming.Keys <= old(incoming.Keys) + {c}
        invariant spreadsheet == old(spreadsheet) && log == old(log)
      {
        var d := deps[i];
        if d !in vertices {
          vertices := vertices + {d};
        }
        edges := edges + {(d, c)};
        assert incoming[c := In(c) + {d}] - {c} == incoming - {c};
        incoming := incoming[c := In(c) + {d}];
        SetOfPrefix(deps, i);
        assert ArcsInto(added + {d}, c) == ArcsInto(added, c) + {(d, c)};
        added := added + {d};
        i := i + 1;
      }
      assert deps[..|deps|] == deps;
    }

    /**
     * setCellFromScanner: parses the rest of the line as a formula for the
     * cell, refuses it when it would close a cycle, otherwise rewires the
     * cell's incoming arcs, evaluates it and then re-evaluates every cell
     * that depends on it, directly or not, dependencies first.  A refused
     * formula leaves the model as it was.  `order` is the order in which
     * the other cells were re-evaluated.
     */
    method SetCellFromScanner(name: string, scanner: ScannerParser.TokenScanner)
      returns (r: Outcome<SetError>, ghost order: seq<string>)
      requires Valid() && scanner.Valid() && NameIsValid(cfg, name)
      modifies this, scanner
      ensures Valid() && scanner.Valid()
      ensures var parsed := Parser.ParseExp(cfg, old(scanner.Rest()));
        parsed.Err? ==> r == Fail(ParseFailed(parsed.error))
      ensures var parsed := Parser.ParseExp(cfg, old(scanner.Rest()));
        parsed.Ok? ==>
          && (r.Fail? <==> WouldCycle(old(edges), old(vertices), Upper(name), GetDependent(cfg, parsed.value)))
          && (r.Fail? ==> r.error == CircularReference)
      ensures r.Fail? ==>
        && spreadsheet == old(spreadsheet) && log == old(log)
        && vertices == old(vertices) && edges == old(edges) && incoming == old(incoming)
      ensures r.Pass? ==>
        var parsed := Parser.ParseExp(cfg, old(scanner.Rest()));
        && parsed.Ok?
        && var c := Upper(name);
        && var D := SetOf(GetDependent(cfg, parsed.value));
        && var s1 := old(spreadsheet)[c := CellRecord(cfg, old(spreadsheet), parsed.value)];
        && edges == Replace(old(edges), c, D) && vertices == old(vertices) + {c} + D
        && In(c) == D && (forall y :: y != c ==> In(y) == old(In(y)))
        && WalkFrom(edges, c, order)
        && spreadsheet == Recompute(cfg, s1, order)
        && log == old(log) + [Display(c, s1[c].displayValue)] + RecomputeNotices(cfg, s1, order)
    {
      ghost var ts := scanner.Rest();
      var parsed := ScannerParser.ParseExp(cfg, scanner);
      if parsed.Err? {
        return Fail(ParseFailed(parsed.error)), [];
      }
      var e := parsed.value;
      ParserProperties.ParseExpWellFormed(cfg, ts);
      var deps := GetDependent(cfg, e);
      var c := Upper(name);
      var cycle := CheckForCycle(c, deps);
      if cycle {
        return Fail(CircularReference), [];
      }
      UpperOfValidIsCanonical(cfg, name);
      order := ApplyFormula(c, e);
      return Pass, order;
    }

    /**
     * The second half of setCellFromScanner, once the cycle check has
     * passed: rewires c's incoming arcs, evaluates c, and re-evaluates the
     * cells that depend on it in the order the topological sort pops them.
     */
    method ApplyFormula(c: string, e: Expr) returns (ghost order: seq<string>)
      requires Valid() && Canonical(cfg, c) && WellFormed(cfg, e)
      requires !WouldCycle(edges, vertices, c, GetDependent(cfg, e))
      modifies this
      ensures Valid()
      ensures var D := SetOf(GetDependent(cfg, e));
        var s1 := old(spreadsheet)[c := CellRecord(cfg, old(spreadsheet), e)];
        && edges == Replace(old(edges), c, D) && vertices == old(vertices) + {c} + D
        && In(c) == D && (forall y :: y != c ==> In(y) == old(In(y)))
        && WalkFrom(edges, c, order)
        && spreadsheet == Recompute(cfg, s1, order)
        && log == old(log) + [Display(c, s1[c].displayValue)] + RecomputeNotices(cfg, s1, order)
    {
      var deps := GetDependent(cfg, e);
      ghost var s1 := old(spreadsheet)[c := CellRecord(cfg, old(spreadsheet), e)];
      AddDataToGraph(c, deps);
      assert Rewired(old(vertices), old(edges), old(incoming), c, SetOf(deps), incoming);
      ReplaceKeepsNoLongCycles(old(edges), old(vertices), c, deps);
      EvaluateExpression(c, e);
      assert spreadsheet == s1;
      DependentsCanonical(cfg, e);
      assert forall v :: v in vertices ==> Upper(v) == v;
      assert forall a :: a in edges ==> a.1 in spreadsheet;
      order := UpdateDependents(c);
      EditKeepsSheetOk(cfg, old(spreadsheet), old(vertices), old(edges), old(incoming), c, e, incoming, order);
    }

    /**
     * The update loop of setCellFromScanner: a topological sort from c, then
     * every cell on the stack below c re-evaluated in the order it is popped.
     * The cells re-evaluated are exactly the others reachable from c,
     * dependencies first.
     */
    method UpdateDependents(c: string) returns (ghost order: seq<string>)
      requires GraphValid() && c in vertices
      requires forall a :: a in edges ==> a.1 in spreadsheet
      requires forall v :: v in vertices ==> Upper(v) == v
      modifies this
      ensures WalkFrom(edges, c, order)
      ensures spreadsheet == Recompute(cfg, old(spreadsheet), order)
      ensures log == old(log) + RecomputeNotices(cfg, old(spreadsheet), order)
      ensures vertices == old(vertices) && edges == old(edges) && incoming == old(incoming)
    {
      var visited, stack := TopologicalSort(c, {}, []);
      assert stack[0..] == stack;
      WalkOrder(edges, c, stack);
      // the top of the stack is c itself, already evaluated
      var rest := stack[..|stack| - 1];
      order := Reverse(rest);
      forall i | 0 <= i < |rest|
        ensures rest[i] in spreadsheet && Upper(rest[i]) == rest[i]
      {
        var y := rest[i];
        assert y == order[|rest| - 1 - i];
        ReachesEnds(edges, c, y);
      }
      ReEvaluate(rest);
    }

    /**
     * The update loop of setCellFromScanner: pops the cells off the stack
     * and re-evaluates each from its stored formula.
     */
    method ReEvaluate(stack: seq<string>)
      requires forall i :: 0 <= i < |stack| ==> stack[i] in spreadsheet && Upper(stack[i]) == stack[i]
      modifies this
      ensures spreadsheet == Recompute(cfg, old(spreadsheet), Reverse(stack))
      ensures log == old(log) + RecomputeNotices(cfg, old(spreadsheet), Reverse(stack))
      ensures vertices == old(vertices) && edges == old(edges) && incoming == old(incoming)
    {
      ghost var order := Reverse(stack);
      ghost var done: seq<string> := [];
      // the stack is popped from its top, the end of the sequence
      var top := |stack|;
      while top > 0
        invariant 0 <= top <= |stack| && |done| == |stack| - top && done == order[..|done|]
        invariant spreadsheet == Recompute(cfg, old(spreadsheet), done)
        invariant log == old(log) + RecomputeNotices(cfg, old(spreadsheet), done)
        invariant vertices == old(vertices) && edges == old(edges) && incoming == old(incoming)
      {
        top := top - 1;
        var n := stack[top];
        assert n == order[|done|];
        EvaluateNext(old(spreadsheet), old(log), done, n);
        assert order[..|done| + 1] == done + [n];
        done := done + [n];
      }
      assert done == order;
    }

    /** One pass of the update loop: the popped cell is re-evaluated from its stored formula. */
    method EvaluateNext(ghost store0: Store, ghost log0: seq<Notice>, ghost done: seq<string>, n: string)
      requires spreadsheet == Recompute(cfg, store0, done)
      requires log == log0 + RecomputeNotices(cfg, store0, done)
      requires n in store0 && Upper(n) == n
      modifies this
      ensures spreadsheet == Recompute(cfg, store0, done + [n])
      ensures log == log0 + RecomputeNotices(cfg, store0, done + [n])
      ensures vertices == old(vertices) && edges == old(edges) && incoming == old(incoming)
    {
      RecomputeNext(cfg, store0, done, n);
      EvaluateExpression(n, spreadsheet[n].exp);
    }

    /**
     * evaluateExpression: stores the formula with its value and display text
     * under the upper-cased name, and shows the cell.
     */
    method EvaluateExpression(name: string, e: Expr)
      modifies this
      ensures spreadsheet == old(spreadsheet)[Upper(name) := CellRecord(cfg, old(spreadsheet), e)]
      ensures log == old(log) + [Display(Upper(name), CellRecord(cfg, old(spreadsheet), e).displayValue)]
      ensures vertices == old(vertices) && edges == old(edges) && incoming == old(incoming)
    {
      var key := Upper(name);
      var value := Eval(cfg, spreadsheet, e);
      var display := if e.Text? then e.str else cfg.numberText(value);
      if key in spreadsheet {
        spreadsheet := spreadsheet - {key};
      }
      spreadsheet := spreadsheet[key := CellData(e, display, value)];
      log := log + [Display(key, display)];
    }

    /**
     * topologicalSort: a depth-first walk along the arcs from s that pushes
     * each vertex once all the vertices after it have been pushed.
     */
    method TopologicalSort(s: string, visited: set<string>, stack: seq<string>)
      returns (visited': set<string>, stack': seq<string>)
      requires GraphValid() && s in vertices && s !in visited
      requires Finished(edges, visited, stack)
      ensures |stack| < |stack'| && stack'[..|stack|] == stack && stack'[|stack'| - 1] == s
      ensures visited' == visited + SetOf(stack'[|stack|..])
      ensures forall i :: |stack| <= i < |stack'| ==> stack'[i] !in visited && Reaches(edges, s, stack'[i])
      ensures Finished(edges, visited', stack')
      decreases vertices - visited
    {
      visited' := visited + {s};
      stack' := stack;
      var neighbors := Out(edges, s);
      while neighbors != {}
        invariant neighbors <= Out(edges, s)
        invariant Out(edges, s) - neighbors <= visited'
        invariant |stack| <= |stack'| && stack'[..|stack|] == stack
        invariant visited' == visited + {s} + SetOf(stack'[|stack|..])
        invariant forall i :: |stack| <= i < |stack'| ==> stack'[i] !in visited && stack'[i] != s && Reaches(edges, s, stack'[i])
        invariant Finished(edges, visited', stack')
        decreases neighbors
      {
        var v :| v in neighbors;
        neighbors := neighbors - {v};
        if v !in visited' {
          ghost var before := stack';
          ReachesArc(edges, s, v);
          visited', stack' := TopologicalSort(v, visited', stack');
          forall i | |stack| <= i < |stack'|
            ensures stack'[i] !in visited && stack'[i] != s && Reaches(edges, s, stack'[i])
          {
            if i < |before| {
              assert stack'[i] == before[..|before|][i];
            } else {
              ReachesTrans(edges, s, v, stack'[i]);
            }
          }
          assert stack'[..|stack|] == before[..|stack|];
          SetOfSplit(stack', |stack|, |before|);
          assert stack'[|stack|..|before|] == before[|stack|..];
        }
      }
      FinishVertex(edges, visited, stack, visited', stack', s);
      ghost var done := stack';
      stack' := stack' + [s];
      assert stack'[|stack|..] == done[|stack|..] + [s];
    }

    /**
     * collectCellRef: appends the names of the cells of a valid range,
     * columns outer and rows inner; an invalid range appends nothing.
     */
    method CollectCellRef(cellRefs: seq<string>, startName: string, endName: string) returns (r: seq<string>)
      ensures r == cellRefs + CellRefs(cfg, startName, endName)
    {
      r := cellRefs;
      if ValidRange(cfg, startName, endName) {
        var a := LocOf(cfg, startName);
        var b := LocOf(cfg, endName);
        var col := a.col;
        while col <= b.col
          invariant a.col <= col <= b.col + 1
          invariant r == cellRefs + Names(cfg, BlockLocs(a.col, col - 1, a.row, b.row))
        {
          ghost var before := Names(cfg, BlockLocs(a.col, col - 1, a.row, b.row));
          ghost var column := Names(cfg, ColumnLocs(col, a.row, b.row));
          BlockNamesStep(cfg, a.col, col, a.row, b.row);
          r := CollectColumn(r, col, a.row, b.row);
          assert r == cellRefs + (before + column);
          col := col + 1;
        }
      }
    }

    /** The inner loop of collectCellRef: the names of rows r0..r1 of one column. */
    method CollectColumn(prefix: seq<string>, col: int, r0: int, r1: int) returns (r: seq<string>)
      ensures r == prefix + Names(cfg, ColumnLocs(col, r0, r1))
    {
      r := prefix;
      if r0 <= r1 {
        var row := r0;
        while row <= r1
          invariant r0 <= row <= r1 + 1
          invariant r == prefix + Names(cfg, ColumnLocs(col, r0, row - 1))
        {
          NamesAppend(cfg, ColumnLocs(col, r0, row - 1), [Loc(col, row)]);
          r := r + [cfg.codec.toName(Loc(col, row))];
          row := row + 1;
        }
      }
    }

    /** collectCellValues: appends getCellData of each cell of the range, in order. */
    method CollectCellValues(cellValues: seq<real>, startName: string, endName: string) returns (r: seq<real>)
      ensures r == cellValues + CellValues(spreadsheet, CellRefs(cfg, startName, endName))
    {
      var cellRefs := CollectCellRef([], startName, endName);
      assert cellRefs == CellRefs(cfg, startName, endName);
      r := AppendValues(cellValues, cellRefs);
    }

    /** The loop of collectCellValues: getCellData of each name, appended in order. */
    method AppendValues(cellValues: seq<real>, cellRefs: seq<string>) returns (r: seq<real>)
      ensures r == cellValues + CellValues(spreadsheet, cellRefs)
    {
      r := cellValues;
      var i := 0;
      while i < |cellRefs|
        invariant 0 <= i <= |cellRefs|
        invariant r == cellValues + CellValues(spreadsheet, cellRefs[..i])
      {
        CellValuesStep(spreadsheet, cellRefs, i);
        r := r + [GetCellData(spreadsheet, cellRefs[i])];
        i := i + 1;
      }
      assert cellRefs[..i] == cellRefs;
    }

    /**
     * applyRangeFunction: the table's function for the lower-cased name,
     * applied to the values of the cells of the range in column-major order.
     * The parser admits only names in the table.
     */
    method ApplyRangeFunction(fn: string, startName: string, endName: string) returns (r: real)
      requires RangeFnIsValid(cfg, fn)
      ensures r == cfg.fnTable[Lower(fn)](CellValues(spreadsheet, CellRefs(cfg, startName, endName)))
    {
      var cellValues := CollectCellValues([], startName, endName);
      assert cellValues == CellValues(spreadsheet, CellRefs(cfg, startName, endName));
      r := cfg.fnTable[Lower(fn)](cellValues);
    }

    /** clear: shows the empty sheet and empties the cell map, the graph and the index. */
    method Clear()
      requires Valid()
      modifies this
      ensures Valid()
      ensures spreadsheet == map[] && vertices == {} && edges == {} && incoming == map[]
      ensures log == old(log) + [EmptySheet]
    {
      log := log + [EmptySheet];
      vertices, edges := {}, {};
      incoming := map[];
      spreadsheet := map[];
      NoArcsNoLongCycles();
    }

    /**
     * setLinesFromFile: a line must start with a cell name and `=`; the rest
     * of the line is the formula, set as setCellFromScanner sets it.
     */
    method SetLinesFromFile(scanner: ScannerParser.TokenScanner) returns (r: Outcome<LineError>, ghost order: seq<string>)
      requires Valid() && scanner.Valid()
      modifies this, scanner
      ensures Valid() && scanner.Valid()
      ensures var h := Header(cfg, old(scanner.Rest()));
        && (h.Err? ==> r == Fail(h.error))
        && (h.Ok? ==> var parsed := Parser.ParseExp(cfg, old(scanner.Rest())[2..]);
              && (parsed.Err? ==> r == Fail(SetFailed(ParseFailed(parsed.error))))
              && (parsed.Ok? ==> (r.Fail? <==> WouldCycle(old(edges), old(vertices), Upper(h.value), GetDependent(cfg, parsed.value))))
              && (parsed.Ok? && r.Fail? ==> r == Fail(SetFailed(CircularReference)))
              && (r.Pass? ==> parsed.Ok? && Upper(h.value) in spreadsheet && spreadsheet[Upper(h.value)].exp == parsed.value))
      ensures r.Fail? ==>
        && spreadsheet == old(spreadsheet) && log == old(log)
        && vertices == old(vertices) && edges == old(edges) && incoming == old(incoming)
      ensures r.Pass? ==>
        var h := Header(cfg, old(scanner.Rest()));
        && h.Ok?
        && var parsed := Parser.ParseExp(cfg, old(scanner.Rest())[2..]);
        && parsed.Ok?
        && var c := Upper(h.value);
        && var D := SetOf(GetDependent(cfg, parsed.value));
        && var s1 := old(spreadsheet)[c := CellRecord(cfg, old(spreadsheet), parsed.value)];
        && edges == Replace(old(edges), c, D) && vertices == old(vertices) + {c} + D
        && In(c) == D && (forall y :: y != c ==> In(y) == old(In(y)))
        && WalkFrom(edges, c, order)
        && spreadsheet == Recompute(cfg, s1, order)
        && log == old(log) + [Display(c, s1[c].displayValue)] + RecomputeNotices(cfg, s1, order)
      ensures old(spreadsheet).Keys <= spreadsheet.Keys
    {
      ghost var ts := scanner.Rest();
      if !scanner.HasMoreTokens() {
        return Fail(MissingCellAndValue), [];
      }
      var first := scanner.NextToken();
      var cellname := TokenText(first.value, cfg.numberText);
      if !NameIsValid(cfg, cellname) {
        return Fail(InvalidCellName(first.value)), [];
      }
      var eq := scanner.NextToken();
      if eq != Some(Sym("=")) {
        return Fail(EqualsExpected), [];
      }
      assert scanner.Rest() == ts[2..];
      var res;
      res, order := SetCellFromScanner(cellname, scanner);
      if res.Fail? {
        return Fail(SetFailed(res.error)), order;
      }
      return Pass, order;
    }

    /**
     * readFromStream: sets the lines one after another.  The first line that
     * fails stops the load, and the lines before it stay set: the load is
     * not atomic.  The result names the failing line and its error.
     */
    method ReadFromStream(lines: seq<seq<Token>>) returns (r: Outcome<(nat, LineError)>)
      requires Valid()
      modifies this
      ensures Valid()
      ensures old(spreadsheet).Keys <= spreadsheet.Keys
      ensures r.Fail? ==>
        && r.error.0 < |lines|
        && var h := Header(cfg, lines[r.error.0]);
        && (h.Err? ==> r.error.1 == h.error)
        && (h.Ok? ==> r.error.1.SetFailed?)
      ensures var done := if r.Pass? then |lines| else r.error.0;
        done <= |lines| &&
        forall j :: 0 <= j < done ==> Header(cfg, lines[j]).Ok? && Upper(Header(cfg, lines[j]).value) in spreadsheet
      ensures var done := if r.Pass? then |lines| else r.error.0;
        && done <= |lines|
        && (forall j :: 0 <= j < done ==> LineEdit(cfg, lines[j]).Some?)
        && Formulas(spreadsheet) == Loaded(cfg, Formulas(old(spreadsheet)), lines, done)
    {
      var i := 0;
      ghost var f0 := Formulas(spreadsheet);
      while i < |lines|
        invariant 0 <= i <= |lines| && Valid()
        invariant LinesLoaded(cfg, f0, Formulas(spreadsheet), lines, i)
      {
        var res := LoadLine(lines, i, f0);
        if res.Fail? {
          LoadedStore(cfg, f0, spreadsheet, lines, i);
          return Fail((i, res.error));
        }
        i := i + 1;
      }
      LoadedStore(cfg, f0, spreadsheet, lines, |lines|);
      return Pass;
    }

    /** The body of readFromStream's loop: line i is set on top of the lines before it. */
    method LoadLine(lines: seq<seq<Token>>, i: nat, ghost f0: map<string, Expr>) returns (r: Outcome<LineError>)
      requires Valid() && i < |lines| && LinesLoaded(cfg, f0, Formulas(spreadsheet), lines, i)
      modifies this
      ensures Valid()
      ensures r.Pass? ==> LinesLoaded(cfg, f0, Formulas(spreadsheet), lines, i + 1)
      ensures r.Fail? ==> LinesLoaded(cfg, f0, Formulas(spreadsheet), lines, i)
      ensures var h := Header(cfg, lines[i]);
        && (r.Fail? && h.Err? ==> r.error == h.error)
        && (r.Fail? && h.Ok? ==> r.error.SetFailed?)
    {
      ghost var f := Formulas(spreadsheet);
      r := SetLine(lines[i]);
      if r.Pass? {
        LinesLoadedStep(cfg, f0, f, Formulas(spreadsheet), lines, i);
      }
    }

    /** One iteration of readFromStream: a scanner over the line, then setLinesFromFile. */
    method SetLine(line: seq<Token>) returns (r: Outcome<LineError>)
      requires Valid()
      modifies this
      ensures Valid()
      ensures old(spreadsheet).Keys <= spreadsheet.Keys
      ensures var h := Header(cfg, line);
        && (r.Fail? && h.Err? ==> r.error == h.error)
        && (r.Fail? && h.Ok? ==> r.error.SetFailed?)
        && (r.Pass? ==> h.Ok? && Upper(h.value) in spreadsheet)
      ensures r.Fail? ==>
        && spreadsheet == old(spreadsheet) && log == old(log)
        && vertices == old(vertices) && edges == old(edges) && incoming == old(incoming)
      ensures r.Pass? ==>
        && LineEdit(cfg, line).Some?
        && Formulas(spreadsheet) == Formulas(old(spreadsheet))[LineEdit(cfg, line).value.0 := LineEdit(cfg, line).value.1]
    {
      var scanner := new ScannerParser.TokenScanner(line);
      ghost var order;
      r, order := SetLinesFromFile(scanner);
      if r.Pass? {
        SetLineFormulas(cfg, old(spreadsheet), spreadsheet, line, order);
      }
    }
  }

  /**
   * The cell and formula a line of a loaded file sets when its header and
   * its formula are both accepted; `None` for a line that fails either.
   */
  function LineEdit(cfg: Config, line: seq<Token>): Option<(string, Expr)> {
    match Header(cfg, line)
    case Err(_) => None
    case Ok(name) =>
      match Parser.ParseExp(cfg, line[2..])
      case Err(_) => None
      case Ok(e) => Some((Upper(name), e))
  }

  /**
   * The formulas after the first n lines have been set one after another,
   * starting from f: each accepted line overwrites its cell's formula.
   */
  function Loaded(cfg: Config, f: map<string, Expr>, lines: seq<seq<Token>>, n: nat): map<string, Expr>
    requires n <= |lines|
  {
    if n == 0 then f
    else
      var g := Loaded(cfg, f, lines, n - 1);
      match LineEdit(cfg, lines[n - 1])
      case None => g
      case Some((c, e)) => g[c := e]
  }

  /** The first n lines were all accepted, and the formulas are those they load onto f0. */
  ghost predicate LinesLoaded(cfg: Config, f0: map<string, Expr>, f: map<string, Expr>, lines: seq<seq<Token>>, n: nat)
    requires n <= |lines|
  {
    && (forall j :: 0 <= j < n ==> LineEdit(cfg, lines[j]).Some?)
    && f == Loaded(cfg, f0, lines, n)
  }

  /** An accepted line leaves every formula as it was except its own cell's, which is the line's formula. */
  lemma SetLineFormulas(cfg: Config, store0: Store, store: Store, line: seq<Token>, order: seq<string>)
    requires Header(cfg, line).Ok? && Parser.ParseExp(cfg, line[2..]).Ok?
    requires var c := Upper(Header(cfg, line).value);
      var e := Parser.ParseExp(cfg, line[2..]).value;
      store == Recompute(cfg, store0[c := CellRecord(cfg, store0, e)], order)
    ensures LineEdit(cfg, line).Some?
    ensures Formulas(store) == Formulas(store0)[LineEdit(cfg, line).value.0 := LineEdit(cfg, line).value.1]
  {
    var c := Upper(Header(cfg, line).value);
    var e := Parser.ParseExp(cfg, line[2..]).value;
    assert LineEdit(cfg, line) == Some((c, e));
    var s1 := store0[c := CellRecord(cfg, store0, e)];
    RecomputeKeepsFormulas(cfg, s1, order);
    assert Formulas(s1) == Formulas(store0)[c := e];
  }

  lemma LinesLoadedStep(cfg: Config, f0: map<string, Expr>, f: map<string, Expr>, f': map<string, Expr>,
                        lines: seq<seq<Token>>, n: nat)
    requires n < |lines| && LinesLoaded(cfg, f0, f, lines, n)
    requires LineEdit(cfg, lines[n]).Some?
    requires f' == f[LineEdit(cfg, lines[n]).value.0 := LineEdit(cfg, lines[n]).value.1]
    ensures LinesLoaded(cfg, f0, f', lines, n + 1)
  {
  }

  /**
   * Last write wins: after n lines, a cell holds the formula of the last of
   * them that set it.
   */
  lemma {:induction false} LoadedLastWrite(cfg: Config, f: map<string, Expr>, lines: seq<seq<Token>>, n: nat, j: nat)
    requires j < n <= |lines| && LineEdit(cfg, lines[j]).Some?
    requires forall k :: j < k < n && LineEdit(cfg, lines[k]).Some? ==>
      LineEdit(cfg, lines[k]).value.0 != LineEdit(cfg, lines[j]).value.0
    ensures var c := LineEdit(cfg, lines[j]).value.0;
      c in Loaded(cfg, f, lines, n) && Loaded(cfg, f, lines, n)[c] == LineEdit(cfg, lines[j]).value.1
    decreases n
  {
    if n > j + 1 {
      LoadedLastWrite(cfg, f, lines, n - 1, j);
    }
  }

  /** A cell no line sets keeps its formula, or stays empty. */
  lemma {:induction false} LoadedUntouched(cfg: Config, f: map<string, Expr>, lines: seq<seq<Token>>, n: nat, x: string)
    requires n <= |lines|
    requires forall k :: 0 <= k < n && LineEdit(cfg, lines[k]).Some? ==> LineEdit(cfg, lines[k]).value.0 != x
    ensures x in Loaded(cfg, f, lines, n) <==> x in f
    ensures x in f ==> Loaded(cfg, f, lines, n)[x] == f[x]
    decreases n
  {
    if n > 0 {
      LoadedUntouched(cfg, f, lines, n - 1, x);
    }
  }

  /**
   * Loading accepted lines only adds cells, and each line's cell is among
   * the cells afterwards.
   */
  lemma {:induction false} LoadedFacts(cfg: Config, f: map<string, Expr>, lines: seq<seq<Token>>, n: nat)
    requires n <= |lines| && forall j :: 0 <= j < n ==> LineEdit(cfg, lines[j]).Some?
    ensures f.Keys <= Loaded(cfg, f, lines, n).Keys
    ensures forall j :: 0 <= j < n ==>
      Header(cfg, lines[j]).Ok? && Upper(Header(cfg, lines[j]).value) in Loaded(cfg, f, lines, n)
    decreases n
  {
    if n > 0 {
      LoadedFacts(cfg, f, lines, n - 1);
    }
  }

  /** The cells of a store loaded from f0 include those of f0 and each loaded line's cell. */
  lemma LoadedStore(cfg: Config, f0: map<string, Expr>, store: Store, lines: seq<seq<Token>>, n: nat)
    requires n <= |lines| && LinesLoaded(cfg, f0, Formulas(store), lines, n)
    ensures f0.Keys <= store.Keys
    ensures forall j :: 0 <= j < n ==> Header(cfg, lines[j]).Ok? && Upper(Header(cfg, lines[j]).value) in store
  {
    LoadedFacts(cfg, f0, lines, n);
  }

  /**
   * The checks setLinesFromFile makes before the formula: a first token
   * whose text is a valid cell name, then `=`.  The name is the token's text.
   */
  function Header(cfg: Config, ts: seq<Token>): (r: Result<string, LineError>)
    ensures r.Ok? ==> |ts| >= 2 && NameIsValid(cfg, r.value) && ts[1] == Sym("=")
  {
    if ts == [] then Err(MissingCellAndValue)
    else if !NameIsValid(cfg, TokenText(ts[0], cfg.numberText)) then Err(InvalidCellName(ts[0]))
    else if Peek(ts[1..]) != Some(Sym("=")) then Err(EqualsExpected)
    else Ok(TokenText(ts[0], cfg.numberText))
  }
}
