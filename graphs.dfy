/**
 * The dependency graph as a set of arcs (dependency, dependent), with the
 * reachability facts the evaluator relies on: what replacing a cell's
 * incoming arcs does to reachability, when the cycle test rejects, why an
 * accepted formula never closes a cycle through two different cells, and
 * the self-reference the test lets through.
 */
module Graphs {

  /** Vertices are cell names. */
  type Node = string

  /** A non-empty walk whose consecutive entries are joined by arcs. */
  ghost predicate IsPath(E: set<(Node, Node)>, p: seq<Node>) {
    |p| > 0 && forall i :: 0 <= i < |p| - 1 ==> (p[i], p[i + 1]) in E
  }

  ghost predicate Reaches(E: set<(Node, Node)>, x: Node, y: Node) {
    exists p :: IsPath(E, p) && p[0] == x && p[|p| - 1] == y
  }

  /**
   * No cycle passes through two different vertices; a vertex may still have
   * an arc to itself.
   */
  ghost predicate NoLongCycles(E: set<(Node, Node)>) {
    forall x, y :: x != y && Reaches(E, x, y) ==> !Reaches(E, y, x)
  }

  /** Every arc joins two vertices of V. */
  ghost predicate Within(E: set<(Node, Node)>, V: set<Node>) {
    forall e :: e in E ==> e.0 in V && e.1 in V
  }

  /** W contains every vertex with an arc into W. */
  ghost predicate ClosedBackward(E: set<(Node, Node)>, W: set<Node>) {
    forall e :: e in E && e.1 in W ==> e.0 in W
  }

  /** W contains every vertex with an arc out of W. */
  ghost predicate ClosedForward(E: set<(Node, Node)>, W: set<Node>) {
    forall e :: e in E && e.0 in W ==> e.1 in W
  }

  /** The targets of the arcs out of x (`graph.getNeighbors`). */
  function Out(E: set<(Node, Node)>, x: Node): (r: set<Node>)
    ensures forall y :: y in r <==> (x, y) in E
  {
    set e | e in E && e.0 == x :: e.1
  }

  /** The sources of the arcs into y (`incomingNeighbors[y]`). */
  function Into(E: set<(Node, Node)>, y: Node): (r: set<Node>)
    ensures forall x :: x in r <==> (x, y) in E
  {
    set e | e in E && e.1 == y :: e.0
  }

  /** The arcs that do not end at c. */
  function Dropped(E: set<(Node, Node)>, c: Node): (r: set<(Node, Node)>)
    ensures r <= E
    ensures forall e :: e in r <==> e in E && e.1 != c
  {
    set e | e in E && e.1 != c
  }

  /** The arcs after c's incoming arcs are replaced by one arc from each member of D. */
  function Replace(E: set<(Node, Node)>, c: Node, D: set<Node>): (r: set<(Node, Node)>)
    ensures forall e :: e in r <==> (e in E && e.1 != c) || (e.1 == c && e.0 in D)
  {
    Dropped(E, c) + ArcsInto(D, c)
  }

  /**
   * checkForCycle's answer: some dependency that is already a vertex is
   * reachable from the target, or the dependency list is exactly the target.
   */
  ghost predicate WouldCycle(E: set<(Node, Node)>, V: set<Node>, c: Node, deps: seq<Node>) {
    (exists d :: d in deps && d in V && Reaches(E, c, d)) || deps == [c]
  }

  function SetOf(s: seq<Node>): (r: set<Node>)
    ensures forall x :: x in r <==> x in s
  {
    set x | x in s
  }

  /** One arc into c from each member of D. */
  function ArcsInto(D: set<Node>, c: Node): (r: set<(Node, Node)>)
    ensures forall e :: e in r <==> e.1 == c && e.0 in D
  {
    set d | d in D :: (d, c)
  }

  lemma SetOfPrefix(s: seq<Node>, i: nat)
    requires i < |s|
    ensures SetOf(s[..i + 1]) == SetOf(s[..i]) + {s[i]}
  {
    assert s[..i + 1] == s[..i] + [s[i]];
  }

  /** The members of a suffix are those of its two consecutive pieces. */
  lemma SetOfSplit(s: seq<Node>, i: nat, j: nat)
    requires i <= j <= |s|
    ensures SetOf(s[i..]) == SetOf(s[i..j]) + SetOf(s[j..])
  {
    assert s[i..] == s[i..j] + s[j..];
  }

  // ----- reachability ------------------------------------------------------

  lemma ReachesRefl(E: set<(Node, Node)>, x: Node)
    ensures Reaches(E, x, x)
  {
    assert IsPath(E, [x]);
  }

  lemma ReachesArc(E: set<(Node, Node)>, x: Node, y: Node)
    requires (x, y) in E
    ensures Reaches(E, x, y)
  {
    assert IsPath(E, [x, y]);
  }

  lemma ReachesTrans(E: set<(Node, Node)>, x: Node, y: Node, z: Node)
    requires Reaches(E, x, y) && Reaches(E, y, z)
    ensures Reaches(E, x, z)
  {
    var p :| IsPath(E, p) && p[0] == x && p[|p| - 1] == y;
    var q :| IsPath(E, q) && q[0] == y && q[|q| - 1] == z;
    var r := p + q[1..];
    forall i | 0 <= i < |r| - 1
      ensures (r[i], r[i + 1]) in E
    {
      if i < |p| - 1 {
        assert r[i] == p[i] && r[i + 1] == p[i + 1];
      } else {
        assert r[i] == q[i - |p| + 1] && r[i + 1] == q[i - |p| + 2];
      }
    }
    assert IsPath(E, r) && r[0] == x && r[|r| - 1] == z;
  }

  lemma ReachesMono(E: set<(Node, Node)>, F: set<(Node, Node)>, x: Node, y: Node)
    requires E <= F && Reaches(E, x, y)
    ensures Reaches(F, x, y)
  {
    var p :| IsPath(E, p) && p[0] == x && p[|p| - 1] == y;
    assert IsPath(F, p);
  }

  /** Without arcs there is no cycle at all. */
  lemma NoArcsNoLongCycles()
    ensures NoLongCycles({})
  {
    forall x: Node, y: Node | x != y && Reaches({}, x, y)
      ensures false
    {
      ReachesEnds({}, x, y);
    }
  }

  /** A path of two or more vertices leaves its start along an arc and enters its end along one. */
  lemma ReachesEnds(E: set<(Node, Node)>, x: Node, y: Node)
    requires Reaches(E, x, y) && x != y
    ensures exists z :: (x, z) in E
    ensures exists z :: (z, y) in E && Reaches(E, x, z)
  {
    var p :| IsPath(E, p) && p[0] == x && p[|p| - 1] == y;
    assert (p[0], p[1]) in E;
    var q := p[..|p| - 1];
    assert IsPath(E, q) && q[0] == x;
    assert (q[|q| - 1], y) in E;
  }

  /** Each vertex of a path that ends inside a backward-closed set lies in that set. */
  lemma {:induction false} PathInClosed(E: set<(Node, Node)>, W: set<Node>, p: seq<Node>, i: nat)
    requires IsPath(E, p) && ClosedBackward(E, W) && p[|p| - 1] in W && i < |p|
    ensures p[i] in W
    decreases |p| - i
  {
    if i < |p| - 1 {
      PathInClosed(E, W, p, i + 1);
      assert (p[i], p[i + 1]) in E;
    }
  }

  /** Nothing outside a backward-closed set reaches into it. */
  lemma NotReachesIntoClosed(E: set<(Node, Node)>, W: set<Node>, x: Node, y: Node)
    requires ClosedBackward(E, W) && y in W && x !in W
    ensures !Reaches(E, x, y)
  {
    if Reaches(E, x, y) {
      var p :| IsPath(E, p) && p[0] == x && p[|p| - 1] == y;
      PathInClosed(E, W, p, 0);
    }
  }

  /** Each vertex of a path that starts inside a forward-closed set lies in that set. */
  lemma {:induction false} PathFromClosed(E: set<(Node, Node)>, W: set<Node>, p: seq<Node>, i: nat)
    requires IsPath(E, p) && ClosedForward(E, W) && p[0] in W && i < |p|
    ensures p[i] in W
  {
    if 0 < i {
      PathFromClosed(E, W, p, i - 1);
      assert (p[i - 1], p[i]) in E;
    }
  }

  /** A forward-closed set holds everything reachable from its members. */
  lemma ReachesFromClosed(E: set<(Node, Node)>, W: set<Node>, x: Node, y: Node)
    requires ClosedForward(E, W) && x in W && Reaches(E, x, y)
    ensures y in W
  {
    var p :| IsPath(E, p) && p[0] == x && p[|p| - 1] == y;
    PathFromClosed(E, W, p, |p| - 1);
  }

  // ----- replacing the arcs into one vertex --------------------------------

  /** The arcs into c can be skipped on the way from c: a walk from c needs no arc back to c. */
  lemma {:induction false} DropIncomingPath(E: set<(Node, Node)>, c: Node, p: seq<Node>)
    requires IsPath(E, p) && p[0] == c
    ensures Reaches(Dropped(E, c), c, p[|p| - 1])
  {
    var E0 := Dropped(E, c);
    if |p| == 1 {
      ReachesRefl(E0, c);
    } else {
      var q := p[..|p| - 1];
      assert IsPath(E, q);
      DropIncomingPath(E, c, q);
      var z, y := q[|q| - 1], p[|p| - 1];
      assert (z, y) in E;
      if y == c {
        ReachesRefl(E0, c);
      } else {
        ReachesArc(E0, z, y);
        ReachesTrans(E0, c, z, y);
      }
    }
  }

  lemma DropIncoming(E: set<(Node, Node)>, c: Node, y: Node)
    requires Reaches(E, c, y)
    ensures Reaches(Dropped(E, c), c, y)
  {
    var p :| IsPath(E, p) && p[0] == c && p[|p| - 1] == y;
    DropIncomingPath(E, c, p);
  }

  /** Without its incoming arcs, c is reached only from itself. */
  lemma DroppedEntry(E: set<(Node, Node)>, c: Node, x: Node)
    requires Reaches(Dropped(E, c), x, c)
    ensures x == c
  {
    if x != c {
      ReachesEnds(Dropped(E, c), x, c);
    }
  }

  /** The arcs are those not into c and those into c. */
  lemma SplitAtTarget(E: set<(Node, Node)>, c: Node)
    ensures E == Dropped(E, c) + ArcsInto(Into(E, c), c)
  {
  }

  /** Replacing with one more source adds exactly one arc. */
  lemma ReplaceGrow(E: set<(Node, Node)>, c: Node, D: set<Node>, d: Node)
    ensures Replace(E, c, D + {d}) == Replace(E, c, D) + {(d, c)}
  {
  }

  /** After replacement, the sources of the arcs into c are D, and nothing else changes. */
  lemma IntoReplace(E: set<(Node, Node)>, c: Node, D: set<Node>, y: Node)
    ensures Into(Replace(E, c, D), y) == if y == c then D else Into(E, y)
  {
  }

  /** x reaches a member of D without passing into c (or is c itself). */
  ghost predicate EntersVia(E0: set<(Node, Node)>, c: Node, D: set<Node>, x: Node) {
    x == c || exists d :: d in D && Reaches(E0, x, d)
  }

  /**
   * A walk after replacement either avoids the new arcs, or starts with a
   * stretch that reaches a member of D and ends with a stretch from c that
   * uses old arcs only.
   */
  lemma {:induction false} ReplacePath(E: set<(Node, Node)>, c: Node, D: set<Node>, p: seq<Node>)
    requires IsPath(Replace(E, c, D), p)
    ensures var E0, x, y := Dropped(E, c), p[0], p[|p| - 1];
      Reaches(E0, x, y) || (EntersVia(E0, c, D, x) && Reaches(E0, c, y))
  {
    var E0 := Dropped(E, c);
    var x := p[0];
    if |p| == 1 {
      ReachesRefl(E0, x);
    } else {
      var q := p[..|p| - 1];
      assert IsPath(Replace(E, c, D), q);
      ReplacePath(E, c, D, q);
      var z, y := q[|q| - 1], p[|p| - 1];
      assert (z, y) in Replace(E, c, D);
      if y == c {
        ReachesRefl(E0, c);
        assert z in D;
      } else {
        assert (z, y) in E0;
        ReachesArc(E0, z, y);
        if Reaches(E0, x, z) {
          ReachesTrans(E0, x, z, y);
        } else {
          ReachesTrans(E0, c, z, y);
        }
      }
    }
  }

  lemma EntersViaReaches(E: set<(Node, Node)>, c: Node, D: set<Node>, x: Node)
    requires EntersVia(Dropped(E, c), c, D, x)
    ensures Reaches(Replace(E, c, D), x, c)
  {
    var E1 := Replace(E, c, D);
    if x == c {
      ReachesRefl(E1, c);
    } else {
      var d :| d in D && Reaches(Dropped(E, c), x, d);
      ReachesMono(Dropped(E, c), E1, x, d);
      ReachesArc(E1, d, c);
      ReachesTrans(E1, x, d, c);
    }
  }

  /** After replacement, what c reaches it reaches through old arcs. */
  lemma ReplaceFromTarget(E: set<(Node, Node)>, c: Node, D: set<Node>, y: Node)
    requires Reaches(Replace(E, c, D), c, y)
    ensures Reaches(Dropped(E, c), c, y)
  {
    DropIncoming(Replace(E, c, D), c, y);
    assert Dropped(Replace(E, c, D), c) == Dropped(E, c);
  }

  /** After replacement, a vertex other than c reaches c only through a member of D. */
  lemma ReplaceIntoTarget(E: set<(Node, Node)>, c: Node, D: set<Node>, x: Node)
    requires Reaches(Replace(E, c, D), x, c) && x != c
    ensures exists d :: d in D && Reaches(Dropped(E, c), x, d)
  {
    var p :| IsPath(Replace(E, c, D), p) && p[0] == x && p[|p| - 1] == c;
    ReplacePath(E, c, D, p);
    if Reaches(Dropped(E, c), x, c) {
      DroppedEntry(E, c, x);
    }
  }

  /** When the test passes, no dependency other than c is reachable from c. */
  lemma PassedTestSeparates(E: set<(Node, Node)>, V: set<Node>, c: Node, deps: seq<Node>, d: Node)
    requires Within(E, V) && !WouldCycle(E, V, c, deps)
    requires d in deps && d != c
    ensures !Reaches(E, c, d)
  {
    if d !in V && Reaches(E, c, d) {
      ReachesEnds(E, c, d);
    }
  }

  /** When the test passes, the new arcs close no cycle through c and another vertex. */
  lemma NoLongCycleThroughTarget(E: set<(Node, Node)>, V: set<Node>, c: Node, deps: seq<Node>, u: Node)
    requires NoLongCycles(E) && Within(E, V) && !WouldCycle(E, V, c, deps)
    requires u != c && Reaches(Replace(E, c, SetOf(deps)), c, u)
    ensures !Reaches(Replace(E, c, SetOf(deps)), u, c)
  {
    var D := SetOf(deps);
    var E0 := Dropped(E, c);
    if Reaches(Replace(E, c, D), u, c) {
      ReplaceFromTarget(E, c, D, u);
      ReplaceIntoTarget(E, c, D, u);
      var d :| d in D && Reaches(E0, u, d);
      ReachesTrans(E0, c, u, d);
      ReachesMono(E0, E, c, d);
      if d != c {
        PassedTestSeparates(E, V, c, deps, d);
      } else {
        ReachesMono(E0, E, c, u);
        ReachesMono(E0, E, u, c);
      }
    }
  }

  /**
   * The graph invariant survives an accepted formula: if checkForCycle says
   * no, replacing c's incoming arcs with arcs from its dependencies closes
   * no cycle through two different cells.
   */
  lemma ReplaceKeepsNoLongCycles(E: set<(Node, Node)>, V: set<Node>, c: Node, deps: seq<Node>)
    requires NoLongCycles(E) && Within(E, V) && !WouldCycle(E, V, c, deps)
    ensures NoLongCycles(Replace(E, c, SetOf(deps)))
  {
    var D := SetOf(deps);
    var E1 := Replace(E, c, D);
    var E0 := Dropped(E, c);
    forall x, y | x != y && Reaches(E1, x, y)
      ensures !Reaches(E1, y, x)
    {
      if Reaches(E1, y, x) {
        var p :| IsPath(E1, p) && p[0] == x && p[|p| - 1] == y;
        var q :| IsPath(E1, q) && q[0] == y && q[|q| - 1] == x;
        ReplacePath(E, c, D, p);
        ReplacePath(E, c, D, q);
        if Reaches(E0, x, y) && Reaches(E0, y, x) {
          ReachesMono(E0, E, x, y);
          ReachesMono(E0, E, y, x);
        } else {
          // One of the two walks runs through c, so c lies on a cycle with x or y.
          var a, b := x, y;
          if !(EntersVia(E0, c, D, x) && Reaches(E0, c, y)) {
            a, b := y, x;
          }
          assert EntersVia(E0, c, D, a) && Reaches(E0, c, b) && Reaches(E1, b, a);
          EntersViaReaches(E, c, D, a);
          ReachesMono(E0, E1, c, b);
          ReachesTrans(E1, c, b, a);
          if a != c {
            NoLongCycleThroughTarget(E, V, c, deps, a);
          } else {
            NoLongCycleThroughTarget(E, V, c, deps, b);
          }
        }
      }
    }
  }

  /**
   * A rejected formula refers to its own cell, or would close a cycle through
   * its cell and another one.
   */
  lemma RejectedIsCircular(E: set<(Node, Node)>, V: set<Node>, c: Node, deps: seq<Node>)
    requires WouldCycle(E, V, c, deps)
    ensures c in deps || !NoLongCycles(Replace(E, c, SetOf(deps)))
  {
    if deps != [c] {
      var d :| d in deps && d in V && Reaches(E, c, d);
      if d != c {
        var E1 := Replace(E, c, SetOf(deps));
        DropIncoming(E, c, d);
        ReachesMono(Dropped(E, c), E1, c, d);
        ReachesArc(E1, d, c);
      }
    }
  }

  /**
   * The self-reference gap: a formula that names its own cell passes the
   * test exactly when that cell is not yet a vertex and the formula names
   * some other cell too, and then it leaves an arc from the cell to itself.
   */
  lemma SelfReferenceGap(E: set<(Node, Node)>, V: set<Node>, c: Node, deps: seq<Node>)
    requires Within(E, V) && c in deps
    ensures !WouldCycle(E, V, c, deps) <==> c !in V && deps != [c]
    ensures !WouldCycle(E, V, c, deps) ==> (c, c) in Replace(E, c, SetOf(deps))
  {
    if c in V {
      ReachesRefl(E, c);
    } else {
      forall d | d in deps && d in V
        ensures !Reaches(E, c, d)
      {
        if Reaches(E, c, d) {
          ReachesEnds(E, c, d);
        }
      }
    }
  }

  // ----- orders -------------------------------------------------------------

  ghost predicate NoDup(s: seq<Node>) {
    forall i, j :: 0 <= i < j < |s| ==> s[i] != s[j]
  }

  /** Each vertex comes after the other ends of its outgoing arcs (the order a post-order DFS pushes). */
  ghost predicate PostOrdered(E: set<(Node, Node)>, s: seq<Node>) {
    forall i, j :: 0 <= i < |s| && 0 <= j < |s| && (s[i], s[j]) in E && s[i] != s[j] ==> j < i
  }

  /** Each vertex comes after the vertices it has arcs from: dependencies first. */
  ghost predicate TopoOrdered(E: set<(Node, Node)>, s: seq<Node>) {
    forall i, j :: 0 <= i < |s| && 0 <= j < |s| && (s[i], s[j]) in E && s[i] != s[j] ==> i < j
  }

  /** The stack popped from the top, i.e. the sequence reversed. */
  function Reverse(s: seq<Node>): (r: seq<Node>)
    ensures |r| == |s|
    ensures forall i :: 0 <= i < |s| ==> r[i] == s[|s| - 1 - i]
  {
    seq(|s|, i requires 0 <= i < |s| => s[|s| - 1 - i])
  }

  /**
   * A stack of finished vertices: all marked, none twice, in post-order,
   * and every arc out of them leads to a marked vertex.
   */
  ghost predicate Finished(E: set<(Node, Node)>, visited: set<Node>, stack: seq<Node>) {
    && SetOf(stack) <= visited
    && NoDup(stack)
    && PostOrdered(E, stack)
    && forall i :: 0 <= i < |stack| ==> Out(E, stack[i]) <= visited
  }

  /**
   * Pushing s after the walk from s has finished keeps the stack in
   * post-order: an arc back into s would come either from a vertex finished
   * before s was marked (whose targets were all marked then) or from a
   * vertex reachable from s (and close a cycle).
   */
  lemma FinishVertex(E: set<(Node, Node)>, visited: set<Node>, stack: seq<Node>,
                     visited': set<Node>, stack': seq<Node>, s: Node)
    requires NoLongCycles(E)
    requires Finished(E, visited, stack) && s !in visited
    requires |stack| <= |stack'| && stack'[..|stack|] == stack
    requires forall i :: |stack| <= i < |stack'| ==> stack'[i] != s && Reaches(E, s, stack'[i])
    requires Finished(E, visited', stack') && s in visited' && Out(E, s) <= visited'
    ensures Finished(E, visited', stack' + [s])
  {
    var st := stack' + [s];
    forall i | 0 <= i < |stack'|
      ensures (stack'[i], s) !in E && stack'[i] != s
    {
      if i < |stack| {
        assert stack'[i] == stack[i];
        assert s !in Out(E, stack[i]);
      } else if (stack'[i], s) in E {
        ReachesArc(E, stack'[i], s);
      }
    }
    assert forall i :: 0 <= i < |stack'| ==> st[i] == stack'[i];
  }

  /** Popping a post-order stack yields dependencies before dependents, each once. */
  lemma ReversePostOrder(E: set<(Node, Node)>, s: seq<Node>)
    requires PostOrdered(E, s) && NoDup(s)
    ensures TopoOrdered(E, Reverse(s)) && NoDup(Reverse(s))
  {
    var r := Reverse(s);
    forall i, j | 0 <= i < |r| && 0 <= j < |r| && (r[i], r[j]) in E && r[i] != r[j]
      ensures i < j
    {
      assert (s[|s| - 1 - i], s[|s| - 1 - j]) in E;
    }
    forall i, j | 0 <= i < j < |r|
      ensures r[i] != r[j]
    {
      assert r[i] == s[|s| - 1 - i] && r[j] == s[|s| - 1 - j];
    }
  }

  /**
   * An evaluation order for the cells after c: exactly the other vertices
   * reachable from c, each once, dependencies before dependents; together
   * with c it is a set no arc leaves.
   */
  ghost predicate WalkFrom(E: set<(Node, Node)>, c: Node, order: seq<Node>) {
    && NoDup(order) && c !in order && TopoOrdered(E, [c] + order)
    && (forall y :: y in order <==> y != c && Reaches(E, c, y))
    && ClosedForward(E, {c} + SetOf(order))
  }

  /**
   * The walk from c, popped after c itself: exactly the other vertices
   * reachable from c, each once, dependencies before dependents, and with
   * c a set that no arc leaves.
   */
  lemma WalkOrder(E: set<(Node, Node)>, c: Node, stack: seq<Node>)
    requires Finished(E, SetOf(stack), stack)
    requires |stack| > 0 && stack[|stack| - 1] == c
    requires forall i :: 0 <= i < |stack| ==> Reaches(E, c, stack[i])
    ensures WalkFrom(E, c, Reverse(stack[..|stack| - 1]))
  {
    var body := stack[..|stack| - 1];
    var order := Reverse(body);
    ReversePostOrder(E, stack);
    assert Reverse(stack) == [c] + order;
    assert NoDup([c] + order);
    forall i | 0 <= i < |order|
      ensures order[i] != c
    {
      assert ([c] + order)[0] != ([c] + order)[i + 1];
    }
    forall i, j | 0 <= i < j < |order|
      ensures order[i] != order[j]
    {
      assert ([c] + order)[i + 1] != ([c] + order)[j + 1];
    }
    assert SetOf(stack) == {c} + SetOf(order) by {
      forall y
        ensures y in stack <==> y == c || y in order
      {
        if y in stack {
          var i :| 0 <= i < |stack| && stack[i] == y;
          if i < |stack| - 1 {
            assert order[|body| - 1 - i] == y;
          }
        }
        if y in order {
          var i :| 0 <= i < |order| && order[i] == y;
          assert stack[|body| - 1 - i] == y;
        }
      }
    }
    assert ClosedForward(E, SetOf(stack)) by {
      forall a | a in E && a.0 in SetOf(stack)
        ensures a.1 in SetOf(stack)
      {
        var i :| 0 <= i < |stack| && stack[i] == a.0;
        assert a.1 in Out(E, stack[i]);
      }
    }
    forall y
      ensures y in order <==> y != c && Reaches(E, c, y)
    {
      if y != c && Reaches(E, c, y) {
        ReachesFromClosed(E, SetOf(stack), c, y);
      }
      if y in order {
        var i :| 0 <= i < |order| && order[i] == y;
        assert stack[|body| - 1 - i] == y;
      }
    }
  }
}
