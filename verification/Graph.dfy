/** Directed graphs of named steps, and the white/gray/black search for a cycle in one
    (slippy/pipeline_config.go, detectCircularDependencies). */
module Graph {
  import opened Status

  /** Each node with the nodes it waits for; a name that is not a key has no edges. */
  type Digraph = map<string, seq<string>>

  predicate Edge(g: Digraph, a: string, b: string) {
    a in g && b in g[a]
  }

  predicate StepsOn(g: Digraph, p: seq<string>, i: int)
    requires 0 <= i < |p| - 1
  {
    Edge(g, p[i], p[i + 1])
  }

  predicate IsWalk(g: Digraph, p: seq<string>) {
    forall i :: 0 <= i < |p| - 1 ==> StepsOn(g, p, i)
  }

  predicate IsCycle(g: Digraph, p: seq<string>) {
    |p| >= 2 && p[0] == p[|p| - 1] && IsWalk(g, p)
  }

  ghost predicate Acyclic(g: Digraph) {
    forall p :: !IsCycle(g, p)
  }

  // ---- an order in which every node comes after what it waits for ----

  ghost predicate Ordered(g: Digraph, order: seq<string>) {
    forall i :: 0 <= i < |order| ==> order[i] in g && forall b :: b in g[order[i]] && b in g ==> b in order[..i]
  }

  function FirstIndex(s: seq<string>, x: string): (i: nat)
    requires x in s
    ensures i < |s| && s[i] == x && x !in s[..i]
  {
    if s[0] == x then 0 else 1 + FirstIndex(s[1..], x)
  }

  lemma {:induction false} FirstIndexIsFirst(s: seq<string>, x: string, j: nat)
    requires j < |s| && s[j] == x
    ensures FirstIndex(s, x) <= j
  {
    if s[0] != x {
      FirstIndexIsFirst(s[1..], x, j - 1);
    }
  }

  lemma EdgesGoDown(g: Digraph, order: seq<string>, a: string, b: string)
    requires Ordered(g, order) && Edge(g, a, b) && a in order && b in g
    ensures b in order && FirstIndex(order, b) < FirstIndex(order, a)
  {
    var i := FirstIndex(order, a);
    assert b in order[..i];
    var j :| 0 <= j < i && order[j] == b;
    FirstIndexIsFirst(order, b, j);
  }

  lemma {:induction false} WalksGoDown(g: Digraph, order: seq<string>, p: seq<string>, n: nat)
    requires Ordered(g, order) && (forall x :: x in g ==> x in order)
    requires IsWalk(g, p) && n < |p| && (forall i :: 0 <= i < |p| ==> p[i] in g)
    ensures p[0] in order && p[n] in order
    ensures n > 0 ==> FirstIndex(order, p[n]) < FirstIndex(order, p[0])
  {
    if n > 0 {
      hide Ordered, FirstIndex, Edge;
      WalksGoDown(g, order, p, n - 1);
      assert StepsOn(g, p, n - 1);
      EdgesGoDown(g, order, p[n - 1], p[n]);
    }
  }

  lemma CycleNodesHaveEdges(g: Digraph, p: seq<string>, i: nat)
    requires IsCycle(g, p) && i < |p|
    ensures p[i] in g
  {
    assert StepsOn(g, p, if i < |p| - 1 then i else 0);
  }

  lemma OrderedIsAcyclic(g: Digraph, order: seq<string>)
    requires Ordered(g, order) && (forall x :: x in g ==> x in order)
    ensures Acyclic(g)
  {
    hide Ordered, StepsOn, FirstIndex;
    if p :| IsCycle(g, p) {
      forall i | 0 <= i < |p| ensures p[i] in g {
        CycleNodesHaveEdges(g, p, i);
      }
      WalksGoDown(g, order, p, |p| - 1);
      assert false;
    }
  }

  lemma WalkOnward(g: Digraph, p: seq<string>, b: string)
    requires IsWalk(g, p) && (p != [] ==> Edge(g, p[|p| - 1], b))
    ensures IsWalk(g, p + [b])
  {
    var q := p + [b];
    forall i | 0 <= i < |q| - 1 ensures StepsOn(g, q, i) {
      if i < |p| - 1 { assert StepsOn(g, p, i); }
    }
  }

  lemma WalkSlice(g: Digraph, p: seq<string>, i: nat, j: nat)
    requires IsWalk(g, p) && i <= j <= |p|
    ensures IsWalk(g, p[i..j])
  {
    forall k | 0 <= k < j - i - 1 ensures StepsOn(g, p[i..j], k) {
      assert StepsOn(g, p, i + k);
    }
  }

  /** An edge back onto the path closes a cycle. */
  lemma BackEdge(g: Digraph, path: seq<string>, b: string)
    requires path != [] && IsWalk(g, path) && b in path && Edge(g, path[|path| - 1], b)
    ensures IsCycle(g, path[FirstIndex(path, b)..] + [b])
  {
    var i := FirstIndex(path, b);
    WalkSlice(g, path, i, |path|);
    assert path[i..|path|] == path[i..];
    WalkOnward(g, path[i..], b);
  }

  lemma OrderedOnward(g: Digraph, order: seq<string>, node: string)
    requires Ordered(g, order) && node in g && forall b :: b in g[node] && b in g ==> b in order
    ensures Ordered(g, order + [node])
  {
    var more := order + [node];
    forall i | 0 <= i < |more|
      ensures more[i] in g && forall b :: b in g[more[i]] && b in g ==> b in more[..i]
    {
      assert more[..i] == order[..i];
    }
  }

  // ---- the detector ----

  /** Every node has one colour, and the black ones are finished in order. */
  ghost predicate Coloured(g: Digraph, white: set<string>, gray: set<string>, black: set<string>,
                           finished: seq<string>) {
    && (forall x :: x in g <==> x in white || x in gray || x in black)
    && (forall x :: x in gray ==> x !in white)
    && (forall x :: x in black ==> x !in white && x !in gray)
    && (forall x :: x in finished <==> x in black)
    && Ordered(g, finished)
  }

  lemma EnterKeepsColours(g: Digraph, white: set<string>, gray: set<string>, black: set<string>, finished: seq<string>,
                          node: string)
    requires Coloured(g, white, gray, black, finished) && node in white
    ensures Coloured(g, white - {node}, gray + {node}, black, finished) && node in g
  {
    hide Ordered;
  }

  lemma LeaveKeepsColours(g: Digraph, white: set<string>, gray: set<string>, black: set<string>, finished: seq<string>,
                          node: string)
    requires Coloured(g, white, gray, black, finished) && node in gray
    requires node in g && forall b :: b in g[node] && b in g ==> b in black
    ensures Coloured(g, white, gray - {node}, black + {node}, finished + [node])
  {
    hide Ordered;
    OrderedOnward(g, finished, node);
  }

  lemma AnotherColour(g: Digraph, white: set<string>, gray: set<string>, black: set<string>, finished: seq<string>,
                      x: string)
    requires Coloured(g, white, gray, black, finished) && x in g && x !in white && x !in gray
    ensures x in black
  {
  }

  /** The current path: gray nodes in the order they were entered. */
  ghost predicate OnPath(g: Digraph, gray: set<string>, path: seq<string>) {
    IsWalk(g, path) && forall x :: x in path <==> x in gray
  }

  lemma PathOnward(g: Digraph, gray: set<string>, path: seq<string>, node: string)
    requires OnPath(g, gray, path) && (path != [] ==> Edge(g, path[|path| - 1], node))
    ensures OnPath(g, gray + {node}, path + [node])
  {
    WalkOnward(g, path, node);
  }

  lemma GrayClosesACycle(g: Digraph, gray: set<string>, path: seq<string>, b: string)
    requires OnPath(g, gray, path) && b in gray && path != [] && Edge(g, path[|path| - 1], b)
    ensures b in path && IsCycle(g, path[FirstIndex(path, b)..] + [b])
  {
    BackEdge(g, path, b);
  }

  class CycleDetector {
    const graph: Digraph
    var white: set<string>
    var gray: set<string>
    var black: set<string>
    ghost var finished: seq<string>

    ghost predicate Valid()
      reads this
    {
      Coloured(graph, white, gray, black, finished)
    }

    constructor (graph: Digraph)
      ensures this.graph == graph
      ensures Valid() && white == graph.Keys && gray == {} && black == {}
    {
      this.graph := graph;
      white, gray, black, finished := graph.Keys, {}, {}, [];
    }

    /** dfs. It either reports a cycle or finishes node and everything node leads to; white shrinks at every call. */
    method Dfs(node: string, path: seq<string>) returns (cycle: Option<seq<string>>)
      requires Valid() && node in white && OnPath(graph, gray, path)
      requires path != [] ==> Edge(graph, path[|path| - 1], node)
      modifies this
      ensures cycle.Some? ==> IsCycle(graph, cycle.value)
      ensures cycle.None? ==> Valid() && gray == old(gray) && white <= old(white) - {node} && old(black) + {node} <= black
      decreases |white|
    {
      hide Coloured, OnPath, IsCycle, Edge;
      PathOnward(graph, gray, path, node);
      EnterKeepsColours(graph, white, gray, black, finished, node);
      GrayIsNotWhite(graph, white, gray, black, finished, node);
      white := white - {node};
      gray := gray + {node};
      var path' := path + [node];
      var prereqs := graph[node];
      for i := 0 to |prereqs|
        invariant Valid() && gray == old(gray) + {node} && OnPath(graph, gray, path')
        invariant white <= old(white) - {node} && old(black) <= black
        invariant forall b :: b in prereqs[..i] && b in graph ==> b in black
      {
        var prereq := prereqs[i];
        EdgeTo(graph, node, i);
        if prereq in gray {
          GrayClosesACycle(graph, gray, path', prereq);
          return Some(path'[FirstIndex(path', prereq)..] + [prereq]);
        }
        if prereq in white {
          SmallerSet(white, old(white), node);
          var found := Dfs(prereq, path');
          if found.Some? {
            return found;
          }
        } else if prereq in graph {
          AnotherColour(graph, white, gray, black, finished, prereq);
        }
        assert prereqs[..i + 1] == prereqs[..i] + [prereq];
      }
      assert prereqs[..|prereqs|] == prereqs;
      LeaveKeepsColours(graph, white, gray, black, finished, node);
      gray := gray - {node};
      black := black + {node};
      finished := finished + [node];
      return None;
    }
  }

  lemma EdgeTo(g: Digraph, node: string, i: nat)
    requires node in g && i < |g[node]|
    ensures Edge(g, node, g[node][i])
  {
  }

  lemma GrayIsNotWhite(g: Digraph, white: set<string>, gray: set<string>, black: set<string>, finished: seq<string>,
                       x: string)
    requires Coloured(g, white, gray, black, finished) && x in white
    ensures x !in gray
  {
  }

  lemma SmallerSet(a: set<string>, b: set<string>, x: string)
    requires a <= b - {x} && x in b
    ensures |a| < |b|
  {
    SubsetSize(a, b - {x});
  }

  lemma {:induction false} SubsetSize(a: set<string>, b: set<string>)
    requires a <= b
    ensures |a| <= |b|
  {
    if x :| x in a {
      SubsetSize(a - {x}, b - {x});
    }
  }

  /** The search from every node still unvisited, in the order given: it finds nothing exactly when the graph
      is acyclic, and what it finds is a cycle. */
  method FindCycle(graph: Digraph, names: seq<string>) returns (cycle: Option<seq<string>>)
    requires forall x :: x in names <==> x in graph
    ensures cycle.None? <==> Acyclic(graph)
    ensures cycle.Some? ==> IsCycle(graph, cycle.value)
  {
    var detector := new CycleDetector(graph);
    for i := 0 to |names|
      invariant detector.Valid() && detector.gray == {} && detector.graph == graph
      invariant forall x :: x in names[..i] ==> x in detector.black
    {
      if names[i] in detector.white {
        var found := detector.Dfs(names[i], []);
        if found.Some? {
          return found;
        }
      }
      assert names[..i + 1] == names[..i] + [names[i]];
    }
    assert names[..|names|] == names;
    OrderedIsAcyclic(graph, detector.finished);
    return None;
  }

  // ---- a set of nodes in an acyclic graph has one with no edge into the set ----

  ghost predicate WaitsInside(g: Digraph, s: set<string>, a: string) {
    exists b :: b in s && Edge(g, a, b)
  }

  /** Every node of s waits for another node of s. */
  ghost predicate Stuck(g: Digraph, s: set<string>) {
    forall a :: a in s ==> WaitsInside(g, s, a)
  }

  lemma NextInside(g: Digraph, s: set<string>, a: string) returns (b: string)
    requires WaitsInside(g, s, a)
    ensures b in s && Edge(g, a, b)
  {
    b :| b in s && Edge(g, a, b);
  }

  lemma {:induction false} LongWalk(g: Digraph, s: set<string>, n: nat) returns (p: seq<string>)
    requires s != {} && Stuck(g, s)
    ensures |p| == n + 1 && IsWalk(g, p) && forall i :: 0 <= i < |p| ==> p[i] in s
  {
    hide WaitsInside, Edge;
    if n == 0 {
      var a :| a in s;
      p := [a];
    } else {
      var q := LongWalk(g, s, n - 1);
      var b := NextInside(g, s, q[n - 1]);
      WalkOnward(g, q, b);
      p := q + [b];
    }
  }

  lemma {:induction false} Pigeonhole(s: set<string>, p: seq<string>) returns (i: nat, j: nat)
    requires |p| > |s| && forall k :: 0 <= k < |p| ==> p[k] in s
    ensures i < j < |p| && p[i] == p[j]
    decreases |p|
  {
    var n := |p| - 1;
    if i' :| 0 <= i' < n && p[i'] == p[n] {
      i, j := i', n;
    } else {
      i, j := Pigeonhole(s - {p[n]}, p[..n]);
    }
  }

  lemma StuckHasACycle(g: Digraph, s: set<string>) returns (p: seq<string>)
    requires s != {} && Stuck(g, s)
    ensures IsCycle(g, p)
  {
    hide Stuck;
    var walk := LongWalk(g, s, |s|);
    var i, j := Pigeonhole(s, walk);
    p := walk[i..j + 1];
    WalkSlice(g, walk, i, j + 1);
  }

  lemma CycleIsStuck(g: Digraph, p: seq<string>) returns (s: set<string>)
    requires IsCycle(g, p)
    ensures s != {} && Stuck(g, s) && forall x :: x in s <==> x in p
  {
    s := set x | x in p;
    assert p[0] in s;
    forall a | a in s ensures WaitsInside(g, s, a) {
      var i :| 0 <= i < |p| && p[i] == a;
      var k := if i == |p| - 1 then 0 else i;
      assert StepsOn(g, p, k);
      assert p[k + 1] in s;
    }
  }

  /** A graph is acyclic exactly when no set of nodes waits only for itself. */
  lemma AcyclicExactlyWhenNothingIsStuck(g: Digraph)
    ensures Acyclic(g) <==> forall s: set<string> :: s != {} ==> !Stuck(g, s)
  {
    hide Stuck, IsCycle;
    if s: set<string> :| s != {} && Stuck(g, s) {
      var p := StuckHasACycle(g, s);
    }
    if p :| IsCycle(g, p) {
      var s := CycleIsStuck(g, p);
    }
  }
}
