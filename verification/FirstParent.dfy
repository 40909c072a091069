/** The first-parent walk over a fetched slice of a commit history (github/graphql.go). */
module FirstParent {
  import opened Status

  /** A fetched commit; parents holds at most its first parent, as the query asks. */
  datatype Node = Node(oid: string, parents: seq<string>)

  /** A git history: the first parent of every commit, None at a root. */
  type History = map<string, Option<string>>

  // ---- the loop ----

  /** What the lookup map holds for an OID: the last position it was seen at. */
  function IndexOf(nodes: seq<Node>, oid: string): (i: Option<nat>)
    ensures i.Some? ==> i.value < |nodes| && nodes[i.value].oid == oid
    ensures i.None? ==> forall j :: 0 <= j < |nodes| ==> nodes[j].oid != oid
  {
    if nodes == [] then None
    else
      var n := |nodes| - 1;
      if nodes[n].oid == oid then Some(n) else IndexOf(nodes[..n], oid)
  }

  /** Of commits fetched twice the last one counts. */
  lemma {:induction false} IndexIsTheLast(nodes: seq<Node>, oid: string)
    ensures var i := IndexOf(nodes, oid);
            i.Some? ==> forall j :: i.value < j < |nodes| ==> nodes[j].oid != oid
  {
    if nodes != [] {
      var n := |nodes| - 1;
      IndexIsTheLast(nodes[..n], oid);
      assert forall j :: 0 <= j < n ==> nodes[..n][j] == nodes[j];
    }
  }

  function Next(nodes: seq<Node>, i: nat): (next: Option<nat>)
    requires i < |nodes|
    ensures next.Some? ==> next.value < |nodes|
  {
    if nodes[i].parents == [] then None else IndexOf(nodes, nodes[i].parents[0])
  }

  function Chain(nodes: seq<Node>, i: nat, depth: nat): (c: seq<string>)
    requires i < |nodes|
    ensures 1 <= |c| && c[0] == nodes[i].oid
    ensures |c| <= if depth > 1 then depth else 1
    decreases depth
  {
    if depth <= 1 || Next(nodes, i).None? then [nodes[i].oid]
    else [nodes[i].oid] + Chain(nodes, Next(nodes, i).value, depth - 1)
  }

  lemma ChainMovesOn(nodes: seq<Node>, whole: seq<string>, done: seq<string>, i: nat, next: nat, left: nat)
    requires i < |nodes| && Next(nodes, i) == Some(next) && left > 1
    requires whole == done + Chain(nodes, i, left)
    ensures next < |nodes| && whole == (done + [nodes[i].oid]) + Chain(nodes, next, left - 1)
  {
    hide Next;
  }

  lemma ChainEnds(nodes: seq<Node>, whole: seq<string>, done: seq<string>, i: nat, left: nat)
    requires i < |nodes| && (left <= 1 || Next(nodes, i).None?)
    requires whole == done + Chain(nodes, i, left)
    ensures whole == done + [nodes[i].oid]
  {
    hide Next;
  }

  lemma NextIs(nodes: seq<Node>, i: nat)
    requires i < |nodes|
    ensures nodes[i].parents == [] ==> Next(nodes, i) == None
    ensures nodes[i].parents != [] ==> Next(nodes, i) == IndexOf(nodes, nodes[i].parents[0])
  {
  }

  /** nodeMap, built in one pass; a later commit with the same OID replaces an earlier one. */
  method LookupMap(nodes: seq<Node>) returns (nodeMap: map<string, nat>)
    ensures forall oid :: oid in nodeMap <==> IndexOf(nodes, oid).Some?
    ensures forall oid :: oid in nodeMap ==> IndexOf(nodes, oid) == Some(nodeMap[oid])
  {
    nodeMap := map[];
    for i := 0 to |nodes|
      invariant forall oid :: oid in nodeMap <==> IndexOf(nodes[..i], oid).Some?
      invariant forall oid :: oid in nodeMap ==> IndexOf(nodes[..i], oid) == Some(nodeMap[oid])
    {
      assert nodes[..i + 1][..i] == nodes[..i];
      nodeMap := nodeMap[nodes[i].oid := i];
    }
    assert nodes[..|nodes|] == nodes;
  }

  /** filterFirstParentChain. */
  method FilterFirstParentChain(nodes: seq<Node>, depth: nat) returns (commits: seq<string>)
    ensures commits == if nodes == [] then [] else Chain(nodes, 0, depth)
  {
    if |nodes| == 0 {
      return [];
    }
    hide Chain, IndexOf, Next;
    var nodeMap := LookupMap(nodes);
    var current: nat := 0;
    commits := [nodes[current].oid];
    ghost var whole := Chain(nodes, 0, depth);
    ghost var done: seq<string>, left: nat := [], depth;
    while |commits| < depth
      invariant current < |nodes| && commits == done + [nodes[current].oid]
      invariant left == (if depth > |done| then depth - |done| else 0) && whole == done + Chain(nodes, current, left)
      decreases depth - |commits|
    {
      NextIs(nodes, current);
      if |nodes[current].parents| == 0 {
        break;
      }
      var parent := nodes[current].parents[0];
      if parent !in nodeMap {
        break;
      }
      var next := nodeMap[parent];
      ChainMovesOn(nodes, whole, done, current, next, left);
      done, left := commits, left - 1;
      commits := commits + [nodes[next].oid];
      current := next;
    }
    ChainEnds(nodes, whole, done, current, left);
  }

  // ---- the true history ----

  /** Every fetched commit is one of the history's, with its first parent. */
  ghost predicate FetchedFrom(nodes: seq<Node>, history: History) {
    forall i :: 0 <= i < |nodes| ==>
      nodes[i].oid in history && history[nodes[i].oid] == if nodes[i].parents == [] then None else Some(nodes[i].parents[0])
  }

  /** The commit n first-parent steps behind oid. */
  function Ancestor(history: History, oid: string, n: nat): Option<string> {
    if n == 0 then Some(oid)
    else
      var before := Ancestor(history, oid, n - 1);
      if before.Some? && before.value in history then history[before.value] else None
  }

  ghost predicate AcyclicHistory(history: History) {
    forall oid, n: nat :: n > 0 ==> Ancestor(history, oid, n) != Some(oid)
  }

  lemma {:induction false} AncestorOfParent(history: History, oid: string, n: nat)
    requires oid in history && history[oid].Some?
    ensures Ancestor(history, oid, n + 1) == Ancestor(history, history[oid].value, n)
  {
    if n > 0 {
      AncestorOfParent(history, oid, n - 1);
    }
  }

  lemma {:induction false} AncestorsCompose(history: History, oid: string, m: nat, n: nat)
    requires Ancestor(history, oid, m).Some?
    ensures Ancestor(history, oid, m + n) == Ancestor(history, Ancestor(history, oid, m).value, n)
  {
    if n > 0 {
      AncestorsCompose(history, oid, m, n - 1);
      assert m + n - 1 == m + (n - 1);
    }
  }

  /** The chain lists the true ancestors of its first commit, one step apart. */
  lemma {:induction false} ChainIsTheWalk(nodes: seq<Node>, history: History, i: nat, depth: nat, k: nat)
    requires FetchedFrom(nodes, history) && i < |nodes| && k < |Chain(nodes, i, depth)|
    ensures Ancestor(history, nodes[i].oid, k) == Some(Chain(nodes, i, depth)[k])
    decreases depth
  {
    if k > 0 {
      var next := Next(nodes, i).value;
      ChainIsTheWalk(nodes, history, next, depth - 1, k - 1);
      AncestorOfParent(history, nodes[i].oid, k - 1);
    }
  }

  /** A chain shorter than asked for ends at a root or at a commit whose first parent was not fetched. */
  lemma {:induction false} ChainStopsOnlyAtTheEnd(nodes: seq<Node>, history: History, i: nat, depth: nat)
    requires FetchedFrom(nodes, history) && i < |nodes| && |Chain(nodes, i, depth)| < depth
    ensures var chain := Chain(nodes, i, depth); var last := chain[|chain| - 1];
            && last in history
            && (history[last].None? || forall j :: 0 <= j < |nodes| ==> nodes[j].oid != history[last].value)
    decreases depth
  {
    if Next(nodes, i).Some? {
      ChainStopsOnlyAtTheEnd(nodes, history, Next(nodes, i).value, depth - 1);
    }
  }

  /** Asking for more only makes the chain longer. */
  lemma {:induction false} ChainGrowsWithDepth(nodes: seq<Node>, i: nat, depth: nat, more: nat)
    requires i < |nodes| && depth <= more
    ensures Chain(nodes, i, depth) <= Chain(nodes, i, more)
    decreases depth
  {
    if depth > 1 && Next(nodes, i).Some? {
      ChainGrowsWithDepth(nodes, Next(nodes, i).value, depth - 1, more - 1);
    }
  }

  /** In a history without cycles no commit is listed twice. */
  lemma ChainRepeatsNothing(nodes: seq<Node>, history: History, depth: nat, j: nat, k: nat)
    requires nodes != [] && FetchedFrom(nodes, history) && AcyclicHistory(history)
    requires j < k < |Chain(nodes, 0, depth)|
    ensures Chain(nodes, 0, depth)[j] != Chain(nodes, 0, depth)[k]
  {
    ChainIsTheWalk(nodes, history, 0, depth, j);
    ChainIsTheWalk(nodes, history, 0, depth, k);
    AncestorsCompose(history, nodes[0].oid, j, k - j);
  }
}
