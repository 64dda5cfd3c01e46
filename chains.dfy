// Enumerating every chain (root-to-leaf path) of the node graph
// (tabularize.py, find_all_chains). The recursive search has no memo and no
// visited set, so it terminates only when no cycle is reachable from a root;
// a ghost rank that drops along every child edge from a ranked node stands
// for that condition.
module Chains {
  import opened Seqs
  import opened Graph

  /** Every child of a ranked node is ranked lower: no cycle through ranked nodes. */
  ghost predicate Ranked(children: map<NodeId, seq<NodeId>>, rank: map<NodeId, nat>) {
    forall x, c :: x in rank && c in Lookup(children, x) ==> c in rank && rank[c] < rank[x]
  }

  /** The start nodes, in key order: ids whose parent list is empty. */
  function StartNodes(order: seq<NodeId>, parents: map<NodeId, seq<NodeId>>): (r: seq<NodeId>)
    ensures forall x :: x in r <==> x in order && x in parents && parents[x] == []
  {
    if order == [] then []
    else
      var rest := StartNodes(order[1..], parents);
      assert forall x :: x in order <==> x == order[0] || x in order[1..];
      if order[0] in parents && parents[order[0]] == [] then [order[0]] + rest else rest
  }

  /** The chains `dfs_build_chains(n, prefix)` appends, in order. */
  function ChainsFrom(children: map<NodeId, seq<NodeId>>, ghost rank: map<NodeId, nat>, n: NodeId, prefix: seq<NodeId>): seq<seq<NodeId>>
    requires Ranked(children, rank) && n in rank
    decreases rank[n], 1
  {
    var chain := prefix + [n];
    var kids := Lookup(children, n);
    if kids == [] then [chain] else ChainsThrough(children, rank, n, kids, chain)
  }

  /** The chains appended by the loop over `kids`, the children of `parent`. */
  function ChainsThrough(children: map<NodeId, seq<NodeId>>, ghost rank: map<NodeId, nat>, ghost parent: NodeId,
                         kids: seq<NodeId>, chain: seq<NodeId>): seq<seq<NodeId>>
    requires Ranked(children, rank) && parent in rank
    requires forall c :: c in kids ==> c in rank && rank[c] < rank[parent]
    decreases rank[parent], 0, |kids|
  {
    if kids == [] then []
    else ChainsFrom(children, rank, kids[0], chain) + ChainsThrough(children, rank, parent, kids[1..], chain)
  }

  /** The chains of the search started from each start node in turn. */
  function AllChains(children: map<NodeId, seq<NodeId>>, ghost rank: map<NodeId, nat>, starts: seq<NodeId>): seq<seq<NodeId>>
    requires Ranked(children, rank) && forall s :: s in starts ==> s in rank
  {
    if starts == [] then []
    else ChainsFrom(children, rank, starts[0], []) + AllChains(children, rank, starts[1..])
  }

  /** Each consecutive pair is joined by a child edge. */
  ghost predicate Linked(children: map<NodeId, seq<NodeId>>, c: seq<NodeId>) {
    forall j :: 0 <= j < |c| - 1 ==> c[j + 1] in Lookup(children, c[j])
  }

  /** A root-to-leaf path: starts at a start node, follows child edges, ends at a node without children. */
  ghost predicate IsChain(children: map<NodeId, seq<NodeId>>, starts: seq<NodeId>, c: seq<NodeId>) {
    c != [] && c[0] in starts && Linked(children, c) && Lookup(children, c[|c| - 1]) == []
  }

  /** A path that ends at a node without children. */
  ghost predicate LeafPath(children: map<NodeId, seq<NodeId>>, p: seq<NodeId>) {
    p != [] && Linked(children, p) && Lookup(children, p[|p| - 1]) == []
  }

  lemma LinkedCons(children: map<NodeId, seq<NodeId>>, n: NodeId, p: seq<NodeId>)
    requires p != [] && p[0] in Lookup(children, n) && Linked(children, p)
    ensures Linked(children, [n] + p)
  {
    var q := [n] + p;
    forall j | 0 <= j < |q| - 1 ensures q[j + 1] in Lookup(children, q[j]) {
      if j > 0 { assert q[j] == p[j - 1] && q[j + 1] == p[j]; }
    }
  }

  /** Every chain found from `n` extends `prefix` by a leaf path starting at `n`. */
  lemma {:induction false} ChainsFromSound(children: map<NodeId, seq<NodeId>>, rank: map<NodeId, nat>, n: NodeId, prefix: seq<NodeId>)
    requires Ranked(children, rank) && n in rank
    ensures forall c :: c in ChainsFrom(children, rank, n, prefix) ==>
              |c| > |prefix| && c[..|prefix|] == prefix && c[|prefix|] == n && LeafPath(children, c[|prefix|..])
    decreases rank[n], 1
  {
    var chain := prefix + [n];
    var kids := Lookup(children, n);
    if kids == [] {
      assert chain[|prefix|..] == [n];
    } else {
      ChainsThroughSound(children, rank, n, kids, chain);
      forall c | c in ChainsThrough(children, rank, n, kids, chain)
        ensures |c| > |prefix| && c[..|prefix|] == prefix && c[|prefix|] == n && LeafPath(children, c[|prefix|..])
      {
        assert c[..|chain|][..|prefix|] == c[..|prefix|];
        assert c[|prefix|] == c[..|chain|][|prefix|];
        assert c[|prefix|..] == [n] + c[|chain|..];
        LinkedCons(children, n, c[|chain|..]);
      }
    }
  }

  /** Every chain found through `kids` extends `chain` by a leaf path starting at one of them. */
  lemma {:induction false} ChainsThroughSound(children: map<NodeId, seq<NodeId>>, rank: map<NodeId, nat>, parent: NodeId,
                                              kids: seq<NodeId>, chain: seq<NodeId>)
    requires Ranked(children, rank) && parent in rank
    requires forall c :: c in kids ==> c in rank && rank[c] < rank[parent]
    ensures forall c :: c in ChainsThrough(children, rank, parent, kids, chain) ==>
              |c| > |chain| && c[..|chain|] == chain && c[|chain|] in kids && LeafPath(children, c[|chain|..])
    decreases rank[parent], 0, |kids|
  {
    if kids != [] {
      ChainsFromSound(children, rank, kids[0], chain);
      ChainsThroughSound(children, rank, parent, kids[1..], chain);
    }
  }

  lemma {:induction false} ChainsThroughContains(children: map<NodeId, seq<NodeId>>, rank: map<NodeId, nat>, parent: NodeId,
                                                 kids: seq<NodeId>, chain: seq<NodeId>, k: int)
    requires Ranked(children, rank) && parent in rank
    requires forall c :: c in kids ==> c in rank && rank[c] < rank[parent]
    requires 0 <= k < |kids|
    ensures forall c :: c in ChainsFrom(children, rank, kids[k], chain) ==> c in ChainsThrough(children, rank, parent, kids, chain)
    decreases k
  {
    if k > 0 {
      ChainsThroughContains(children, rank, parent, kids[1..], chain, k - 1);
    }
  }

  /** Every leaf path from `n` is found: the search misses no chain. */
  lemma {:induction false} ChainsFromComplete(children: map<NodeId, seq<NodeId>>, rank: map<NodeId, nat>, prefix: seq<NodeId>, p: seq<NodeId>)
    requires Ranked(children, rank) && LeafPath(children, p) && p[0] in rank
    ensures prefix + p in ChainsFrom(children, rank, p[0], prefix)
    decreases |p|
  {
    var n := p[0];
    var chain := prefix + [n];
    if |p| == 1 {
      assert prefix + p == chain;
    } else {
      var kids := Lookup(children, n);
      var tail := p[1..];
      assert tail[0] == p[1] && p[1] in Lookup(children, p[0]);
      assert tail[0] in kids && tail[0] in rank;
      assert LeafPath(children, tail) by {
        forall j | 0 <= j < |tail| - 1 ensures tail[j + 1] in Lookup(children, tail[j]) {
          assert tail[j] == p[j + 1] && tail[j + 1] == p[j + 2];
        }
      }
      ChainsFromComplete(children, rank, chain, tail);
      var k :| 0 <= k < |kids| && kids[k] == tail[0];
      ChainsThroughContains(children, rank, n, kids, chain, k);
      assert chain + tail == prefix + p;
    }
  }

  lemma {:induction false} AllChainsMember(children: map<NodeId, seq<NodeId>>, rank: map<NodeId, nat>, starts: seq<NodeId>, c: seq<NodeId>)
    requires Ranked(children, rank) && forall s :: s in starts ==> s in rank
    ensures c in AllChains(children, rank, starts) <==> exists s :: s in starts && c in ChainsFrom(children, rank, s, [])
  {
    if starts != [] {
      AllChainsMember(children, rank, starts[1..], c);
      if c in AllChains(children, rank, starts) {
        if c in ChainsFrom(children, rank, starts[0], []) {
          assert starts[0] in starts;
        } else {
          var s :| s in starts[1..] && c in ChainsFrom(children, rank, s, []);
          assert s in starts;
        }
      }
      if exists s :: s in starts && c in ChainsFrom(children, rank, s, []) {
        var s :| s in starts && c in ChainsFrom(children, rank, s, []);
        if s != starts[0] {
          assert s in starts[1..];
        }
      }
    }
  }

  /** Following the first child until a node without children gives a leaf path from `n`. */
  ghost function PathToLeaf(children: map<NodeId, seq<NodeId>>, rank: map<NodeId, nat>, n: NodeId): (p: seq<NodeId>)
    requires Ranked(children, rank) && n in rank
    ensures LeafPath(children, p) && p[0] == n
    decreases rank[n]
  {
    var kids := Lookup(children, n);
    if kids == [] then [n]
    else
      var rest := PathToLeaf(children, rank, kids[0]);
      assert forall j :: 0 <= j < |rest| ==> ([n] + rest)[j + 1] == rest[j];
      [n] + rest
  }

  /** The search finds some chain exactly when there is a start node. */
  lemma AllChainsNonEmpty(children: map<NodeId, seq<NodeId>>, rank: map<NodeId, nat>, starts: seq<NodeId>)
    requires Ranked(children, rank) && forall s :: s in starts ==> s in rank
    ensures AllChains(children, rank, starts) != [] <==> starts != []
  {
    if starts != [] {
      var p := PathToLeaf(children, rank, starts[0]);
      ChainsFromComplete(children, rank, [], p);
      assert [] + p == p;
    }
  }

  /** The chains found are exactly the root-to-leaf paths. */
  lemma AllChainsAreChains(children: map<NodeId, seq<NodeId>>, rank: map<NodeId, nat>, starts: seq<NodeId>, c: seq<NodeId>)
    requires Ranked(children, rank) && forall s :: s in starts ==> s in rank
    ensures c in AllChains(children, rank, starts) <==> IsChain(children, starts, c)
  {
    AllChainsMember(children, rank, starts, c);
    if c in AllChains(children, rank, starts) {
      var s :| s in starts && c in ChainsFrom(children, rank, s, []);
      ChainsFromSound(children, rank, s, []);
      assert c[0..] == c;
    }
    if IsChain(children, starts, c) {
      ChainsFromComplete(children, rank, [], c);
      assert [] + c == c;
    }
  }

  lemma AllChainsExact(children: map<NodeId, seq<NodeId>>, rank: map<NodeId, nat>, starts: seq<NodeId>)
    requires Ranked(children, rank) && forall s :: s in starts ==> s in rank
    ensures forall c :: c in AllChains(children, rank, starts) <==> IsChain(children, starts, c)
  {
    forall c ensures c in AllChains(children, rank, starts) <==> IsChain(children, starts, c) {
      AllChainsAreChains(children, rank, starts, c);
    }
  }

  /** The nested `dfs_build_chains`: appends the chains through `current` to `allChains`. */
  method DfsBuildChains(children: map<NodeId, seq<NodeId>>, ghost rank: map<NodeId, nat>,
                        current: NodeId, currentChain: seq<NodeId>, allChains: seq<seq<NodeId>>)
      returns (result: seq<seq<NodeId>>)
    requires Ranked(children, rank) && current in rank
    ensures result == allChains + ChainsFrom(children, rank, current, currentChain)
    decreases rank[current]
  {
    var chain := currentChain + [current];
    var nodeChildren := Lookup(children, current);
    if |nodeChildren| == 0 {
      result := allChains + [chain];
    } else {
      result := allChains;
      for i := 0 to |nodeChildren|
        invariant result == allChains + ThroughUpTo(children, rank, current, nodeChildren, chain, i)
      {
        assert nodeChildren[i] in nodeChildren;
        ghost var before := ThroughUpTo(children, rank, current, nodeChildren, chain, i);
        result := DfsBuildChains(children, rank, nodeChildren[i], chain, result);
        assert (allChains + before) + ChainsFrom(children, rank, nodeChildren[i], chain)
            == allChains + (before + ChainsFrom(children, rank, nodeChildren[i], chain));
      }
      ThroughUpToAll(children, rank, current, nodeChildren, chain);
    }
  }

  /** The chains the loop over the children of `parent` has gathered after the first `i` children. */
  ghost function ThroughUpTo(children: map<NodeId, seq<NodeId>>, rank: map<NodeId, nat>, parent: NodeId,
                             kids: seq<NodeId>, chain: seq<NodeId>, i: nat): seq<seq<NodeId>>
    requires Ranked(children, rank) && parent in rank
    requires forall c :: c in kids ==> c in rank && rank[c] < rank[parent]
    requires i <= |kids|
  {
    if i == 0 then []
    else
      assert kids[i - 1] in kids;
      ThroughUpTo(children, rank, parent, kids, chain, i - 1) + ChainsFrom(children, rank, kids[i - 1], chain)
  }

  /** What the first `i` children gathered, followed by the search through the rest, is the whole loop. */
  lemma {:induction false} ThroughUpToSplit(children: map<NodeId, seq<NodeId>>, rank: map<NodeId, nat>, parent: NodeId,
                                            kids: seq<NodeId>, chain: seq<NodeId>, i: nat)
    requires Ranked(children, rank) && parent in rank
    requires forall c :: c in kids ==> c in rank && rank[c] < rank[parent]
    requires i <= |kids|
    ensures ThroughUpTo(children, rank, parent, kids, chain, i) + ChainsThrough(children, rank, parent, kids[i..], chain)
         == ChainsThrough(children, rank, parent, kids, chain)
  {
    if i == 0 {
      assert kids[0..] == kids;
    } else {
      ThroughUpToSplit(children, rank, parent, kids, chain, i - 1);
      ThroughUpToShift(children, rank, parent, kids, chain, i);
    }
  }

  /** Moving child `i - 1` from the rest to what was gathered keeps the whole loop. */
  lemma ThroughUpToShift(children: map<NodeId, seq<NodeId>>, rank: map<NodeId, nat>, parent: NodeId,
                         kids: seq<NodeId>, chain: seq<NodeId>, i: nat)
    requires Ranked(children, rank) && parent in rank
    requires forall c :: c in kids ==> c in rank && rank[c] < rank[parent]
    requires 0 < i <= |kids|
    requires ThroughUpTo(children, rank, parent, kids, chain, i - 1) + ChainsThrough(children, rank, parent, kids[i - 1..], chain)
          == ChainsThrough(children, rank, parent, kids, chain)
    ensures ThroughUpTo(children, rank, parent, kids, chain, i) + ChainsThrough(children, rank, parent, kids[i..], chain)
         == ChainsThrough(children, rank, parent, kids, chain)
  {
    var k := kids[i - 1];
    assert k in kids;
    assert kids[i - 1..][0] == k && kids[i - 1..][1..] == kids[i..];
    var before := ThroughUpTo(children, rank, parent, kids, chain, i - 1);
    var here := ChainsFrom(children, rank, k, chain);
    var after := ChainsThrough(children, rank, parent, kids[i..], chain);
    assert (before + here) + after == before + (here + after);
  }

  /** After every child the loop has gathered the whole search through them. */
  lemma ThroughUpToAll(children: map<NodeId, seq<NodeId>>, rank: map<NodeId, nat>, parent: NodeId,
                       kids: seq<NodeId>, chain: seq<NodeId>)
    requires Ranked(children, rank) && parent in rank
    requires forall c :: c in kids ==> c in rank && rank[c] < rank[parent]
    ensures ThroughUpTo(children, rank, parent, kids, chain, |kids|) == ChainsThrough(children, rank, parent, kids, chain)
  {
    ThroughUpToSplit(children, rank, parent, kids, chain, |kids|);
    assert kids[|kids|..] == [];
  }

  /**
   * find_all_chains: every root-to-leaf path, each as often as the search
   * reaches it; none at all when no node is parentless.
   */
  method FindAllChains(order: seq<NodeId>, children: map<NodeId, seq<NodeId>>, parents: map<NodeId, seq<NodeId>>,
                       ghost rank: map<NodeId, nat>)
      returns (allChains: seq<seq<NodeId>>)
    requires Ranked(children, rank)
    requires forall s :: s in StartNodes(order, parents) ==> s in rank
    ensures allChains == AllChains(children, rank, StartNodes(order, parents))
    ensures forall c :: c in allChains <==> IsChain(children, StartNodes(order, parents), c)
  {
    var startNodes := StartNodes(order, parents);
    allChains := [];
    for i := 0 to |startNodes|
      invariant allChains == ChainsUpTo(children, rank, startNodes, i)
    {
      ChainsUpToStep(children, rank, startNodes, i);
      allChains := DfsBuildChains(children, rank, startNodes[i], [], allChains);
    }
    ChainsUpToAll(children, rank, startNodes);
    AllChainsExact(children, rank, startNodes);
  }

  /** The chains the loop of `find_all_chains` has gathered after the first `i` start nodes. */
  ghost function ChainsUpTo(children: map<NodeId, seq<NodeId>>, rank: map<NodeId, nat>, starts: seq<NodeId>, i: nat): seq<seq<NodeId>>
    requires Ranked(children, rank) && forall s :: s in starts ==> s in rank
    requires i <= |starts|
  {
    if i == 0 then []
    else
      assert starts[i - 1] in starts;
      ChainsUpTo(children, rank, starts, i - 1) + ChainsFrom(children, rank, starts[i - 1], [])
  }

  lemma ChainsUpToStep(children: map<NodeId, seq<NodeId>>, rank: map<NodeId, nat>, starts: seq<NodeId>, i: nat)
    requires Ranked(children, rank) && forall s :: s in starts ==> s in rank
    requires i < |starts|
    ensures starts[i] in rank
    ensures ChainsUpTo(children, rank, starts, i + 1) == ChainsUpTo(children, rank, starts, i) + ChainsFrom(children, rank, starts[i], [])
  {
    var s := starts[i];
    assert s in starts;
    assert s in rank;
  }

  /** What the first `i` start nodes gathered, followed by the search from the rest, is the whole search. */
  lemma {:induction false} ChainsUpToSplit(children: map<NodeId, seq<NodeId>>, rank: map<NodeId, nat>, starts: seq<NodeId>, i: nat)
    requires Ranked(children, rank) && forall s :: s in starts ==> s in rank
    requires i <= |starts|
    ensures ChainsUpTo(children, rank, starts, i) + AllChains(children, rank, starts[i..]) == AllChains(children, rank, starts)
  {
    if i == 0 {
      assert starts[0..] == starts;
    } else {
      ChainsUpToSplit(children, rank, starts, i - 1);
      ChainsUpToShift(children, rank, starts, i);
    }
  }

  /** Moving start node `i - 1` from the rest to what was gathered keeps the whole search. */
  lemma ChainsUpToShift(children: map<NodeId, seq<NodeId>>, rank: map<NodeId, nat>, starts: seq<NodeId>, i: nat)
    requires Ranked(children, rank) && forall s :: s in starts ==> s in rank
    requires 0 < i <= |starts|
    requires ChainsUpTo(children, rank, starts, i - 1) + AllChains(children, rank, starts[i - 1..]) == AllChains(children, rank, starts)
    ensures ChainsUpTo(children, rank, starts, i) + AllChains(children, rank, starts[i..]) == AllChains(children, rank, starts)
  {
    var s := starts[i - 1];
    assert s in starts;
    assert starts[i - 1..][0] == s && starts[i - 1..][1..] == starts[i..];
    var before := ChainsUpTo(children, rank, starts, i - 1);
    var here := ChainsFrom(children, rank, s, []);
    var after := AllChains(children, rank, starts[i..]);
    assert (before + here) + after == before + (here + after);
  }

  /** After every start node the loop has gathered the whole search. */
  lemma ChainsUpToAll(children: map<NodeId, seq<NodeId>>, rank: map<NodeId, nat>, starts: seq<NodeId>)
    requires Ranked(children, rank) && forall s :: s in starts ==> s in rank
    ensures ChainsUpTo(children, rank, starts, |starts|) == AllChains(children, rank, starts)
  {
    ChainsUpToSplit(children, rank, starts, |starts|);
    assert starts[|starts|..] == [];
  }

  /** With every node holding a parent (a pure cycle, say), there is no start node and no chain. */
  lemma {:induction false} NoRootNoChains(order: seq<NodeId>, children: map<NodeId, seq<NodeId>>, parents: map<NodeId, seq<NodeId>>,
                                          rank: map<NodeId, nat>)
    requires Ranked(children, rank)
    requires forall x :: x in order && x in parents ==> parents[x] != []
    ensures StartNodes(order, parents) == []
    ensures AllChains(children, rank, StartNodes(order, parents)) == []
  {
    if order != [] {
      var first := order[0];
      assert first in order;
      forall x | x in order[1..] ensures x in order { }
      NoRootNoChains(order[1..], children, parents, rank);
      assert StartNodes(order, parents) == StartNodes(order[1..], parents);
    }
  }

  /** Each node of a linked path from a ranked node is ranked lower than the one before it. */
  lemma {:induction false} LinkedRankStep(children: map<NodeId, seq<NodeId>>, rank: map<NodeId, nat>, c: seq<NodeId>, j: int)
    requires Ranked(children, rank) && Linked(children, c) && c != [] && c[0] in rank
    requires 0 <= j < |c|
    ensures c[j] in rank && (j > 0 ==> c[j - 1] in rank && rank[c[j]] < rank[c[j - 1]])
  {
    if j > 0 {
      LinkedRankStep(children, rank, c, j - 1);
      var prev, cur := c[j - 1], c[j];
      assert cur in Lookup(children, prev);
    }
  }

  /** Ranks drop along a linked path. */
  lemma {:induction false} LinkedRanksDrop(children: map<NodeId, seq<NodeId>>, rank: map<NodeId, nat>, c: seq<NodeId>, i: int, j: int)
    requires Ranked(children, rank) && Linked(children, c) && c != [] && c[0] in rank
    requires 0 <= i < j < |c|
    ensures c[i] in rank && c[j] in rank && rank[c[j]] < rank[c[i]]
    decreases j - i
  {
    LinkedRankStep(children, rank, c, j);
    LinkedRankStep(children, rank, c, i);
    if j > i + 1 {
      LinkedRanksDrop(children, rank, c, i, j - 1);
    }
  }

  /** No chain visits a node twice. */
  lemma ChainHasNoRepeats(children: map<NodeId, seq<NodeId>>, rank: map<NodeId, nat>, starts: seq<NodeId>, c: seq<NodeId>)
    requires Ranked(children, rank) && forall s :: s in starts ==> s in rank
    requires IsChain(children, starts, c)
    ensures NoDup(c)
  {
    var first := c[0];
    assert first in starts;
    forall i, j | 0 <= i < j < |c| ensures c[i] != c[j] {
      LinkedRanksDrop(children, rank, c, i, j);
    }
  }

  /**
   * The graph condition under which the search terminates, stated on the
   * input: some rank covers every parentless node and drops along every
   * known link that leaves a ranked node.
   */
  ghost predicate ChainsTerminate(nodes: seq<Node>, links: seq<Link>, rank: map<NodeId, nat>) {
    && (forall i :: 0 <= i < |links| && Known(links[i], IdSet(nodes)) && links[i].origin in rank ==>
          links[i].target in rank && rank[links[i].target] < rank[links[i].origin])
    && (forall n :: n in IdSet(nodes) && Origins(links, IdSet(nodes), n) == [] ==> n in rank)
  }

  /** Under that condition the built graph meets the search's requirements. */
  lemma TerminationRanks(nodes: seq<Node>, links: seq<Link>, rank: map<NodeId, nat>)
    requires ChainsTerminate(nodes, links, rank)
    ensures Ranked(ChildMap(nodes, links), rank)
    ensures forall s :: s in StartNodes(Ids(nodes), ParentMap(nodes, links)) ==> s in rank
  {
    ChildrenRanked(nodes, links, rank);
    StartsRanked(nodes, links, rank);
  }

  lemma ChildrenRanked(nodes: seq<Node>, links: seq<Link>, rank: map<NodeId, nat>)
    requires ChainsTerminate(nodes, links, rank)
    ensures Ranked(ChildMap(nodes, links), rank)
  {
    forall x | x in rank ensures forall c :: c in Lookup(ChildMap(nodes, links), x) ==> c in rank && rank[c] < rank[x] {
      forall c | c in Lookup(ChildMap(nodes, links), x) ensures c in rank && rank[c] < rank[x] {
        RankedChild(nodes, links, rank, x, c);
      }
    }
  }

  lemma StartsRanked(nodes: seq<Node>, links: seq<Link>, rank: map<NodeId, nat>)
    requires ChainsTerminate(nodes, links, rank)
    ensures forall s :: s in StartNodes(Ids(nodes), ParentMap(nodes, links)) ==> s in rank
  {
    forall s | s in StartNodes(Ids(nodes), ParentMap(nodes, links)) ensures s in rank {
      RankedStart(nodes, links, rank, s);
    }
  }

  /** A child of a ranked node is ranked lower. */
  lemma RankedChild(nodes: seq<Node>, links: seq<Link>, rank: map<NodeId, nat>, x: NodeId, c: NodeId)
    requires ChainsTerminate(nodes, links, rank)
    requires x in rank && c in Lookup(ChildMap(nodes, links), x)
    ensures c in rank && rank[c] < rank[x]
  {
    var known := IdSet(nodes);
    assert c in Targets(links, known, x);
    TargetsMember(links, known, x, c);
    var i :| 0 <= i < |links| && links[i].origin == x && links[i].target == c && Known(links[i], known);
  }

  /** A start node is ranked. */
  lemma RankedStart(nodes: seq<Node>, links: seq<Link>, rank: map<NodeId, nat>, s: NodeId)
    requires ChainsTerminate(nodes, links, rank)
    requires s in StartNodes(Ids(nodes), ParentMap(nodes, links))
    ensures s in rank
  {
    var parents := ParentMap(nodes, links);
    assert s in parents && parents[s] == [];
    assert s in IdSet(nodes) && Origins(links, IdSet(nodes), s) == [];
  }
}
