// Splitting the node set into connected components (tabularize.py,
// find_disconnected_components): an undirected adjacency built from the links,
// then a recursive depth-first search that marks nodes visited and appends
// them to the component being collected. Python set iteration order is not
// fixed, so every set is iterated in an arbitrary order here and each property
// holds whatever that order is.
module Components {
  import opened Seqs
  import opened Graph

  /** The undirected neighbours of `n`: link targets leaving it and link origins entering it. */
  function Neighbours(links: seq<Link>, known: set<NodeId>, n: NodeId): set<NodeId> {
    Elems(Targets(links, known, n)) + Elems(Origins(links, known, n))
  }

  function Adjacency(links: seq<Link>, known: set<NodeId>): map<NodeId, set<NodeId>> {
    map n | n in known :: Neighbours(links, known, n)
  }

  /** Every neighbour is itself a known node. */
  ghost predicate Closed(adjacency: map<NodeId, set<NodeId>>) {
    forall x :: x in adjacency ==> adjacency[x] <= adjacency.Keys
  }

  /** A set of nodes that no adjacency leaves. */
  ghost predicate ClosedSet(adjacency: map<NodeId, set<NodeId>>, s: set<NodeId>) {
    forall x :: x in s && x in adjacency ==> adjacency[x] <= s
  }

  /** The adjacency covers exactly the known ids and never points outside them. */
  lemma AdjacencyClosed(links: seq<Link>, known: set<NodeId>)
    ensures Adjacency(links, known).Keys == known
    ensures Closed(Adjacency(links, known))
  {
    forall n | n in known ensures Neighbours(links, known, n) <= known {
      TargetsKnown(links, known, n);
      OriginsKnown(links, known, n);
    }
  }

  /** Links are followed both ways: y neighbours x exactly when x neighbours y. */
  lemma AdjacencySymmetric(links: seq<Link>, known: set<NodeId>, x: NodeId, y: NodeId)
    ensures y in Neighbours(links, known, x) <==> x in Neighbours(links, known, y)
  {
    ChildParentMirror(links, known, x, y);
    ChildParentMirror(links, known, y, x);
    assert y in Targets(links, known, x) <==> y in multiset(Targets(links, known, x));
    assert x in Origins(links, known, y) <==> x in multiset(Origins(links, known, y));
    assert x in Targets(links, known, y) <==> x in multiset(Targets(links, known, y));
    assert y in Origins(links, known, x) <==> y in multiset(Origins(links, known, x));
  }

  /** A known link makes its endpoints neighbours. */
  lemma LinkedAreNeighbours(links: seq<Link>, known: set<NodeId>, i: int)
    requires 0 <= i < |links| && Known(links[i], known)
    ensures links[i].target in Neighbours(links, known, links[i].origin)
  {
    TargetsMember(links, known, links[i].origin, links[i].target);
  }

  lemma NeighboursSnoc(links: seq<Link>, l: Link, known: set<NodeId>, n: NodeId)
    ensures Neighbours(links + [l], known, n)
         == Neighbours(links, known, n)
            + (if Known(l, known) && n == l.origin then {l.target} else {})
            + (if Known(l, known) && n == l.target then {l.origin} else {})
  {
    TargetsSnoc(links, l, known, n);
    OriginsSnoc(links, l, known, n);
  }

  /** Adds each endpoint of `l` to the other's neighbour set, as the builder's loop body does. */
  function AddLink(adjacency: map<NodeId, set<NodeId>>, l: Link): map<NodeId, set<NodeId>>
    requires l.origin in adjacency && l.target in adjacency
  {
    var a := adjacency[l.origin := adjacency[l.origin] + {l.target}];
    a[l.target := a[l.target] + {l.origin}]
  }

  lemma AddLinkAt(adjacency: map<NodeId, set<NodeId>>, l: Link, n: NodeId)
    requires l.origin in adjacency && l.target in adjacency && n in adjacency
    ensures AddLink(adjacency, l).Keys == adjacency.Keys
    ensures AddLink(adjacency, l)[n]
         == adjacency[n] + (if n == l.origin then {l.target} else {}) + (if n == l.target then {l.origin} else {})
  {
  }

  /** One more link adds each known endpoint to the other's neighbour set. */
  lemma AdjacencySnoc(links: seq<Link>, l: Link, known: set<NodeId>)
    ensures Known(l, known) ==> Adjacency(links + [l], known) == AddLink(Adjacency(links, known), l)
    ensures !Known(l, known) ==> Adjacency(links + [l], known) == Adjacency(links, known)
  {
    var before, after := Adjacency(links, known), Adjacency(links + [l], known);
    if Known(l, known) {
      var expected := AddLink(before, l);
      forall n | n in known ensures after[n] == expected[n] {
        NeighboursSnoc(links, l, known, n);
        AddLinkAt(before, l, n);
      }
      AddLinkAt(before, l, l.origin);
      assert after.Keys == expected.Keys;
    } else {
      forall n | n in known ensures after[n] == before[n] {
        NeighboursSnoc(links, l, known, n);
      }
    }
  }

  /** The first loop of find_disconnected_components. */
  method BuildAdjacency(known: set<NodeId>, links: seq<Link>) returns (adjacency: map<NodeId, set<NodeId>>)
    ensures adjacency == Adjacency(links, known)
  {
    adjacency := map n | n in known :: {};
    var i := 0;
    while i < |links|
      invariant 0 <= i <= |links|
      invariant adjacency == LinkFold(links[..i], known)
    {
      var l := links[i];
      assert links[..i + 1][..i] == links[..i];
      if l.origin in adjacency && l.target in adjacency {
        adjacency := adjacency[l.origin := adjacency[l.origin] + {l.target}];
        adjacency := adjacency[l.target := adjacency[l.target] + {l.origin}];
      }
      i := i + 1;
    }
    assert links[..|links|] == links;
    LinkFoldIsAdjacency(links, known);
  }

  /** The adjacency the builder's loop has produced after the given links. */
  function LinkFold(links: seq<Link>, known: set<NodeId>): (adjacency: map<NodeId, set<NodeId>>)
    ensures adjacency.Keys == known
  {
    if links == [] then map n | n in known :: {}
    else
      var before := LinkFold(links[..|links| - 1], known);
      var l := links[|links| - 1];
      if l.origin in before && l.target in before then AddLink(before, l) else before
  }

  lemma {:induction false} LinkFoldIsAdjacency(links: seq<Link>, known: set<NodeId>)
    ensures LinkFold(links, known) == Adjacency(links, known)
  {
    if links == [] {
      forall n | n in known ensures Neighbours(links, known, n) == {} {
      }
    } else {
      var init, l := links[..|links| - 1], links[|links| - 1];
      LinkFoldIsAdjacency(init, known);
      assert links == init + [l];
      AdjacencySnoc(init, l, known);
    }
  }

  /**
   * Every node of `c` after the first neighbours some earlier node of `c`, so
   * the whole sequence is reachable from its head. Stated on prefixes, one
   * node at a time, as the search appends them.
   */
  ghost predicate Grown(adjacency: map<NodeId, set<NodeId>>, c: seq<NodeId>)
    decreases |c|
  {
    |c| <= 1 ||
    (Grown(adjacency, c[..|c| - 1]) &&
     exists i :: 0 <= i < |c| - 1 && c[i] in adjacency && c[|c| - 1] in adjacency[c[i]])
  }

  /** An earlier neighbour of a node of a grown sequence. */
  lemma {:induction false} GrownParent(adjacency: map<NodeId, set<NodeId>>, c: seq<NodeId>, j: int) returns (i: int)
    requires Grown(adjacency, c) && 0 < j < |c|
    ensures 0 <= i < j && c[i] in adjacency && c[j] in adjacency[c[i]]
    decreases |c|
  {
    if j == |c| - 1 {
      i :| 0 <= i < |c| - 1 && c[i] in adjacency && c[|c| - 1] in adjacency[c[i]];
    } else {
      var init := c[..|c| - 1];
      i := GrownParent(adjacency, init, j);
      assert init[i] == c[i] && init[j] == c[j];
    }
  }

  /**
   * The converse of GrownParent: a sequence in which every node after the
   * first neighbours the earlier node `parent` names for it is grown.
   */
  lemma {:induction false} GrownFromParents(adjacency: map<NodeId, set<NodeId>>, c: seq<NodeId>, parent: seq<int>)
    requires |parent| == |c|
    requires forall j :: 0 < j < |c| ==> 0 <= parent[j] < j && c[parent[j]] in adjacency && c[j] in adjacency[c[parent[j]]]
    ensures Grown(adjacency, c)
    decreases |c|
  {
    if |c| > 1 {
      var last := |c| - 1;
      var init := c[..last];
      GrownFromParents(adjacency, init, parent[..last]);
      assert c[parent[last]] in adjacency && c[last] in adjacency[c[parent[last]]];
    }
  }

  /** A grown sequence followed by one grown from a neighbour of one of its nodes is grown. */
  lemma {:induction false} GrownConcat(adjacency: map<NodeId, set<NodeId>>, a: seq<NodeId>, b: seq<NodeId>, h: int)
    requires Grown(adjacency, a) && Grown(adjacency, b) && b != []
    requires 0 <= h < |a| && a[h] in adjacency && b[0] in adjacency[a[h]]
    ensures Grown(adjacency, a + b)
    decreases |b|
  {
    var ab := a + b;
    if |b| == 1 {
      assert ab[..|ab| - 1] == a && ab[h] == a[h] && ab[|ab| - 1] == b[0];
    } else {
      var init := b[..|b| - 1];
      assert init[0] == b[0];
      GrownConcat(adjacency, a, init, h);
      assert ab[..|ab| - 1] == a + init;
      var i :| 0 <= i < |b| - 1 && b[i] in adjacency && b[|b| - 1] in adjacency[b[i]];
      assert ab[|a| + i] == b[i] && ab[|ab| - 1] == b[|b| - 1];
    }
  }

  /**
   * What one search from `n` has appended: `n` first, then distinct nodes,
   * exactly those it visited beyond `seen`, each after a neighbour of it.
   */
  ghost predicate SearchedFrom(adjacency: map<NodeId, set<NodeId>>, n: NodeId, seen: set<NodeId>, visited: set<NodeId>, segment: seq<NodeId>) {
    && segment != [] && segment[0] == n
    && NoDup(segment) && Elems(segment) == visited - seen
    && Grown(adjacency, segment)
  }

  /** A nested search from a neighbour of `n` extends what the search from `n` has appended. */
  lemma ExtendSearch(adjacency: map<NodeId, set<NodeId>>, n: NodeId, m: NodeId, start: set<NodeId>, seen: set<NodeId>, visited: set<NodeId>,
                     segment: seq<NodeId>, added: seq<NodeId>)
    requires SearchedFrom(adjacency, n, start, seen, segment) && SearchedFrom(adjacency, m, seen, visited, added)
    requires n in adjacency && m in adjacency[n] && start <= seen <= visited
    ensures SearchedFrom(adjacency, n, start, visited, segment + added)
  {
    forall x | x in segment ensures x !in added {
      assert x in Elems(segment);
    }
    NoDupConcat(segment, added);
    GrownConcat(adjacency, segment, added, 0);
    assert Elems(segment + added) == Elems(segment) + Elems(added);
  }

  /** The state of one search: the shared visited set and the component being collected. */
  class ComponentSearch {
    const adjacency: map<NodeId, set<NodeId>>
    var visited: set<NodeId>
    var component: seq<NodeId>

    constructor (adj: map<NodeId, set<NodeId>>)
      ensures adjacency == adj && visited == {} && component == []
    {
      adjacency := adj;
      visited := {};
      component := [];
    }

    /**
     * The nested `dfs`: marks `n`, appends it, then recurses into every
     * neighbour still unvisited when its turn comes. The nodes it appends are
     * exactly the ones it marks, each once, starting with `n`, each after a
     * neighbour of it, and every neighbour of one of them is visited when it
     * returns.
     */
    method Dfs(n: NodeId)
      requires Closed(adjacency) && visited <= adjacency.Keys
      requires n in adjacency && n !in visited
      modifies this
      decreases adjacency.Keys - visited
      ensures old(visited) + {n} <= visited <= adjacency.Keys
      ensures |component| > |old(component)| && component[..|old(component)|] == old(component)
      ensures SearchedFrom(adjacency, n, old(visited), visited, component[|old(component)|..])
      ensures forall x :: x in visited - old(visited) ==> adjacency[x] <= visited
    {
      ghost var start := |component|;
      visited := visited + {n};
      component := component + [n];
      var todo := adjacency[n];
      while todo != {}
        invariant old(visited) + {n} <= visited <= adjacency.Keys
        invariant todo <= adjacency[n]
        invariant start < |component| && component[..start] == old(component)
        invariant SearchedFrom(adjacency, n, old(visited), visited, component[start..])
        invariant forall x :: x in visited - old(visited) && x != n ==> adjacency[x] <= visited
        invariant adjacency[n] - todo <= visited
        decreases todo
      {
        if forall m :: m !in todo {
          assert false;
        }
        var m :| m in todo;
        todo := todo - {m};
        if m !in visited {
          ghost var before, seen := component, visited;
          Dfs(m);
          ghost var added := component[|before|..];
          assert component == before + added;
          SliceAppend(before, added, start);
          ExtendSearch(adjacency, n, m, old(visited), seen, visited, before[start..], added);
        }
      }
    }

    /** `component = []; dfs(node_id, component)`: one fresh component grown from `n`. */
    method Collect(n: NodeId) returns (result: seq<NodeId>)
      requires Closed(adjacency) && visited <= adjacency.Keys
      requires n in adjacency && n !in visited
      modifies this
      ensures result == component && result != [] && result[0] == n && NoDup(result)
      ensures old(visited) <= visited <= adjacency.Keys
      ensures Elems(result) == visited - old(visited)
      ensures forall x :: x in visited - old(visited) ==> adjacency[x] <= visited
      ensures Grown(adjacency, result)
    {
      component := [];
      Dfs(n);
      result := component;
      assert result == component[0..];
    }
  }

  /** Every neighbour relation goes both ways. */
  ghost predicate Symmetric(adjacency: map<NodeId, set<NodeId>>) {
    forall x, y :: x in adjacency && y in adjacency[x] ==> y in adjacency && x in adjacency[y]
  }

  lemma AdjacencyIsSymmetric(links: seq<Link>, known: set<NodeId>)
    ensures Symmetric(Adjacency(links, known))
  {
    var adjacency := Adjacency(links, known);
    forall x, y | x in adjacency && y in adjacency[x] ensures y in adjacency && x in adjacency[y] {
      TargetsKnown(links, known, x);
      OriginsKnown(links, known, x);
      AdjacencySymmetric(links, known, x, y);
    }
  }

  /**
   * A search started outside a closed visited set collects a component that no
   * adjacency leaves: a neighbour already visited before would have had the
   * new node among its own visited neighbours.
   */
  lemma NewComponentClosed(adjacency: map<NodeId, set<NodeId>>, seen: set<NodeId>, visited: set<NodeId>, component: seq<NodeId>)
    requires Symmetric(adjacency) && ClosedSet(adjacency, seen)
    requires seen <= visited <= adjacency.Keys && Elems(component) == visited - seen
    requires forall x :: x in visited - seen ==> adjacency[x] <= visited
    ensures forall x :: x in component ==> x in adjacency && adjacency[x] <= Elems(component)
    ensures ClosedSet(adjacency, visited)
  {
    forall x | x in component ensures x in adjacency && adjacency[x] <= Elems(component) {
      assert x in Elems(component);
      forall y | y in adjacency[x] ensures y in Elems(component) {
        assert x in adjacency[y];
      }
    }
  }

  lemma AppendComponent(components: seq<seq<NodeId>>, component: seq<NodeId>)
    requires NoDup(Flatten(components)) && NoDup(component)
    requires Elems(component) !! Elems(Flatten(components))
    ensures NoDup(Flatten(components + [component]))
    ensures Elems(Flatten(components + [component])) == Elems(Flatten(components)) + Elems(component)
  {
    FlattenSnoc(components, component);
    forall x | x in Flatten(components) ensures x !in component {
      assert x in Elems(Flatten(components));
    }
    NoDupConcat(Flatten(components), component);
  }

  /** Non-empty components, none of which an adjacency leaves. */
  ghost predicate SeparateComponents(adjacency: map<NodeId, set<NodeId>>, components: seq<seq<NodeId>>) {
    forall k :: 0 <= k < |components| ==>
      components[k] != [] &&
      forall x :: x in components[k] ==> x in adjacency && adjacency[x] <= Elems(components[k])
  }

  lemma ExtendSeparate(adjacency: map<NodeId, set<NodeId>>, components: seq<seq<NodeId>>, component: seq<NodeId>)
    requires SeparateComponents(adjacency, components) && component != []
    requires forall x :: x in component ==> x in adjacency && adjacency[x] <= Elems(component)
    ensures SeparateComponents(adjacency, components + [component])
  {
    var cs := components + [component];
    forall k | 0 <= k < |cs|
      ensures cs[k] != [] && forall x :: x in cs[k] ==> x in adjacency && adjacency[x] <= Elems(cs[k])
    {
      if k < |components| { assert cs[k] == components[k]; }
    }
  }

  /** Both endpoints of a known link lie in the same component. */
  ghost predicate LinksStayInside(links: seq<Link>, known: set<NodeId>, components: seq<seq<NodeId>>) {
    forall i, k :: 0 <= i < |links| && Known(links[i], known) && 0 <= k < |components| ==>
      (links[i].origin in components[k] <==> links[i].target in components[k])
  }

  /** Components that no adjacency leaves keep both endpoints of every known link together. */
  lemma ClosedComponentsKeepLinks(links: seq<Link>, known: set<NodeId>, components: seq<seq<NodeId>>)
    requires forall k, x :: 0 <= k < |components| && x in components[k] ==>
               x in known && Neighbours(links, known, x) <= Elems(components[k])
    ensures LinksStayInside(links, known, components)
  {
    forall i, k | 0 <= i < |links| && Known(links[i], known) && 0 <= k < |components|
      ensures links[i].origin in components[k] <==> links[i].target in components[k]
    {
      LinkedAreNeighbours(links, known, i);
      AdjacencySymmetric(links, known, links[i].origin, links[i].target);
    }
  }

  /** The second loop of find_disconnected_components: one search per node not yet visited. */
  method SplitComponents(adjacency: map<NodeId, set<NodeId>>) returns (components: seq<seq<NodeId>>)
    requires Closed(adjacency) && Symmetric(adjacency)
    ensures NoDup(Flatten(components)) && Elems(Flatten(components)) == adjacency.Keys
    ensures SeparateComponents(adjacency, components)
    ensures forall k :: 0 <= k < |components| ==> Grown(adjacency, components[k])
  {
    var search := new ComponentSearch(adjacency);
    components := [];
    var remaining := adjacency.Keys;
    while remaining != {}
      invariant search.adjacency == adjacency && remaining <= adjacency.Keys
      invariant search.visited == Elems(Flatten(components)) && search.visited <= adjacency.Keys
      invariant adjacency.Keys - remaining <= search.visited
      invariant NoDup(Flatten(components))
      invariant ClosedSet(adjacency, search.visited)
      invariant SeparateComponents(adjacency, components)
      invariant forall k :: 0 <= k < |components| ==> Grown(adjacency, components[k])
      decreases remaining
    {
      if forall m :: m !in remaining {
        assert false;
      }
      var n :| n in remaining;
      remaining := remaining - {n};
      if n !in search.visited {
        ghost var seen := search.visited;
        var component := search.Collect(n);
        NewComponentClosed(adjacency, seen, search.visited, component);
        AppendComponent(components, component);
        ExtendSeparate(adjacency, components, component);
        components := components + [component];
      }
    }
  }

  /**
   * What find_disconnected_components returns: non-empty components that
   * together hold every known id exactly once, with no link between two of
   * them, each grown from its head along the adjacency (so connected).
   */
  ghost predicate ConnectedComponents(links: seq<Link>, known: set<NodeId>, components: seq<seq<NodeId>>) {
    && (forall k :: 0 <= k < |components| ==> components[k] != [])
    && NoDup(Flatten(components))
    && Elems(Flatten(components)) == known
    && LinksStayInside(links, known, components)
    && (forall k :: 0 <= k < |components| ==> Grown(Adjacency(links, known), components[k]))
  }

  /** find_disconnected_components: the connected components of the nodes under the links. */
  method FindDisconnectedComponents(nodes: seq<Node>, links: seq<Link>) returns (components: seq<seq<NodeId>>)
    ensures ConnectedComponents(links, IdSet(nodes), components)
  {
    var ids := IdSet(nodes);
    var adjacency := BuildAdjacency(ids, links);
    AdjacencyClosed(links, ids);
    AdjacencyIsSymmetric(links, ids);
    components := SplitComponents(adjacency);
    forall k, x | 0 <= k < |components| && x in components[k]
      ensures x in ids && Neighbours(links, ids, x) <= Elems(components[k])
    {
      assert adjacency[x] == Neighbours(links, ids, x);
    }
    ClosedComponentsKeepLinks(links, ids, components);
  }

  /** Both ends of a neighbour pair lie in the same component when no link leaves a component. */
  lemma NeighbourInside(links: seq<Link>, known: set<NodeId>, components: seq<seq<NodeId>>, k: int, y: NodeId, z: NodeId)
    requires LinksStayInside(links, known, components) && 0 <= k < |components|
    requires z in Neighbours(links, known, y)
    ensures y in components[k] <==> z in components[k]
  {
    if z in Targets(links, known, y) {
      TargetsMember(links, known, y, z);
      var i :| 0 <= i < |links| && links[i].origin == y && links[i].target == z && Known(links[i], known);
    } else {
      assert z in Origins(links, known, y);
      OriginsMember(links, known, y, z);
      var i :| 0 <= i < |links| && links[i].origin == z && links[i].target == y && Known(links[i], known);
    }
  }

  /** Walking back along a grown sequence from a node inside a component reaches its head. */
  lemma {:induction false} HeadInside(links: seq<Link>, known: set<NodeId>, c: seq<NodeId>, j: int, components: seq<seq<NodeId>>, k: int)
    requires Grown(Adjacency(links, known), c) && 0 <= j < |c|
    requires LinksStayInside(links, known, components) && 0 <= k < |components| && c[j] in components[k]
    ensures c[0] in components[k]
    decreases j
  {
    if j > 0 {
      var i := GrownParent(Adjacency(links, known), c, j);
      NeighbourInside(links, known, components, k, c[i], c[j]);
      HeadInside(links, known, c, i, components, k);
    }
  }

  /** Walking forward from a head inside a component reaches every node of a grown sequence. */
  lemma {:induction false} AllInside(links: seq<Link>, known: set<NodeId>, c: seq<NodeId>, j: int, components: seq<seq<NodeId>>, k: int)
    requires Grown(Adjacency(links, known), c) && 0 <= j < |c|
    requires LinksStayInside(links, known, components) && 0 <= k < |components| && c[0] in components[k]
    ensures c[j] in components[k]
    decreases j
  {
    if j > 0 {
      var i := GrownParent(Adjacency(links, known), c, j);
      AllInside(links, known, c, i, components, k);
      NeighbourInside(links, known, components, k, c[i], c[j]);
    }
  }

  /** A grown sequence that meets a component no link leaves lies inside it. */
  lemma GrownInside(links: seq<Link>, known: set<NodeId>, c: seq<NodeId>, components: seq<seq<NodeId>>, k: int, x: NodeId)
    requires Grown(Adjacency(links, known), c) && LinksStayInside(links, known, components)
    requires 0 <= k < |components| && x in c && x in components[k]
    ensures Elems(c) <= Elems(components[k])
  {
    var j :| 0 <= j < |c| && c[j] == x;
    HeadInside(links, known, c, j, components, k);
    forall y | y in Elems(c) ensures y in Elems(components[k]) {
      var m :| 0 <= m < |c| && c[m] == y;
      AllInside(links, known, c, m, components, k);
    }
  }

  /** The component of `q` holding the same nodes as component `k` of `p`. */
  lemma MatchingComponent(links: seq<Link>, known: set<NodeId>, p: seq<seq<NodeId>>, q: seq<seq<NodeId>>, k: int) returns (m: int)
    requires ConnectedComponents(links, known, p) && ConnectedComponents(links, known, q) && 0 <= k < |p|
    ensures 0 <= m < |q| && Elems(p[k]) == Elems(q[m])
  {
    var x := p[k][0];
    FlattenMember(p, x);
    assert x in Elems(Flatten(p));
    FlattenMember(q, x);
    m :| 0 <= m < |q| && x in q[m];
    GrownInside(links, known, p[k], q, m, x);
    GrownInside(links, known, q[m], p, k, x);
  }

  /** The node sets of the components, in order. */
  function ComponentSets(components: seq<seq<NodeId>>): (r: seq<set<NodeId>>)
    ensures |r| == |components| && forall k :: 0 <= k < |r| ==> r[k] == Elems(components[k])
  {
    seq(|components|, k requires 0 <= k < |components| => Elems(components[k]))
  }

  /** Non-empty components that share no node have pairwise different node sets. */
  lemma ComponentSetsDistinct(components: seq<seq<NodeId>>)
    requires forall k :: 0 <= k < |components| ==> components[k] != []
    requires NoDup(Flatten(components))
    ensures NoDup(ComponentSets(components))
  {
    FlattenApart(components);
    var sets := ComponentSets(components);
    forall i, j | 0 <= i < j < |sets| ensures sets[i] != sets[j] {
      assert components[i][0] in sets[i];
    }
  }

  /**
   * The split is unique up to order: two results of
   * find_disconnected_components for the same nodes and links have equally
   * many components, and each component of one holds exactly the nodes of
   * some component of the other.
   */
  lemma ComponentsUnique(links: seq<Link>, known: set<NodeId>, p: seq<seq<NodeId>>, q: seq<seq<NodeId>>)
    requires ConnectedComponents(links, known, p) && ConnectedComponents(links, known, q)
    ensures |p| == |q|
    ensures forall k :: 0 <= k < |p| ==> exists m :: 0 <= m < |q| && Elems(p[k]) == Elems(q[m])
  {
    forall k | 0 <= k < |p| ensures exists m :: 0 <= m < |q| && Elems(p[k]) == Elems(q[m]) {
      var m := MatchingComponent(links, known, p, q, k);
    }
    var sp, sq := ComponentSets(p), ComponentSets(q);
    forall s | s in Elems(sp) ensures s in Elems(sq) {
      var k :| 0 <= k < |sp| && sp[k] == s;
      var m := MatchingComponent(links, known, p, q, k);
      assert sq[m] == s;
    }
    forall s | s in Elems(sq) ensures s in Elems(sp) {
      var m :| 0 <= m < |sq| && sq[m] == s;
      var k := MatchingComponent(links, known, q, p, m);
      assert sp[k] == s;
    }
    assert Elems(sp) == Elems(sq);
    ComponentSetsDistinct(p);
    ComponentSetsDistinct(q);
    NoDupCard(sp);
    NoDupCard(sq);
  }

  /** The example split holds the ids 1 to 4, each once. */
  lemma TwoWorkflowsIds(split: seq<seq<NodeId>>)
    requires split == [[1, 2], [3, 4]]
    ensures NoDup(Flatten(split)) && Elems(Flatten(split)) == {1, 2, 3, 4}
  {
    assert Flatten(split) == [1, 2] + [3, 4] by {
      assert split[..1] == [[1, 2]] && split[..1][..0] == [];
      FlattenSnoc(split[..1][..0], [1, 2]);
      FlattenSnoc(split[..1], [3, 4]);
    }
    var ids: seq<NodeId> := [1, 2, 3, 4];
    assert NoDup(ids) by {
      forall i | 0 <= i < |ids| ensures ids[i] == i + 1 {
        if i == 0 {} else if i == 1 {} else if i == 2 {} else {}
      }
    }
    assert forall x :: x in ids <==> x in {1, 2, 3, 4};
  }

  /** Each workflow of the example is grown from its head along its one link. */
  lemma TwoWorkflowsGrown(links: seq<Link>, known: set<NodeId>)
    requires links == [Link(1, 1, 0, 2, 0), Link(2, 3, 0, 4, 0)] && known == {1, 2, 3, 4}
    ensures Grown(Adjacency(links, known), [1, 2]) && Grown(Adjacency(links, known), [3, 4])
  {
    var adjacency := Adjacency(links, known);
    LinkedAreNeighbours(links, known, 0);
    LinkedAreNeighbours(links, known, 1);
    assert adjacency[1] == Neighbours(links, known, 1) && adjacency[3] == Neighbours(links, known, 3);
    var first, second: seq<NodeId> := [1, 2], [3, 4];
    assert first[..1] == [1] && first[0] == 1 && first[|first| - 1] == 2;
    assert second[..1] == [3] && second[0] == 3 && second[|second| - 1] == 4;
  }

  /** Each link of the example stays inside one workflow. */
  lemma TwoWorkflowsApart(links: seq<Link>, known: set<NodeId>, split: seq<seq<NodeId>>)
    requires links == [Link(1, 1, 0, 2, 0), Link(2, 3, 0, 4, 0)] && split == [[1, 2], [3, 4]]
    ensures LinksStayInside(links, known, split)
  {
    forall i, k | 0 <= i < |links| && Known(links[i], known) && 0 <= k < |split|
      ensures links[i].origin in split[k] <==> links[i].target in split[k]
    {
      if i == 0 {
        if k == 0 { assert 1 in split[0] && 2 in split[0]; } else { assert split[1] == [3, 4]; }
      } else {
        if k == 0 { assert split[0] == [1, 2]; } else { assert 3 in split[1] && 4 in split[1]; }
      }
    }
  }

  /** The split of two unlinked workflows, 1 -> 2 and 3 -> 4, into their two components. */
  lemma TwoWorkflowsSplit()
    ensures ConnectedComponents([Link(1, 1, 0, 2, 0), Link(2, 3, 0, 4, 0)], {1, 2, 3, 4}, [[1, 2], [3, 4]])
  {
    var links := [Link(1, 1, 0, 2, 0), Link(2, 3, 0, 4, 0)];
    var known: set<NodeId> := {1, 2, 3, 4};
    var split: seq<seq<NodeId>> := [[1, 2], [3, 4]];
    TwoWorkflowsIds(split);
    TwoWorkflowsGrown(links, known);
    TwoWorkflowsApart(links, known, split);
    assert forall k :: 0 <= k < |split| ==> Grown(Adjacency(links, known), split[k]) && split[k] != [] by {
      forall k | 0 <= k < |split| ensures Grown(Adjacency(links, known), split[k]) && split[k] != [] {
        assert k == 0 || k == 1;
      }
    }
  }

  /**
   * Two workflows with no link between them, 1 -> 2 and 3 -> 4, always split
   * into exactly two components: merging them into one is not a result.
   */
  lemma TwoWorkflowsTwoComponents(components: seq<seq<NodeId>>)
    requires ConnectedComponents([Link(1, 1, 0, 2, 0), Link(2, 3, 0, 4, 0)], {1, 2, 3, 4}, components)
    ensures |components| == 2
  {
    TwoWorkflowsSplit();
    ComponentsUnique([Link(1, 1, 0, 2, 0), Link(2, 3, 0, 4, 0)], {1, 2, 3, 4}, components, [[1, 2], [3, 4]]);
  }
}
