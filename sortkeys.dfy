// The vertical sort key of the column layout (tabularize.py,
// organize_single_component): the ascending list of connected port heights,
// padded with ten copies of float('inf'), compared as Python compares lists.
module SortKeys {
  import opened Sorting

  /** A port height, or the infinite padding value above every height. */
  datatype Ext = Fin(v: int) | Inf

  predicate ExtLess(a: Ext, b: Ext) {
    match (a, b)
    case (Fin(x), Fin(y)) => x < y
    case (Fin(_), Inf) => true
    case (Inf, _) => false
  }

  /** Python's `<` on lists: the first differing element decides, and a proper prefix is smaller. */
  predicate LexLess(a: seq<Ext>, b: seq<Ext>) {
    if a == [] then b != []
    else if b == [] then false
    else if a[0] != b[0] then ExtLess(a[0], b[0])
    else LexLess(a[1..], b[1..])
  }

  /** The number of padding values appended to every key. */
  const PadCount := 10

  function Infs(n: nat): (r: seq<Ext>)
    ensures |r| == n && forall i :: 0 <= i < n ==> r[i] == Inf
  {
    if n == 0 then [] else [Inf] + Infs(n - 1)
  }

  function Finite(ports: seq<int>): (r: seq<Ext>)
    ensures |r| == |ports| && forall i :: 0 <= i < |ports| ==> r[i] == Fin(ports[i])
  {
    if ports == [] then [] else [Fin(ports[0])] + Finite(ports[1..])
  }

  /** `ports + [inf] * 10 if ports else [inf] * 10` */
  function Pad(ports: seq<int>): (key: seq<Ext>)
    ensures |key| == |ports| + PadCount
  {
    Finite(ports) + Infs(PadCount)
  }

  /** `sorted(port_positions)` */
  function SortInts(ports: seq<int>): seq<int> {
    SortBy(ports, (p: int) => p, IntLess)
  }

  lemma {:induction false} LexIrreflexive(a: seq<Ext>)
    ensures !LexLess(a, a)
  {
    if a != [] {
      LexIrreflexive(a[1..]);
    }
  }

  lemma {:induction false} LexTransitive(a: seq<Ext>, b: seq<Ext>, c: seq<Ext>)
    requires LexLess(a, b) && LexLess(b, c)
    ensures LexLess(a, c)
  {
    if a != [] && b != [] && c != [] && a[0] == b[0] && b[0] == c[0] {
      LexTransitive(a[1..], b[1..], c[1..]);
    }
  }

  lemma {:induction false} LexTotal(a: seq<Ext>, b: seq<Ext>)
    requires a != b
    ensures LexLess(a, b) || LexLess(b, a)
  {
    if a != [] && b != [] && a[0] == b[0] {
      assert a == [a[0]] + a[1..] && b == [b[0]] + b[1..];
      LexTotal(a[1..], b[1..]);
    }
  }

  /** Python's list comparison is a strict total order, so `sorted` by these keys is well defined. */
  lemma LexIsStrictTotalOrder()
    ensures StrictTotalOrder(LexLess)
  {
    forall a ensures !LexLess(a, a) {
      LexIrreflexive(a);
    }
    forall a, b, c | LexLess(a, b) && LexLess(b, c) ensures LexLess(a, c) {
      LexTransitive(a, b, c);
    }
    forall a, b | a != b ensures LexLess(a, b) || LexLess(b, a) {
      LexTotal(a, b);
    }
  }

  /** A node with connected ports always sorts before a node without any. */
  lemma ConnectedSortsFirst(ports: seq<int>)
    requires ports != []
    ensures LexLess(Pad(ports), Pad([]))
  {
    assert Pad(ports)[0] == Fin(ports[0]);
    assert Pad([])[0] == Inf;
  }

  /**
   * When one node's port list extends another's, the node with more ports
   * sorts first: the padding is larger than any height.
   */
  lemma {:induction false} LongerPortListSortsFirst(p: seq<int>, q: seq<int>)
    requires |p| < |q| && q[..|p|] == p
    ensures LexLess(Pad(q), Pad(p))
  {
    if p == [] {
      assert Pad(q)[0] == Fin(q[0]) && Pad(p)[0] == Inf;
    } else {
      assert Pad(q)[0] == Pad(p)[0];
      assert Pad(q)[1..] == Pad(q[1..]);
      assert Pad(p)[1..] == Pad(p[1..]);
      assert q[1..][..|p[1..]|] == p[1..];
      LongerPortListSortsFirst(p[1..], q[1..]);
    }
  }

  /** Equal keys come only from equal port lists. */
  lemma PadInjective(p: seq<int>, q: seq<int>)
    requires Pad(p) == Pad(q)
    ensures p == q
  {
    assert |p| == |q|;
    forall i | 0 <= i < |p| ensures p[i] == q[i] {
      assert Pad(p)[i] == Fin(p[i]) && Pad(q)[i] == Fin(q[i]);
    }
  }
}
