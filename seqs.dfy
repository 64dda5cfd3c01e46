// Small facts about sequences and finite sets that the layout modules share:
// duplicate-freedom, flattening a list of lists, and extrema of non-empty
// collections of integers.
module Seqs {

  datatype Option<T> = None | Some(value: T)

  predicate NoDup<T(==)>(s: seq<T>) {
    forall i, j :: 0 <= i < j < |s| ==> s[i] != s[j]
  }

  /** The elements of a sequence, as a set. */
  function Elems<T>(s: seq<T>): set<T> {
    set x | x in s
  }

  lemma ElemsSnoc<T>(s: seq<T>, x: T)
    ensures Elems(s + [x]) == Elems(s) + {x}
  {
    forall y ensures y in Elems(s + [x]) <==> y in Elems(s) + {x} {
      assert y in s + [x] <==> y in s || y == x;
    }
  }

  /** Concatenation of a list of lists, in order. */
  function Flatten<T>(ss: seq<seq<T>>): seq<T> {
    if ss == [] then [] else Flatten(ss[..|ss| - 1]) + ss[|ss| - 1]
  }

  lemma FlattenSnoc<T>(ss: seq<seq<T>>, s: seq<T>)
    ensures Flatten(ss + [s]) == Flatten(ss) + s
  {
    assert (ss + [s])[..|ss|] == ss;
  }

  /** Flattening one more part of a list of lists appends that part. */
  lemma FlattenTake<T>(ss: seq<seq<T>>, i: nat)
    requires i < |ss|
    ensures Flatten(ss[..i + 1]) == Flatten(ss[..i]) + ss[i]
  {
    assert ss[..i + 1] == ss[..i] + [ss[i]];
    FlattenSnoc(ss[..i], ss[i]);
  }

  lemma {:induction false} FlattenMember<T>(ss: seq<seq<T>>, x: T)
    ensures x in Flatten(ss) <==> exists k :: 0 <= k < |ss| && x in ss[k]
  {
    if ss != [] {
      var init := ss[..|ss| - 1];
      FlattenMember(init, x);
      if x in Flatten(ss) && x !in ss[|ss| - 1] {
        var k :| 0 <= k < |init| && x in init[k];
        assert ss[k] == init[k];
      }
      if (exists k :: 0 <= k < |ss| && x in ss[k]) && x !in ss[|ss| - 1] {
        var k :| 0 <= k < |ss| && x in ss[k];
        assert k < |init| && init[k] == ss[k];
      }
    }
  }

  /** Without repeats in the concatenation, no element sits in two of the parts. */
  lemma {:induction false} FlattenApart<T>(ss: seq<seq<T>>)
    requires NoDup(Flatten(ss))
    ensures forall j, k, x :: 0 <= j < k < |ss| && x in ss[j] ==> x !in ss[k]
  {
    if ss != [] {
      var last := |ss| - 1;
      var init := ss[..last];
      NoDupSplit(Flatten(init), ss[last]);
      FlattenApart(init);
      forall j, k, x | 0 <= j < k < |ss| && x in ss[j] ensures x !in ss[k] {
        assert ss[j] == init[j];
        if k == last {
          FlattenMember(init, x);
        } else {
          assert ss[k] == init[k];
        }
      }
    }
  }

  lemma NoDupConcat<T>(a: seq<T>, b: seq<T>)
    requires NoDup(a) && NoDup(b)
    requires forall x :: x in a ==> x !in b
    ensures NoDup(a + b)
  {
    var ab := a + b;
    forall i, j | 0 <= i < j < |ab| ensures ab[i] != ab[j] {
      if j >= |a| && i < |a| {
        assert ab[i] in a && ab[j] == b[j - |a|];
      } else if i >= |a| {
        assert ab[i] == b[i - |a|] && ab[j] == b[j - |a|];
      }
    }
  }

  /** The two halves of a duplicate-free concatenation are duplicate-free and share nothing. */
  lemma NoDupSplit<T>(a: seq<T>, b: seq<T>)
    requires NoDup(a + b)
    ensures NoDup(a) && NoDup(b)
    ensures forall x :: x in a ==> x !in b
  {
    var ab := a + b;
    forall i, j | 0 <= i < j < |b| ensures b[i] != b[j] {
      assert b[i] == ab[|a| + i] && b[j] == ab[|a| + j];
    }
    forall i, j | 0 <= i < j < |a| ensures a[i] != a[j] {
      assert a[i] == ab[i] && a[j] == ab[j];
    }
    forall x | x in a ensures x !in b {
      var i :| 0 <= i < |a| && a[i] == x;
      forall j | 0 <= j < |b| ensures b[j] != x {
        assert ab[i] == x && ab[|a| + j] == b[j];
      }
    }
  }

  lemma ConcatAssoc<T>(x: seq<T>, y: seq<T>, z: seq<T>)
    ensures x + (y + z) == (x + y) + z
  {
  }

  /** Slicing a concatenation at a point inside its first part. */
  lemma SliceAppend<T>(before: seq<T>, added: seq<T>, start: nat)
    requires start <= |before|
    ensures (before + added)[..start] == before[..start]
    ensures (before + added)[start..] == before[start..] + added
  {
  }

  lemma {:induction false} NoDupCard<T>(s: seq<T>)
    requires NoDup(s)
    ensures |Elems(s)| == |s|
  {
    if s != [] {
      var k := |s| - 1;
      assert s == s[..k] + [s[k]];
      assert Elems(s) == Elems(s[..k]) + {s[k]};
      assert s[k] !in Elems(s[..k]);
      NoDupCard(s[..k]);
    }
  }

  /** Largest element of a non-empty sequence of integers. */
  function SeqMax(s: seq<int>): (m: int)
    requires s != []
    ensures m in s && forall x :: x in s ==> x <= m
  {
    if |s| == 1 then s[0]
    else
      var rest := SeqMax(s[1..]);
      assert forall x :: x in s ==> x == s[0] || x in s[1..];
      if s[0] >= rest then s[0] else rest
  }

  /** Smallest element of a non-empty sequence of integers. */
  function SeqMin(s: seq<int>): (m: int)
    requires s != []
    ensures m in s && forall x :: x in s ==> m <= x
  {
    if |s| == 1 then s[0]
    else
      var rest := SeqMin(s[1..]);
      assert forall x :: x in s ==> x == s[0] || x in s[1..];
      if s[0] <= rest then s[0] else rest
  }

  lemma {:induction false} SetHasMax(s: set<int>)
    requires s != {}
    ensures exists m :: m in s && forall x :: x in s ==> x <= m
  {
    var y := PickOne(s);
    if s != {y} {
      var rest := s - {y};
      SetHasMax(rest);
      var m :| m in rest && forall x :: x in rest ==> x <= m;
      var best := if y > m then y else m;
      forall x | x in s ensures x <= best {
        if x != y { assert x in rest; }
      }
      assert best in s;
    } else {
      assert y in s && forall x :: x in s ==> x <= y;
    }
  }

  lemma PickOne<T>(s: set<T>) returns (y: T)
    requires s != {}
    ensures y in s
  {
    if forall x :: x !in s {
      assert false;
    }
    var z :| z in s;
    y := z;
  }

  /** Some key of a non-empty map. */
  lemma SomeKey<K, V>(m: map<K, V>) returns (k: K)
    requires m != map[]
    ensures k in m
  {
    if forall x :: x !in m {
      assert false;
    }
    k :| k in m;
  }

  /** Largest element of a non-empty finite set of integers. */
  function SetMax(s: set<int>): (m: int)
    requires s != {}
    ensures m in s && forall x :: x in s ==> x <= m
  {
    SetHasMax(s);
    var m :| m in s && forall x :: x in s ==> x <= m;
    m
  }

  /** A key holding the largest value of a non-empty map. */
  lemma MapMaxKey<K>(m: map<K, int>) returns (k: K)
    requires m != map[]
    ensures k in m && forall j :: j in m ==> m[j] <= m[k]
  {
    var values := set j | j in m :: m[j];
    var some := SomeKey(m);
    assert m[some] in values;
    assert forall j :: j in m ==> m[j] in values;
    var top := SetMax(values);
    k :| k in m && m[k] == top;
  }

  /** A key holding the smallest value of a non-empty map. */
  lemma MapMinKey<K>(m: map<K, int>) returns (k: K)
    requires m != map[]
    ensures k in m && forall j :: j in m ==> m[k] <= m[j]
  {
    var negated := map j | j in m :: -m[j];
    var some := SomeKey(m);
    assert some in negated;
    k := MapMaxKey(negated);
    assert forall j :: j in m ==> negated[j] == -m[j];
  }
}
