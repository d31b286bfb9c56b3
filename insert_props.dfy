/** What SubTree.add_child does to the abstract tree, and what a run of add_node calls builds. */
module InsertProps {
  import opened KeyTree
  import TraversalProps

  /** Insertion adds the value's hash to the keys and nothing else. */
  lemma {:induction false} InsertKeys<V>(t: Tree<V>, v: V, hash: V -> int)
    ensures Keys(Insert(t, v, hash)) == Keys(t) + {hash(v)}
  {
    match t
    case Empty =>
    case Node(l, x, k, r) =>
      if hash(v) > k {
        InsertKeys(r, v, hash);
      } else if hash(v) < k {
        InsertKeys(l, v, hash);
      }
  }

  /** Insertion keeps the search-tree order. */
  lemma {:induction false} InsertOrdered<V>(t: Tree<V>, v: V, hash: V -> int)
    requires Ordered(t)
    ensures Ordered(Insert(t, v, hash))
  {
    match t
    case Empty =>
    case Node(l, x, k, r) =>
      if hash(v) > k {
        InsertKeys(r, v, hash);
        InsertOrdered(r, v, hash);
      } else if hash(v) < k {
        InsertKeys(l, v, hash);
        InsertOrdered(l, v, hash);
      }
  }

  /** Duplicates are excluded: a value whose hash is already a key leaves the tree unchanged. */
  lemma {:induction false} InsertPresent<V>(t: Tree<V>, v: V, hash: V -> int)
    requires Ordered(t) && hash(v) in Keys(t)
    ensures Insert(t, v, hash) == t
  {
    match t
    case Node(l, x, k, r) =>
      if hash(v) > k {
        assert hash(v) !in Keys(l);
        InsertPresent(r, v, hash);
      } else if hash(v) < k {
        assert hash(v) !in Keys(r);
        InsertPresent(l, v, hash);
      }
  }

  /** A new node is keyed by its value's hash, so hash consistency is kept. */
  lemma {:induction false} InsertConsistent<V>(t: Tree<V>, v: V, hash: V -> int)
    requires Consistent(t, hash)
    ensures Consistent(Insert(t, v, hash), hash)
  {
    match t
    case Empty =>
    case Node(l, x, k, r) =>
      if hash(v) > k {
        InsertConsistent(r, v, hash);
      } else if hash(v) < k {
        InsertConsistent(l, v, hash);
      }
  }

  lemma NodeMultiset<V>(l: Tree<V>, x: V, k: int, r: Tree<V>)
    ensures multiset(InOrder(Node(l, x, k, r))) == multiset(InOrder(l)) + multiset{x} + multiset(InOrder(r))
  {
    assert InOrder(Node(l, x, k, r)) == InOrder(l) + [x] + InOrder(r);
  }

  /** Reordering a union of four multisets. */
  lemma UnionShuffle<V>(a: multiset<V>, b: multiset<V>, c: multiset<V>, d: multiset<V>)
    ensures a + b + (c + d) == a + b + c + d
    ensures (a + d) + b + c == a + b + c + d
  {
  }

  lemma InsertRightMultiset<V>(l: Tree<V>, x: V, k: int, r: Tree<V>, v: V, hash: V -> int)
    requires hash(v) > k
    requires multiset(InOrder(Insert(r, v, hash))) == multiset(InOrder(r)) + multiset{v}
    ensures multiset(InOrder(Insert(Node(l, x, k, r), v, hash))) ==
      multiset(InOrder(Node(l, x, k, r))) + multiset{v}
  {
    var r' := Insert(r, v, hash);
    assert Insert(Node(l, x, k, r), v, hash) == Node(l, x, k, r');
    NodeMultiset(l, x, k, r);
    NodeMultiset(l, x, k, r');
    UnionShuffle(multiset(InOrder(l)), multiset{x}, multiset(InOrder(r)), multiset{v});
  }

  lemma InsertLeftMultiset<V>(l: Tree<V>, x: V, k: int, r: Tree<V>, v: V, hash: V -> int)
    requires hash(v) < k
    requires multiset(InOrder(Insert(l, v, hash))) == multiset(InOrder(l)) + multiset{v}
    ensures multiset(InOrder(Insert(Node(l, x, k, r), v, hash))) ==
      multiset(InOrder(Node(l, x, k, r))) + multiset{v}
  {
    var l' := Insert(l, v, hash);
    assert Insert(Node(l, x, k, r), v, hash) == Node(l', x, k, r);
    NodeMultiset(l, x, k, r);
    NodeMultiset(l', x, k, r);
    UnionShuffle(multiset(InOrder(l)), multiset{x}, multiset(InOrder(r)), multiset{v});
  }

  /** Inserting a value with a new hash adds exactly that value to the traversal. */
  lemma {:induction false} InsertNewContents<V>(t: Tree<V>, v: V, hash: V -> int)
    requires hash(v) !in Keys(t)
    ensures multiset(InOrder(Insert(t, v, hash))) == multiset(InOrder(t)) + multiset{v}
  {
    match t
    case Empty =>
    case Node(l, x, k, r) =>
      if hash(v) > k {
        InsertNewContents(r, v, hash);
        InsertRightMultiset(l, x, k, r, v, hash);
      } else {
        InsertNewContents(l, v, hash);
        InsertLeftMultiset(l, x, k, r, v, hash);
      }
  }

  /**
   * Insertion adds the value to the traversal exactly when its hash is a new
   * key, and leaves the traversal unchanged otherwise.
   */
  lemma InsertContents<V>(t: Tree<V>, v: V, hash: V -> int)
    requires Ordered(t)
    ensures hash(v) in Keys(t) ==> InOrder(Insert(t, v, hash)) == InOrder(t)
    ensures hash(v) !in Keys(t) ==>
      multiset(InOrder(Insert(t, v, hash))) == multiset(InOrder(t)) + multiset{v}
  {
    if hash(v) in Keys(t) {
      InsertPresent(t, v, hash);
    } else {
      InsertNewContents(t, v, hash);
    }
  }

  lemma HashesCons<V>(vs: seq<V>, hash: V -> int)
    requires vs != []
    ensures Hashes(vs, hash) == {hash(vs[0])} + Hashes(vs[1..], hash)
  {
    forall kk | kk in Hashes(vs, hash)
      ensures kk in {hash(vs[0])} + Hashes(vs[1..], hash)
    {
      var i :| 0 <= i < |vs| && hash(vs[i]) == kk;
      if i > 0 {
        assert vs[1..][i - 1] == vs[i];
      }
    }
    forall kk | kk in Hashes(vs[1..], hash)
      ensures kk in Hashes(vs, hash)
    {
      var i :| 0 <= i < |vs[1..]| && hash(vs[1..][i]) == kk;
      assert vs[i + 1] == vs[1..][i];
    }
  }

  /** After any sequence of insertions into an ordered, consistent tree both properties still hold. */
  lemma {:induction false} InsertAllPreserves<V>(t: Tree<V>, vs: seq<V>, hash: V -> int)
    requires Ordered(t) && Consistent(t, hash)
    ensures Ordered(InsertAll(t, vs, hash)) && Consistent(InsertAll(t, vs, hash), hash)
    ensures Keys(InsertAll(t, vs, hash)) == Keys(t) + Hashes(vs, hash)
    decreases |vs|
  {
    if vs != [] {
      InsertKeys(t, vs[0], hash);
      InsertOrdered(t, vs[0], hash);
      InsertConsistent(t, vs[0], hash);
      InsertAllPreserves(Insert(t, vs[0], hash), vs[1..], hash);
      HashesCons(vs, hash);
    }
  }

  /** Insertion traverses only the old values and the inserted one. */
  lemma {:induction false} InsertMembers<V>(t: Tree<V>, v: V, hash: V -> int)
    ensures forall x :: x in InOrder(Insert(t, v, hash)) ==> x in InOrder(t) || x == v
  {
    match t
    case Empty =>
    case Node(l, y, k, r) =>
      if hash(v) > k {
        InsertMembers(r, v, hash);
      } else if hash(v) < k {
        InsertMembers(l, v, hash);
      }
  }

  /** A run of insertions traverses only the old values and the inserted ones. */
  lemma {:induction false} InsertAllMembers<V>(t: Tree<V>, vs: seq<V>, hash: V -> int)
    ensures forall x :: x in InOrder(InsertAll(t, vs, hash)) ==> x in InOrder(t) || x in vs
    decreases |vs|
  {
    if vs != [] {
      InsertMembers(t, vs[0], hash);
      InsertAllMembers(Insert(t, vs[0], hash), vs[1..], hash);
      assert forall x :: x in vs[1..] ==> x in vs;
    }
  }

  /** The values of `vs` have pairwise different hashes. */
  ghost predicate DistinctHashes<V>(vs: seq<V>, hash: V -> int)
  {
    forall i, j :: 0 <= i < j < |vs| ==> hash(vs[i]) != hash(vs[j])
  }

  /** Dropping the first value keeps the hashes distinct, and none of the rest has its hash. */
  lemma DistinctTail<V>(vs: seq<V>, hash: V -> int)
    requires vs != [] && DistinctHashes(vs, hash)
    ensures DistinctHashes(vs[1..], hash)
    ensures forall kk :: kk in Hashes(vs[1..], hash) ==> kk != hash(vs[0]) && kk in Hashes(vs, hash)
  {
    var rest := vs[1..];
    forall i, j | 0 <= i < j < |rest|
      ensures hash(rest[i]) != hash(rest[j])
    {
      assert rest[i] == vs[i + 1] && rest[j] == vs[j + 1];
    }
    forall kk | kk in Hashes(rest, hash)
      ensures kk != hash(vs[0]) && kk in Hashes(vs, hash)
    {
      var i :| 0 <= i < |rest| && hash(rest[i]) == kk;
      assert rest[i] == vs[i + 1];
    }
  }

  lemma MultisetCons<V>(m: multiset<V>, vs: seq<V>)
    requires vs != []
    ensures m + multiset{vs[0]} + multiset(vs[1..]) == m + multiset(vs)
  {
    assert vs == [vs[0]] + vs[1..];
  }

  /**
   * Inserting values with pairwise different hashes, none of them a key
   * already, adds exactly those values to the traversal.
   */
  lemma {:induction false} InsertAllNewContents<V>(t: Tree<V>, vs: seq<V>, hash: V -> int)
    requires DistinctHashes(vs, hash)
    requires forall kk :: kk in Hashes(vs, hash) ==> kk !in Keys(t)
    ensures multiset(InOrder(InsertAll(t, vs, hash))) == multiset(InOrder(t)) + multiset(vs)
    decreases |vs|
  {
    if vs != [] {
      var t' := Insert(t, vs[0], hash);
      assert hash(vs[0]) in Hashes(vs, hash);
      InsertNewContents(t, vs[0], hash);
      InsertKeys(t, vs[0], hash);
      DistinctTail(vs, hash);
      InsertAllNewContents(t', vs[1..], hash);
      MultisetCons(multiset(InOrder(t)), vs);
    }
  }

  /** The ordering half of SortedAfterInserts. */
  lemma InsertsSorted<V>(vs: seq<V>, hash: V -> int)
    ensures var t := InsertAll(Empty, vs, hash);
      Ordered(t) && Keys(t) == Hashes(vs, hash) && |InOrder(t)| == |Hashes(vs, hash)| &&
      forall i, j :: 0 <= i < j < |InOrder(t)| ==> hash(InOrder(t)[i]) < hash(InOrder(t)[j])
  {
    InsertAllPreserves(Empty, vs, hash);
    var t := InsertAll(Empty, vs, hash);
    TraversalProps.SortedTraversal(t, hash);
    TraversalProps.CountIsKeyCount(t);
  }

  /**
   * Sorted traversal after inserts: a ring built by add_node from empty
   * traverses only inserted values, in strictly increasing hash order, one
   * per distinct inserted hash; with pairwise different hashes it traverses
   * exactly the inserted values.
   */
  lemma SortedAfterInserts<V>(vs: seq<V>, hash: V -> int)
    ensures var t := InsertAll(Empty, vs, hash);
      Ordered(t) && Keys(t) == Hashes(vs, hash) && |InOrder(t)| == |Hashes(vs, hash)| &&
      forall i, j :: 0 <= i < j < |InOrder(t)| ==> hash(InOrder(t)[i]) < hash(InOrder(t)[j])
    ensures forall x :: x in InOrder(InsertAll(Empty, vs, hash)) ==> x in vs
    ensures DistinctHashes(vs, hash) ==> multiset(InOrder(InsertAll(Empty, vs, hash))) == multiset(vs)
  {
    InsertsSorted(vs, hash);
    InsertAllMembers(Empty, vs, hash);
    if DistinctHashes(vs, hash) {
      InsertAllNewContents(Empty, vs, hash);
    }
  }

  /** The right-leaning chain of nodes holding `vs`, each keyed by its hash. */
  function Spine<V>(vs: seq<V>, hash: V -> int): Tree<V>
    decreases |vs|
  {
    if vs == [] then Empty else Node(Empty, vs[0], hash(vs[0]), Spine(vs[1..], hash))
  }

  ghost predicate Ascending<V>(vs: seq<V>, hash: V -> int)
  {
    forall i, j :: 0 <= i < j < |vs| ==> hash(vs[i]) < hash(vs[j])
  }

  /** A value above every key of a chain is appended at its end. */
  lemma {:induction false} InsertAboveSpine<V>(vs: seq<V>, v: V, hash: V -> int)
    requires forall i :: 0 <= i < |vs| ==> hash(vs[i]) < hash(v)
    ensures Insert(Spine(vs, hash), v, hash) == Spine(vs + [v], hash)
    decreases |vs|
  {
    if vs != [] {
      assert (vs + [v])[1..] == vs[1..] + [v];
      InsertAboveSpine(vs[1..], v, hash);
    }
  }

  /** The chain holds its values in traversal order. */
  lemma {:induction false} SpineInOrder<V>(vs: seq<V>, hash: V -> int)
    ensures InOrder(Spine(vs, hash)) == vs
    decreases |vs|
  {
    if vs != [] {
      SpineInOrder(vs[1..], hash);
    }
  }

  lemma {:induction false} InsertAllSpine<V>(done: seq<V>, vs: seq<V>, hash: V -> int)
    requires Ascending(done + vs, hash)
    ensures InsertAll(Spine(done, hash), vs, hash) == Spine(done + vs, hash)
    decreases |vs|
  {
    if vs != [] {
      forall i | 0 <= i < |done|
        ensures hash(done[i]) < hash(vs[0])
      {
        assert (done + vs)[i] == done[i] && (done + vs)[|done|] == vs[0];
      }
      InsertAboveSpine(done, vs[0], hash);
      assert done + vs == (done + [vs[0]]) + vs[1..];
      InsertAllSpine(done + [vs[0]], vs[1..], hash);
    } else {
      assert done + vs == done;
    }
  }

  /**
   * Adding values in strictly increasing hash order to an empty ring builds a
   * chain of right children whose traversal is exactly the added sequence
   * (the integer scenario of tests.py, where a small integer hashes to itself).
   */
  lemma AscendingInserts<V>(vs: seq<V>, hash: V -> int)
    requires Ascending(vs, hash)
    ensures InsertAll(Empty, vs, hash) == Spine(vs, hash)
    ensures InOrder(InsertAll(Empty, vs, hash)) == vs
  {
    assert [] + vs == vs;
    InsertAllSpine([], vs, hash);
    SpineInOrder(vs, hash);
  }
}
