/** Properties of the in-order traversal (SubTree.__iter__). */
module TraversalProps {
  import opened KeyTree

  /** In an ordered tree the traversal visits each stored key exactly once. */
  lemma {:induction false} CountIsKeyCount<V>(t: Tree<V>)
    requires Ordered(t)
    ensures |InOrder(t)| == |Keys(t)|
  {
    match t
    case Empty =>
    case Node(l, x, k, r) =>
      CountIsKeyCount(l);
      CountIsKeyCount(r);
      assert k !in Keys(l) && k !in Keys(r);
      assert |Keys(l) + {k}| == |Keys(l)| + 1;
      forall kk | kk in Keys(r)
        ensures kk !in Keys(l) + {k}
      {
        assert k < kk;
      }
      assert |Keys(l) + {k} + Keys(r)| == |Keys(l) + {k}| + |Keys(r)|;
  }

  /** The hashes of a sequence of values, position by position. */
  function HashesOf<V>(s: seq<V>, hash: V -> int): (hs: seq<int>)
    ensures |hs| == |s|
    ensures forall i :: 0 <= i < |s| ==> hs[i] == hash(s[i])
  {
    if s == [] then [] else [hash(s[0])] + HashesOf(s[1..], hash)
  }

  lemma HashesOfConcat<V>(a: seq<V>, b: seq<V>, hash: V -> int)
    ensures HashesOf(a + b, hash) == HashesOf(a, hash) + HashesOf(b, hash)
  {
    var lhs, rhs := HashesOf(a + b, hash), HashesOf(a, hash) + HashesOf(b, hash);
    forall i | 0 <= i < |lhs|
      ensures lhs[i] == rhs[i]
    {
      if i < |a| {
        assert (a + b)[i] == a[i];
      } else {
        assert (a + b)[i] == b[i - |a|];
      }
    }
  }

  /** Under hash consistency the traversal's hashes are the in-order key sequence. */
  lemma {:induction false} HashesAreKeySeq<V>(t: Tree<V>, hash: V -> int)
    requires Consistent(t, hash)
    ensures HashesOf(InOrder(t), hash) == KeySeq(t)
  {
    match t
    case Empty =>
    case Node(l, x, k, r) =>
      HashesAreKeySeq(l, hash);
      HashesAreKeySeq(r, hash);
      HashesOfConcat(InOrder(l) + [x], InOrder(r), hash);
      HashesOfConcat(InOrder(l), [x], hash);
  }

  /**
   * Sorted traversal: on an ordered, hash-consistent tree the values come out
   * in strictly increasing hash order, and their hashes are the stored keys.
   */
  lemma SortedTraversal<V>(t: Tree<V>, hash: V -> int)
    requires Ordered(t) && Consistent(t, hash)
    ensures forall i, j :: 0 <= i < j < |InOrder(t)| ==> hash(InOrder(t)[i]) < hash(InOrder(t)[j])
    ensures forall kk :: kk in Keys(t) <==> exists i :: 0 <= i < |InOrder(t)| && hash(InOrder(t)[i]) == kk
  {
    HashesAreKeySeq(t, hash);
    var s, ks := InOrder(t), KeySeq(t);
    assert forall i :: 0 <= i < |s| ==> hash(s[i]) == ks[i];
    forall kk | kk in Keys(t)
      ensures exists i :: 0 <= i < |s| && hash(s[i]) == kk
    {
      var i :| 0 <= i < |ks| && ks[i] == kk;
      assert hash(s[i]) == kk;
    }
  }
}
