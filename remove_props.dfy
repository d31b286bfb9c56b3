/** What SubTree.remove_value does to the abstract tree. */
module RemoveProps {
  import opened KeyTree
  import TraversalProps
  import InsertProps

  /** Removal never introduces a key. */
  lemma {:induction false} RemoveKeys<V>(t: Tree<V>, v: V, hash: V -> int)
    ensures Keys(Remove(t, v, hash)) <= Keys(t)
  {
    match t
    case Empty =>
    case Node(l, x, k, rt) =>
      if hash(v) == k {
        if !l.Empty? && !rt.Empty? {
          RemoveKeys(rt, Leftmost(rt).1, hash);
        }
      } else {
        RemoveKeys(l, v, hash);
        RemoveKeys(rt, v, hash);
      }
  }

  /** Removal keeps the search-tree order. */
  lemma {:induction false} RemoveOrdered<V>(t: Tree<V>, v: V, hash: V -> int)
    requires Ordered(t)
    ensures Ordered(Remove(t, v, hash))
  {
    match t
    case Empty =>
    case Node(l, x, k, rt) =>
      if hash(v) == k {
        if !l.Empty? && !rt.Empty? {
          RemoveKeys(rt, Leftmost(rt).1, hash);
          RemoveOrdered(rt, Leftmost(rt).1, hash);
        }
      } else {
        RemoveKeys(l, v, hash);
        RemoveKeys(rt, v, hash);
        RemoveOrdered(l, v, hash);
        RemoveOrdered(rt, v, hash);
      }
  }

  /** Values not in the tree are ignored: with no matching key the tree is unchanged. */
  lemma {:induction false} RemoveAbsent<V>(t: Tree<V>, v: V, hash: V -> int)
    requires hash(v) !in Keys(t)
    ensures Remove(t, v, hash) == t
  {
    match t
    case Empty =>
    case Node(l, x, k, rt) =>
      RemoveAbsent(l, v, hash);
      RemoveAbsent(rt, v, hash);
  }

  lemma {:induction false} WithoutConcat<V>(a: seq<V>, b: seq<V>, k: int, hash: V -> int)
    ensures Without(a + b, k, hash) == Without(a, k, hash) + Without(b, k, hash)
    decreases |a|
  {
    if a == [] {
      assert a + b == b;
    } else {
      assert (a + b)[0] == a[0];
      assert (a + b)[1..] == a[1..] + b;
      WithoutConcat(a[1..], b, k, hash);
    }
  }

  lemma {:induction false} WithoutNone<V>(s: seq<V>, k: int, hash: V -> int)
    requires forall i :: 0 <= i < |s| ==> hash(s[i]) != k
    ensures Without(s, k, hash) == s
    decreases |s|
  {
    if s != [] {
      assert forall i :: 0 <= i < |s[1..]| ==> s[1..][i] == s[i + 1];
      WithoutNone(s[1..], k, hash);
    }
  }

  /** The leftmost node's value comes first in the traversal. */
  lemma {:induction false} LeftmostFirst<V>(t: Tree<V>)
    requires t.Node?
    ensures InOrder(t) != [] && InOrder(t)[0] == Leftmost(t).1
  {
    if !t.left.Empty? {
      LeftmostFirst(t.left);
    }
  }

  /** Filtering out a key that is not stored changes nothing. */
  lemma AbsentKeyWithout<V>(t: Tree<V>, k: int, hash: V -> int)
    requires Consistent(t, hash) && k !in Keys(t)
    ensures Without(InOrder(t), k, hash) == InOrder(t)
  {
    TraversalProps.HashesAreKeySeq(t, hash);
    var s := InOrder(t);
    forall i | 0 <= i < |s|
      ensures hash(s[i]) != k
    {
      assert hash(s[i]) == TraversalProps.HashesOf(s, hash)[i];
    }
    WithoutNone(s, k, hash);
  }

  /** Removing the leftmost value of an ordered, consistent tree drops the first traversed value. */
  lemma RemoveFirstWithout<V>(t: Tree<V>, hash: V -> int)
    requires t.Node? && Ordered(t) && Consistent(t, hash)
    ensures Without(InOrder(t), hash(Leftmost(t).1), hash) == InOrder(t)[1..]
  {
    var q := InOrder(t);
    LeftmostFirst(t);
    TraversalProps.SortedTraversal(t, hash);
    assert q == [q[0]] + q[1..];
    WithoutConcat([q[0]], q[1..], hash(q[0]), hash);
    forall i | 0 <= i < |q[1..]|
      ensures hash(q[1..][i]) != hash(q[0])
    {
      assert q[1..][i] == q[i + 1];
    }
    WithoutNone(q[1..], hash(q[0]), hash);
  }

  /** Without(a + [x] + b) splits into the three parts. */
  lemma WithoutNode<V>(a: seq<V>, x: V, b: seq<V>, k: int, hash: V -> int)
    ensures Without(a + [x] + b, k, hash) ==
      Without(a, k, hash) + (if hash(x) == k then [] else [x]) + Without(b, k, hash)
  {
    WithoutConcat(a + [x], b, k, hash);
    WithoutConcat(a, [x], k, hash);
    assert [x][1..] == [];
  }

  /**
   * The key-match case of removal, given what removal does to the right
   * subtree: the traversal merely loses the node's own value.
   */
  lemma RemoveMatchContents<V>(t: Tree<V>, v: V, hash: V -> int)
    requires t.Node? && hash(v) == t.key && Ordered(t) && Consistent(t, hash)
    requires !t.left.Empty? && !t.right.Empty? ==>
      var s := Leftmost(t.right).1;
      InOrder(Remove(t.right, s, hash)) == Without(InOrder(t.right), hash(s), hash)
    ensures InOrder(Remove(t, v, hash)) == Without(InOrder(t), hash(v), hash)
  {
    var l, x, k, rt := t.left, t.value, t.key, t.right;
    WithoutNode(InOrder(l), x, InOrder(rt), k, hash);
    AbsentKeyWithout(l, k, hash);
    AbsentKeyWithout(rt, k, hash);
    if !l.Empty? && !rt.Empty? {
      var s := Leftmost(rt).1;
      RemoveFirstWithout(rt, hash);
      LeftmostFirst(rt);
      assert InOrder(rt) == [s] + InOrder(rt)[1..];
    }
  }

  /**
   * On an ordered tree whose keys are the hashes of their values, removal
   * takes exactly the values with the removed hash out of the traversal and
   * keeps the order of the others.
   */
  lemma {:induction false} RemoveContents<V>(t: Tree<V>, v: V, hash: V -> int)
    requires Ordered(t) && Consistent(t, hash)
    ensures InOrder(Remove(t, v, hash)) == Without(InOrder(t), hash(v), hash)
  {
    match t
    case Empty =>
    case Node(l, x, k, rt) =>
      if hash(v) == k {
        if !l.Empty? && !rt.Empty? {
          RemoveContents(rt, Leftmost(rt).1, hash);
        }
        RemoveMatchContents(t, v, hash);
      } else {
        RemoveContents(l, v, hash);
        RemoveContents(rt, v, hash);
        WithoutNode(InOrder(l), x, InOrder(rt), hash(v), hash);
      }
  }

  /** Removing the chain's values in order, each removal takes off the current head. */
  lemma {:induction false} RemoveAllSpine<V>(vs: seq<V>, hash: V -> int)
    ensures RemoveAll(InsertProps.Spine(vs, hash), vs, hash) == Empty
    decreases |vs|
  {
    if vs != [] {
      assert Remove(InsertProps.Spine(vs, hash), vs[0], hash) == InsertProps.Spine(vs[1..], hash);
      RemoveAllSpine(vs[1..], hash);
    }
  }

  /**
   * Values added in strictly increasing hash order and then removed in the
   * same order leave an empty ring (the integer scenario of tests.py).
   */
  lemma AscendingInsertsThenRemoves<V>(vs: seq<V>, hash: V -> int)
    requires InsertProps.Ascending(vs, hash)
    ensures RemoveAll(InsertAll(Empty, vs, hash), vs, hash) == Empty
  {
    InsertProps.AscendingInserts(vs, hash);
    RemoveAllSpine(vs, hash);
  }
}
