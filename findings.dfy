/**
 * Two places where chr.py does not do what its documentation promises. For
 * each, a concrete input shows the as-written behaviour, and the evidently
 * intended definition is given with its property proved.
 *
 * Small integers are their own CPython hash (-1 excepted), so the examples
 * use `int` values with the identity as hash.
 */
module Findings {
  import opened Wrappers
  import opened KeyTree
  import RemoveProps
  import LookupProps

  function Identity(x: int): int
  {
    x
  }

  /*
   * Finding 1: removing a value whose node has two children copies the
   * successor's value into the node but keeps the node's old key, so the
   * removed hash stays in the tree and the copied value can no longer be
   * found by its own hash.
   */

  /**
   * add_node(2), add_node(1), add_node(3), then remove_node(2): the root
   * keeps key 2 while holding 3, and a later remove_node(3) leaves 3 in place.
   */
  lemma StaleKeyAfterRemove()
    ensures var t := InsertAll(Empty, [2, 1, 3], Identity);
      var r := Remove(t, 2, Identity);
      t == Node(Node(Empty, 1, 1, Empty), 2, 2, Node(Empty, 3, 3, Empty)) &&
      r == Node(Node(Empty, 1, 1, Empty), 3, 2, Empty) &&
      2 in Keys(r) && !Consistent(r, Identity) &&
      Remove(r, 3, Identity) == r && InOrder(Remove(r, 3, Identity)) == [1, 3]
  {
    var t := InsertAll(Empty, [2, 1, 3], Identity);
    assert [2, 1, 3][1..] == [1, 3] && [1, 3][1..] == [3] && [3][1..] == [];
    var r := Remove(t, 2, Identity);
    assert 3 !in Keys(r);
    RemoveProps.RemoveAbsent(r, 3, Identity);
  }

  /** Removal as intended: the successor's key moves into the node together with its value. */
  function RemoveIntended<V>(t: Tree<V>, v: V, hash: V -> int): Tree<V>
  {
    match t
    case Empty => Empty
    case Node(l, x, k, rt) =>
      if hash(v) == k then
        if l.Empty? && rt.Empty? then Empty
        else if l.Empty? then rt
        else if rt.Empty? then l
        else
          var e := Leftmost(rt);
          Node(l, e.1, e.0, RemoveIntended(rt, e.1, hash))
      else
        Node(RemoveIntended(l, v, hash), x, k, RemoveIntended(rt, v, hash))
  }

  /** Both removals traverse the same values; they differ only in the key left at the node. */
  lemma {:induction false} RemoveIntendedInOrder<V>(t: Tree<V>, v: V, hash: V -> int)
    ensures InOrder(RemoveIntended(t, v, hash)) == InOrder(Remove(t, v, hash))
  {
    match t
    case Empty =>
    case Node(l, x, k, rt) =>
      if hash(v) == k {
        if !l.Empty? && !rt.Empty? {
          RemoveIntendedInOrder(rt, Leftmost(rt).1, hash);
        }
      } else {
        RemoveIntendedInOrder(l, v, hash);
        RemoveIntendedInOrder(rt, v, hash);
      }
  }

  /** The intended removal takes exactly the removed hash out of the keys. */
  lemma {:induction false} RemoveIntendedKeys<V>(t: Tree<V>, v: V, hash: V -> int)
    requires Ordered(t) && Consistent(t, hash)
    ensures Keys(RemoveIntended(t, v, hash)) == Keys(t) - {hash(v)}
  {
    match t
    case Empty =>
    case Node(l, x, k, rt) =>
      if hash(v) == k {
        assert k !in Keys(l) && k !in Keys(rt);
        if !l.Empty? && !rt.Empty? {
          var e := Leftmost(rt);
          EntryKey(rt, e);
          EntryHash(rt, hash, e);
          RemoveIntendedKeys(rt, e.1, hash);
        }
      } else {
        RemoveIntendedKeys(l, v, hash);
        RemoveIntendedKeys(rt, v, hash);
      }
  }

  /** The intended removal keeps the search-tree order and hash consistency. */
  lemma {:induction false} RemoveIntendedInvariants<V>(t: Tree<V>, v: V, hash: V -> int)
    requires Ordered(t) && Consistent(t, hash)
    ensures Ordered(RemoveIntended(t, v, hash)) && Consistent(RemoveIntended(t, v, hash), hash)
  {
    match t
    case Empty =>
    case Node(l, x, k, rt) =>
      if hash(v) == k {
        if !l.Empty? && !rt.Empty? {
          var e := Leftmost(rt);
          EntryKey(rt, e);
          EntryHash(rt, hash, e);
          RemoveIntendedKeys(rt, e.1, hash);
          RemoveIntendedInvariants(rt, e.1, hash);
        }
      } else {
        RemoveIntendedKeys(l, v, hash);
        RemoveIntendedKeys(rt, v, hash);
        RemoveIntendedInvariants(l, v, hash);
        RemoveIntendedInvariants(rt, v, hash);
      }
  }

  /**
   * The intended removal on an ordered, consistent tree: order and hash
   * consistency are kept, the removed hash is no longer a key, and exactly
   * the values with that hash leave the traversal.
   */
  lemma RemoveIntendedCorrect<V>(t: Tree<V>, v: V, hash: V -> int)
    requires Ordered(t) && Consistent(t, hash)
    ensures var r := RemoveIntended(t, v, hash);
      Ordered(r) && Consistent(r, hash) && Keys(r) == Keys(t) - {hash(v)} &&
      InOrder(r) == Without(InOrder(t), hash(v), hash)
  {
    RemoveIntendedKeys(t, v, hash);
    RemoveIntendedInvariants(t, v, hash);
    RemoveIntendedInOrder(t, v, hash);
    RemoveProps.RemoveContents(t, v, hash);
  }

  /*
   * Finding 2: find_best_match tests the candidate with `if best_match:`,
   * so a successor whose value is falsy (0, "", an empty tuple) is skipped
   * and the minimum-key value is returned instead.
   */

  /** Python truthiness of an int. */
  function IntTruthy(x: int): bool
  {
    x != 0
  }

  /** Ring holding -5, 0 and 5: the best match for -3 should be 0, but -5 is returned. */
  lemma FalsySuccessorSkipped()
    ensures var t := InsertAll(Empty, [-5, 0, 5], Identity);
      IsLeastAbove(t, -3, (0, 0)) &&
      BestMatch(t, -3, Identity, IntTruthy) == Some(-5)
  {
    var t := InsertAll(Empty, [-5, 0, 5], Identity);
    assert [-5, 0, 5][1..] == [0, 5] && [0, 5][1..] == [5] && [5][1..] == [];
    assert t == Node(Empty, -5, -5, Node(Empty, 0, 0, Node(Empty, 5, 5, Empty)));
  }

  /** find_best_match as intended: the candidate is tested with `is not None`. */
  function BestMatchIntended<V>(t: Tree<V>, k: int, hash: V -> int): Option<V>
  {
    if t.Empty? then None
    else match Walk(t, k, None, hash)
      case Exact(x) => Some(x)
      case Fell(b) => if b.Some? then b else Some(Leftmost(t).1)
  }

  /**
   * The intended lookup returns None only on an empty tree, the exact match
   * when the key is stored, the value with the least key above the target
   * when there is one, and the minimum-key value otherwise.
   */
  lemma BestMatchIntendedCorrect<V>(t: Tree<V>, k: int, hash: V -> int)
    requires Ordered(t) && Consistent(t, hash)
    ensures BestMatchIntended(t, k, hash).None? <==> t.Empty?
    ensures k in Keys(t) ==>
      BestMatchIntended(t, k, hash).Some? && (k, BestMatchIntended(t, k, hash).value) in Entries(t)
    ensures t.Node? && AllBelow(t, k) ==> BestMatchIntended(t, k, hash) == Some(Leftmost(t).1)
    ensures forall e :: k !in Keys(t) && IsLeastAbove(t, k, e) ==> BestMatchIntended(t, k, hash) == Some(e.1)
  {
    var always := (x: V) => true;
    assert BestMatchIntended(t, k, hash) == BestMatch(t, k, hash, always);
    LookupProps.LookupCases(t, k, hash, always);
  }
}
