/**
 * The abstract value of a binary search tree of `SubTree` nodes: every node
 * carries the stored value and, as a separate field, its ordering key (the
 * hash of the value it was created with). The functions here describe what
 * the node operations of chr.py compute; the classes in module Chr are
 * proved against them.
 */
module KeyTree {
  import opened Wrappers

  datatype Tree<V> = Empty | Node(left: Tree<V>, value: V, key: int, right: Tree<V>)

  /** The set of keys stored in a tree. */
  ghost function Keys<V>(t: Tree<V>): set<int>
  {
    match t
    case Empty => {}
    case Node(l, _, k, r) => Keys(l) + {k} + Keys(r)
  }

  /** The (key, value) pairs of all nodes of a tree. */
  ghost function Entries<V>(t: Tree<V>): set<(int, V)>
  {
    match t
    case Empty => {}
    case Node(l, x, k, r) => Entries(l) + {(k, x)} + Entries(r)
  }

  /** Strict search-tree order on keys: left keys < node key < right keys. */
  ghost predicate Ordered<V>(t: Tree<V>)
  {
    match t
    case Empty => true
    case Node(l, _, k, r) =>
      Ordered(l) && Ordered(r) &&
      (forall kk :: kk in Keys(l) ==> kk < k) &&
      (forall kk :: kk in Keys(r) ==> k < kk)
  }

  /** Every node's key is the hash of the value it holds. */
  ghost predicate Consistent<V>(t: Tree<V>, hash: V -> int)
  {
    match t
    case Empty => true
    case Node(l, x, k, r) => Consistent(l, hash) && k == hash(x) && Consistent(r, hash)
  }

  ghost predicate StrictlyIncreasing(s: seq<int>)
  {
    forall i, j :: 0 <= i < j < |s| ==> s[i] < s[j]
  }

  /** True when every stored key is below `k`. */
  ghost predicate AllBelow<V>(t: Tree<V>, k: int)
  {
    forall kk :: kk in Keys(t) ==> kk < k
  }

  /** `e` is the entry with the smallest key strictly greater than `k`. */
  ghost predicate IsLeastAbove<V>(t: Tree<V>, k: int, e: (int, V))
  {
    e in Entries(t) && k < e.0 && forall kk :: kk in Keys(t) && k < kk ==> e.0 <= kk
  }

  lemma {:induction false} EntryKey<V>(t: Tree<V>, e: (int, V))
    requires e in Entries(t)
    ensures e.0 in Keys(t)
  {
    match t
    case Node(l, x, k, r) =>
      if e in Entries(l) {
        EntryKey(l, e);
      } else if e in Entries(r) {
        EntryKey(r, e);
      }
  }

  lemma {:induction false} EntryHash<V>(t: Tree<V>, hash: V -> int, e: (int, V))
    requires Consistent(t, hash) && e in Entries(t)
    ensures e.0 == hash(e.1)
  {
    match t
    case Node(l, x, k, r) =>
      if e in Entries(l) {
        EntryHash(l, hash, e);
      } else if e in Entries(r) {
        EntryHash(r, hash, e);
      }
  }

  /** In an ordered tree a key identifies one entry. */
  lemma {:induction false} EntryUnique<V>(t: Tree<V>, d: (int, V), e: (int, V))
    requires Ordered(t) && d in Entries(t) && e in Entries(t) && d.0 == e.0
    ensures d == e
  {
    match t
    case Node(l, x, k, r) =>
      if d in Entries(l) { EntryKey(l, d); }
      if d in Entries(r) { EntryKey(r, d); }
      if e in Entries(l) { EntryKey(l, e); }
      if e in Entries(r) { EntryKey(r, e); }
      if d in Entries(l) && e in Entries(l) {
        EntryUnique(l, d, e);
      } else if d in Entries(r) && e in Entries(r) {
        EntryUnique(r, d, e);
      }
  }

  /** In-order traversal of the stored values (SubTree.__iter__). */
  function InOrder<V>(t: Tree<V>): seq<V>
  {
    match t
    case Empty => []
    case Node(l, x, _, r) => InOrder(l) + [x] + InOrder(r)
  }

  /** The node keys in in-order position; under Ordered, exactly the stored keys, ascending. */
  function KeySeq<V>(t: Tree<V>): (s: seq<int>)
    ensures |s| == |InOrder(t)|
    ensures forall i :: 0 <= i < |s| ==> s[i] in Keys(t)
    ensures forall kk :: kk in Keys(t) ==> kk in s
    ensures Ordered(t) ==> StrictlyIncreasing(s)
  {
    match t
    case Empty => []
    case Node(l, _, k, r) =>
      var a, b := KeySeq(l), KeySeq(r);
      assert forall i :: 0 <= i < |a| ==> a[i] in Keys(l);
      assert forall i :: 0 <= i < |b| ==> b[i] in Keys(r);
      a + [k] + b
  }

  /** The tree after SubTree.add_child(v): a new leaf at the search position, or no change. */
  function Insert<V>(t: Tree<V>, v: V, hash: V -> int): Tree<V>
  {
    match t
    case Empty => Node(Empty, v, hash(v), Empty)
    case Node(l, x, k, r) =>
      if hash(v) == k then t
      else if hash(v) > k then Node(l, x, k, Insert(r, v, hash))
      else Node(Insert(l, v, hash), x, k, r)
  }

  /** The (key, value) of the leftmost node: what the minimum search reaches. */
  function Leftmost<V>(t: Tree<V>): (e: (int, V))
    requires t.Node?
    ensures e in Entries(t)
    ensures Ordered(t) ==> forall kk :: kk in Keys(t) ==> e.0 <= kk
  {
    if t.left.Empty? then (t.key, t.value) else Leftmost(t.left)
  }

  /**
   * The subtree that SubTree.remove_value(v) returns. A key match with two
   * children copies the successor's VALUE into the node, keeping the node's
   * old key, and removes the successor's value from the right subtree; a key
   * mismatch recurses into both children.
   */
  function Remove<V>(t: Tree<V>, v: V, hash: V -> int): Tree<V>
  {
    match t
    case Empty => Empty
    case Node(l, x, k, rt) =>
      if hash(v) == k then
        if l.Empty? && rt.Empty? then Empty
        else if l.Empty? then rt
        else if rt.Empty? then l
        else
          var s := Leftmost(rt).1;
          Node(l, s, k, Remove(rt, s, hash))
      else
        Node(Remove(l, v, hash), x, k, Remove(rt, v, hash))
  }

  function Abs(x: int): int
  {
    if x < 0 then -x else x
  }

  /** How the descent of find_best_match ends: at an exact key match, or off the tree. */
  datatype WalkEnd<V> = Exact(value: V) | Fell(best: Option<V>)

  /**
   * The descent loop of find_best_match from node `t` with current candidate
   * `best` (`None` plays the part of the infinite sentinel key). A node whose
   * key exceeds `k` replaces the candidate when it is strictly closer to `k`
   * than the hash of the current candidate.
   */
  function Walk<V>(t: Tree<V>, k: int, best: Option<V>, hash: V -> int): WalkEnd<V>
  {
    match t
    case Empty => Fell(best)
    case Node(l, x, nk, r) =>
      if nk == k then Exact(x)
      else if nk > k then
        var closer := best.None? || Abs(nk - k) < Abs(hash(best.value) - k);
        Walk(l, k, if closer then Some(x) else best, hash)
      else Walk(r, k, best, hash)
  }

  /** ConsistentHashRing.find_best_match on a ring whose tree is `t`. */
  function BestMatch<V>(t: Tree<V>, k: int, hash: V -> int, truthy: V -> bool): Option<V>
  {
    if t.Empty? then None
    else match Walk(t, k, None, hash)
      case Exact(x) => Some(x)
      case Fell(b) => if b.Some? && truthy(b.value) then b else Some(Leftmost(t).1)
  }

  /** The tree built by inserting `vs` in order into `t`. */
  function InsertAll<V>(t: Tree<V>, vs: seq<V>, hash: V -> int): Tree<V>
    decreases |vs|
  {
    if vs == [] then t else InsertAll(Insert(t, vs[0], hash), vs[1..], hash)
  }

  /** The tree left after removing `vs` from `t` in order. */
  function RemoveAll<V>(t: Tree<V>, vs: seq<V>, hash: V -> int): Tree<V>
    decreases |vs|
  {
    if vs == [] then t else RemoveAll(Remove(t, vs[0], hash), vs[1..], hash)
  }

  /** The hashes of a sequence of values. */
  ghost function Hashes<V>(vs: seq<V>, hash: V -> int): set<int>
  {
    set i | 0 <= i < |vs| :: hash(vs[i])
  }

  /** `s` without the values whose hash is `k`. */
  function Without<V>(s: seq<V>, k: int, hash: V -> int): seq<V>
  {
    if s == [] then []
    else (if hash(s[0]) == k then [] else [s[0]]) + Without(s[1..], k, hash)
  }
}
