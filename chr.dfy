/**
 * The consistent-hash ring of chr.py: `SubTree` nodes of an unbalanced
 * binary search tree ordered by key, and the `ConsistentHashRing` wrapper
 * around its head node. The hash function is a parameter (Python's built-in
 * `hash`); every node keeps its key in a field of its own.
 */
module Chr {
  import opened Wrappers
  import opened KeyTree
  import LookupProps
  import TraversalProps
  import InsertProps
  import RemoveProps

  /** The error Python raises when an empty ring is iterated (`iter(None)`). */
  datatype Error = TypeError

  /** The abstract tree below a possibly absent node. */
  ghost function ModelOf<V>(n: SubTree?<V>): Tree<V>
    reads n
  {
    if n == null then Empty else n.Model
  }

  ghost function ReprOf<V>(n: SubTree?<V>): set<object>
    reads n
  {
    if n == null then {} else n.Repr
  }

  class SubTree<V> {
    var value: V
    const key: int
    var left: SubTree?<V>
    var right: SubTree?<V>

    ghost var Model: Tree<V>
    ghost var Repr: set<object>

    /** The nodes below form a tree (no sharing, no cycles) and Model is its value. */
    ghost predicate Valid()
      reads this, Repr
      ensures Valid() ==> this in Repr && Model.Node?
      decreases Repr
    {
      this in Repr &&
      (left != null ==>
        left in Repr && left.Repr <= Repr && this !in left.Repr && left.Valid()) &&
      (right != null ==>
        right in Repr && right.Repr <= Repr && this !in right.Repr && right.Valid()) &&
      (left != null && right != null ==> left.Repr !! right.Repr) &&
      Model == Node(ModelOf(left), value, key, ModelOf(right))
    }

    /** SubTree(value): a childless node keyed by the value's hash. */
    constructor (v: V, hash: V -> int)
      ensures Valid() && fresh(Repr)
      ensures value == v && key == hash(v) && left == null && right == null
      ensures Model == Node(Empty, v, hash(v), Empty)
    {
      value, key := v, hash(v);
      left, right := null, null;
      Model := Node(Empty, v, hash(v), Empty);
      Repr := {this};
    }

    /** add_child: insert into the subtree, ignoring a value whose key is already here. */
    method AddChild(v: V, hash: V -> int)
      requires Valid()
      modifies Repr
      ensures Valid() && fresh(Repr - old(Repr))
      ensures Model == Insert(old(Model), v, hash)
      decreases Repr
    {
      var k := hash(v);
      if k == key {
        return;
      }
      if k > key {
        if right == null {
          right := new SubTree(v, hash);
        } else {
          right.AddChild(v, hash);
        }
        Repr := Repr + right.Repr;
      }
      if k < key {
        if left == null {
          left := new SubTree(v, hash);
        } else {
          left.AddChild(v, hash);
        }
        Repr := Repr + left.Repr;
      }
      Model := Node(ModelOf(left), value, key, ModelOf(right));
    }

    /** _find_minimum_subtree_child_value: follow left links to the leftmost node. */
    method FindMinimum() returns (m: V)
      requires Valid()
      ensures m == Leftmost(Model).1
      ensures Ordered(Model) ==> forall kk :: kk in Keys(Model) ==> Leftmost(Model).0 <= kk
    {
      var current: SubTree<V> := this;
      while current.left != null
        invariant current.Valid()
        invariant Leftmost(current.Model) == Leftmost(Model)
        decreases current.Repr
      {
        current := current.left;
      }
      m := current.value;
    }

    /** _find_in_order_successor: the minimum of the right subtree, if there is one. */
    method FindInOrderSuccessor() returns (s: Option<V>)
      requires Valid()
      ensures s.Some? <==> right != null
      ensures right != null ==> s.value == Leftmost(right.Model).1
      ensures right != null && Ordered(Model) ==> IsLeastAbove(Model, key, Leftmost(right.Model))
    {
      if right == null {
        return None;
      }
      var m := right.FindMinimum();
      if Ordered(Model) {
        LookupProps.RightMinimumIsSuccessor(Model);
      }
      return Some(m);
    }

    /**
     * remove_value: returns the node that takes this node's place. With two
     * children the successor's value is copied into this node (its key is not)
     * and then removed from the right subtree.
     */
    method RemoveValue(v: V, hash: V -> int) returns (r: SubTree?<V>)
      requires Valid()
      modifies Repr
      ensures r != null ==> r.Valid() && r.Repr <= old(Repr)
      ensures ModelOf(r) == Remove(old(Model), v, hash)
      decreases Repr, 1
    {
      var k := hash(v);
      if k == key {
        if left == null && right == null {
          return null;
        }
        if left == null && right != null {
          return right;
        }
        if right == null && left != null {
          return left;
        }
        // both children are present
        var s := FindInOrderSuccessor();
        value := s.value;
        Model := Node(ModelOf(left), value, key, ModelOf(right));
        RemoveFromRight(value, hash);
        return this;
      } else {
        RemoveFromLeft(v, hash);
        RemoveFromRight(v, hash);
        return this;
      }
    }

    /** `self.left = self.left.remove_value(value) if self.left is not None else self.left` */
    method RemoveFromLeft(v: V, hash: V -> int)
      requires Valid()
      modifies Repr
      ensures Valid() && Repr <= old(Repr)
      ensures Model == old(Model).(left := Remove(old(Model).left, v, hash))
      decreases Repr, 0
    {
      if left != null {
        left := left.RemoveValue(v, hash);
        Repr := {this} + ReprOf(left) + ReprOf(right);
        Model := Node(ModelOf(left), value, key, ModelOf(right));
      }
    }

    /** `self.right = self.right.remove_value(value) if self.right is not None else self.right` */
    method RemoveFromRight(v: V, hash: V -> int)
      requires Valid()
      modifies Repr
      ensures Valid() && Repr <= old(Repr)
      ensures Model == old(Model).(right := Remove(old(Model).right, v, hash))
      decreases Repr, 0
    {
      if right != null {
        right := right.RemoveValue(v, hash);
        Repr := {this} + ReprOf(left) + ReprOf(right);
        Model := Node(ModelOf(left), value, key, ModelOf(right));
      }
    }

    /** __contains__: descend by key comparison looking for an exact key match. */
    function Contains(v: V, hash: V -> int): (b: bool)
      reads this, Repr
      requires Valid()
      ensures b ==> hash(v) in Keys(Model)
      ensures Ordered(Model) ==> (b <==> hash(v) in Keys(Model))
      decreases Repr
    {
      var k := hash(v);
      if k == key then true
      else if k > key then (if right == null then false else right.Contains(v, hash))
      else (if left == null then false else left.Contains(v, hash))
    }

    /** __iter__: the values in in-order position (left subtree, this node, right subtree). */
    function Values(): (s: seq<V>)
      reads this, Repr
      requires Valid()
      ensures s == InOrder(Model)
      decreases Repr
    {
      (if left == null then [] else left.Values()) + [value] +
      (if right == null then [] else right.Values())
    }
  }

  class ConsistentHashRing<V> {
    const hash: V -> int
    var head: SubTree?<V>

    ghost var Repr: set<object>

    /** The head's tree is well formed and kept in strict key order. */
    ghost predicate Valid()
      reads this, Repr
    {
      this in Repr &&
      (head != null ==> head in Repr && head.Repr <= Repr && this !in head.Repr && head.Valid()) &&
      Ordered(Model())
    }

    /** The abstract tree held by the ring; `Empty` when `head` is None. */
    ghost function Model(): Tree<V>
      reads this, head
    {
      ModelOf(head)
    }

    /** ConsistentHashRing(value=None): empty, or a single node holding `init`. */
    constructor (hash: V -> int, init: Option<V>)
      ensures Valid() && fresh(Repr)
      ensures this.hash == hash
      ensures Model() == if init.None? then Empty else Node(Empty, init.value, hash(init.value), Empty)
    {
      this.hash := hash;
      if init.None? {
        head := null;
        Repr := {this};
      } else {
        var n := new SubTree(init.value, hash);
        head := n;
        Repr := {this} + n.Repr;
      }
    }

    /** add_node: an empty ring gets a single node, otherwise the head inserts. */
    method AddNode(v: V)
      requires Valid()
      modifies Repr
      ensures Valid() && fresh(Repr - old(Repr))
      ensures Model() == Insert(old(Model()), v, hash)
      ensures Keys(Model()) == Keys(old(Model())) + {hash(v)}
    {
      InsertProps.InsertKeys(Model(), v, hash);
      InsertProps.InsertOrdered(Model(), v, hash);
      if head == null {
        head := new SubTree(v, hash);
      } else {
        head.AddChild(v, hash);
      }
      Repr := Repr + head.Repr;
    }

    /** remove_node: a no-op on an empty ring, otherwise the head is replaced. */
    method RemoveNode(v: V)
      requires Valid()
      modifies Repr
      ensures Valid() && Repr <= old(Repr)
      ensures Model() == Remove(old(Model()), v, hash)
      ensures old(head) == null ==> head == null
      ensures hash(v) !in Keys(old(Model())) ==> Model() == old(Model())
    {
      if head == null {
        return;
      }
      RemoveProps.RemoveOrdered(Model(), v, hash);
      if hash(v) !in Keys(Model()) {
        RemoveProps.RemoveAbsent(Model(), v, hash);
      }
      head := head.RemoveValue(v, hash);
      Repr := {this} + ReprOf(head);
    }

    /**
     * find_best_match: the exact key match if there is one, otherwise the
     * closest candidate with a larger key met on the descent when it is truthy,
     * otherwise the minimum-key value.
     */
    method FindBestMatch(v: V, truthy: V -> bool) returns (r: Option<V>)
      requires Valid()
      ensures r == BestMatch(Model(), hash(v), hash, truthy)
      ensures r.None? <==> head == null
      ensures hash(v) in Keys(Model()) ==> r.Some? && (hash(v), r.value) in Entries(Model())
      ensures head != null && AllBelow(Model(), hash(v)) ==> r == Some(Leftmost(Model()).1)
      ensures forall e :: Consistent(Model(), hash) && hash(v) !in Keys(Model()) && IsLeastAbove(Model(), hash(v), e) ==>
        r == if truthy(e.1) then Some(e.1) else Some(Leftmost(Model()).1)
    {
      var k := hash(v);
      var current := head;
      var best: Option<V>, bestKey: Option<int> := None, None;

      if head == null {
        return None;
      }

      while current != null
        invariant current != null ==> current.Valid()
        invariant best.Some? <==> bestKey.Some?
        invariant best.Some? ==> bestKey.value == hash(best.value)
        invariant Walk(Model(), k, None, hash) == Walk(ModelOf(current), k, best, hash)
        decreases ReprOf(current)
      {
        if current.key == k {
          r := Some(current.value);
          LookupProps.LookupCases(Model(), k, hash, truthy);
          return r;
        } else if current.key > k {
          best := if bestKey.None? || Abs(current.key - k) < Abs(bestKey.value - k) then Some(current.value) else best;
          bestKey := Some(hash(best.value));
          current := current.left;
        } else {
          current := current.right;
        }
      }

      if best.Some? && truthy(best.value) {
        r := best;
      } else {
        var m := head.FindMinimum();
        r := Some(m);
      }
      LookupProps.LookupCases(Model(), k, hash, truthy);
    }

    /** __iter__: the in-order values; iterating an empty ring raises TypeError. */
    function Iterate(): (r: Result<seq<V>, Error>)
      reads this, Repr
      requires Valid()
      ensures r.Err? <==> head == null
      ensures r.Ok? ==> r.value == InOrder(Model()) && StrictlyIncreasing(KeySeq(Model()))
    {
      if head == null then Err(TypeError) else Ok(head.Values())
    }

    /** __len__: the number of traversed values; raises TypeError on an empty ring. */
    function Length(): (r: Result<nat, Error>)
      reads this, Repr
      requires Valid()
      ensures r.Err? <==> head == null
      ensures r.Ok? ==> r.value == |Keys(Model())|
    {
      if head == null then Err(TypeError)
      else
        TraversalProps.CountIsKeyCount(Model());
        Ok(|head.Values()|)
    }
  }
}
