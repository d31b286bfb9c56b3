/** What the minimum search and the find_best_match descent compute. */
module LookupProps {
  import opened Wrappers
  import opened KeyTree

  /** In an ordered tree the leftmost node of the right subtree is the node's in-order successor. */
  lemma RightMinimumIsSuccessor<V>(t: Tree<V>)
    requires Ordered(t) && t.Node? && t.right.Node?
    ensures IsLeastAbove(t, t.key, Leftmost(t.right))
  {
    var e := Leftmost(t.right);
    EntryKey(t.right, e);
    assert forall kk :: kk in Keys(t.left) ==> kk < t.key;
  }

  /** On an exact key match the descent stops at the node holding that key, whatever the candidate. */
  lemma {:induction false} WalkFindsKey<V>(t: Tree<V>, k: int, best: Option<V>, hash: V -> int)
    requires Ordered(t) && k in Keys(t)
    ensures Walk(t, k, best, hash).Exact?
    ensures (k, Walk(t, k, best, hash).value) in Entries(t)
  {
    match t
    case Node(l, x, nk, r) =>
      if nk == k {
      } else if nk > k {
        assert k !in Keys(r);
        var closer := best.None? || Abs(nk - k) < Abs(hash(best.value) - k);
        WalkFindsKey(l, k, if closer then Some(x) else best, hash);
      } else {
        assert k !in Keys(l);
        WalkFindsKey(r, k, best, hash);
      }
  }

  /** When every key is below the target the descent only goes right and keeps its candidate. */
  lemma {:induction false} WalkAllBelow<V>(t: Tree<V>, k: int, best: Option<V>, hash: V -> int)
    requires AllBelow(t, k)
    ensures Walk(t, k, best, hash) == Fell(best)
  {
    match t
    case Empty =>
    case Node(l, x, nk, r) =>
      assert nk in Keys(t);
      WalkAllBelow(r, k, best, hash);
  }

  /**
   * Without an exact match the descent ends with the entry of least key above
   * the target, or with its initial candidate when no key is above it. Every
   * later candidate is closer than the one before, so the distance test always
   * passes when keys are the hashes of their values.
   */
  lemma {:induction false} WalkSuccessor<V>(t: Tree<V>, k: int, best: Option<V>, hash: V -> int)
    requires Ordered(t) && Consistent(t, hash) && k !in Keys(t)
    requires best.Some? ==> k < hash(best.value) && forall kk :: kk in Keys(t) ==> kk < hash(best.value)
    ensures Walk(t, k, best, hash).Fell?
    ensures AllBelow(t, k) ==> Walk(t, k, best, hash).best == best
    ensures !AllBelow(t, k) ==>
      var b := Walk(t, k, best, hash).best;
      b.Some? && IsLeastAbove(t, k, (hash(b.value), b.value))
  {
    match t
    case Empty =>
    case Node(l, x, nk, r) =>
      if nk > k {
        assert nk in Keys(t);
        var closer := best.None? || Abs(nk - k) < Abs(hash(best.value) - k);
        assert closer;
        WalkSuccessor(l, k, Some(x), hash);
        var b := Walk(l, k, Some(x), hash).best;
        assert !AllBelow(t, k);
        if AllBelow(l, k) {
          assert b == Some(x);
          assert forall kk :: kk in Keys(l) ==> kk < k;
        } else {
          assert IsLeastAbove(l, k, (hash(b.value), b.value));
          EntryKey(l, (hash(b.value), b.value));
          forall kk | kk in Keys(t) && k < kk
            ensures hash(b.value) <= kk
          {
            if kk in Keys(r) {
              assert nk < kk;
            }
          }
        }
      } else {
        assert forall kk :: kk in Keys(l) ==> kk < k;
        WalkSuccessor(r, k, best, hash);
        var b := Walk(r, k, best, hash).best;
        assert AllBelow(t, k) <==> AllBelow(r, k);
        if !AllBelow(r, k) {
          assert IsLeastAbove(r, k, (hash(b.value), b.value));
          forall kk | kk in Keys(t) && k < kk
            ensures hash(b.value) <= kk
          {
          }
        }
      }
  }

  /** Exact match wins: a stored key equal to the target yields that node's value. */
  lemma LookupExact<V>(t: Tree<V>, k: int, hash: V -> int, truthy: V -> bool)
    requires Ordered(t) && k in Keys(t)
    ensures BestMatch(t, k, hash, truthy).Some?
    ensures (k, BestMatch(t, k, hash, truthy).value) in Entries(t)
  {
    WalkFindsKey(t, k, None, hash);
  }

  /** Wrap-around: with every key below the target, the minimum-key value is returned. */
  lemma LookupWrap<V>(t: Tree<V>, k: int, hash: V -> int, truthy: V -> bool)
    requires t.Node? && AllBelow(t, k)
    ensures BestMatch(t, k, hash, truthy) == Some(Leftmost(t).1)
  {
    WalkAllBelow(t, k, None, hash);
  }

  /**
   * Successor rule: without an exact match, the value with the least key above
   * the target is returned when it is truthy; a falsy one falls through to the
   * minimum-key value.
   */
  lemma LookupSuccessor<V>(t: Tree<V>, k: int, hash: V -> int, truthy: V -> bool, e: (int, V))
    requires Ordered(t) && Consistent(t, hash) && k !in Keys(t) && IsLeastAbove(t, k, e)
    ensures BestMatch(t, k, hash, truthy) == if truthy(e.1) then Some(e.1) else Some(Leftmost(t).1)
  {
    EntryKey(t, e);
    assert !AllBelow(t, k);
    WalkSuccessor(t, k, None, hash);
    var b := Walk(t, k, None, hash).best;
    var d := (hash(b.value), b.value);
    EntryKey(t, d);
    EntryUnique(t, d, e);
  }

  /**
   * A target below every key gets the minimum-key value, truthy or not: it is
   * both the successor and the fallback.
   */
  lemma LookupBelowAll<V>(t: Tree<V>, k: int, hash: V -> int, truthy: V -> bool)
    requires t.Node? && Ordered(t) && Consistent(t, hash)
    requires forall kk :: kk in Keys(t) ==> k < kk
    ensures BestMatch(t, k, hash, truthy) == Some(Leftmost(t).1)
  {
    var e := Leftmost(t);
    EntryKey(t, e);
    LookupSuccessor(t, k, hash, truthy, e);
  }

  /** All the cases of find_best_match on an ordered tree, gathered for the ring. */
  lemma LookupCases<V>(t: Tree<V>, k: int, hash: V -> int, truthy: V -> bool)
    requires Ordered(t)
    ensures BestMatch(t, k, hash, truthy).None? <==> t.Empty?
    ensures k in Keys(t) ==>
      BestMatch(t, k, hash, truthy).Some? && (k, BestMatch(t, k, hash, truthy).value) in Entries(t)
    ensures t.Node? && AllBelow(t, k) ==> BestMatch(t, k, hash, truthy) == Some(Leftmost(t).1)
    ensures forall e :: Consistent(t, hash) && k !in Keys(t) && IsLeastAbove(t, k, e) ==>
      BestMatch(t, k, hash, truthy) == if truthy(e.1) then Some(e.1) else Some(Leftmost(t).1)
  {
    if k in Keys(t) {
      LookupExact(t, k, hash, truthy);
    }
    if t.Node? && AllBelow(t, k) {
      LookupWrap(t, k, hash, truthy);
    }
    forall e | Consistent(t, hash) && k !in Keys(t) && IsLeastAbove(t, k, e)
      ensures BestMatch(t, k, hash, truthy) == if truthy(e.1) then Some(e.1) else Some(Leftmost(t).1)
    {
      LookupSuccessor(t, k, hash, truthy, e);
    }
  }
}
