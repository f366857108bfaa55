/**
 * What the node routines of `Avl` promise: the search-tree order, the stored
 * entries each operation adds, keeps or removes, its return values, and the
 * keys handed to `rel`.
 */
module AvlLemmas {
  import opened Order
  import opened Avl

  /** The keys of `s`, read left to right, strictly decrease under `cmp`. */
  ghost predicate Descending<K, V>(cmp: (K, K) -> int, s: seq<Entry<K, V>>) {
    forall i, j :: 0 <= i < j < |s| ==> cmp(s[i].0, s[j].0) > 0
  }

  /** The keys of `t`, in order. */
  function Keys<K, V>(t: Tree<K, V>): seq<K>
  {
    match t
    case Nil => []
    case Node(l, k, _, _, r) => Keys(l) + [k] + Keys(r)
  }

  /** Two trees with the same shape, keys and heights, whose values may differ. */
  ghost predicate SameShape<K, V>(t: Tree<K, V>, u: Tree<K, V>) {
    match t
    case Nil => u.Nil?
    case Node(l, k, _, h, r) =>
      u.Node? && u.key == k && u.height == h && SameShape(l, u.left) && SameShape(r, u.right)
  }

  // Multiset bookkeeping for a walk `a + [x] + b` whose left part `a` or
  // right part `b` is replaced by one with an entry `y` added, removed, or
  // exchanged for `z`.

  lemma AddLeft<T>(a: seq<T>, x: T, b: seq<T>, a': seq<T>, y: T)
    requires multiset(a') == multiset(a) + multiset{y}
    ensures multiset(a' + [x] + b) == multiset(a + [x] + b) + multiset{y}
  {
  }

  lemma AddRight<T>(a: seq<T>, x: T, b: seq<T>, b': seq<T>, y: T)
    requires multiset(b') == multiset(b) + multiset{y}
    ensures multiset(a + [x] + b') == multiset(a + [x] + b) + multiset{y}
  {
  }

  lemma DropLeft<T>(a: seq<T>, x: T, b: seq<T>, a': seq<T>, y: T)
    requires multiset(a') + multiset{y} == multiset(a)
    ensures multiset(a' + [x] + b) + multiset{y} == multiset(a + [x] + b)
  {
  }

  lemma DropRight<T>(a: seq<T>, x: T, b: seq<T>, b': seq<T>, y: T)
    requires multiset(b') + multiset{y} == multiset(b)
    ensures multiset(a + [x] + b') + multiset{y} == multiset(a + [x] + b)
  {
  }

  lemma SwapLeft<T>(a: seq<T>, x: T, b: seq<T>, a': seq<T>, y: T, z: T)
    requires multiset(a') + multiset{y} == multiset(a) + multiset{z}
    ensures multiset(a' + [x] + b) + multiset{y} == multiset(a + [x] + b) + multiset{z}
  {
    calc {
      multiset(a' + [x] + b) + multiset{y};
      (multiset(a') + multiset{y}) + multiset{x} + multiset(b);
      (multiset(a) + multiset{z}) + multiset{x} + multiset(b);
      multiset(a + [x] + b) + multiset{z};
    }
  }

  lemma SwapRight<T>(a: seq<T>, x: T, b: seq<T>, b': seq<T>, y: T, z: T)
    requires multiset(b') + multiset{y} == multiset(b) + multiset{z}
    ensures multiset(a + [x] + b') + multiset{y} == multiset(a + [x] + b) + multiset{z}
  {
    calc {
      multiset(a + [x] + b') + multiset{y};
      multiset(a) + multiset{x} + (multiset(b') + multiset{y});
      multiset(a) + multiset{x} + (multiset(b) + multiset{z});
      multiset(a + [x] + b) + multiset{z};
    }
  }

  lemma DropMiddle<T>(a: seq<T>, b: seq<T>, x: T)
    ensures multiset(a + b) + multiset{x} == multiset(a + [x] + b)
  {
  }

  lemma SwapMiddle<T>(a: seq<T>, b: seq<T>, y: T, z: T)
    ensures multiset(a + [z] + b) + multiset{y} == multiset(a + [y] + b) + multiset{z}
  {
    calc {
      multiset(a + [z] + b) + multiset{y};
      multiset(a) + multiset(b) + multiset{y} + multiset{z};
      multiset(a + [y] + b) + multiset{z};
    }
  }

  // ---------------------------------------------------------------------
  // Order

  /** Every key of `s` compares less than `k` (so it sits after `k` in a descending walk). */
  ghost predicate AllBelow<K, V>(cmp: (K, K) -> int, k: K, s: seq<Entry<K, V>>) {
    forall e | e in s :: cmp(k, e.0) > 0
  }

  /** Every key of `s` compares greater than `k`. */
  ghost predicate AllAbove<K, V>(cmp: (K, K) -> int, k: K, s: seq<Entry<K, V>>) {
    forall e | e in s :: cmp(k, e.0) < 0
  }

  /** A descending walk split around one entry: both sides descend, and the entry sits between them. */
  lemma DescendingSplit<K(!new), V>(cmp: (K, K) -> int, L: seq<Entry<K, V>>, x: Entry<K, V>, R: seq<Entry<K, V>>)
    requires ValidCmp(cmp) && Descending(cmp, L + [x] + R)
    ensures Descending(cmp, L) && Descending(cmp, R)
    ensures AllAbove(cmp, x.0, L) && AllBelow(cmp, x.0, R)
  {
    var s := L + [x] + R;
    forall i, j | 0 <= i < j < |L| ensures cmp(L[i].0, L[j].0) > 0 {
      assert s[i] == L[i] && s[j] == L[j];
    }
    forall i, j | 0 <= i < j < |R| ensures cmp(R[i].0, R[j].0) > 0 {
      assert s[|L| + 1 + i] == R[i] && s[|L| + 1 + j] == R[j];
    }
    forall e | e in L ensures cmp(x.0, e.0) < 0 {
      var i :| 0 <= i < |L| && L[i] == e;
      assert s[i] == e && s[|L|] == x;
      CmpChain(cmp, x.0, e.0, e.0);
    }
    forall e | e in R ensures cmp(x.0, e.0) > 0 {
      var j :| 0 <= j < |R| && R[j] == e;
      assert s[|L| + 1 + j] == e && s[|L|] == x;
    }
  }

  /** The head of a descending walk is above everything after it, and the rest descends. */
  lemma DescendingHead<K, V>(cmp: (K, K) -> int, x: Entry<K, V>, R: seq<Entry<K, V>>)
    requires Descending(cmp, [x] + R)
    ensures Descending(cmp, R) && AllBelow(cmp, x.0, R)
  {
    var s := [x] + R;
    forall i, j | 0 <= i < j < |R| ensures cmp(R[i].0, R[j].0) > 0 {
      assert s[1 + i] == R[i] && s[1 + j] == R[j];
    }
    forall e | e in R ensures cmp(x.0, e.0) > 0 {
      var j :| 0 <= j < |R| && R[j] == e;
      assert s[1 + j] == e && s[0] == x;
    }
  }

  /**
   * In a descending walk at most one entry has a key comparing equal to
   * `key`, and that entry occurs exactly once.
   */
  lemma {:induction false} OneMatch<K(!new), V>(cmp: (K, K) -> int, s: seq<Entry<K, V>>, key: K, x: Entry<K, V>)
    requires ValidCmp(cmp) && Descending(cmp, s)
    requires x in s && cmp(x.0, key) == 0
    ensures multiset(s)[x] == 1
    ensures forall y | y in s && cmp(y.0, key) == 0 :: y == x
  {
    var h, R := s[0], s[1..];
    assert s == [h] + R;
    DescendingHead(cmp, h, R);
    forall y | y in R && cmp(y.0, key) == 0 ensures cmp(h.0, key) != 0 {
      CmpChain(cmp, h.0, key, y.0);
      CmpChain(cmp, y.0, key, h.0);
    }
    if h != x {
      OneMatch(cmp, R, key, x);
    }
  }

  /** Conversely two descending walks joined around an entry between them descend. */
  lemma DescendingJoin<K(!new), V>(cmp: (K, K) -> int, L: seq<Entry<K, V>>, x: Entry<K, V>, R: seq<Entry<K, V>>)
    requires ValidCmp(cmp)
    requires Descending(cmp, L) && Descending(cmp, R)
    requires AllAbove(cmp, x.0, L) && AllBelow(cmp, x.0, R)
    ensures Descending(cmp, L + [x] + R)
  {
    var s := L + [x] + R;
    forall i, j | 0 <= i < j < |s| ensures cmp(s[i].0, s[j].0) > 0 {
      if j < |L| {
        assert s[i] == L[i] && s[j] == L[j];
      } else if j == |L| {
        assert s[i] == L[i] && s[j] == x;
        assert L[i] in L;
        CmpChain(cmp, x.0, s[i].0, s[i].0);
      } else if i > |L| {
        assert s[i] == R[i - |L| - 1] && s[j] == R[j - |L| - 1];
      } else if i == |L| {
        assert s[i] == x && s[j] == R[j - |L| - 1];
        assert R[j - |L| - 1] in R;
      } else {
        assert s[i] == L[i] && s[j] == R[j - |L| - 1];
        assert L[i] in L && R[j - |L| - 1] in R;
        CmpChain(cmp, s[i].0, x.0, s[j].0);
      }
    }
  }

  /**
   * The tree is ordered exactly when its in-order walk is strictly
   * descending: with left-is-greater, an in-order walk lists keys from the
   * greatest to the least.
   */
  lemma {:induction false} OrderedIffDescending<K(!new), V>(cmp: (K, K) -> int, t: Tree<K, V>)
    requires ValidCmp(cmp)
    ensures Ordered(cmp, t) <==> Descending(cmp, Entries(t))
  {
    match t
    case Nil =>
    case Node(l, k, v, _, r) =>
      OrderedIffDescending(cmp, l);
      OrderedIffDescending(cmp, r);
      if Ordered(cmp, t) {
        assert AllAbove(cmp, k, Entries(l)) && AllBelow(cmp, k, Entries(r));
        DescendingJoin(cmp, Entries(l), (k, v), Entries(r));
      }
      if Descending(cmp, Entries(t)) {
        DescendingSplit(cmp, Entries(l), (k, v), Entries(r));
      }
  }

  /** Any two trees with the same in-order walk are ordered alike, so every rotation keeps the order. */
  lemma SameEntriesSameOrder<K(!new), V>(cmp: (K, K) -> int, t: Tree<K, V>, u: Tree<K, V>)
    requires ValidCmp(cmp) && Entries(t) == Entries(u)
    ensures Ordered(cmp, t) <==> Ordered(cmp, u)
  {
    OrderedIffDescending(cmp, t);
    OrderedIffDescending(cmp, u);
  }

  /** Re-balancing a node keeps the tree ordered. */
  lemma RebalanceKeepsOrder<K(!new), V>(cmp: (K, K) -> int, t: Tree<K, V>)
    requires ValidCmp(cmp) && t.Node? && NonNegHeights(t.left) && NonNegHeights(t.right)
    ensures Ordered(cmp, t) <==> Ordered(cmp, Rotate(UpdateHeight(t)))
  {
    var u := UpdateHeight(t);
    SameEntriesSameOrder(cmp, t, u);
    SameEntriesSameOrder(cmp, u, Rotate(u));
  }

  // ---------------------------------------------------------------------
  // avlnode_remove_min

  /**
   * On an ordered subtree the detached node holds the greatest key: every key
   * left behind compares less than it, and what is left behind is ordered.
   */
  lemma RemoveMinTakesGreatest<K(!new), V>(cmp: (K, K) -> int, t: Tree<K, V>)
    requires ValidCmp(cmp) && NonNegHeights(t) && Ordered(cmp, t) && t.Node?
    ensures Ordered(cmp, RemoveMin(t).0)
    ensures forall e | e in Entries(RemoveMin(t).0) :: cmp(RemoveMin(t).1.key, e.0) > 0
  {
    var (rest, min) := RemoveMin(t);
    var x, R := (min.key, min.value), Entries(rest);
    assert Entries(t) == [x] + R;
    OrderedIffDescending(cmp, t);
    DescendingHead(cmp, x, R);
    OrderedIffDescending(cmp, rest);
    assert AllBelow(cmp, min.key, Entries(rest));
  }

  // ---------------------------------------------------------------------
  // _avltree_insert

  /**
   * Inserting a key that compares unequal to every stored key adds exactly
   * one entry, `dup(key)` with the given value, and one node; the result is 0
   * and `*old_out` is NULL.
   */
  lemma {:induction false} InsertFresh<K, V>(cmp: (K, K) -> int, dup: K -> K, t: Tree<K, V>, key: K, value: Ptr<V>, replace: bool)
    requires NonNegHeights(t)
    requires forall e | e in Entries(t) :: cmp(e.0, key) != 0
    ensures var r := Insert(cmp, dup, t, key, value, replace);
      && r.result == 0
      && r.oldOut == Null
      && multiset(Entries(r.tree)) == multiset(Entries(t)) + multiset{(dup(key), value)}
      && Count(r.tree) == Count(t) + 1
  {
    match t
    case Nil =>
    case Node(l, k, v, _, rt) =>
      assert (k, v) in Entries(t);
      var c := cmp(k, key);
      var sub := if c < 0 then Insert(cmp, dup, l, key, value, replace) else Insert(cmp, dup, rt, key, value, replace);
      var linked := if c < 0 then t.(left := sub.tree) else t.(right := sub.tree);
      if c < 0 {
        InsertFresh(cmp, dup, l, key, value, replace);
        AddLeft(Entries(l), (k, v), Entries(rt), Entries(sub.tree), (dup(key), value));
      } else {
        InsertFresh(cmp, dup, rt, key, value, replace);
        AddRight(Entries(l), (k, v), Entries(rt), Entries(sub.tree), (dup(key), value));
      }
      assert Entries(Insert(cmp, dup, t, key, value, replace).tree) == Entries(linked);
  }

  /**
   * In an ordered tree the entry whose key compares equal to `key` lies on the
   * side the search for `key` takes, or is the node itself.
   */
  lemma LocateMatch<K(!new), V>(cmp: (K, K) -> int, t: Tree<K, V>, key: K, e: Entry<K, V>)
    requires ValidCmp(cmp) && t.Node? && Ordered(cmp, t)
    requires e in Entries(t) && cmp(e.0, key) == 0
    ensures cmp(t.key, key) < 0 ==> e in Entries(t.left)
    ensures cmp(t.key, key) > 0 ==> e in Entries(t.right)
    ensures cmp(t.key, key) == 0 ==> e == (t.key, t.value)
  {
    CmpChain(cmp, t.key, e.0, key);
    if e in Entries(t.left) {
      assert cmp(t.key, e.0) < 0;
    } else if e in Entries(t.right) {
      assert cmp(t.key, e.0) > 0;
    } else {
      assert e == (t.key, t.value);
    }
  }

  /**
   * On an ordered tree, inserting a key that compares equal to the stored
   * entry `e` reports `e`'s value; the result is 1 with `replace` and 0 without.
   */
  lemma {:induction false} InsertExisting<K(!new), V>(cmp: (K, K) -> int, dup: K -> K, t: Tree<K, V>, key: K, value: Ptr<V>, replace: bool, e: Entry<K, V>)
    requires ValidCmp(cmp) && NonNegHeights(t) && Ordered(cmp, t)
    requires e in Entries(t) && cmp(e.0, key) == 0
    ensures var r := Insert(cmp, dup, t, key, value, replace);
      r.oldOut == e.1 && r.result == (if replace then 1 else 0)
  {
    match t
    case Node(l, k, v, _, rt) =>
      LocateMatch(cmp, t, key, e);
      if cmp(k, key) < 0 {
        InsertExisting(cmp, dup, l, key, value, replace, e);
      } else if cmp(k, key) > 0 {
        InsertExisting(cmp, dup, rt, key, value, replace, e);
      }
  }

  /**
   * ... it never adds a node or duplicates a key: with `replace` only that
   * entry's value changes, and without it the in-order walk is unchanged.
   */
  lemma {:induction false} InsertExistingEntries<K(!new), V>(cmp: (K, K) -> int, dup: K -> K, t: Tree<K, V>, key: K, value: Ptr<V>, replace: bool, e: Entry<K, V>)
    requires ValidCmp(cmp) && NonNegHeights(t) && Ordered(cmp, t)
    requires e in Entries(t) && cmp(e.0, key) == 0
    ensures var r := Insert(cmp, dup, t, key, value, replace);
      && (replace ==> multiset(Entries(r.tree)) + multiset{e} == multiset(Entries(t)) + multiset{(e.0, value)})
      && (!replace ==> Entries(r.tree) == Entries(t))
  {
    match t
    case Node(l, k, v, _, rt) =>
      LocateMatch(cmp, t, key, e);
      var c := cmp(k, key);
      if c < 0 {
        var sub := Insert(cmp, dup, l, key, value, replace);
        InsertExistingEntries(cmp, dup, l, key, value, replace, e);
        if replace {
          SwapLeft(Entries(l), (k, v), Entries(rt), Entries(sub.tree), e, (e.0, value));
        }
        assert Entries(Insert(cmp, dup, t, key, value, replace).tree) == Entries(t.(left := sub.tree));
      } else if c > 0 {
        var sub := Insert(cmp, dup, rt, key, value, replace);
        InsertExistingEntries(cmp, dup, rt, key, value, replace, e);
        if replace {
          SwapRight(Entries(l), (k, v), Entries(rt), Entries(sub.tree), e, (e.0, value));
        }
        assert Entries(Insert(cmp, dup, t, key, value, replace).tree) == Entries(t.(right := sub.tree));
      } else if replace {
        SwapMiddle(Entries(l), Entries(rt), e, (e.0, value));
      }
  }

  /** So the number of nodes stays the same. */
  lemma InsertExistingCount<K(!new), V>(cmp: (K, K) -> int, dup: K -> K, t: Tree<K, V>, key: K, value: Ptr<V>, replace: bool, e: Entry<K, V>)
    requires ValidCmp(cmp) && NonNegHeights(t) && Ordered(cmp, t)
    requires e in Entries(t) && cmp(e.0, key) == 0
    ensures Count(Insert(cmp, dup, t, key, value, replace).tree) == Count(t)
  {
    var r := Insert(cmp, dup, t, key, value, replace);
    InsertExistingEntries(cmp, dup, t, key, value, replace, e);
    EntriesCount(t);
    EntriesCount(r.tree);
    if replace {
      assert |multiset(Entries(r.tree)) + multiset{e}| == |multiset(Entries(t)) + multiset{(e.0, value)}|;
    }
  }

  /**
   * When the stored value is not NULL no re-balancing runs on the way back, so
   * the shape, keys and heights are left exactly as they were, and without
   * `replace` the tree is not changed at all.
   */
  lemma {:induction false} InsertExistingShape<K(!new), V>(cmp: (K, K) -> int, dup: K -> K, t: Tree<K, V>, key: K, value: Ptr<V>, replace: bool, e: Entry<K, V>)
    requires ValidCmp(cmp) && NonNegHeights(t) && Ordered(cmp, t)
    requires e in Entries(t) && cmp(e.0, key) == 0 && e.1 != Null
    ensures var r := Insert(cmp, dup, t, key, value, replace);
      SameShape(t, r.tree) && (!replace ==> r.tree == t)
  {
    match t
    case Node(l, k, v, _, rt) =>
      LocateMatch(cmp, t, key, e);
      var c := cmp(k, key);
      if c < 0 {
        InsertExisting(cmp, dup, l, key, value, replace, e);
        InsertExistingShape(cmp, dup, l, key, value, replace, e);
        SameShapeRefl(rt);
      } else if c > 0 {
        InsertExisting(cmp, dup, rt, key, value, replace, e);
        InsertExistingShape(cmp, dup, rt, key, value, replace, e);
        SameShapeRefl(l);
      } else {
        SameShapeRefl(l);
        SameShapeRefl(rt);
      }
  }

  lemma {:induction false} SameShapeRefl<K, V>(t: Tree<K, V>)
    ensures SameShape(t, t)
  {
    if t.Node? {
      SameShapeRefl(t.left);
      SameShapeRefl(t.right);
    }
  }

  /** Every entry insertion leaves is an old one or has a key comparing equal to the inserted key. */
  lemma {:induction false} InsertAddsOnlyKey<K(!new), V>(cmp: (K, K) -> int, dup: K -> K, t: Tree<K, V>, key: K, value: Ptr<V>, replace: bool)
    requires DupKeepsOrder(cmp, dup) && NonNegHeights(t)
    ensures forall e | e in Entries(Insert(cmp, dup, t, key, value, replace).tree) :: e in Entries(t) || cmp(e.0, key) == 0
  {
    match t
    case Nil =>
      assert cmp(dup(key), key) == 0;
    case Node(l, k, v, _, rt) =>
      var c := cmp(k, key);
      if c < 0 {
        var sub := Insert(cmp, dup, l, key, value, replace);
        InsertAddsOnlyKey(cmp, dup, l, key, value, replace);
        assert Entries(Insert(cmp, dup, t, key, value, replace).tree) == Entries(sub.tree) + [(k, v)] + Entries(rt);
      } else if c > 0 {
        var sub := Insert(cmp, dup, rt, key, value, replace);
        InsertAddsOnlyKey(cmp, dup, rt, key, value, replace);
        assert Entries(Insert(cmp, dup, t, key, value, replace).tree) == Entries(l) + [(k, v)] + Entries(sub.tree);
      }
  }

  /** Insertion keeps an ordered tree ordered. */
  lemma {:induction false} InsertKeepsOrder<K(!new), V>(cmp: (K, K) -> int, dup: K -> K, t: Tree<K, V>, key: K, value: Ptr<V>, replace: bool)
    requires ValidCmp(cmp) && DupKeepsOrder(cmp, dup) && NonNegHeights(t) && Ordered(cmp, t)
    ensures Ordered(cmp, Insert(cmp, dup, t, key, value, replace).tree)
  {
    match t
    case Nil =>
    case Node(l, k, v, _, rt) =>
      var c := cmp(k, key);
      if c != 0 {
        var sub := if c < 0 then Insert(cmp, dup, l, key, value, replace) else Insert(cmp, dup, rt, key, value, replace);
        var linked := if c < 0 then t.(left := sub.tree) else t.(right := sub.tree);
        if c < 0 {
          InsertKeepsOrder(cmp, dup, l, key, value, replace);
          InsertAddsOnlyKey(cmp, dup, l, key, value, replace);
          forall e | e in Entries(sub.tree) ensures cmp(k, e.0) < 0 {
            if cmp(e.0, key) == 0 { CmpChain(cmp, e.0, key, k); CmpChain(cmp, k, key, e.0); }
          }
        } else {
          InsertKeepsOrder(cmp, dup, rt, key, value, replace);
          InsertAddsOnlyKey(cmp, dup, rt, key, value, replace);
          forall e | e in Entries(sub.tree) ensures cmp(k, e.0) > 0 {
            if cmp(e.0, key) == 0 { CmpChain(cmp, e.0, key, k); CmpChain(cmp, k, key, e.0); }
          }
        }
        assert Ordered(cmp, linked);
        if sub.oldOut == Null {
          RebalanceKeepsOrder(cmp, linked);
        }
      }
  }

  // ---------------------------------------------------------------------
  // _avltree_remove

  /** Erasing a key that compares unequal to every stored key changes nothing, returns 0 and releases nothing. */
  lemma {:induction false} EraseAbsent<K, V>(cmp: (K, K) -> int, t: Tree<K, V>, key: K)
    requires NonNegHeights(t)
    requires forall e | e in Entries(t) :: cmp(e.0, key) != 0
    ensures Remove(cmp, t, key) == RemoveOutcome(t, 0, Null, [])
  {
    match t
    case Nil =>
    case Node(l, k, v, _, rt) =>
      assert (k, v) in Entries(t);
      if cmp(k, key) < 0 {
        EraseAbsent(cmp, l, key);
      } else {
        EraseAbsent(cmp, rt, key);
      }
  }

  /**
   * On an ordered tree, erasing a key that compares equal to the stored entry
   * `e` releases `e`'s key, reports `e`'s value and returns 1.
   */
  lemma {:induction false} EraseMatch<K(!new), V>(cmp: (K, K) -> int, t: Tree<K, V>, key: K, e: Entry<K, V>)
    requires ValidCmp(cmp) && NonNegHeights(t) && Ordered(cmp, t)
    requires e in Entries(t) && cmp(e.0, key) == 0
    ensures var r := Remove(cmp, t, key);
      r.result == 1 && r.oldOut == e.1 && r.released == [e.0]
  {
    match t
    case Node(l, k, v, _, rt) =>
      LocateMatch(cmp, t, key, e);
      if cmp(k, key) < 0 {
        EraseMatch(cmp, l, key, e);
      } else if cmp(k, key) > 0 {
        EraseMatch(cmp, rt, key, e);
      }
  }

  /** ... and takes exactly that entry out of the in-order walk. */
  lemma {:induction false} EraseMatchEntries<K(!new), V>(cmp: (K, K) -> int, t: Tree<K, V>, key: K, e: Entry<K, V>)
    requires ValidCmp(cmp) && NonNegHeights(t) && Ordered(cmp, t)
    requires e in Entries(t) && cmp(e.0, key) == 0
    ensures multiset(Entries(Remove(cmp, t, key).tree)) + multiset{e} == multiset(Entries(t))
  {
    match t
    case Node(l, k, v, _, rt) =>
      LocateMatch(cmp, t, key, e);
      var c := cmp(k, key);
      if c < 0 {
        var sub := Remove(cmp, l, key);
        EraseMatchEntries(cmp, l, key, e);
        DropLeft(Entries(l), (k, v), Entries(rt), Entries(sub.tree), e);
        assert Entries(Remove(cmp, t, key).tree) == Entries(t.(left := sub.tree));
      } else if c > 0 {
        var sub := Remove(cmp, rt, key);
        EraseMatchEntries(cmp, rt, key, e);
        DropRight(Entries(l), (k, v), Entries(rt), Entries(sub.tree), e);
        assert Entries(Remove(cmp, t, key).tree) == Entries(t.(right := sub.tree));
      } else {
        assert Entries(Remove(cmp, t, key).tree) == Entries(l) + Entries(rt);
        DropMiddle(Entries(l), Entries(rt), (k, v));
      }
  }

  /** The in-order walk lists every node once. */
  lemma {:induction false} EntriesCount<K, V>(t: Tree<K, V>)
    ensures |Entries(t)| == Count(t)
  {
    if t.Node? {
      EntriesCount(t.left);
      EntriesCount(t.right);
    }
  }

  /** So erasing a key that is present takes away exactly one node. */
  lemma EraseMatchCount<K(!new), V>(cmp: (K, K) -> int, t: Tree<K, V>, key: K, e: Entry<K, V>)
    requires ValidCmp(cmp) && NonNegHeights(t) && Ordered(cmp, t)
    requires e in Entries(t) && cmp(e.0, key) == 0
    ensures Count(Remove(cmp, t, key).tree) + 1 == Count(t)
  {
    var r := Remove(cmp, t, key);
    EraseMatchEntries(cmp, t, key, e);
    EntriesCount(t);
    EntriesCount(r.tree);
    assert |multiset(Entries(r.tree)) + multiset{e}| == |multiset(Entries(t))|;
  }

  /** Erasure keeps an ordered tree ordered and leaves only entries that were stored before. */
  lemma {:induction false} EraseKeepsOrder<K(!new), V>(cmp: (K, K) -> int, t: Tree<K, V>, key: K)
    requires ValidCmp(cmp) && NonNegHeights(t) && Ordered(cmp, t)
    ensures var r := Remove(cmp, t, key);
      && Ordered(cmp, r.tree)
      && forall e | e in Entries(r.tree) :: e in Entries(t)
  {
    match t
    case Nil =>
    case Node(l, k, v, h, rt) =>
      var c := cmp(k, key);
      if c != 0 {
        var sub := if c < 0 then Remove(cmp, l, key) else Remove(cmp, rt, key);
        var linked := if c < 0 then t.(left := sub.tree) else t.(right := sub.tree);
        if c < 0 {
          EraseKeepsOrder(cmp, l, key);
        } else {
          EraseKeepsOrder(cmp, rt, key);
        }
        assert Ordered(cmp, linked);
        if sub.oldOut != Null {
          RebalanceKeepsOrder(cmp, linked);
        }
      } else {
        var spliced := Unlink(t);
        UnlinkKeepsOrder(cmp, t);
        if v != Null && spliced.Node? {
          RebalanceKeepsOrder(cmp, spliced);
        }
      }
  }

  /** Taking the node out of an ordered subtree leaves it ordered. */
  lemma UnlinkKeepsOrder<K(!new), V>(cmp: (K, K) -> int, t: Tree<K, V>)
    requires ValidCmp(cmp) && t.Node? && NonNegHeights(t) && Ordered(cmp, t)
    ensures Ordered(cmp, Unlink(t))
  {
    if t.left.Node? && t.right.Node? {
      var (rest, min) := RemoveMin(t.right);
      RemoveMinTakesGreatest(cmp, t.right);
      assert (min.key, min.value) in Entries(t.right);
      assert cmp(t.key, min.key) > 0;
      forall x | x in Entries(t.left) ensures cmp(min.key, x.0) < 0 {
        CmpChain(cmp, min.key, t.key, x.0);
      }
    }
  }

  // ---------------------------------------------------------------------
  // _avltree_find, as written

  /**
   * When some stored key compares equal to `key`, the search as written does
   * not come back empty: every step it takes away from it is a step the
   * search-tree order also takes.
   */
  lemma {:induction false} FindFindsPresent<K(!new), V>(cmp: (K, K) -> int, t: Tree<K, V>, key: K, e: Entry<K, V>)
    requires ValidCmp(cmp) && Ordered(cmp, t)
    requires e in Entries(t) && cmp(e.0, key) == 0
    ensures Find(cmp, t, key).Node?
  {
    match t
    case Node(l, k, v, _, rt) =>
      LocateMatch(cmp, t, key, e);
      var c := cmp(k, key);
      if c < 0 {
        FindFindsPresent(cmp, l, key, e);
      } else if c > 1 {
        FindFindsPresent(cmp, rt, key, e);
      }
  }

  // ---------------------------------------------------------------------
  // avlnode_delete

  /** Destroying a subtree hands every stored key to `rel` exactly once. */
  lemma {:induction false} ReleaseEachKeyOnce<K, V>(t: Tree<K, V>)
    ensures multiset(ReleaseOrder(t)) == multiset(Keys(t))
    ensures |ReleaseOrder(t)| == Count(t)
  {
    match t
    case Nil =>
    case Node(l, k, _, _, r) =>
      ReleaseEachKeyOnce(l);
      ReleaseEachKeyOnce(r);
  }

  // ---------------------------------------------------------------------
  // A worked example of re-balancing

  /** The default `dup`, which stores the key itself, keeps the order of every consistent comparator. */
  lemma DefDupKeepsOrder<K(!new)>(cmp: (K, K) -> int)
    requires ValidCmp(cmp)
    ensures DupKeepsOrder(cmp, DefDup)
  {
    forall k ensures cmp(DefDup(k), k) == 0 {
      CmpChain(cmp, k, k, k);
    }
  }

  /**
   * Inserting 10, 20, 30 with integer difference as comparator: each key
   * goes left of the previous one, and the single right rotation at the root
   * leaves 20 there, with 30 (the greater key) to its left and 10 to its right.
   */
  lemma AscendingInsertsRotate()
    ensures var t1 := Insert(IntCmp, DefDup, Nil, 10, Ref(1), false).tree;
      var t2 := Insert(IntCmp, DefDup, t1, 20, Ref(2), false).tree;
      var t3 := Insert(IntCmp, DefDup, t2, 30, Ref(3), false).tree;
      t3 == Node(Node(Nil, 30, Ref(3), 0, Nil), 20, Ref(2), 1, Node(Nil, 10, Ref(1), 0, Nil))
  {
    var t1: Tree<int, int> := Node(Nil, 10, Ref(1), 0, Nil);
    assert Insert(IntCmp, DefDup, Nil, 10, Ref(1), false).tree == t1;
    var t2 := Node(Node(Nil, 20, Ref(2), 0, Nil), 10, Ref(1), 1, Nil);
    assert Insert(IntCmp, DefDup, t1, 20, Ref(2), false).tree == t2;
    var inner := Node(Node(Nil, 30, Ref(3), 0, Nil), 20, Ref(2), 1, Nil);
    assert Insert(IntCmp, DefDup, t2.left, 30, Ref(3), false) == InsertOutcome(inner, 0, Null);
    var u := Node(inner, 10, Ref(1), 2, Nil);
    assert Rotate(u) == RRotation(u);
  }
}
