/**
 * Six places where the engine does not do what its authors evidently
 * meant, each with the behaviour as written, an input that exhibits it,
 * and a corrected definition with the intended property proved.
 */
module AvlFindings {
  import opened Order
  import opened Avl
  import AvlLemmas
  import AvlApi

  // ---------------------------------------------------------------------
  // 1. `_avltree_find` tests `cmp > 1` where `cmp > 0` is meant.
  // ---------------------------------------------------------------------

  /** With integer difference as comparator, a search for 10 stops at the node holding 11. */
  lemma FindStopsAtNeighbour()
    ensures var t: Tree<int, int> := Node(Nil, 11, Ref(0), 0, Nil);
      && ValidCmp(IntCmp) && Ordered(IntCmp, t) && IntCmp(11, 10) == 1
      && (forall e | e in Entries(t) :: IntCmp(e.0, 10) != 0)
      && Find(IntCmp, t, 10) == t
      && FindExact(IntCmp, t, 10) == Nil
  {
    IntCmpIsValid();
  }

  /** `_avltree_find` as intended: descend left on `cmp < 0`, right on `cmp > 0`. */
  function FindExact<K, V>(cmp: (K, K) -> int, t: Tree<K, V>, key: K): (r: Tree<K, V>)
    ensures r.Node? ==> (r.key, r.value) in Entries(t) && cmp(r.key, key) == 0
  {
    match t
    case Nil => Nil
    case Node(l, k, _, _, rt) =>
      var c := cmp(k, key);
      if c < 0 then FindExact(cmp, l, key)
      else if c > 0 then FindExact(cmp, rt, key)
      else t
  }

  /** In an ordered tree the corrected search finds a node exactly when some key compares equal. */
  lemma {:induction false} FindExactIff<K(!new), V>(cmp: (K, K) -> int, t: Tree<K, V>, key: K)
    requires ValidCmp(cmp) && Ordered(cmp, t)
    ensures FindExact(cmp, t, key).Node? <==> exists e | e in Entries(t) :: cmp(e.0, key) == 0
  {
    if t.Node? && exists e | e in Entries(t) :: cmp(e.0, key) == 0 {
      var e :| e in Entries(t) && cmp(e.0, key) == 0;
      AvlLemmas.LocateMatch(cmp, t, key, e);
      var c := cmp(t.key, key);
      if c < 0 {
        FindExactIff(cmp, t.left, key);
      } else if c > 0 {
        FindExactIff(cmp, t.right, key);
      }
    }
  }

  /**
   * The same test answers a stored key with its neighbour's value: after
   * inserting 11 and then 10, the search for 10 stops at 11 and reports 11's
   * value, while the corrected search reports 10's.
   */
  lemma FindAnswersNeighbour()
    ensures var t1 := Insert(IntCmp, DefDup, Nil, 11, Ref(1), false).tree;
      var t2 := Insert(IntCmp, DefDup, t1, 10, Ref(2), false).tree;
      && t2 == Node(Nil, 11, Ref(1), 1, Node(Nil, 10, Ref(2), 0, Nil))
      && (10, Ref(2)) in Entries(t2)
      && Find(IntCmp, t2, 10).value == Ref(1)
      && FindExact(IntCmp, t2, 10).value == Ref(2)
  {
    var t1: Tree<int, int> := Node(Nil, 11, Ref(1), 0, Nil);
    assert Insert(IntCmp, DefDup, Nil, 11, Ref(1), false).tree == t1;
  }

  /** In an ordered tree the corrected search returns exactly the entry whose key compares equal. */
  lemma {:induction false} FindExactFindsEntry<K(!new), V>(cmp: (K, K) -> int, t: Tree<K, V>, key: K, e: Entry<K, V>)
    requires ValidCmp(cmp) && Ordered(cmp, t)
    requires e in Entries(t) && cmp(e.0, key) == 0
    ensures var r := FindExact(cmp, t, key); r.Node? && (r.key, r.value) == e
  {
    match t
    case Node(l, k, v, _, rt) =>
      AvlLemmas.LocateMatch(cmp, t, key, e);
      var c := cmp(k, key);
      if c < 0 {
        FindExactFindsEntry(cmp, l, key, e);
      } else if c > 0 {
        FindExactFindsEntry(cmp, rt, key, e);
      }
  }

  /** Inserting a fresh key, then searching for it, returns the stored copy of the key and the inserted value. */
  lemma InsertFreshThenFind<K(!new), V>(cmp: (K, K) -> int, dup: K -> K, t: Tree<K, V>, key: K, value: Ptr<V>, replace: bool)
    requires ValidCmp(cmp) && DupKeepsOrder(cmp, dup) && NonNegHeights(t) && Ordered(cmp, t)
    requires forall e | e in Entries(t) :: cmp(e.0, key) != 0
    ensures var r := FindExact(cmp, Insert(cmp, dup, t, key, value, replace).tree, key);
      r.Node? && r.key == dup(key) && r.value == value
  {
    var u := Insert(cmp, dup, t, key, value, replace).tree;
    AvlLemmas.InsertFresh(cmp, dup, t, key, value, replace);
    AvlLemmas.InsertKeepsOrder(cmp, dup, t, key, value, replace);
    assert (dup(key), value) in multiset(Entries(u));
    assert cmp(dup(key), key) == 0;
    FindExactFindsEntry(cmp, u, key, (dup(key), value));
  }

  /**
   * Inserting a key that is already stored as `e`, then searching for it,
   * returns `e`'s key with the new value under `replace`, and `e` itself
   * without it.
   */
  lemma InsertExistingThenFind<K(!new), V>(cmp: (K, K) -> int, dup: K -> K, t: Tree<K, V>, key: K, value: Ptr<V>, replace: bool, e: Entry<K, V>)
    requires ValidCmp(cmp) && DupKeepsOrder(cmp, dup) && NonNegHeights(t) && Ordered(cmp, t)
    requires e in Entries(t) && cmp(e.0, key) == 0
    ensures var r := FindExact(cmp, Insert(cmp, dup, t, key, value, replace).tree, key);
      r.Node? && (r.key, r.value) == (if replace then (e.0, value) else e)
  {
    var u := Insert(cmp, dup, t, key, value, replace).tree;
    AvlLemmas.InsertExistingEntries(cmp, dup, t, key, value, replace, e);
    AvlLemmas.InsertKeepsOrder(cmp, dup, t, key, value, replace);
    if !replace {
      FindExactFindsEntry(cmp, u, key, e);
    } else {
      var want := (e.0, value);
      var before, after := multiset(Entries(t)), multiset(Entries(u));
      assert after + multiset{e} == before + multiset{want};
      assert (after + multiset{e})[want] == (before + multiset{want})[want];
      assert after[want] > 0;
      FindExactFindsEntry(cmp, u, key, want);
    }
  }

  /** After erasing a key, the corrected search for it finds nothing. */
  lemma EraseThenFind<K(!new), V>(cmp: (K, K) -> int, t: Tree<K, V>, key: K)
    requires ValidCmp(cmp) && NonNegHeights(t) && Ordered(cmp, t)
    ensures FindExact(cmp, Remove(cmp, t, key).tree, key).Nil?
  {
    var u := Remove(cmp, t, key).tree;
    AvlLemmas.EraseKeepsOrder(cmp, t, key);
    if exists e | e in Entries(t) :: cmp(e.0, key) == 0 {
      var e :| e in Entries(t) && cmp(e.0, key) == 0;
      AvlLemmas.EraseMatchEntries(cmp, t, key, e);
      AvlLemmas.OrderedIffDescending(cmp, t);
      AvlLemmas.OneMatch(cmp, Entries(t), key, e);
      assert multiset(Entries(u))[e] == 0;
      forall f | f in Entries(u) ensures cmp(f.0, key) != 0 {
        assert f in Entries(t);
      }
    } else {
      AvlLemmas.EraseAbsent(cmp, t, key);
    }
    FindExactIff(cmp, u, key);
  }

  // ---------------------------------------------------------------------
  // 2. `avltree_size` reports a counter that no operation maintains.
  // ---------------------------------------------------------------------

  /** After one insertion into a new tree, `avltree_size` still reports 0 while the tree holds one item. */
  method SizeIgnoresInsert() returns (size: nat, count: nat)
    ensures size == 0 && count == 1
  {
    var t := new AvlApi.AvlTree<int, int>(IntCmp, Null);
    var result, oldOut := t.Insert(10, Ref(1), false);
    size := t.Size();
    count := t.Count();
  }

  // ---------------------------------------------------------------------
  // 3. `avlnode_rotate` tests the inner grandchild against `+ 1`, and the
  //    rotations guess heights instead of recomputing them.
  // ---------------------------------------------------------------------

  /** Every cached height is the true height, and the children of every node differ in height by at most one. */
  ghost predicate Balanced<K, V>(t: Tree<K, V>)
  {
    match t
    case Nil => true
    case Node(l, _, _, h, r) =>
      && Balanced(l) && Balanced(r)
      && h == 1 + Max(Height(l), Height(r))
      && -1 <= Height(l) - Height(r) <= 1
  }

  lemma BalancedNonNeg<K, V>(t: Tree<K, V>)
    requires Balanced(t)
    ensures NonNegHeights(t) && Height(t) >= -1
  {
  }

  /** Two balanced subtrees whose heights differ by at most one make a balanced node once its height is recomputed. */
  lemma Join<K, V>(l: Tree<K, V>, k: K, v: Ptr<V>, h: int, r: Tree<K, V>)
    requires Balanced(l) && Balanced(r) && -1 <= Height(l) - Height(r) <= 1
    ensures Balanced(UpdateHeight(Node(l, k, v, h, r)))
    ensures Height(UpdateHeight(Node(l, k, v, h, r))) == 1 + Max(Height(l), Height(r))
  {
  }

  /** `avlnode_lrotation` with both moved nodes' heights recomputed from their new children. */
  function LRotationFixed<K, V>(t: Tree<K, V>): (r: Tree<K, V>)
    requires t.Node? && t.right.Node? && NonNegHeights(t)
    ensures r.Node? && NonNegHeights(r) && Entries(r) == Entries(t)
  {
    var b := t.right;
    assert NonNegHeights(b);
    var a := UpdateHeight(Node(t.left, t.key, t.value, t.height, b.left));
    UpdateHeight(Node(a, b.key, b.value, b.height, b.right))
  }

  /** `avlnode_rrotation` with both moved nodes' heights recomputed from their new children. */
  function RRotationFixed<K, V>(t: Tree<K, V>): (r: Tree<K, V>)
    requires t.Node? && t.left.Node? && NonNegHeights(t)
    ensures r.Node? && NonNegHeights(r) && Entries(r) == Entries(t)
  {
    var b := t.left;
    assert NonNegHeights(b);
    var a := UpdateHeight(Node(b.right, t.key, t.value, t.height, t.right));
    UpdateHeight(Node(b.left, b.key, b.value, b.height, a))
  }

  /**
   * `avlnode_rotate` as intended: the taller child is first rotated when its
   * inner grandchild is taller than its outer one, and heights are recomputed.
   */
  function RotateFixed<K, V>(t: Tree<K, V>): (r: Tree<K, V>)
    requires NonNegHeights(t)
    ensures NonNegHeights(r) && Entries(r) == Entries(t)
    ensures t.Node? ==> r.Node?
  {
    if t.Nil? then t
    else
      var hleft := Height(t.left);
      var hright := Height(t.right);
      if hleft > hright + 1 then
        var l := t.left;
        assert NonNegHeights(l);
        var t' := if Height(l.right) > Height(l.left) then t.(left := LRotationFixed(l)) else t;
        RRotationFixed(t')
      else if hright > hleft + 1 then
        var rt := t.right;
        assert NonNegHeights(rt);
        var t' := if Height(rt.left) > Height(rt.right) then t.(right := RRotationFixed(rt)) else t;
        LRotationFixed(t')
      else
        t
  }

  /**
   * A node whose children are balanced, whose cached height is right and
   * whose children differ in height by at most two is balanced by the
   * corrected rotation; the result is no more than one taller than the
   * taller child and, when no rotation was needed, exactly one taller.
   */
  lemma RotateFixedBalances<K, V>(t: Tree<K, V>)
    requires t.Node? && Balanced(t.left) && Balanced(t.right)
    requires t.height == 1 + Max(Height(t.left), Height(t.right))
    requires -2 <= Height(t.left) - Height(t.right) <= 2
    requires NonNegHeights(t)
    ensures Balanced(RotateFixed(t))
    ensures Max(Height(t.left), Height(t.right)) <= Height(RotateFixed(t)) <= 1 + Max(Height(t.left), Height(t.right))
    ensures -1 <= Height(t.left) - Height(t.right) <= 1 ==> RotateFixed(t) == t
  {
    BalancedNonNeg(t.left);
    BalancedNonNeg(t.right);
    if Height(t.left) > Height(t.right) + 1 {
      LeftHeavyBalances(t);
    } else if Height(t.right) > Height(t.left) + 1 {
      RightHeavyBalances(t);
    }
  }

  lemma LeftHeavyBalances<K, V>(t: Tree<K, V>)
    requires t.Node? && Balanced(t.left) && Balanced(t.right)
    requires Height(t.left) == Height(t.right) + 2
    requires NonNegHeights(t)
    ensures Balanced(RotateFixed(t))
    ensures Height(t.left) <= Height(RotateFixed(t)) <= 1 + Height(t.left)
  {
    BalancedNonNeg(t.right);
    var l := t.left;
    BalancedNonNeg(l.left);
    BalancedNonNeg(l.right);
    if Height(l.right) > Height(l.left) {
      LeftInnerBalances(t);
    } else {
      assert RotateFixed(t) == RRotationFixed(t);
    }
  }

  /** The left child's inner grandchild is the taller: the double rotation. */
  lemma LeftInnerBalances<K, V>(t: Tree<K, V>)
    requires t.Node? && Balanced(t.left) && Balanced(t.right)
    requires Height(t.left) == Height(t.right) + 2
    requires NonNegHeights(t) && Height(t.left.right) > Height(t.left.left)
    ensures Balanced(RotateFixed(t))
    ensures Height(RotateFixed(t)) == Height(t.left)
  {
    var h := Height(t.right);
    var l := t.left;
    var y := l.right;
    BalancedNonNeg(t.right);
    BalancedNonNeg(l.left);
    BalancedNonNeg(y.left);
    BalancedNonNeg(y.right);
    assert Height(l.left) == h && Height(y) == h + 1;
    assert h - 1 <= Height(y.left) <= h && h - 1 <= Height(y.right) <= h;
    Join(l.left, l.key, l.value, l.height, y.left);
    Join(y.right, t.key, t.value, t.height, t.right);
    var a1 := UpdateHeight(Node(l.left, l.key, l.value, l.height, y.left));
    var a2 := UpdateHeight(Node(y.right, t.key, t.value, t.height, t.right));
    assert Height(a1) == h + 1 && Height(a2) == h + 1;
    Join(a1, y.key, y.value, 1 + Max(Height(a1), Height(y.right)), a2);
    LeftInnerShape(t);
  }

  /** What the double rotation builds from the left child and its inner grandchild. */
  lemma LeftInnerShape<K, V>(t: Tree<K, V>)
    requires t.Node? && t.left.Node? && t.left.right.Node? && NonNegHeights(t)
    requires Height(t.left) > Height(t.right) + 1 && Height(t.left.right) > Height(t.left.left)
    ensures var l := t.left;
      var y := l.right;
      var a1 := UpdateHeight(Node(l.left, l.key, l.value, l.height, y.left));
      var a2 := UpdateHeight(Node(y.right, t.key, t.value, t.height, t.right));
      RotateFixed(t) == UpdateHeight(Node(a1, y.key, y.value, 1 + Max(Height(a1), Height(y.right)), a2))
  {
    var l := t.left;
    var y := l.right;
    assert NonNegHeights(l) && NonNegHeights(y);
    var a1 := UpdateHeight(Node(l.left, l.key, l.value, l.height, y.left));
    var l' := UpdateHeight(Node(a1, y.key, y.value, y.height, y.right));
    assert LRotationFixed(l) == l';
    assert RotateFixed(t) == RRotationFixed(t.(left := l'));
  }

  lemma RightHeavyBalances<K, V>(t: Tree<K, V>)
    requires t.Node? && Balanced(t.left) && Balanced(t.right)
    requires Height(t.right) == Height(t.left) + 2
    requires NonNegHeights(t)
    ensures Balanced(RotateFixed(t))
    ensures Height(t.right) <= Height(RotateFixed(t)) <= 1 + Height(t.right)
  {
    BalancedNonNeg(t.left);
    var rt := t.right;
    BalancedNonNeg(rt.left);
    BalancedNonNeg(rt.right);
    if Height(rt.left) > Height(rt.right) {
      RightInnerBalances(t);
    } else {
      assert RotateFixed(t) == LRotationFixed(t);
    }
  }

  /** The right child's inner grandchild is the taller: the double rotation. */
  lemma RightInnerBalances<K, V>(t: Tree<K, V>)
    requires t.Node? && Balanced(t.left) && Balanced(t.right)
    requires Height(t.right) == Height(t.left) + 2
    requires NonNegHeights(t) && Height(t.right.left) > Height(t.right.right)
    ensures Balanced(RotateFixed(t))
    ensures Height(RotateFixed(t)) == Height(t.right)
  {
    var h := Height(t.left);
    var rt := t.right;
    var y := rt.left;
    BalancedNonNeg(t.left);
    BalancedNonNeg(rt.right);
    BalancedNonNeg(y.left);
    BalancedNonNeg(y.right);
    assert Height(rt.right) == h && Height(y) == h + 1;
    assert h - 1 <= Height(y.left) <= h && h - 1 <= Height(y.right) <= h;
    Join(y.right, rt.key, rt.value, rt.height, rt.right);
    Join(t.left, t.key, t.value, t.height, y.left);
    var a1 := UpdateHeight(Node(y.right, rt.key, rt.value, rt.height, rt.right));
    var a2 := UpdateHeight(Node(t.left, t.key, t.value, t.height, y.left));
    assert Height(a1) == h + 1 && Height(a2) == h + 1;
    Join(a2, y.key, y.value, 1 + Max(Height(y.left), Height(a1)), a1);
    RightInnerShape(t);
  }

  /** What the double rotation builds from the right child and its inner grandchild. */
  lemma RightInnerShape<K, V>(t: Tree<K, V>)
    requires t.Node? && t.right.Node? && t.right.left.Node? && NonNegHeights(t)
    requires Height(t.right) > Height(t.left) + 1 && Height(t.right.left) > Height(t.right.right)
    ensures var rt := t.right;
      var y := rt.left;
      var a1 := UpdateHeight(Node(y.right, rt.key, rt.value, rt.height, rt.right));
      var a2 := UpdateHeight(Node(t.left, t.key, t.value, t.height, y.left));
      RotateFixed(t) == UpdateHeight(Node(a2, y.key, y.value, 1 + Max(Height(y.left), Height(a1)), a1))
  {
    var rt := t.right;
    var y := rt.left;
    assert NonNegHeights(rt) && NonNegHeights(y);
    var a1 := UpdateHeight(Node(y.right, rt.key, rt.value, rt.height, rt.right));
    var rt' := UpdateHeight(Node(y.left, y.key, y.value, y.height, a1));
    assert RRotationFixed(rt) == rt';
    assert RotateFixed(t) == LRotationFixed(t.(right := rt'));
  }

  /** `_avltree_insert` with the corrected rotation. */
  function InsertFixed<K, V>(cmp: (K, K) -> int, dup: K -> K, t: Tree<K, V>, key: K, value: Ptr<V>, replace: bool): (r: InsertOutcome<K, V>)
    requires NonNegHeights(t)
    ensures NonNegHeights(r.tree) && r.tree.Node?
    ensures r.result == 0 || r.result == 1
  {
    match t
    case Nil => InsertOutcome(Node(Nil, dup(key), value, 0, Nil), 0, Null)
    case Node(l, k, v, _, rt) =>
      var c := cmp(k, key);
      if c != 0 then
        var sub := if c < 0 then InsertFixed(cmp, dup, l, key, value, replace) else InsertFixed(cmp, dup, rt, key, value, replace);
        var linked := if c < 0 then t.(left := sub.tree) else t.(right := sub.tree);
        var t' := if sub.oldOut == Null then RotateFixed(UpdateHeight(linked)) else linked;
        InsertOutcome(t', sub.result, sub.oldOut)
      else if replace then
        InsertOutcome(t.(value := value), 1, v)
      else
        InsertOutcome(t, 0, v)
  }

  /**
   * The corrected insertion differs from the code only in the shape it
   * leaves: the same entries in the same order, the same result and the
   * same `*old_out`.
   */
  lemma {:induction false} InsertFixedSameEntries<K, V>(cmp: (K, K) -> int, dup: K -> K, t: Tree<K, V>, key: K, value: Ptr<V>, replace: bool)
    requires NonNegHeights(t)
    ensures var r := InsertFixed(cmp, dup, t, key, value, replace);
      var w := Insert(cmp, dup, t, key, value, replace);
      Entries(r.tree) == Entries(w.tree) && r.result == w.result && r.oldOut == w.oldOut
  {
    if t.Node? {
      var c := cmp(t.key, key);
      if c < 0 {
        InsertFixedSameEntries(cmp, dup, t.left, key, value, replace);
      } else if c > 0 {
        InsertFixedSameEntries(cmp, dup, t.right, key, value, replace);
      }
    }
  }

  /**
   * The corrected insertion keeps a tree balanced, grows it by at most one
   * level, and leaves its height alone when the key was already present
   * with a non-NULL value.
   */
  lemma {:induction false} InsertFixedBalances<K, V>(cmp: (K, K) -> int, dup: K -> K, t: Tree<K, V>, key: K, value: Ptr<V>, replace: bool)
    requires Balanced(t) && NonNegHeights(t)
    ensures InsertKeepsBalance(cmp, dup, t, key, value, replace)
  {
    if t.Node? {
      var c := cmp(t.key, key);
      if c < 0 {
        InsertFixedBalances(cmp, dup, t.left, key, value, replace);
        InsertLeftStep(cmp, dup, t, key, value, replace);
      } else if c > 0 {
        InsertFixedBalances(cmp, dup, t.right, key, value, replace);
        InsertRightStep(cmp, dup, t, key, value, replace);
      }
    }
  }

  /**
   * The corrected insertion into `t` leaves a balanced tree at most one
   * level taller, and no taller when the key was present with a non-NULL value.
   */
  ghost predicate InsertKeepsBalance<K, V>(cmp: (K, K) -> int, dup: K -> K, t: Tree<K, V>, key: K, value: Ptr<V>, replace: bool)
    requires NonNegHeights(t)
  {
    var r := InsertFixed(cmp, dup, t, key, value, replace);
    && Balanced(r.tree)
    && Height(t) <= Height(r.tree) <= Height(t) + 1
    && (r.oldOut != Null ==> Height(r.tree) == Height(t))
  }

  /** One level of the induction, descending left. */
  lemma InsertLeftStep<K, V>(cmp: (K, K) -> int, dup: K -> K, t: Tree<K, V>, key: K, value: Ptr<V>, replace: bool)
    requires t.Node? && Balanced(t) && NonNegHeights(t) && cmp(t.key, key) < 0
    requires InsertKeepsBalance(cmp, dup, t.left, key, value, replace)
    ensures InsertKeepsBalance(cmp, dup, t, key, value, replace)
  {
    var sub := InsertFixed(cmp, dup, t.left, key, value, replace);
    if sub.oldOut == Null {
      GrowLeft(t, sub.tree);
    }
  }

  /** One level of the induction, descending right. */
  lemma InsertRightStep<K, V>(cmp: (K, K) -> int, dup: K -> K, t: Tree<K, V>, key: K, value: Ptr<V>, replace: bool)
    requires t.Node? && Balanced(t) && NonNegHeights(t) && cmp(t.key, key) > 0
    requires InsertKeepsBalance(cmp, dup, t.right, key, value, replace)
    ensures InsertKeepsBalance(cmp, dup, t, key, value, replace)
  {
    var sub := InsertFixed(cmp, dup, t.right, key, value, replace);
    if sub.oldOut == Null {
      GrowRight(t, sub.tree);
    }
  }

  /** Re-balancing after the left subtree of a balanced node grew by at most one level. */
  lemma GrowLeft<K, V>(t: Tree<K, V>, s: Tree<K, V>)
    requires t.Node? && Balanced(t) && NonNegHeights(t) && Balanced(s) && NonNegHeights(s)
    requires Height(t.left) <= Height(s) <= Height(t.left) + 1
    ensures NonNegHeights(t.(left := s))
    ensures var r := RotateFixed(UpdateHeight(t.(left := s)));
      Balanced(r) && Height(t) <= Height(r) <= Height(t) + 1
  {
    RotateFixedBalances(UpdateHeight(t.(left := s)));
  }

  /** Re-balancing after the right subtree of a balanced node grew by at most one level. */
  lemma GrowRight<K, V>(t: Tree<K, V>, s: Tree<K, V>)
    requires t.Node? && Balanced(t) && NonNegHeights(t) && Balanced(s) && NonNegHeights(s)
    requires Height(t.right) <= Height(s) <= Height(t.right) + 1
    ensures NonNegHeights(t.(right := s))
    ensures var r := RotateFixed(UpdateHeight(t.(right := s)));
      Balanced(r) && Height(t) <= Height(r) <= Height(t) + 1
  {
    RotateFixedBalances(UpdateHeight(t.(right := s)));
  }

  /** The first two insertions, and the third one into the left child's slot; both versions agree here. */
  lemma FirstInsertions()
    ensures var t1: Tree<int, int> := Node(Nil, 10, Ref(1), 0, Nil);
      var t2 := Node(Node(Nil, 30, Ref(3), 0, Nil), 10, Ref(1), 1, Nil);
      var inner := Node(Nil, 30, Ref(3), 1, Node(Nil, 20, Ref(2), 0, Nil));
      && Insert(IntCmp, DefDup, Nil, 10, Ref(1), false).tree == t1
      && InsertFixed(IntCmp, DefDup, Nil, 10, Ref(1), false).tree == t1
      && Insert(IntCmp, DefDup, t1, 30, Ref(3), false).tree == t2
      && InsertFixed(IntCmp, DefDup, t1, 30, Ref(3), false).tree == t2
      && Insert(IntCmp, DefDup, t2.left, 20, Ref(2), false) == InsertOutcome(inner, 0, Null)
      && InsertFixed(IntCmp, DefDup, t2.left, 20, Ref(2), false) == InsertOutcome(inner, 0, Null)
  {
    var t1: Tree<int, int> := Node(Nil, 10, Ref(1), 0, Nil);
    assert Insert(IntCmp, DefDup, Nil, 10, Ref(1), false).tree == t1;
    assert InsertFixed(IntCmp, DefDup, Nil, 10, Ref(1), false).tree == t1;
  }

  /**
   * Inserting 10, 30, 20 with integer difference as comparator: the code
   * leaves 30 at the root with an empty left slot and 10 below it holding 20,
   * both with stale heights, which is not balanced.
   */
  lemma InsertLosesBalance()
    ensures var t1 := Insert(IntCmp, DefDup, Nil, 10, Ref(1), false).tree;
      var t2 := Insert(IntCmp, DefDup, t1, 30, Ref(3), false).tree;
      var t3 := Insert(IntCmp, DefDup, t2, 20, Ref(2), false).tree;
      && t3 == Node(Nil, 30, Ref(3), 1, Node(Node(Nil, 20, Ref(2), 0, Nil), 10, Ref(1), 0, Nil))
      && !Balanced(t3)
  {
    FirstInsertions();
    var inner: Tree<int, int> := Node(Nil, 30, Ref(3), 1, Node(Nil, 20, Ref(2), 0, Nil));
    var u := Node(inner, 10, Ref(1), 2, Nil);
    assert Rotate(u) == RRotation(u);
  }

  /** The corrected rotation at the root after the third insertion. */
  lemma FixedRootRotation()
    ensures var inner: Tree<int, int> := Node(Nil, 30, Ref(3), 1, Node(Nil, 20, Ref(2), 0, Nil));
      RotateFixed(Node(inner, 10, Ref(1), 2, Nil))
        == Node(Node(Nil, 30, Ref(3), 0, Nil), 20, Ref(2), 1, Node(Nil, 10, Ref(1), 0, Nil))
  {
    var inner: Tree<int, int> := Node(Nil, 30, Ref(3), 1, Node(Nil, 20, Ref(2), 0, Nil));
    var u := Node(inner, 10, Ref(1), 2, Nil);
    var turned := LRotationFixed(inner);
    assert turned == Node(Node(Nil, 30, Ref(3), 0, Nil), 20, Ref(2), 1, Nil);
    assert RotateFixed(u) == RRotationFixed(u.(left := turned));
  }

  /** The same insertions with the corrected rotation leave 20 at the root over 30 and 10. */
  lemma InsertFixedRestoresBalance()
    ensures var f1 := InsertFixed(IntCmp, DefDup, Nil, 10, Ref(1), false).tree;
      var f2 := InsertFixed(IntCmp, DefDup, f1, 30, Ref(3), false).tree;
      var f3 := InsertFixed(IntCmp, DefDup, f2, 20, Ref(2), false).tree;
      && f3 == Node(Node(Nil, 30, Ref(3), 0, Nil), 20, Ref(2), 1, Node(Nil, 10, Ref(1), 0, Nil))
      && Balanced(f3)
  {
    FirstInsertions();
    FixedRootRotation();
  }

  // ---------------------------------------------------------------------
  // 4. `_avltree_remove` frees a matched leaf and then updates it.
  // ---------------------------------------------------------------------

  /**
   * Erasing `key` as written frees a node and then writes its height: the
   * erase path, which is the corrected search's path, ends at a leaf whose
   * value is not NULL. The leaf is freed and its slot emptied, and the
   * non-NULL `*old_out` then sends the freed node to the height update.
   */
  predicate FreesThenUpdates<K, V>(cmp: (K, K) -> int, t: Tree<K, V>, key: K) {
    var n := FindExact(cmp, t, key);
    n.Node? && n.left.Nil? && n.right.Nil? && n.value != Null
  }

  /**
   * On such an erase, `_avltree_remove` reports the leaf's value (not NULL),
   * so the re-balancing step is reached after the `free`; the model empties
   * the slot and skips that step, which is what the code means to do.
   */
  lemma {:induction false} FreedLeafIsUpdated<K, V>(cmp: (K, K) -> int, t: Tree<K, V>, key: K)
    requires NonNegHeights(t) && FreesThenUpdates(cmp, t, key)
    ensures var r := Remove(cmp, t, key);
      && r.oldOut == FindExact(cmp, t, key).value && r.oldOut != Null
      && r.result == 1 && r.released == [FindExact(cmp, t, key).key]
  {
    match t
    case Node(l, k, v, _, rt) =>
      var c := cmp(k, key);
      if c < 0 {
        FreedLeafIsUpdated(cmp, l, key);
      } else if c > 0 {
        FreedLeafIsUpdated(cmp, rt, key);
      }
  }

  /**
   * Erasing the only key of a one-node tree whose value is not NULL: the
   * code frees the node and then updates its height; the model leaves the
   * tree empty, reports the value and releases the key.
   */
  lemma LeafEraseFreesThenUpdates()
    ensures var t: Tree<int, int> := Node(Nil, 10, Ref(1), 0, Nil);
      && FreesThenUpdates(IntCmp, t, 10)
      && Remove(IntCmp, t, 10) == RemoveOutcome(Nil, 1, Ref(1), [10])
  {
  }

  // ---------------------------------------------------------------------
  // 5. `_avltree_insert` re-balances a path it has not changed when the
  //    stored value is NULL.
  // ---------------------------------------------------------------------

  /**
   * Inserting 10, 30, 20 with NULL values, then inserting 20 again without
   * `replace`: the key is present, so no node is added and no value changes,
   * but the reported value is NULL, the test at avl.c:278 re-balances the
   * path, and the stale heights make the root rotate, so 10 becomes the root.
   */
  lemma NullReinsertRotates()
    ensures var t1 := Insert<int, int>(IntCmp, DefDup, Nil, 10, Null, false).tree;
      var t2 := Insert(IntCmp, DefDup, t1, 30, Null, false).tree;
      var t3 := Insert(IntCmp, DefDup, t2, 20, Null, false).tree;
      && t3 == Node(Nil, 30, Null, 1, Node(Node(Nil, 20, Null, 0, Nil), 10, Null, 0, Nil))
      && Insert(IntCmp, DefDup, t3, 20, Null, false)
         == InsertOutcome(Node(Node(Nil, 30, Null, 0, Node(Nil, 20, Null, 0, Nil)), 10, Null, 1, Nil), 0, Null)
  {
    var t1: Tree<int, int> := Node(Nil, 10, Null, 0, Nil);
    assert Insert(IntCmp, DefDup, Nil, 10, Null, false).tree == t1;
    var t2 := Node(Node(Nil, 30, Null, 0, Nil), 10, Null, 1, Nil);
    assert Insert(IntCmp, DefDup, t1, 30, Null, false).tree == t2;
    var inner := Node(Nil, 30, Null, 1, Node(Nil, 20, Null, 0, Nil));
    assert Insert(IntCmp, DefDup, t2.left, 20, Null, false) == InsertOutcome(inner, 0, Null);
    var u := Node(inner, 10, Null, 2, Nil);
    assert Rotate(u) == RRotation(u);
    var t3 := RRotation(u);
    var low := Node(Node(Nil, 20, Null, 0, Nil), 10, Null, 1, Nil);
    assert Insert(IntCmp, DefDup, t3.right, 20, Null, false) == InsertOutcome(low, 0, Null);
    var w := Node(Nil, 30, Null, 2, low);
    assert Rotate(w) == LRotation(w);
  }

  /** The outcome of the corrected insertion: the code's outcome, and whether a node was created. */
  datatype PlacedOutcome<K, V> = PlacedOutcome(tree: Tree<K, V>, result: int, oldOut: Ptr<V>, created: bool)

  /**
   * `_avltree_insert` as intended: the nodes on the path are re-balanced
   * only when a node was created below them, whatever value was stored.
   */
  function InsertPlaced<K, V>(cmp: (K, K) -> int, dup: K -> K, t: Tree<K, V>, key: K, value: Ptr<V>, replace: bool): (r: PlacedOutcome<K, V>)
    requires NonNegHeights(t)
    ensures NonNegHeights(r.tree) && r.tree.Node?
  {
    match t
    case Nil => PlacedOutcome(Node(Nil, dup(key), value, 0, Nil), 0, Null, true)
    case Node(l, k, v, _, rt) =>
      var c := cmp(k, key);
      if c != 0 then
        var sub := if c < 0 then InsertPlaced(cmp, dup, l, key, value, replace) else InsertPlaced(cmp, dup, rt, key, value, replace);
        var linked := if c < 0 then t.(left := sub.tree) else t.(right := sub.tree);
        var t' := if sub.created then Rotate(UpdateHeight(linked)) else linked;
        PlacedOutcome(t', sub.result, sub.oldOut, sub.created)
      else if replace then
        PlacedOutcome(t.(value := value), 1, v, false)
      else
        PlacedOutcome(t, 0, v, false)
  }

  /** For a key not yet stored, the corrected insertion creates a node and does exactly what the code does. */
  lemma {:induction false} InsertPlacedFresh<K, V>(cmp: (K, K) -> int, dup: K -> K, t: Tree<K, V>, key: K, value: Ptr<V>, replace: bool)
    requires NonNegHeights(t)
    requires forall e | e in Entries(t) :: cmp(e.0, key) != 0
    ensures var r := InsertPlaced(cmp, dup, t, key, value, replace);
      r.created && InsertOutcome(r.tree, r.result, r.oldOut) == Insert(cmp, dup, t, key, value, replace)
  {
    match t
    case Nil =>
    case Node(l, k, v, _, rt) =>
      assert (k, v) in Entries(t);
      if cmp(k, key) < 0 {
        InsertPlacedFresh(cmp, dup, l, key, value, replace);
        AvlLemmas.InsertFresh(cmp, dup, l, key, value, replace);
      } else {
        InsertPlacedFresh(cmp, dup, rt, key, value, replace);
        AvlLemmas.InsertFresh(cmp, dup, rt, key, value, replace);
      }
  }

  /**
   * For a key already stored as `e`, the corrected insertion creates no node
   * and reports `e`'s value; it keeps the shape, keys and heights, and
   * without `replace` leaves the tree unchanged, also when `e`'s value is
   * NULL. When that value is not NULL it does exactly what the code does.
   */
  lemma {:induction false} InsertPlacedExisting<K(!new), V>(cmp: (K, K) -> int, dup: K -> K, t: Tree<K, V>, key: K, value: Ptr<V>, replace: bool, e: Entry<K, V>)
    requires ValidCmp(cmp) && NonNegHeights(t) && Ordered(cmp, t)
    requires e in Entries(t) && cmp(e.0, key) == 0
    ensures var r := InsertPlaced(cmp, dup, t, key, value, replace);
      && !r.created && r.oldOut == e.1 && r.result == (if replace then 1 else 0)
      && AvlLemmas.SameShape(t, r.tree) && (!replace ==> r.tree == t)
      && (e.1 != Null ==> InsertOutcome(r.tree, r.result, r.oldOut) == Insert(cmp, dup, t, key, value, replace))
  {
    match t
    case Node(l, k, v, _, rt) =>
      AvlLemmas.LocateMatch(cmp, t, key, e);
      var c := cmp(k, key);
      if c < 0 {
        InsertPlacedExisting(cmp, dup, l, key, value, replace, e);
        AvlLemmas.InsertExisting(cmp, dup, l, key, value, replace, e);
        AvlLemmas.SameShapeRefl(rt);
      } else if c > 0 {
        InsertPlacedExisting(cmp, dup, rt, key, value, replace, e);
        AvlLemmas.InsertExisting(cmp, dup, rt, key, value, replace, e);
        AvlLemmas.SameShapeRefl(l);
      } else {
        AvlLemmas.SameShapeRefl(l);
        AvlLemmas.SameShapeRefl(rt);
      }
  }

  /** On the tree of `NullReinsertRotates`, the corrected insertion of 20 leaves the tree as it was. */
  lemma NullReinsertPlacedKeeps()
    ensures var t3: Tree<int, int> := Node(Nil, 30, Null, 1, Node(Node(Nil, 20, Null, 0, Nil), 10, Null, 0, Nil));
      InsertPlaced(IntCmp, DefDup, t3, 20, Null, false) == PlacedOutcome(t3, 0, Null, false)
  {
  }

  // ---------------------------------------------------------------------
  // 6. `_avltree_remove` re-balances the path only when the erased value is
  //    not NULL.
  // ---------------------------------------------------------------------

  /**
   * Erasing the key 20, whose value is NULL, from a balanced two-node tree:
   * `*old_out` stays NULL, so the test at avl.c:331 skips the height update
   * and the root keeps height 1 over two empty slots.
   */
  lemma NullEraseLeavesStale()
    ensures var t: Tree<int, int> := Node(Node(Nil, 20, Null, 0, Nil), 10, Ref(1), 1, Nil);
      && Balanced(t) && Ordered(IntCmp, t)
      && Remove(IntCmp, t, 20) == RemoveOutcome(Node(Nil, 10, Ref(1), 1, Nil), 1, Null, [20])
      && !Balanced(Remove(IntCmp, t, 20).tree)
  {
  }

  /** `avlnode_remove_min` with the corrected rotation on the way back up. */
  function RemoveMinFixed<K, V>(t: Tree<K, V>): (r: (Tree<K, V>, Tree<K, V>))
    requires NonNegHeights(t)
    ensures NonNegHeights(r.0) && NonNegHeights(r.1)
    ensures t.Nil? ==> r == (Nil, Nil)
    ensures t.Node? ==>
      && r.1 == Node(Nil, Leftmost(t).key, Leftmost(t).value, Leftmost(t).height, Nil)
      && Entries(t) == [(r.1.key, r.1.value)] + Entries(r.0)
  {
    if t.Nil? then (Nil, Nil)
    else if t.left.Nil? then (t.right, t.(right := Nil))
    else
      assert NonNegHeights(t.left);
      var sub := RemoveMinFixed(t.left);
      var linked := t.(left := sub.0);
      assert Entries(t) == [(sub.1.key, sub.1.value)] + Entries(linked);
      (RotateFixed(UpdateHeight(linked)), sub.1)
  }

  /** What a matched node's slot holds once the node is taken out, using the corrected `avlnode_remove_min`. */
  function UnlinkFixed<K, V>(t: Tree<K, V>): (r: Tree<K, V>)
    requires t.Node? && NonNegHeights(t)
    ensures NonNegHeights(r)
    ensures Entries(r) == Entries(t.left) + Entries(t.right)
  {
    if t.left.Nil? || t.right.Nil? then
      if t.left.Node? then t.left else t.right
    else
      var (rest, min) := RemoveMinFixed(t.right);
      Node(t.left, min.key, min.value, t.height, rest)
  }

  /**
   * `_avltree_remove` as intended: every node on the path, and the matched
   * node's slot when it is not empty, is re-balanced with the corrected
   * rotation, whatever value was erased.
   */
  function RemoveFixed<K, V>(cmp: (K, K) -> int, t: Tree<K, V>, key: K): (r: RemoveOutcome<K, V>)
    requires NonNegHeights(t)
    ensures NonNegHeights(r.tree)
    ensures r.result == 0 || r.result == 1
  {
    match t
    case Nil => RemoveOutcome(Nil, 0, Null, [])
    case Node(l, k, v, _, rt) =>
      var c := cmp(k, key);
      if c != 0 then
        var sub := if c < 0 then RemoveFixed(cmp, l, key) else RemoveFixed(cmp, rt, key);
        var linked := if c < 0 then t.(left := sub.tree) else t.(right := sub.tree);
        RemoveOutcome(RotateFixed(UpdateHeight(linked)), sub.result, sub.oldOut, sub.released)
      else
        var spliced := UnlinkFixed(t);
        var t' := if spliced.Node? then RotateFixed(UpdateHeight(spliced)) else spliced;
        RemoveOutcome(t', 1, v, [k])
  }

  /**
   * The corrected erasure differs from the code only in the shape it leaves:
   * the same entries in the same order, the same result, `*old_out` and
   * released keys.
   */
  lemma {:induction false} RemoveFixedSameEntries<K, V>(cmp: (K, K) -> int, t: Tree<K, V>, key: K)
    requires NonNegHeights(t)
    ensures var f, r := RemoveFixed(cmp, t, key), Remove(cmp, t, key);
      && Entries(f.tree) == Entries(r.tree)
      && f.result == r.result && f.oldOut == r.oldOut && f.released == r.released
  {
    match t
    case Nil =>
    case Node(l, k, v, _, rt) =>
      var c := cmp(k, key);
      if c < 0 {
        RemoveFixedSameEntries(cmp, l, key);
      } else if c > 0 {
        RemoveFixedSameEntries(cmp, rt, key);
      }
  }

  /** Re-balancing after the left subtree of a balanced node lost at most one level. */
  lemma ShrinkLeft<K, V>(t: Tree<K, V>, s: Tree<K, V>)
    requires t.Node? && Balanced(t) && NonNegHeights(t) && Balanced(s) && NonNegHeights(s)
    requires Height(t.left) - 1 <= Height(s) <= Height(t.left)
    ensures NonNegHeights(t.(left := s))
    ensures var r := RotateFixed(UpdateHeight(t.(left := s)));
      Balanced(r) && Height(t) - 1 <= Height(r) <= Height(t)
  {
    RotateFixedBalances(UpdateHeight(t.(left := s)));
  }

  /** Re-balancing after the right subtree of a balanced node lost at most one level. */
  lemma ShrinkRight<K, V>(t: Tree<K, V>, s: Tree<K, V>)
    requires t.Node? && Balanced(t) && NonNegHeights(t) && Balanced(s) && NonNegHeights(s)
    requires Height(t.right) - 1 <= Height(s) <= Height(t.right)
    ensures NonNegHeights(t.(right := s))
    ensures var r := RotateFixed(UpdateHeight(t.(right := s)));
      Balanced(r) && Height(t) - 1 <= Height(r) <= Height(t)
  {
    RotateFixedBalances(UpdateHeight(t.(right := s)));
  }

  /** The corrected `avlnode_remove_min` keeps a subtree balanced and lowers it by at most one level. */
  lemma {:induction false} RemoveMinFixedBalances<K, V>(t: Tree<K, V>)
    requires t.Node? && Balanced(t) && NonNegHeights(t)
    ensures var rest := RemoveMinFixed(t).0;
      Balanced(rest) && Height(t) - 1 <= Height(rest) <= Height(t)
  {
    BalancedNonNeg(t.right);
    if t.left.Node? {
      RemoveMinFixedBalances(t.left);
      BalancedNonNeg(RemoveMinFixed(t.left).0);
      ShrinkLeft(t, RemoveMinFixed(t.left).0);
    }
  }

  /** Taking out a matched node of a balanced subtree, then re-balancing, loses at most one level. */
  lemma UnlinkFixedBalances<K, V>(t: Tree<K, V>)
    requires t.Node? && Balanced(t) && NonNegHeights(t)
    ensures var s := UnlinkFixed(t);
      var r := if s.Node? then RotateFixed(UpdateHeight(s)) else s;
      Balanced(r) && Height(t) - 1 <= Height(r) <= Height(t)
  {
    BalancedNonNeg(t.left);
    BalancedNonNeg(t.right);
    if t.left.Nil? || t.right.Nil? {
      var s := UnlinkFixed(t);
      if s.Node? {
        assert UpdateHeight(s) == s;
        RotateFixedBalances(s);
      }
    } else {
      var (rest, min) := RemoveMinFixed(t.right);
      RemoveMinFixedBalances(t.right);
      BalancedNonNeg(rest);
      var t0 := t.(key := min.key, value := min.value);
      assert Balanced(t0);
      ShrinkRight(t0, rest);
      assert UnlinkFixed(t) == t0.(right := rest);
    }
  }

  /** The corrected erasure keeps a tree balanced and lowers it by at most one level, whatever values it holds. */
  lemma {:induction false} RemoveFixedBalances<K, V>(cmp: (K, K) -> int, t: Tree<K, V>, key: K)
    requires Balanced(t) && NonNegHeights(t)
    ensures var r := RemoveFixed(cmp, t, key);
      Balanced(r.tree) && Height(t) - 1 <= Height(r.tree) <= Height(t)
  {
    match t
    case Nil =>
    case Node(l, k, v, _, rt) =>
      BalancedNonNeg(l);
      BalancedNonNeg(rt);
      var c := cmp(k, key);
      if c < 0 {
        RemoveFixedBalances(cmp, l, key);
        ShrinkLeft(t, RemoveFixed(cmp, l, key).tree);
      } else if c > 0 {
        RemoveFixedBalances(cmp, rt, key);
        ShrinkRight(t, RemoveFixed(cmp, rt, key).tree);
      } else {
        UnlinkFixedBalances(t);
      }
  }

  /** On the tree of `NullEraseLeavesStale`, the corrected erasure leaves a balanced leaf. */
  lemma NullEraseFixedBalances()
    ensures var t: Tree<int, int> := Node(Node(Nil, 20, Null, 0, Nil), 10, Ref(1), 1, Nil);
      RemoveFixed(IntCmp, t, 20) == RemoveOutcome(Node(Nil, 10, Ref(1), 0, Nil), 1, Null, [20])
  {
  }
}
