/**
 * The node routines of the AVL tree engine, on tree values. Every routine
 * that rewrites a child slot through an `avlnode_t **` pointer is modelled
 * as a function from the subtree held in the slot to the subtree the slot
 * holds afterwards. Keys and values are opaque; keys are only passed to the
 * caller's `cmp` and `dup` callbacks.
 */
module Avl {
  import opened Order

  /** A `void *` value slot: the distinguished NULL, or a handle. */
  datatype Ptr<T> = Null | Ref(target: T)

  /** The subtree hanging from a child slot: NULL, or a node with its cached height. */
  datatype Tree<K, V> =
    | Nil
    | Node(left: Tree<K, V>, key: K, value: Ptr<V>, height: int, right: Tree<K, V>)

  /** `def_dup`, the `dup` callback a tree gets when none is given: the key itself is stored. */
  function DefDup<K>(k: K): K {
    k
  }

  /** One stored (key, value) pair. */
  type Entry<K, V> = (K, Ptr<V>)

  /** The in-order walk: left subtree, the node, right subtree. */
  function Entries<K, V>(t: Tree<K, V>): seq<Entry<K, V>>
  {
    match t
    case Nil => []
    case Node(l, k, v, _, r) => Entries(l) + [(k, v)] + Entries(r)
  }

  /** Number of nodes. */
  function Count<K, V>(t: Tree<K, V>): nat
  {
    match t
    case Nil => 0
    case Node(l, _, _, _, r) => Count(l) + 1 + Count(r)
  }

  /** Every cached height is non-negative, as every height the code writes is. */
  ghost predicate NonNegHeights<K, V>(t: Tree<K, V>)
  {
    match t
    case Nil => true
    case Node(l, _, _, h, r) => h >= 0 && NonNegHeights(l) && NonNegHeights(r)
  }

  /**
   * The search-tree order the code keeps: insertion and erasure descend left
   * when `cmp(node key, key) < 0`, so every key in a left subtree compares
   * greater than the node's key and every key in a right subtree less.
   */
  ghost predicate Ordered<K, V>(cmp: (K, K) -> int, t: Tree<K, V>)
  {
    match t
    case Nil => true
    case Node(l, k, _, _, r) =>
      && Ordered(cmp, l)
      && Ordered(cmp, r)
      && (forall e | e in Entries(l) :: cmp(k, e.0) < 0)
      && (forall e | e in Entries(r) :: cmp(k, e.0) > 0)
  }

  function Max(a: int, b: int): int {
    if a > b then a else b
  }

  /** `avlnode_height`: -1 for an empty slot, the cached field otherwise. */
  function Height<K, V>(t: Tree<K, V>): (h: int)
    ensures NonNegHeights(t) ==> h >= -1 && (h == -1 <==> t == Nil)
  {
    if t.Nil? then -1 else t.height
  }

  /** `avlnode_update_height`: recompute the node's cached height from its children's cached heights. */
  function UpdateHeight<K, V>(t: Tree<K, V>): (r: Tree<K, V>)
    requires t.Node?
    ensures r.Node? && r == t.(height := r.height)
    ensures r.height == 1 + Max(Height(t.left), Height(t.right))
    ensures NonNegHeights(t.left) && NonNegHeights(t.right) ==> NonNegHeights(r)
    ensures Entries(r) == Entries(t) && Count(r) == Count(t)
  {
    var hleft := Height(t.left);
    var hright := Height(t.right);
    if hleft > hright then t.(height := hleft + 1) else t.(height := hright + 1)
  }

  /** The demoted node's new height: two less, but never below zero. */
  function Demoted(h: int): int {
    if h - 2 < 0 then 0 else h - 2
  }

  /**
   * `avlnode_lrotation`: the right child b takes the node a's place, a becomes
   * b's left child and takes over b's old left subtree. Only a's height changes.
   */
  function LRotation<K, V>(t: Tree<K, V>): (r: Tree<K, V>)
    ensures t.Nil? || t.right.Nil? ==> r == t
    ensures t.Node? && t.right.Node? ==>
      && r.Node? && r.left.Node?
      && r.key == t.right.key && r.value == t.right.value && r.height == t.right.height
      && r.left.key == t.key && r.left.value == t.value && r.left.height == Max(t.height - 2, 0)
    ensures Entries(r) == Entries(t)
    ensures Count(r) == Count(t)
    ensures t.Node? ==> r.Node?
    ensures NonNegHeights(t) ==> NonNegHeights(r)
  {
    if t.Nil? || t.right.Nil? then t
    else
      var a := t;
      var b := t.right;
      var a' := Node(a.left, a.key, a.value, Demoted(a.height), b.left);
      assert NonNegHeights(t) ==> NonNegHeights(b);
      Node(a', b.key, b.value, b.height, b.right)
  }

  /**
   * `avlnode_rrotation`: the left child b takes the node a's place, a becomes
   * b's right child and takes over b's old right subtree. Only a's height changes.
   */
  function RRotation<K, V>(t: Tree<K, V>): (r: Tree<K, V>)
    ensures t.Nil? || t.left.Nil? ==> r == t
    ensures t.Node? && t.left.Node? ==>
      && r.Node? && r.right.Node?
      && r.key == t.left.key && r.value == t.left.value && r.height == t.left.height
      && r.right.key == t.key && r.right.value == t.value && r.right.height == Max(t.height - 2, 0)
    ensures Entries(r) == Entries(t)
    ensures Count(r) == Count(t)
    ensures t.Node? ==> r.Node?
    ensures NonNegHeights(t) ==> NonNegHeights(r)
  {
    if t.Nil? || t.left.Nil? then t
    else
      var a := t;
      var b := t.left;
      var a' := Node(b.right, a.key, a.value, Demoted(a.height), a.right);
      assert NonNegHeights(t) ==> NonNegHeights(b);
      Node(b.left, b.key, b.value, b.height, a')
  }

  /**
   * `avlnode_rotate`: when the cached heights of the two children differ by
   * more than one, rotate the taller child up, first rotating that child
   * when its inner grandchild is more than one taller than its outer one.
   * In the right-heavy case the code tests the right child's right subtree
   * against its left, as written.
   */
  function Rotate<K, V>(t: Tree<K, V>): (r: Tree<K, V>)
    requires NonNegHeights(t)
    ensures NonNegHeights(r)
    ensures t.Nil? ==> r == Nil
    ensures t.Node? && -1 <= Height(t.left) - Height(t.right) <= 1 ==> r == t
    ensures t.Node? ==> r.Node?
    ensures Entries(r) == Entries(t)
    ensures Count(r) == Count(t)
  {
    if t.Nil? then t
    else
      var hleft := Height(t.left);
      var hright := Height(t.right);
      if hleft > hright + 1 then
        var l := t.left;
        var t' := if Height(l.right) > Height(l.left) + 1 then t.(left := LRotation(l)) else t;
        RRotation(t')
      else if hright > hleft + 1 then
        var rt := t.right;
        var t' := if Height(rt.right) > Height(rt.left) + 1 then t.(right := RRotation(rt)) else t;
        LRotation(t')
      else
        t
  }

  /** The leftmost node of a non-empty subtree. */
  function Leftmost<K, V>(t: Tree<K, V>): (m: Tree<K, V>)
    requires t.Node?
    ensures m.Node? && m.left.Nil?
  {
    if t.left.Nil? then t else Leftmost(t.left)
  }

  /**
   * `avlnode_remove_min`: unlink the leftmost node of the subtree, putting its
   * right child in its place and re-balancing each node on the way back up.
   * Returns the new subtree and the detached node, with its right link cleared
   * (`Nil` when the slot was empty).
   */
  function RemoveMin<K, V>(t: Tree<K, V>): (r: (Tree<K, V>, Tree<K, V>))
    requires NonNegHeights(t)
    ensures NonNegHeights(r.0) && NonNegHeights(r.1)
    ensures t.Nil? ==> r == (Nil, Nil)
    ensures t.Node? ==>
      && r.1 == Node(Nil, Leftmost(t).key, Leftmost(t).value, Leftmost(t).height, Nil)
      && Entries(t) == [(r.1.key, r.1.value)] + Entries(r.0)
      && Count(t) == Count(r.0) + 1
  {
    if t.Nil? then (Nil, Nil)
    else if t.left.Nil? then (t.right, t.(right := Nil))
    else
      var (l', min) := RemoveMin(t.left);
      (Rotate(UpdateHeight(t.(left := l'))), min)
  }

  /** What `_avltree_insert` leaves behind: the new subtree, its return value and `*old_out`. */
  datatype InsertOutcome<K, V> = InsertOutcome(tree: Tree<K, V>, result: int, oldOut: Ptr<V>)

  /**
   * `_avltree_insert`. An empty slot receives a new node holding `dup(key)`
   * and `value` (result 0, `*old_out` NULL). On a node whose key compares equal
   * the stored value is reported and, with `replace`, overwritten (result 1).
   * Otherwise the key goes left when `cmp(node key, key) < 0` and right
   * otherwise; afterwards the node is re-balanced exactly when `*old_out` is NULL.
   */
  function Insert<K, V>(cmp: (K, K) -> int, dup: K -> K, t: Tree<K, V>, key: K, value: Ptr<V>, replace: bool): (r: InsertOutcome<K, V>)
    requires NonNegHeights(t)
    ensures NonNegHeights(r.tree) && r.tree.Node?
    ensures r.result == 0 || r.result == 1
  {
    match t
    case Nil => InsertOutcome(Node(Nil, dup(key), value, 0, Nil), 0, Null)
    case Node(l, k, v, _, rt) =>
      var c := cmp(k, key);
      if c != 0 then
        var sub := if c < 0 then Insert(cmp, dup, l, key, value, replace) else Insert(cmp, dup, rt, key, value, replace);
        var linked := if c < 0 then t.(left := sub.tree) else t.(right := sub.tree);
        var t' := if sub.oldOut == Null then Rotate(UpdateHeight(linked)) else linked;
        InsertOutcome(t', sub.result, sub.oldOut)
      else if replace then
        InsertOutcome(t.(value := value), 1, v)
      else
        InsertOutcome(t, 0, v)
  }

  /**
   * What a matched node's slot holds once the node is taken out: an empty slot
   * for a leaf, a copy of the only child (`**ptr = *temp`), or, with two
   * children, the node itself carrying the key and value of the leftmost node
   * of its right subtree, which is unlinked.
   */
  function Unlink<K, V>(t: Tree<K, V>): (r: Tree<K, V>)
    requires t.Node? && NonNegHeights(t)
    ensures NonNegHeights(r)
    ensures Entries(r) == Entries(t.left) + Entries(t.right)
    ensures Count(r) + 1 == Count(t)
    ensures r.Nil? <==> t.left.Nil? && t.right.Nil?
  {
    if t.left.Nil? || t.right.Nil? then
      if t.left.Node? then t.left else t.right
    else
      var (rest, min) := RemoveMin(t.right);
      Node(t.left, min.key, min.value, t.height, rest)
  }

  /**
   * What `_avltree_remove` leaves behind: the new subtree, its return value,
   * `*old_out`, and the keys handed to the `rel` callback.
   */
  datatype RemoveOutcome<K, V> = RemoveOutcome(tree: Tree<K, V>, result: int, oldOut: Ptr<V>, released: seq<K>)

  /**
   * `_avltree_remove`. On the node whose key compares equal: release its key,
   * report its value and unlink it (result 1). Every node on the way back up,
   * the matched one included when its slot is not empty, is re-balanced
   * exactly when the reported value is not NULL. `*old_out` starts as NULL.
   */
  function Remove<K, V>(cmp: (K, K) -> int, t: Tree<K, V>, key: K): (r: RemoveOutcome<K, V>)
    requires NonNegHeights(t)
    ensures NonNegHeights(r.tree)
    ensures r.result == 0 || r.result == 1
  {
    match t
    case Nil => RemoveOutcome(Nil, 0, Null, [])
    case Node(l, k, v, _, rt) =>
      var c := cmp(k, key);
      if c != 0 then
        var sub := if c < 0 then Remove(cmp, l, key) else Remove(cmp, rt, key);
        var linked := if c < 0 then t.(left := sub.tree) else t.(right := sub.tree);
        var t' := if sub.oldOut != Null then Rotate(UpdateHeight(linked)) else linked;
        RemoveOutcome(t', sub.result, sub.oldOut, sub.released)
      else
        var spliced := Unlink(t);
        var t' := if v != Null && spliced.Node? then Rotate(UpdateHeight(spliced)) else spliced;
        RemoveOutcome(t', 1, v, [k])
  }

  /**
   * `_avltree_find`, as written: descend left on `cmp < 0`, right on `cmp > 1`,
   * and return the node otherwise, so a comparison result of exactly 1 stops
   * the search too.
   */
  function Find<K, V>(cmp: (K, K) -> int, t: Tree<K, V>, key: K): (r: Tree<K, V>)
    ensures r.Node? ==> (r.key, r.value) in Entries(t)
    ensures r.Node? ==> cmp(r.key, key) == 0 || cmp(r.key, key) == 1
  {
    match t
    case Nil => Nil
    case Node(l, k, _, _, rt) =>
      var c := cmp(k, key);
      if c < 0 then Find(cmp, l, key)
      else if c > 1 then Find(cmp, rt, key)
      else t
  }

  /** The order in which `avlnode_delete` hands keys to `rel`: post-order. */
  function ReleaseOrder<K, V>(t: Tree<K, V>): (r: seq<K>)
    ensures |r| == Count(t)
    ensures t.Node? ==> r[|r| - 1] == t.key
  {
    match t
    case Nil => []
    case Node(l, k, _, _, r) => ReleaseOrder(l) + ReleaseOrder(r) + [k]
  }
}
