/**
 * The node routines of the engine on the heap, as the C code runs them. A
 * node is an object whose fields the routines rewrite in place. Each routine
 * that takes an `avlnode_t **ptr` is a method that receives the node held in
 * the slot and returns the node the slot holds afterwards, which the caller
 * stores back (`node.left := sub` for a call on `&node->left`).
 *
 * The proofs follow the nodes through a ghost `Layout`: a tree value that
 * names, for every position, the node object sitting there and the key,
 * value and height it holds. `Linked` says the heap spells out a layout and
 * `Abs` forgets the objects, giving the tree value the functions of `Avl`
 * work on. Each method is proved equal, on that value, to an `Avl` function
 * or a composition of them; a child-slot helper applies the function to one
 * child, and a field store rewrites just the layout entries it writes.
 */
module AvlHeap {
  import Avl

  /** `struct avlnode_s`. */
  class Node<K, V> {
    var key: K
    var value: Avl.Ptr<V>
    var left: Node?<K, V>
    var right: Node?<K, V>
    var height: int

    /** `avlnode_new` followed by storing the key and value: a leaf of height 0. */
    constructor (key: K, value: Avl.Ptr<V>)
      ensures this.key == key && this.value == value
      ensures left == null && right == null && height == 0
    {
      this.key := key;
      this.value := value;
      left := null;
      right := null;
      height := 0;
    }
  }

  /** Which node object sits at each position of a subtree, and what it holds. */
  datatype Layout<K, V> =
    | Empty
    | Cell(left: Layout<K, V>, node: Node<K, V>, key: K, value: Avl.Ptr<V>, height: int, right: Layout<K, V>)

  /** The node objects of a layout. */
  ghost function Nodes<K, V>(l: Layout<K, V>): set<object>
  {
    match l
    case Empty => {}
    case Cell(ll, x, _, _, _, rr) => {x} + Nodes(ll) + Nodes(rr)
  }

  /** No node object sits at two positions. */
  ghost predicate Distinct<K, V>(l: Layout<K, V>)
  {
    match l
    case Empty => true
    case Cell(ll, x, _, _, _, rr) =>
      && x !in Nodes(ll)
      && x !in Nodes(rr)
      && Nodes(ll) !! Nodes(rr)
      && Distinct(ll)
      && Distinct(rr)
  }

  /** The slot holding `n` is the root of the layout `l`: every node's fields spell out its position. */
  ghost predicate Linked<K, V>(l: Layout<K, V>, n: Node?<K, V>)
    reads Nodes(l)
  {
    match l
    case Empty => n == null
    case Cell(ll, x, k, v, h, rr) =>
      && n == x
      && x.key == k
      && x.value == v
      && x.height == h
      && Linked(ll, x.left)
      && Linked(rr, x.right)
  }

  /** The slot holding `n` holds a proper tree laid out as `l`. */
  ghost predicate Holds<K, V>(l: Layout<K, V>, n: Node?<K, V>)
    reads Nodes(l)
  {
    Distinct(l) && Linked(l, n)
  }

  /** The tree value a layout spells out. */
  ghost function Abs<K, V>(l: Layout<K, V>): Avl.Tree<K, V>
  {
    match l
    case Empty => Avl.Nil
    case Cell(ll, _, k, v, h, rr) => Avl.Node(Abs(ll), k, v, h, Abs(rr))
  }

  /** One step of `Linked`. */
  lemma Unfold<K, V>(l: Layout<K, V>, n: Node?<K, V>)
    requires Linked(l, n)
    ensures n == null <==> l.Empty?
    ensures n != null ==>
      && l.node == n && n.key == l.key && n.value == l.value && n.height == l.height
      && Linked(l.left, n.left) && Linked(l.right, n.right)
  {
  }

  /** One step of `Distinct`. */
  lemma Apart<K, V>(l: Layout<K, V>)
    requires Distinct(l) && l.Cell?
    ensures l.node !in Nodes(l.left) && l.node !in Nodes(l.right)
    ensures Nodes(l.left) !! Nodes(l.right)
    ensures Distinct(l.left) && Distinct(l.right)
  {
  }

  /** Every node object of a layout is allocated. */
  lemma Allocated<K, V>(l: Layout<K, V>)
    ensures forall o | o in Nodes(l) :: allocated(o)
  {
    if l.Cell? {
      Allocated(l.left);
      Allocated(l.right);
    }
  }

  /** `avlnode_height`: -1 for an empty slot, the cached field otherwise. */
  function Height<K, V>(n: Node?<K, V>): int
    reads n
  {
    if n == null then -1 else n.height
  }

  /** The heap height of a slot is the height of the tree value it holds. */
  lemma HeightOf<K, V>(l: Layout<K, V>, n: Node?<K, V>)
    requires Linked(l, n)
    ensures Height(n) == Avl.Height(Abs(l))
  {
  }

  /** `avlnode_update_height`. */
  method UpdateHeight<K, V>(node: Node<K, V>, ghost l: Layout<K, V>) returns (ghost l': Layout<K, V>)
    requires Holds(l, node)
    modifies node
    ensures Holds(l', node) && Nodes(l') == Nodes(l)
    ensures l.Cell? && Abs(l') == Avl.UpdateHeight(Abs(l))
  {
    Unfold(l, node);
    Apart(l);
    HeightOf(l.left, node.left);
    HeightOf(l.right, node.right);
    var hleft := Height(node.left);
    var hright := Height(node.right);
    if hleft > hright {
      node.height := hleft + 1;
    } else {
      node.height := hright + 1;
    }
    assert Linked(l.left, node.left) && Linked(l.right, node.right);
    l' := l.(height := node.height);
  }

  /** `avlnode_lrotation`. */
  method LRotation<K, V>(node: Node?<K, V>, ghost l: Layout<K, V>) returns (r: Node?<K, V>, ghost l': Layout<K, V>)
    requires Holds(l, node)
    modifies Nodes(l)
    ensures Holds(l', r) && Nodes(l') == Nodes(l)
    ensures Abs(l') == Avl.LRotation(Abs(l))
  {
    Unfold(l, node);
    if node != null {
      Unfold(l.right, node.right);
    }
    if node == null || node.right == null {
      return node, l;
    }
    var a := node;
    var b := node.right;
    ghost var x, y, z := l.left, l.right.left, l.right.right;
    Apart(l);
    Apart(l.right);
    var h := a.height - 2;
    if h < 0 {
      h := 0;
    }
    a.right, b.left, a.height := b.left, a, h;
    r := b;
    assert Linked(x, a.left) && Linked(y, a.right) && Linked(z, b.right);
    l' := Cell(Cell(x, a, l.key, l.value, h, y), b, l.right.key, l.right.value, l.right.height, z);
  }

  /** `avlnode_rrotation`. */
  method RRotation<K, V>(node: Node?<K, V>, ghost l: Layout<K, V>) returns (r: Node?<K, V>, ghost l': Layout<K, V>)
    requires Holds(l, node)
    modifies Nodes(l)
    ensures Holds(l', r) && Nodes(l') == Nodes(l)
    ensures Abs(l') == Avl.RRotation(Abs(l))
  {
    Unfold(l, node);
    if node != null {
      Unfold(l.left, node.left);
    }
    if node == null || node.left == null {
      return node, l;
    }
    var a := node;
    var b := node.left;
    ghost var x, y, z := l.left.left, l.left.right, l.right;
    Apart(l);
    Apart(l.left);
    var h := a.height - 2;
    if h < 0 {
      h := 0;
    }
    a.left, b.right, a.height := b.right, a, h;
    r := b;
    assert Linked(x, b.left) && Linked(y, a.left) && Linked(z, a.right);
    l' := Cell(x, b, l.left.key, l.left.value, l.left.height, Cell(y, a, l.key, l.value, h, z));
  }

  /** `avlnode_lrotation(&node->left)`: rotate the left child's subtree in its slot. */
  method LRotationLeftChild<K, V>(node: Node<K, V>, ghost l: Layout<K, V>) returns (ghost l': Layout<K, V>)
    requires Holds(l, node)
    modifies Nodes(l)
    ensures Holds(l', node) && Nodes(l') == Nodes(l)
    ensures l.Cell? && Abs(l') == Avl.Node(Avl.LRotation(Abs(l.left)), l.key, l.value, l.height, Abs(l.right))
  {
    Unfold(l, node);
    Apart(l);
    Allocated(l.right);
    var sub;
    ghost var ls;
    sub, ls := LRotation(node.left, l.left);
    node.left := sub;
    assert Linked(ls, node.left) && Linked(l.right, node.right);
    l' := l.(left := ls);
  }

  /** `avlnode_rrotation(&node->right)`: rotate the right child's subtree in its slot. */
  method RRotationRightChild<K, V>(node: Node<K, V>, ghost l: Layout<K, V>) returns (ghost l': Layout<K, V>)
    requires Holds(l, node)
    modifies Nodes(l)
    ensures Holds(l', node) && Nodes(l') == Nodes(l)
    ensures l.Cell? && Abs(l') == Avl.Node(Abs(l.left), l.key, l.value, l.height, Avl.RRotation(Abs(l.right)))
  {
    Unfold(l, node);
    Apart(l);
    Allocated(l.left);
    var sub;
    ghost var ls;
    sub, ls := RRotation(node.right, l.right);
    node.right := sub;
    assert Linked(l.left, node.left) && Linked(ls, node.right);
    l' := l.(right := ls);
  }

  /** `avlnode_rotate`. */
  method Rotate<K, V>(node: Node?<K, V>, ghost l: Layout<K, V>) returns (r: Node?<K, V>, ghost l': Layout<K, V>)
    requires Holds(l, node) && Avl.NonNegHeights(Abs(l))
    modifies Nodes(l)
    ensures Holds(l', r) && Nodes(l') == Nodes(l)
    ensures Abs(l') == Avl.Rotate(Abs(l))
  {
    Unfold(l, node);
    if node == null {
      return null, l;
    }
    HeightOf(l.left, node.left);
    HeightOf(l.right, node.right);
    var hleft := Height(node.left);
    var hright := Height(node.right);
    ghost var m := l;
    if hleft > hright + 1 {
      var left := node.left;
      Unfold(l.left, left);
      HeightOf(l.left.left, left.left);
      HeightOf(l.left.right, left.right);
      hleft := Height(left.left);
      hright := Height(left.right);
      if hright > hleft + 1 {
        m := LRotationLeftChild(node, l);
      }
      r, l' := RRotation(node, m);
    } else if hright > hleft + 1 {
      var right := node.right;
      Unfold(l.right, right);
      HeightOf(l.right.left, right.left);
      HeightOf(l.right.right, right.right);
      hleft := Height(right.left);
      hright := Height(right.right);
      if hright > hleft + 1 {
        m := RRotationRightChild(node, l);
      }
      r, l' := LRotation(node, m);
    } else {
      r, l' := node, l;
    }
  }

  /**
   * `avlnode_update_height(node); avlnode_rotate(ptr);`, the re-balancing step
   * insertion, erasure and `avlnode_remove_min` run on the way back up.
   */
  method Rebalance<K, V>(node: Node<K, V>, ghost l: Layout<K, V>) returns (r: Node?<K, V>, ghost l': Layout<K, V>)
    requires Holds(l, node) && l.Cell?
    requires Avl.NonNegHeights(Abs(l.left)) && Avl.NonNegHeights(Abs(l.right))
    modifies Nodes(l)
    ensures Holds(l', r) && Nodes(l') == Nodes(l)
    ensures Abs(l') == Avl.Rotate(Avl.UpdateHeight(Abs(l)))
  {
    ghost var m := UpdateHeight(node, l);
    r, l' := Rotate(node, m);
  }

  /**
   * `avlnode_remove_min`: unlink the leftmost node of the subtree held in the
   * slot, re-balancing each node on the way back up, and return it.
   */
  method RemoveMin<K, V>(node: Node?<K, V>, ghost l: Layout<K, V>)
      returns (r: Node?<K, V>, min: Node?<K, V>, ghost l': Layout<K, V>, ghost lm: Layout<K, V>)
    requires Holds(l, node) && Avl.NonNegHeights(Abs(l))
    modifies Nodes(l)
    ensures Holds(l', r) && Holds(lm, min)
    ensures Nodes(l') !! Nodes(lm) && Nodes(l') + Nodes(lm) == Nodes(l)
    ensures (Abs(l'), Abs(lm)) == Avl.RemoveMin(Abs(l))
    decreases l, 1
  {
    Unfold(l, node);
    if node == null {
      return null, null, Empty, Empty;
    }
    Apart(l);
    Unfold(l.left, node.left);
    if node.left == null {
      r := node.right;
      node.right := null;
      assert Linked(l.right, r);
      return r, node, l.right, l.(right := Empty);
    }
    ghost var m;
    min, m, lm := RemoveMinOfLeft(node, l);
    Allocated(lm);
    r, l' := Rebalance(node, m);
  }

  /** `avlnode_remove_min(&node->left)`: the recursive call on the left child's slot. */
  method RemoveMinOfLeft<K, V>(node: Node<K, V>, ghost l: Layout<K, V>)
      returns (min: Node?<K, V>, ghost l': Layout<K, V>, ghost lm: Layout<K, V>)
    requires Holds(l, node) && Avl.NonNegHeights(Abs(l))
    modifies Nodes(l)
    ensures l.Cell? && Holds(l', node) && Holds(lm, min)
    ensures Nodes(l') !! Nodes(lm) && Nodes(l') + Nodes(lm) == Nodes(l)
    ensures Avl.NonNegHeights(Abs(l.left))
    ensures var (rest, m) := Avl.RemoveMin(Abs(l.left));
      Abs(l') == Avl.Node(rest, l.key, l.value, l.height, Abs(l.right)) && Abs(lm) == m
    decreases l, 0
  {
    Unfold(l, node);
    Apart(l);
    Allocated(l.right);
    var sub;
    ghost var ls;
    sub, min, ls, lm := RemoveMin(node.left, l.left);
    node.left := sub;
    assert Linked(ls, node.left) && Linked(l.right, node.right) && Linked(lm, min);
    l' := l.(left := ls);
  }

  /**
   * `_avltree_insert`: a new leaf in an empty slot; report and, with
   * `replace`, overwrite the value of a node whose key compares equal;
   * otherwise insert into the left slot when `cmp(node key, key) < 0` and the
   * right slot otherwise, re-balancing afterwards exactly when `*old_out` is NULL.
   */
  method Insert<K, V>(cmp: (K, K) -> int, dup: K -> K, node: Node?<K, V>, ghost l: Layout<K, V>,
                      key: K, value: Avl.Ptr<V>, replace: bool)
      returns (r: Node?<K, V>, result: int, oldOut: Avl.Ptr<V>, ghost l': Layout<K, V>)
    requires Holds(l, node) && Avl.NonNegHeights(Abs(l))
    modifies Nodes(l)
    ensures Holds(l', r) && Nodes(l) <= Nodes(l') && fresh(Nodes(l') - Nodes(l))
    ensures Avl.InsertOutcome(Abs(l'), result, oldOut) == Avl.Insert(cmp, dup, Abs(l), key, value, replace)
    decreases l, 1
  {
    Unfold(l, node);
    if node == null {
      r := new Node(dup(key), value);
      return r, 0, Avl.Null, Cell(Empty, r, dup(key), value, 0, Empty);
    }
    var c := cmp(node.key, key);
    if c != 0 {
      ghost var m;
      if c < 0 {
        result, oldOut, m := InsertIntoLeft(cmp, dup, node, l, key, value, replace);
      } else {
        result, oldOut, m := InsertIntoRight(cmp, dup, node, l, key, value, replace);
      }
      if oldOut == Avl.Null {
        r, l' := Rebalance(node, m);
      } else {
        r, l' := node, m;
      }
    } else {
      Apart(l);
      oldOut := node.value;
      if replace {
        node.value := value;
        result := 1;
        assert Linked(l.left, node.left) && Linked(l.right, node.right);
        l' := l.(value := value);
      } else {
        result := 0;
        l' := l;
      }
      r := node;
    }
  }

  /** `_avltree_insert(tree, &node->left, ...)`: the recursive call on the left child's slot. */
  method InsertIntoLeft<K, V>(cmp: (K, K) -> int, dup: K -> K, node: Node<K, V>, ghost l: Layout<K, V>,
                              key: K, value: Avl.Ptr<V>, replace: bool)
      returns (result: int, oldOut: Avl.Ptr<V>, ghost l': Layout<K, V>)
    requires Holds(l, node) && Avl.NonNegHeights(Abs(l))
    modifies Nodes(l)
    ensures l.Cell? && Holds(l', node) && Nodes(l) <= Nodes(l') && fresh(Nodes(l') - Nodes(l))
    ensures Avl.NonNegHeights(Abs(l.left)) && Avl.NonNegHeights(Abs(l.right))
    ensures var sub := Avl.Insert(cmp, dup, Abs(l.left), key, value, replace);
      && Abs(l') == Avl.Node(sub.tree, l.key, l.value, l.height, Abs(l.right))
      && result == sub.result && oldOut == sub.oldOut
    decreases l, 0
  {
    Unfold(l, node);
    Apart(l);
    Allocated(l.right);
    var sub;
    ghost var ls;
    sub, result, oldOut, ls := Insert(cmp, dup, node.left, l.left, key, value, replace);
    node.left := sub;
    assert Linked(ls, node.left) && Linked(l.right, node.right);
    l' := l.(left := ls);
  }

  /** `_avltree_insert(tree, &node->right, ...)`: the recursive call on the right child's slot. */
  method InsertIntoRight<K, V>(cmp: (K, K) -> int, dup: K -> K, node: Node<K, V>, ghost l: Layout<K, V>,
                               key: K, value: Avl.Ptr<V>, replace: bool)
      returns (result: int, oldOut: Avl.Ptr<V>, ghost l': Layout<K, V>)
    requires Holds(l, node) && Avl.NonNegHeights(Abs(l))
    modifies Nodes(l)
    ensures l.Cell? && Holds(l', node) && Nodes(l) <= Nodes(l') && fresh(Nodes(l') - Nodes(l))
    ensures Avl.NonNegHeights(Abs(l.left)) && Avl.NonNegHeights(Abs(l.right))
    ensures var sub := Avl.Insert(cmp, dup, Abs(l.right), key, value, replace);
      && Abs(l') == Avl.Node(Abs(l.left), l.key, l.value, l.height, sub.tree)
      && result == sub.result && oldOut == sub.oldOut
    decreases l, 0
  {
    Unfold(l, node);
    Apart(l);
    Allocated(l.left);
    var sub;
    ghost var ls;
    sub, result, oldOut, ls := Insert(cmp, dup, node.right, l.right, key, value, replace);
    node.right := sub;
    assert Linked(l.left, node.left) && Linked(ls, node.right);
    l' := l.(right := ls);
  }

  /**
   * The matched-node case of `_avltree_remove`: a leaf's slot is emptied; a
   * node with one child is overwritten with a copy of that child
   * (`**ptr = *temp`), whose object is then freed; a node with two children
   * takes over the key and value of the leftmost node of its right subtree,
   * which `avlnode_remove_min` unlinks.
   */
  method Unlink<K, V>(node: Node<K, V>, ghost l: Layout<K, V>) returns (r: Node?<K, V>, ghost l': Layout<K, V>)
    requires Holds(l, node) && Avl.NonNegHeights(Abs(l))
    modifies Nodes(l)
    ensures Holds(l', r) && Nodes(l') <= Nodes(l)
    ensures l.Cell? && Abs(l') == Avl.Unlink(Abs(l))
  {
    Unfold(l, node);
    if node.left == null && node.right == null {
      Unfold(l.left, node.left);
      Unfold(l.right, node.right);
      r, l' := null, Empty;
    } else if node.left == null || node.right == null {
      l' := CopyChild(node, l);
      r := node;
    } else {
      l' := TakeSuccessor(node, l);
      r := node;
    }
  }

  /** `**ptr = *temp`: the node whose only non-empty child is `temp` becomes a copy of `temp`. */
  method CopyChild<K, V>(node: Node<K, V>, ghost l: Layout<K, V>) returns (ghost l': Layout<K, V>)
    requires Holds(l, node) && (node.left == null || node.right == null) && (node.left != null || node.right != null)
    modifies node
    ensures Holds(l', node) && Nodes(l') <= Nodes(l)
    ensures l.Cell? && Abs(l') == (if l.left.Cell? then Abs(l.left) else Abs(l.right))
  {
    Unfold(l, node);
    Apart(l);
    var temp: Node<K, V>;
    ghost var lt;
    if node.left != null {
      temp, lt := node.left, l.left;
    } else {
      temp, lt := node.right, l.right;
    }
    Unfold(lt, temp);
    Apart(lt);
    node.key, node.value, node.left, node.right, node.height := temp.key, temp.value, temp.left, temp.right, temp.height;
    assert Linked(lt.left, node.left) && Linked(lt.right, node.right);
    l' := lt.(node := node);
  }

  /**
   * The two-children case: `avlnode_remove_min(&node->right)` unlinks the
   * leftmost node of the right subtree, whose key and value the node takes over.
   */
  method TakeSuccessor<K, V>(node: Node<K, V>, ghost l: Layout<K, V>) returns (ghost l': Layout<K, V>)
    requires Holds(l, node) && Avl.NonNegHeights(Abs(l)) && node.left != null && node.right != null
    modifies Nodes(l)
    ensures Holds(l', node) && Nodes(l') <= Nodes(l)
    ensures l.Cell? && l.right.Cell?
    ensures var (rest, min) := Avl.RemoveMin(Abs(l.right));
      Abs(l') == Avl.Node(Abs(l.left), min.key, min.value, l.height, rest)
  {
    Unfold(l, node);
    Unfold(l.right, node.right);
    var min;
    ghost var m, lm;
    min, m, lm := RemoveMinOfRight(node, l);
    Unfold(lm, min);
    l' := SetEntry(node, m, min.key, min.value);
  }

  /** Overwrite a node's key and value in place; its links and height stay. */
  method SetEntry<K, V>(node: Node<K, V>, ghost l: Layout<K, V>, key: K, value: Avl.Ptr<V>) returns (ghost l': Layout<K, V>)
    requires Holds(l, node)
    modifies node
    ensures Holds(l', node) && Nodes(l') == Nodes(l)
    ensures l.Cell? && l' == l.(key := key, value := value)
  {
    Unfold(l, node);
    Apart(l);
    node.key, node.value := key, value;
    assert Linked(l.left, node.left) && Linked(l.right, node.right);
    l' := l.(key := key, value := value);
  }

  /** `avlnode_remove_min(&node->right)`: unlink the leftmost node of the right child's subtree. */
  method RemoveMinOfRight<K, V>(node: Node<K, V>, ghost l: Layout<K, V>)
      returns (min: Node?<K, V>, ghost l': Layout<K, V>, ghost lm: Layout<K, V>)
    requires Holds(l, node) && Avl.NonNegHeights(Abs(l))
    modifies Nodes(l)
    ensures l.Cell? && Holds(l', node) && Holds(lm, min)
    ensures Nodes(l') !! Nodes(lm) && Nodes(l') + Nodes(lm) == Nodes(l)
    ensures Avl.NonNegHeights(Abs(l.right))
    ensures var (rest, m) := Avl.RemoveMin(Abs(l.right));
      Abs(l') == Avl.Node(Abs(l.left), l.key, l.value, l.height, rest) && Abs(lm) == m
  {
    Unfold(l, node);
    Apart(l);
    Allocated(l.left);
    var sub;
    ghost var ls;
    sub, min, ls, lm := RemoveMin(node.right, l.right);
    node.right := sub;
    assert Linked(l.left, node.left) && Linked(ls, node.right) && Linked(lm, min);
    l' := l.(right := ls);
  }

  /**
   * `_avltree_remove`: descend left when `cmp(node key, key) < 0` and right
   * otherwise; on the node whose key compares equal, release its key, report
   * its value and unlink it. Every node on the way back up whose slot is not
   * empty is re-balanced exactly when the reported value is not NULL. The
   * reported value starts out NULL, as `avltree_erase` sets it.
   */
  method Remove<K, V>(cmp: (K, K) -> int, node: Node?<K, V>, ghost l: Layout<K, V>, key: K)
      returns (r: Node?<K, V>, result: int, oldOut: Avl.Ptr<V>, released: seq<K>, ghost l': Layout<K, V>)
    requires Holds(l, node) && Avl.NonNegHeights(Abs(l))
    modifies Nodes(l)
    ensures Holds(l', r) && Nodes(l') <= Nodes(l)
    ensures Avl.RemoveOutcome(Abs(l'), result, oldOut, released) == Avl.Remove(cmp, Abs(l), key)
    decreases l, 1
  {
    Unfold(l, node);
    if node == null {
      return null, 0, Avl.Null, [], Empty;
    }
    var c := cmp(node.key, key);
    ghost var m;
    if c != 0 {
      if c < 0 {
        result, oldOut, released, m := RemoveFromLeft(cmp, node, l, key);
      } else {
        result, oldOut, released, m := RemoveFromRight(cmp, node, l, key);
      }
      r := node;
    } else {
      released := [node.key];
      oldOut := node.value;
      r, m := Unlink(node, l);
      result := 1;
    }
    if oldOut != Avl.Null && r != null {
      Unfold(m, r);
      r, l' := Rebalance(r, m);
    } else {
      l' := m;
    }
  }

  /** `_avltree_remove(tree, &node->left, ...)`: the recursive call on the left child's slot. */
  method RemoveFromLeft<K, V>(cmp: (K, K) -> int, node: Node<K, V>, ghost l: Layout<K, V>, key: K)
      returns (result: int, oldOut: Avl.Ptr<V>, released: seq<K>, ghost l': Layout<K, V>)
    requires Holds(l, node) && Avl.NonNegHeights(Abs(l))
    modifies Nodes(l)
    ensures l.Cell? && Holds(l', node) && Nodes(l') <= Nodes(l)
    ensures Avl.NonNegHeights(Abs(l.left)) && Avl.NonNegHeights(Abs(l.right))
    ensures var sub := Avl.Remove(cmp, Abs(l.left), key);
      && Abs(l') == Avl.Node(sub.tree, l.key, l.value, l.height, Abs(l.right))
      && result == sub.result && oldOut == sub.oldOut && released == sub.released
    decreases l, 0
  {
    Unfold(l, node);
    Apart(l);
    Allocated(l.right);
    var sub;
    ghost var ls;
    sub, result, oldOut, released, ls := Remove(cmp, node.left, l.left, key);
    node.left := sub;
    assert Linked(ls, node.left) && Linked(l.right, node.right);
    l' := l.(left := ls);
  }

  /** `_avltree_remove(tree, &node->right, ...)`: the recursive call on the right child's slot. */
  method RemoveFromRight<K, V>(cmp: (K, K) -> int, node: Node<K, V>, ghost l: Layout<K, V>, key: K)
      returns (result: int, oldOut: Avl.Ptr<V>, released: seq<K>, ghost l': Layout<K, V>)
    requires Holds(l, node) && Avl.NonNegHeights(Abs(l))
    modifies Nodes(l)
    ensures l.Cell? && Holds(l', node) && Nodes(l') <= Nodes(l)
    ensures Avl.NonNegHeights(Abs(l.left)) && Avl.NonNegHeights(Abs(l.right))
    ensures var sub := Avl.Remove(cmp, Abs(l.right), key);
      && Abs(l') == Avl.Node(Abs(l.left), l.key, l.value, l.height, sub.tree)
      && result == sub.result && oldOut == sub.oldOut && released == sub.released
    decreases l, 0
  {
    Unfold(l, node);
    Apart(l);
    Allocated(l.left);
    var sub;
    ghost var ls;
    sub, result, oldOut, released, ls := Remove(cmp, node.right, l.right, key);
    node.right := sub;
    assert Linked(l.left, node.left) && Linked(ls, node.right);
    l' := l.(right := ls);
  }

  /** `avlnode_delete`: every key is handed to `rel` in post-order; freeing the nodes is not modelled. */
  method Delete<K, V>(node: Node?<K, V>, ghost l: Layout<K, V>) returns (released: seq<K>)
    requires Linked(l, node)
    ensures released == Avl.ReleaseOrder(Abs(l))
    decreases l
  {
    Unfold(l, node);
    if node == null {
      return [];
    }
    Allocated(l.right);
    var right := node.right;
    var fromLeft := Delete(node.left, l.left);
    var fromRight := Delete(right, l.right);
    released := fromLeft + fromRight + [node.key];
  }

  /**
   * `_avltree_find`: descend left on `cmp < 0` and right on `cmp > 1`, and
   * return the node otherwise.
   */
  function Find<K, V>(cmp: (K, K) -> int, node: Node?<K, V>, ghost l: Layout<K, V>, key: K): (r: Node?<K, V>)
    reads Nodes(l)
    requires Linked(l, node)
    ensures r == null <==> Avl.Find(cmp, Abs(l), key).Nil?
    ensures r != null ==> r in Nodes(l) && r.key == Avl.Find(cmp, Abs(l), key).key && r.value == Avl.Find(cmp, Abs(l), key).value
    decreases l
  {
    if node == null then null
    else
      var c := cmp(node.key, key);
      if c < 0 then Find(cmp, node.left, l.left, key)
      else if c > 1 then Find(cmp, node.right, l.right, key)
      else node
  }

  /** The number of nodes reachable from a slot. */
  function Count<K, V>(node: Node?<K, V>, ghost l: Layout<K, V>): (n: nat)
    reads Nodes(l)
    requires Linked(l, node)
    ensures n == Avl.Count(Abs(l))
    decreases l
  {
    if node == null then 0 else Count(node.left, l.left) + 1 + Count(node.right, l.right)
  }
}
