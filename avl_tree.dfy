/**
 * The public interface of the engine, `avltree_t` and its wrappers. The
 * tree object holds the root slot, the callbacks and the `size` counter;
 * every operation hands the root slot to the node routines of `AvlHeap`
 * and stores back the node they leave in it.
 */
module AvlApi {
  import Avl
  import AvlHeap

  /** `struct avltree_s`. */
  class AvlTree<K, V> {
    var root: AvlHeap.Node?<K, V>
    const cmp: (K, K) -> int
    const dup: K -> K
    /** "Number of items": set to 0 by `avltree_new` and never written again. */
    var size: nat
    /** Every key handed to the `rel` callback so far, in order. */
    var released: seq<K>
    ghost var layout: AvlHeap.Layout<K, V>
    ghost var Repr: set<object>

    /** The tree object and the nodes hanging from its root slot form a tree. */
    ghost predicate Valid()
      reads this, Repr
    {
      && this in Repr
      && Repr == {this} + AvlHeap.Nodes(layout)
      && this !in AvlHeap.Nodes(layout)
      && AvlHeap.Holds(layout, root)
      && Avl.NonNegHeights(AvlHeap.Abs(layout))
    }

    /** The tree value held by the root slot. */
    ghost function Contents(): Avl.Tree<K, V>
      reads this
    {
      AvlHeap.Abs(layout)
    }

    /**
     * `avltree_new`: an empty root slot and a size of 0. A missing `dup`
     * callback means the key itself is stored, as `def_dup` does.
     */
    constructor (cmp: (K, K) -> int, dup: Avl.Ptr<K -> K>)
      ensures Valid() && fresh(Repr)
      ensures Contents() == Avl.Nil && size == 0 && released == []
      ensures this.cmp == cmp
      ensures dup.Ref? ==> this.dup == dup.target
      ensures dup.Null? ==> this.dup == Avl.DefDup
    {
      root := null;
      this.cmp := cmp;
      var stored: K -> K := Avl.DefDup;
      if dup.Ref? {
        stored := dup.target;
      }
      this.dup := stored;
      size := 0;
      released := [];
      layout := AvlHeap.Empty;
      Repr := {this};
    }

    /**
     * `avltree_insert`: runs `_avltree_insert` on the root slot and reports
     * its result and the value it left in `*old_out`.
     */
    method Insert(key: K, value: Avl.Ptr<V>, overwrite: bool) returns (result: int, oldOut: Avl.Ptr<V>)
      requires Valid()
      modifies Repr
      ensures Valid() && fresh(Repr - old(Repr))
      ensures Avl.InsertOutcome(Contents(), result, oldOut) == Avl.Insert(cmp, dup, old(Contents()), key, value, overwrite)
      ensures size == old(size) && released == old(released)
    {
      var r;
      ghost var l';
      r, result, oldOut, l' := AvlHeap.Insert(cmp, dup, root, layout, key, value, overwrite);
      root, layout := r, l';
      Repr := {this} + AvlHeap.Nodes(layout);
    }

    /**
     * `avltree_erase`: runs `_avltree_remove` on the root slot with `*old_out`
     * set to NULL first, and reports its result and `*old_out`.
     */
    method Erase(key: K) returns (result: int, oldOut: Avl.Ptr<V>)
      requires Valid()
      modifies Repr
      ensures Valid() && Repr <= old(Repr)
      ensures var o := Avl.Remove(cmp, old(Contents()), key);
        && Contents() == o.tree && result == o.result && oldOut == o.oldOut
        && released == old(released) + o.released
      ensures size == old(size)
    {
      var r, keys;
      ghost var l';
      r, result, oldOut, keys, l' := AvlHeap.Remove(cmp, root, layout, key);
      root, layout := r, l';
      released := released + keys;
      Repr := {this} + AvlHeap.Nodes(layout);
    }

    /** `avltree_find`: the value of the node `_avltree_find` stops at, NULL when it finds none. */
    function Find(key: K): (v: Avl.Ptr<V>)
      reads this, Repr
      requires Valid()
      ensures var f := Avl.Find(cmp, Contents(), key);
        v == (if f.Nil? then Avl.Null else f.value)
    {
      var node := AvlHeap.Find(cmp, root, layout, key);
      if node == null then Avl.Null else node.value
    }

    /**
     * `avltree_findPtr`: the value slot of the node `_avltree_find` stops at,
     * here the node whose `value` field that slot is; null when it finds none.
     */
    function FindPtr(key: K): (slot: AvlHeap.Node?<K, V>)
      reads this, Repr
      requires Valid()
      ensures slot == null <==> Avl.Find(cmp, Contents(), key).Nil?
      ensures slot != null ==> slot in Repr && slot.value == Avl.Find(cmp, Contents(), key).value
    {
      AvlHeap.Find(cmp, root, layout, key)
    }

    /** `avltree_haskey`: whether `_avltree_find` stops at a node. */
    function HasKey(key: K): (b: bool)
      reads this, Repr
      requires Valid()
      ensures b <==> Avl.Find(cmp, Contents(), key).Node?
    {
      AvlHeap.Find(cmp, root, layout, key) != null
    }

    /** `avltree_size`: the `size` field, which no operation updates. */
    function Size(): (n: nat)
      reads this
      ensures n == size
    {
      size
    }

    /** The number of items the tree holds, which `size` was meant to track. */
    function Count(): (n: nat)
      reads this, Repr
      requires Valid()
      ensures n == Avl.Count(Contents())
    {
      AvlHeap.Count(root, layout)
    }

    /**
     * `avltree_delete`: every key is handed to `rel`, in post-order. Freeing
     * the nodes and the tree object is not modelled.
     */
    method Delete()
      requires Valid()
      modifies this`released
      ensures released == old(released) + Avl.ReleaseOrder(Contents())
    {
      var keys := AvlHeap.Delete(root, layout);
      released := released + keys;
    }
  }
}
