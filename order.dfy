/**
 * Three-way key comparison as the tree sees it through its `cmp_key_cb`:
 * a negative result means "the first key is less", zero "equal", a
 * positive result "greater". The tree never inspects keys itself.
 */
module Order {

  /** Swapping the arguments of `cmp` at `a`, `b` flips the sign of the result. */
  ghost predicate FlipsAt<K>(cmp: (K, K) -> int, a: K, b: K) {
    cmp(a, b) < 0 <==> cmp(b, a) > 0
  }

  /** "Less than or equal" under `cmp` is transitive at `a`, `b`, `c`. */
  ghost predicate ChainsAt<K>(cmp: (K, K) -> int, a: K, b: K, c: K) {
    cmp(a, b) <= 0 && cmp(b, c) <= 0 ==> cmp(a, c) <= 0
  }

  /**
   * `cmp` is a consistent comparator: swapping the arguments flips the sign,
   * and "less than or equal" is transitive. Together these make `cmp` a total
   * preorder, whose equivalence classes are the keys that compare equal.
   */
  ghost predicate ValidCmp<K(!new)>(cmp: (K, K) -> int) {
    && (forall a, b :: FlipsAt(cmp, a, b))
    && (forall a, b, c :: ChainsAt(cmp, a, b, c))
  }

  /** The stored copy `dup(k)` compares equal to the key it was made from. */
  ghost predicate DupKeepsOrder<K(!new)>(cmp: (K, K) -> int, dup: K -> K) {
    forall k :: cmp(dup(k), k) == 0
  }

  /** The chains of comparisons the ordering proofs use, for three given keys. */
  lemma CmpChain<K(!new)>(cmp: (K, K) -> int, a: K, b: K, c: K)
    requires ValidCmp(cmp)
    ensures cmp(a, a) == 0
    ensures cmp(a, b) < 0 <==> cmp(b, a) > 0
    ensures cmp(a, b) == 0 <==> cmp(b, a) == 0
    ensures cmp(a, b) < 0 && cmp(b, c) <= 0 ==> cmp(a, c) < 0
    ensures cmp(a, b) <= 0 && cmp(b, c) < 0 ==> cmp(a, c) < 0
    ensures cmp(a, b) > 0 && cmp(b, c) >= 0 ==> cmp(a, c) > 0
    ensures cmp(a, b) >= 0 && cmp(b, c) > 0 ==> cmp(a, c) > 0
    ensures cmp(a, b) == 0 && cmp(b, c) == 0 ==> cmp(a, c) == 0
  {
    assert FlipsAt(cmp, a, a) && FlipsAt(cmp, a, b) && FlipsAt(cmp, b, a);
    assert FlipsAt(cmp, b, c) && FlipsAt(cmp, c, b) && FlipsAt(cmp, a, c) && FlipsAt(cmp, c, a);
    assert ChainsAt(cmp, a, b, c) && ChainsAt(cmp, c, b, a);
    assert ChainsAt(cmp, c, a, b) && ChainsAt(cmp, b, c, a);
    assert ChainsAt(cmp, b, a, c) && ChainsAt(cmp, a, c, b);
  }

  /** Integer difference, the usual comparator for integer keys. */
  function IntCmp(a: int, b: int): int {
    a - b
  }

  /** Integer difference is a consistent comparator. */
  lemma IntCmpIsValid()
    ensures ValidCmp(IntCmp)
  {
    forall a: int, b: int ensures FlipsAt(IntCmp, a, b) {
    }
    forall a: int, b: int, c: int ensures ChainsAt(IntCmp, a, b, c) {
    }
  }
}
