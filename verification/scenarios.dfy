/** Concrete behaviours of the hash set with the default of 7 buckets. */
module Scenarios {
  import opened Chains
  import opened Buckets
  import opened AdsSet

  /** With 7 buckets, three distinct keys stay within the load bound and the
      fourth pushes it to 4/7 > 1/2, so the table grows to 7 * 6 + 1 = 43
      buckets; all four keys are still counted and no other key is. This holds
      whatever the hash function. */
  lemma FourthInsertGrows<K>(h: K -> nat, a: K, b: K, c: K, d: K, other: K)
    requires a != b && a != c && a != d && b != c && b != d && c != d
    requires other != a && other != b && other != c && other != d
    ensures |FromKeys(7, h, [a, b, c]).table| == 7
    ensures |FromKeys(7, h, [a, b, c, d]).table| == 43
    ensures Size(FromKeys(7, h, [a, b, c, d])) == 4
    ensures Count(FromKeys(7, h, [a, b, c, d]), h, a) == 1
    ensures Count(FromKeys(7, h, [a, b, c, d]), h, b) == 1
    ensures Count(FromKeys(7, h, [a, b, c, d]), h, c) == 1
    ensures Count(FromKeys(7, h, [a, b, c, d]), h, d) == 1
    ensures Count(FromKeys(7, h, [a, b, c, d]), h, other) == 0
  {
    FourDistinct(a, b, c, d);
    FromKeysDistinct(7, h, [a, b, c]);
    FromKeysDistinct(7, h, [a, b, c, d]);
    GrowthFromSeven();
    CountsOfFour(FromKeys(7, h, [a, b, c, d]), h, a, b, c, d, other);
  }

  /** Four distinct keys, and the first three of them, form lists without
      repetition. */
  lemma FourDistinct<K>(a: K, b: K, c: K, d: K)
    requires a != b && a != c && a != d && b != c && b != d && c != d
    ensures Distinct([a, b, c]) && Distinct([a, b, c, d])
  {
  }

  /** The growth policy from 7 buckets: three additions keep 7 buckets, since
      2 * 3 <= 7; the fourth grows the table to 43, since 2 * 4 > 7. */
  lemma GrowthFromSeven()
    ensures Growth(0, 7, 3) == 7
    ensures Growth(0, 7, 4) == 43
  {
  }

  /** A set holding exactly four given keys counts each of them once and any
      other key not at all. */
  lemma CountsOfFour<K>(r: HashSet<K>, h: K -> nat, a: K, b: K, c: K, d: K, other: K)
    requires Valid(r, h) && Contents(r) == KeySet([a, b, c, d])
    requires other != a && other != b && other != c && other != d
    ensures Count(r, h, a) == 1 && Count(r, h, b) == 1 && Count(r, h, c) == 1 && Count(r, h, d) == 1
    ensures Count(r, h, other) == 0
  {
    forall x | x in [a, b, c, d] ensures Count(r, h, x) == 1 {
      assert x in Contents(r);
      assert x in Elements(r.table);
    }
    assert other !in Contents(r);
  }

  /** The numbers 3, 10, 17 and 24 under the identity hash, the concrete case:
      the table grows to 43 buckets, each number is counted, 99 is not. */
  lemma IdentityHashScenario()
    ensures |FromKeys(7, (x: nat) => x, [3, 10, 17, 24]).table| == 43
    ensures Count(FromKeys(7, (x: nat) => x, [3, 10, 17, 24]), (x: nat) => x, 24) == 1
    ensures Count(FromKeys(7, (x: nat) => x, [3, 10, 17, 24]), (x: nat) => x, 99) == 0
  {
    FourthInsertGrows((x: nat) => x, 3, 10, 17, 24, 99);
  }

  /** Sets built from two orderings of the same keys pass the equality test. */
  lemma PermutedInsertsEqual<K>(n: nat, h: K -> nat, p: seq<K>, q: seq<K>)
    requires n >= 1
    requires multiset(p) == multiset(q)
    ensures Contents(FromKeys(n, h, p)) == Contents(FromKeys(n, h, q))
    ensures Size(FromKeys(n, h, p)) == Size(FromKeys(n, h, q))
    ensures forall k | k in Flatten(FromKeys(n, h, p).table) :: Count(FromKeys(n, h, q), h, k) == 1
  {
    assert KeySet(p) == KeySet(q) by {
      forall x ensures x in KeySet(p) <==> x in KeySet(q) {
        assert x in p <==> x in multiset(p);
        assert x in q <==> x in multiset(q);
      }
    }
    EqualIffSameContents(FromKeys(n, h, p), FromKeys(n, h, q), h);
  }

  /** Erasing from an empty set removes nothing and leaves it empty. */
  lemma EraseOnEmpty<K>(n: nat, h: K -> nat, k: K)
    requires n >= 1
    ensures Erase(Empty(n), h, k).1 == 0
    ensures Size(Erase(Empty(n), h, k).0) == 0
  {
    EmptyValid<K>(n, h);
  }

  /** Inserting a list with repeated keys stores each distinct key once. */
  lemma DuplicatesIgnored<K>(n: nat, h: K -> nat, a: K, b: K)
    requires n >= 1 && a != b
    ensures Size(FromKeys(n, h, [a, b, a, a, b])) == 2
  {
    var keys := [a, b, a, a, b];
    assert keys[0] == a && keys[1] == b;
    assert forall x | x in KeySet(keys) :: x == a || x == b;
    assert KeySet(keys) == {a, b};
  }
}
