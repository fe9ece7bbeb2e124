/** The bucket array of the hash set: one chain per bucket, indexed from 0 to
    the table size minus one. The array's length is the set's `tableSize`. */
module Buckets {
  import opened Chains

  type Table<K> = seq<seq<K>>

  /** The bucket a key belongs to in a table of `n` buckets: its hash modulo
      `n`. The hash is a parameter because the standard hash is
      implementation-defined. */
  function Bucket<K>(h: K -> nat, k: K, n: nat): (b: nat)
    requires n > 0
    ensures b < n
    ensures h(k) < n ==> b == h(k)
  {
    h(k) % n
  }

  /** All keys of the table, bucket 0 first, each chain from head to tail. */
  function Flatten<K>(t: Table<K>): seq<K>
  {
    if |t| == 0 then [] else t[0] + Flatten(t[1..])
  }

  /** The keys of the table with their multiplicities. */
  function Elements<K>(t: Table<K>): multiset<K>
  {
    multiset(Flatten(t))
  }

  /** Every key sits in the bucket its hash selects for the current size. */
  ghost predicate Placed<K>(t: Table<K>, h: K -> nat)
  {
    forall i, k :: 0 <= i < |t| && k in t[i] ==> Bucket(h, k, |t|) == i
  }

  /** No key is stored twice, in one chain or across chains, stated on the
      table's multiset. */
  ghost predicate Unique<K>(t: Table<K>)
  {
    forall k | k in Elements(t) :: Elements(t)[k] <= 1
  }

  /** A table stores no key twice exactly when its traversal order repeats no
      key. */
  lemma UniqueIsDistinct<K>(t: Table<K>)
    ensures Unique(t) <==> Distinct(Flatten(t))
  {
    DistinctMultiplicity(Flatten(t));
    assert Elements(t) == multiset(Flatten(t));
  }

  /** Replacing one chain replaces its keys in the table's multiset. */
  lemma {:induction false} FlattenUpdate<K>(t: Table<K>, b: nat, c: seq<K>)
    requires b < |t|
    ensures Elements(t[b := c]) + multiset(t[b]) == Elements(t) + multiset(c)
  {
    var u := t[b := c];
    assert Elements(u) == multiset(u[0]) + Elements(u[1..]);
    assert Elements(t) == multiset(t[0]) + Elements(t[1..]);
    if b == 0 {
      assert u[1..] == t[1..];
    } else {
      assert u[0] == t[0];
      assert u[1..] == t[1..][b - 1 := c];
      assert t[1..][b - 1] == t[b];
      FlattenUpdate(t[1..], b - 1, c);
      forall x ensures (Elements(u) + multiset(t[b]))[x] == (Elements(t) + multiset(c))[x] {
        assert (Elements(u[1..]) + multiset(t[b]))[x] == (Elements(t[1..]) + multiset(c))[x];
      }
      MultisetExt(Elements(u) + multiset(t[b]), Elements(t) + multiset(c));
    }
  }

  /** Every chain's keys are among the table's keys. */
  lemma ChainInElements<K>(t: Table<K>, i: nat)
    requires i < |t|
    ensures multiset(t[i]) <= Elements(t)
  {
    FlattenUpdate(t, i, []);
    assert multiset(t[i := []][i]) == multiset{};
    forall x ensures multiset(t[i])[x] <= Elements(t)[x] {
      assert (Elements(t[i := []]) + multiset(t[i]))[x] == Elements(t)[x];
    }
  }

  /** A key of one chain is a key of the table. */
  lemma ChainInFlatten<K>(t: Table<K>, i: nat, k: K)
    requires i < |t| && k in t[i]
    ensures k in Flatten(t)
  {
    ChainInElements(t, i);
    assert k in multiset(t[i]);
  }

  /** A key of the table lies in one of its chains. */
  lemma {:induction false} ElementsInSomeChain<K>(t: Table<K>, k: K)
    requires k in Elements(t)
    ensures exists i :: 0 <= i < |t| && k in t[i]
  {
    assert |t| > 0;
    assert Flatten(t) == t[0] + Flatten(t[1..]);
    if k !in t[0] {
      ElementsInSomeChain(t[1..], k);
      var i :| 0 <= i < |t| - 1 && k in t[1..][i];
      assert k in t[i + 1];
    }
  }

  /** In a placed table, a key is stored iff it is in its own bucket's chain:
      this is why `locate` only scans one chain. */
  lemma PlacedLookup<K>(t: Table<K>, h: K -> nat, k: K)
    requires |t| > 0
    ensures Placed(t, h) ==> (k in Elements(t) <==> k in t[Bucket(h, k, |t|)])
  {
    if Placed(t, h) {
      if k in Elements(t) {
        ElementsInSomeChain(t, k);
      }
      ChainInElements(t, Bucket(h, k, |t|));
    }
  }

  /** In a table without duplicates no chain holds a key twice. */
  lemma UniqueChain<K>(t: Table<K>, i: nat, k: K)
    requires i < |t| && Unique(t)
    ensures multiset(t[i])[k] <= 1
  {
    ChainInElements(t, i);
  }

  /** A table of empty chains holds no key. */
  lemma {:induction false} AllEmpty<K>(t: Table<K>)
    requires forall i :: 0 <= i < |t| ==> t[i] == []
    ensures Flatten(t) == []
  {
    if |t| > 0 {
      AllEmpty(t[1..]);
    }
  }

  /** A freshly allocated bucket array of `n` empty chains. */
  function EmptyTable<K>(n: nat): (t: Table<K>)
    ensures |t| == n
    ensures forall i :: 0 <= i < n ==> t[i] == []
    ensures Elements(t) == multiset{}
  {
    var t := seq(n, i => []);
    AllEmpty(t);
    t
  }

  /** Replacing a chain by one whose keys all belong to that bucket keeps every
      key in its bucket. */
  lemma PlacedUpdate<K>(t: Table<K>, h: K -> nat, b: nat, c: seq<K>)
    requires b < |t| && Placed(t, h)
    requires forall k :: k in c ==> Bucket(h, k, |t|) == b
    ensures Placed(t[b := c], h)
  {
  }

  /** Prepending a key to one chain adds exactly that key to the table. */
  lemma PrependElements<K>(t: Table<K>, b: nat, k: K)
    requires b < |t|
    ensures Elements(t[b := [k] + t[b]]) == Elements(t) + multiset{k}
  {
    var u := t[b := [k] + t[b]];
    FlattenUpdate(t, b, [k] + t[b]);
    assert multiset([k] + t[b]) == multiset{k} + multiset(t[b]);
    forall x ensures Elements(u)[x] == (Elements(t) + multiset{k})[x] {
      assert (Elements(u) + multiset(t[b]))[x] == (Elements(t) + multiset([k] + t[b]))[x];
    }
    MultisetExt(Elements(u), Elements(t) + multiset{k});
  }

  /** A new node for `k` becomes the head of the chain of `k`'s bucket. */
  function Prepend<K>(t: Table<K>, h: K -> nat, k: K): (r: Table<K>)
    requires |t| > 0
    ensures |r| == |t|
    ensures r[Bucket(h, k, |t|)] == [k] + t[Bucket(h, k, |t|)]
    ensures forall i :: 0 <= i < |t| && i != Bucket(h, k, |t|) ==> r[i] == t[i]
    ensures Elements(r) == Elements(t) + multiset{k}
    ensures Placed(t, h) ==> Placed(r, h)
  {
    var b := Bucket(h, k, |t|);
    PrependElements(t, b, k);
    t[b := [k] + t[b]]
  }

  /** The keys of a placed table appear in ascending bucket order, and those
      from bucket `i` on all belong to buckets `i` or later. */
  lemma {:induction false} FlattenAscending<K>(t: Table<K>, h: K -> nat, i: nat)
    requires 0 < |t| && i <= |t| && Placed(t, h)
    decreases |t| - i
    ensures forall k :: k in Flatten(t[i..]) ==> i <= Bucket(h, k, |t|)
    ensures forall p, q :: 0 <= p < q < |Flatten(t[i..])| ==>
              Bucket(h, Flatten(t[i..])[p], |t|) <= Bucket(h, Flatten(t[i..])[q], |t|)
  {
    if i < |t| {
      FlattenAscending(t, h, i + 1);
      var head, rest := t[i], Flatten(t[i + 1..]);
      assert t[i..][1..] == t[i + 1..];
      assert Flatten(t[i..]) == head + rest;
      forall k | k in head ensures Bucket(h, k, |t|) == i {
      }
      forall p, q | 0 <= p < q < |head + rest|
        ensures Bucket(h, (head + rest)[p], |t|) <= Bucket(h, (head + rest)[q], |t|)
      {
        if q < |head| {
          assert (head + rest)[p] in head && (head + rest)[q] in head;
        } else if p < |head| {
          assert (head + rest)[p] in head;
          assert (head + rest)[q] == rest[q - |head|];
        } else {
          assert (head + rest)[p] == rest[p - |head|];
          assert (head + rest)[q] == rest[q - |head|];
        }
      }
    }
  }
}
