/** The hash set `ADS_set`: unique keys in a bucket array of collision chains
    that grows to `6 * tableSize + 1` buckets whenever an insertion pushes the
    load factor above one half. The set is a value; every mutating member
    returns the new state. The hash function is a parameter `h`. */
module AdsSet {
  import opened Chains
  import opened Buckets
  import opened Iteration

  /** The set's state: the bucket array (its length is `tableSize`) and the
      element counter `elementSize`. */
  datatype HashSet<K> = HashSet(table: Table<K>, elementSize: nat)

  /** The class invariant: at least one bucket, every key in its own bucket,
      no key twice, and the counter equal to the total chain length. */
  ghost predicate Valid<K>(s: HashSet<K>, h: K -> nat)
  {
    && |s.table| >= 1
    && Placed(s.table, h)
    && Unique(s.table)
    && s.elementSize == |Flatten(s.table)|
  }

  /** The load bound the growth policy maintains: at most half a key per bucket. */
  predicate LoadOk<K>(s: HashSet<K>)
  {
    2 * s.elementSize <= |s.table|
  }

  /** The growth trigger `elementSize / tableSize > 0.5`, in exact arithmetic. */
  predicate Overloaded<K>(s: HashSet<K>)
  {
    2 * s.elementSize > |s.table|
  }

  /** The growth policy for one addition of a new key to a set with counter
      `n` and `t` buckets: the table grows to `6 * t + 1` buckets when the
      incremented counter exceeds half of `t`, and keeps its size otherwise. */
  function Grown(n: nat, t: nat): nat
  {
    if 2 * (n + 1) > t then 6 * t + 1 else t
  }

  /** The abstract key set. */
  function Contents<K>(s: HashSet<K>): set<K>
  {
    set k | k in Elements(s.table)
  }

  /** A new, empty set with `n` buckets (the template argument `N`). */
  function Empty<K>(n: nat): (s: HashSet<K>)
    requires n >= 1
    ensures |s.table| == n
    ensures Elements(s.table) == multiset{}
    ensures s.elementSize == 0
  {
    HashSet(EmptyTable(n), 0)
  }

  /** An empty set satisfies the invariant and the load bound. */
  lemma EmptyValid<K>(n: nat, h: K -> nat)
    requires n >= 1
    ensures Valid(Empty<K>(n), h) && LoadOk(Empty<K>(n))
  {
  }

  /** `hash_func`: the bucket of `k` for the current table size. */
  function HashFunc<K>(s: HashSet<K>, h: K -> nat, k: K): (b: nat)
    requires |s.table| >= 1
    ensures b < |s.table|
  {
    Bucket(h, k, |s.table|)
  }

  /** `locate`: the offset of `k` in the chain of its bucket, if present. */
  function Locate<K(==)>(s: HashSet<K>, h: K -> nat, k: K): (r: Option<nat>)
    requires |s.table| >= 1
    ensures r.Some? ==> r.value < |s.table[HashFunc(s, h, k)]| && s.table[HashFunc(s, h, k)][r.value] == k
    ensures Valid(s, h) ==> (r.Some? <==> k in Elements(s.table))
  {
    PlacedLookup(s.table, h, k);
    Scan(s.table[HashFunc(s, h, k)], k)
  }

  /** `count`: 1 if `k` is stored, else 0. */
  function Count<K(==)>(s: HashSet<K>, h: K -> nat, k: K): (r: nat)
    requires |s.table| >= 1
    ensures r <= 1
    ensures Valid(s, h) ==> r == Elements(s.table)[k]
  {
    if Locate(s, h, k).Some? then 1 else 0
  }

  /** `size`; `SizeIsCardinality` states what the counter means. */
  function Size<K>(s: HashSet<K>): nat
  {
    s.elementSize
  }

  /** The counter is the number of distinct stored keys, so `empty` (a zero
      counter) holds exactly when no key is stored. */
  lemma SizeIsCardinality<K>(s: HashSet<K>, h: K -> nat)
    requires Valid(s, h)
    ensures Size(s) == |Contents(s)|
    ensures Size(s) == 0 <==> Contents(s) == {}
  {
    UniqueIsDistinct(s.table);
    DistinctCard(Flatten(s.table));
    assert Contents(s) == set k | k in Flatten(s.table);
  }

  /** Valid sets with the same key set hold the same keys with the same
      multiplicities, and so have equal counters. */
  lemma SameContentsSameElements<K>(a: HashSet<K>, b: HashSet<K>, h: K -> nat)
    ensures Valid(a, h) && Valid(b, h) && Contents(a) == Contents(b) ==>
              Elements(a.table) == Elements(b.table) && a.elementSize == b.elementSize
  {
    if !(Valid(a, h) && Valid(b, h) && Contents(a) == Contents(b)) {
      return;
    }
    forall x ensures Elements(a.table)[x] == Elements(b.table)[x] {
      assert x in Elements(a.table) <==> x in Contents(a);
      assert x in Elements(b.table) <==> x in Contents(b);
      assert x in Elements(a.table) ==> Elements(a.table)[x] <= 1;
      assert x in Elements(b.table) ==> Elements(b.table)[x] <= 1;
    }
    MultisetExt(Elements(a.table), Elements(b.table));
    assert |Flatten(a.table)| == |Elements(a.table)|;
    assert |Flatten(b.table)| == |Elements(b.table)|;
  }

  /** `resize`: move every node, bucket by bucket and each chain from head to
      tail, to the head of its bucket in a table of `6 * tableSize + 1`
      buckets. */
  function Resize<K>(s: HashSet<K>, h: K -> nat): (r: HashSet<K>)
    ensures |r.table| == 6 * |s.table| + 1
    ensures Elements(r.table) == Elements(s.table)
    ensures r.elementSize == s.elementSize
    ensures Placed(r.table, h)
    ensures Valid(s, h) ==> Valid(r, h)
  {
    var t := Relink(Flatten(s.table), h, EmptyTable(6 * |s.table| + 1));
    assert |Flatten(t)| == |Elements(t)|;
    HashSet(t, s.elementSize)
  }

  /** The relinking loop of `resize` over the keys in visiting order. */
  function Relink<K>(keys: seq<K>, h: K -> nat, acc: Table<K>): (r: Table<K>)
    requires |acc| >= 1 && Placed(acc, h)
    ensures |r| == |acc|
    ensures Placed(r, h)
    ensures Elements(r) == Elements(acc) + multiset(keys)
    decreases |keys|
  {
    if |keys| == 0 then acc
    else
      assert keys == [keys[0]] + keys[1..];
      Relink(keys[1..], h, Prepend(acc, h, keys[0]))
  }

  /** `add`: a key already present changes nothing; a new key becomes the head
      of its bucket's chain, the counter grows by one, and the table grows if
      the load bound is exceeded. */
  function Add<K(==)>(s: HashSet<K>, h: K -> nat, k: K): (r: HashSet<K>)
    requires Valid(s, h)
    ensures Valid(r, h)
    ensures k in Elements(s.table) ==> r == s
    ensures k !in Elements(s.table) ==> Elements(r.table) == Elements(s.table) + multiset{k}
    ensures k !in Elements(s.table) ==> r.elementSize == s.elementSize + 1
    ensures k !in Elements(s.table) ==> |r.table| == Grown(s.elementSize, |s.table|)
    ensures r.elementSize <= s.elementSize + 1 && |r.table| >= |s.table|
    ensures 2 * (s.elementSize + 1) <= |s.table| ==> |r.table| == |s.table|
    ensures LoadOk(s) ==> LoadOk(r)
  {
    if Locate(s, h, k).Some? then s
    else
      var grown := HashSet(Prepend(s.table, h, k), s.elementSize + 1);
      PrependValid(s, h, k);
      if Overloaded(grown) then Resize(grown, h) else grown
  }

  /** Linking a node for a key not yet stored at the head of its chain, and
      counting it, keeps the invariant. */
  lemma PrependValid<K>(s: HashSet<K>, h: K -> nat, k: K)
    requires Valid(s, h) && k !in Elements(s.table)
    ensures Valid(HashSet(Prepend(s.table, h, k), s.elementSize + 1), h)
  {
    var t := Prepend(s.table, h, k);
    assert |Flatten(t)| == |Elements(t)|;
    forall x | x in Elements(t) ensures Elements(t)[x] <= 1 {
      assert Elements(t)[x] == Elements(s.table)[x] + multiset{k}[x];
    }
  }

  /** `insert`: add `k`; report whether it was new, together with a cursor on
      the node holding `k` in the resulting table. */
  function Insert<K(==)>(s: HashSet<K>, h: K -> nat, k: K): (r: (HashSet<K>, Iterator, bool))
    requires Valid(s, h)
    ensures Valid(r.0, h)
    ensures r.2 <==> k !in Elements(s.table)
    ensures Elements(r.0.table) == Elements(s.table) + (if r.2 then multiset{k} else multiset{})
    ensures !r.2 ==> r.0 == s
    ensures r.2 ==> r.0.elementSize == s.elementSize + 1
    ensures ValidIter(r.0.table, r.1) && r.1.node.Some? && Key(r.0.table, r.1) == k
    ensures r.1.index == HashFunc(r.0, h, k)
  {
    match Locate(s, h, k)
    case Some(j) => (s, MakeIterator(s.table, Some(j), HashFunc(s, h, k)), false)
    case None =>
      var s' := Add(s, h, k);
      assert k in Elements(s'.table);
      (s', MakeIterator(s'.table, Locate(s', h, k), HashFunc(s', h, k)), true)
  }

  /** `find`: a cursor on the node holding `k`, or `end()`. */
  function Find<K(==)>(s: HashSet<K>, h: K -> nat, k: K): (it: Iterator)
    requires |s.table| >= 1
    ensures ValidIter(s.table, it)
    ensures it.node.Some? ==> Key(s.table, it) == k && it.index == HashFunc(s, h, k)
    ensures it.node.None? ==> it == End(s.table)
    ensures Valid(s, h) ==> (it.node.Some? <==> k in Elements(s.table))
  {
    match Locate(s, h, k)
    case Some(j) => MakeIterator(s.table, Some(j), HashFunc(s, h, k))
    case None => End(s.table)
  }

  /** `erase`: unlink the node holding `k` from its chain and report how many
      keys were removed (0 or 1). The table never shrinks. */
  function Erase<K(==)>(s: HashSet<K>, h: K -> nat, k: K): (r: (HashSet<K>, nat))
    requires Valid(s, h)
    ensures Valid(r.0, h)
    ensures r.1 == if k in Elements(s.table) then 1 else 0
    ensures Elements(r.0.table) == Elements(s.table) - multiset{k}
    ensures r.0.elementSize == s.elementSize - r.1
    ensures |r.0.table| == |s.table|
    ensures r.1 == 0 ==> r.0 == s
  {
    var b := HashFunc(s, h, k);
    var c := s.table[b];
    PlacedLookup(s.table, h, k);
    match Scan(c, k)
    case None => (s, 0)
    case Some(j) =>
      var t := s.table[b := Unlink(c, j)];
      EraseElements(s.table, b, j);
      PlacedUpdate(s.table, h, b, Unlink(c, j));
      assert |Flatten(t)| == |Elements(t)|;
      (HashSet(t, s.elementSize - 1), 1)
  }

  /** Unlinking one node of a table removes exactly its key. */
  lemma EraseElements<K>(t: Table<K>, b: nat, j: nat)
    requires b < |t| && j < |t[b]|
    ensures Elements(t[b := Unlink(t[b], j)]) == Elements(t) - multiset{t[b][j]}
    ensures |Flatten(t)| >= 1
  {
    var c, k := t[b], t[b][j];
    var u := t[b := Unlink(c, j)];
    FlattenUpdate(t, b, Unlink(c, j));
    ChainInElements(t, b);
    forall x ensures Elements(u)[x] == (Elements(t) - multiset{k})[x] {
      assert (Elements(u) + multiset(c))[x] == (Elements(t) + multiset(Unlink(c, j)))[x];
      assert (multiset(Unlink(c, j)) + multiset{k})[x] == multiset(c)[x];
    }
    MultisetExt(Elements(u), Elements(t) - multiset{k});
    assert k in Elements(t);
  }

  /** `clear`: every chain becomes empty and the counter zero; the table keeps
      its size. */
  function Clear<K>(s: HashSet<K>): (r: HashSet<K>)
    ensures |r.table| == |s.table|
    ensures forall i :: 0 <= i < |r.table| ==> r.table[i] == []
    ensures r.elementSize == 0
    ensures Elements(r.table) == multiset{}
  {
    HashSet(EmptyTable(|s.table|), 0)
  }

  /** After `clear` the invariant holds and no key is counted. */
  lemma ClearEmpties<K>(s: HashSet<K>, h: K -> nat, k: K)
    requires |s.table| >= 1
    ensures Valid(Clear(s), h) && LoadOk(Clear(s))
    ensures Count(Clear(s), h, k) == 0
  {
  }

  /** `swap`: the two sets exchange their whole state. */
  function Swap<K>(a: HashSet<K>, b: HashSet<K>): (r: (HashSet<K>, HashSet<K>))
    ensures r.0.table == b.table && r.0.elementSize == b.elementSize
    ensures r.1.table == a.table && r.1.elementSize == a.elementSize
  {
    (b, a)
  }

  /** Swapping twice restores both sets, and a swap keeps each state valid. */
  lemma SwapInvolution<K>(a: HashSet<K>, b: HashSet<K>, h: K -> nat)
    ensures Swap(Swap(a, b).0, Swap(a, b).1) == (a, b)
    ensures Valid(a, h) && Valid(b, h) ==> Valid(Swap(a, b).0, h) && Valid(Swap(a, b).1, h)
  {
  }

  /** `add` puts exactly `k` into the key set. */
  lemma AddContents<K>(s: HashSet<K>, h: K -> nat, k: K)
    requires Valid(s, h)
    ensures Contents(Add(s, h, k)) == Contents(s) + {k}
  {
    if k !in Elements(s.table) {
      KeySetUnion(Elements(s.table), k);
    }
  }

  /** Adding one occurrence of `k` adds `k` to the underlying set. */
  lemma KeySetUnion<K>(m: multiset<K>, k: K)
    ensures (set x | x in m + multiset{k}) == (set x | x in m) + {k}
  {
  }

  /** The distinct keys of a sequence. */
  function KeySet<K>(keys: seq<K>): (r: set<K>)
    ensures forall x | x in r :: x in keys
    ensures forall i | 0 <= i < |keys| :: keys[i] in r
  {
    if |keys| == 0 then {} else {keys[0]} + KeySet(keys[1..])
  }

  /** Listing a table's keys in traversal order lists exactly its key set. */
  lemma KeySetOfFlatten<K>(t: Table<K>)
    ensures KeySet(Flatten(t)) == set k | k in Elements(t)
  {
    forall x ensures x in KeySet(Flatten(t)) <==> x in Elements(t) {
      assert x in Flatten(t) <==> x in multiset(Flatten(t));
    }
  }

  /** The range and list forms of `insert`: `add` every key in order. */
  function InsertAll<K(==)>(s: HashSet<K>, h: K -> nat, keys: seq<K>): (r: HashSet<K>)
    requires Valid(s, h)
    ensures Valid(r, h)
    ensures LoadOk(s) ==> LoadOk(r)
    decreases |keys|
  {
    if |keys| == 0 then s else InsertAll(Add(s, h, keys[0]), h, keys[1..])
  }

  /** Bulk insertion turns the key set into the old keys plus the listed ones. */
  lemma {:induction false} InsertAllContents<K>(s: HashSet<K>, h: K -> nat, keys: seq<K>)
    requires Valid(s, h)
    ensures Contents(InsertAll(s, h, keys)) == Contents(s) + KeySet(keys)
    decreases |keys|
  {
    if |keys| > 0 {
      AddContents(s, h, keys[0]);
      InsertAllContents(Add(s, h, keys[0]), h, keys[1..]);
    }
  }

  /** Bulk insertion never shrinks the table, adds at most one key per input,
      and does not grow a table that stays within the load bound throughout. */
  lemma {:induction false} InsertAllTable<K>(s: HashSet<K>, h: K -> nat, keys: seq<K>)
    requires Valid(s, h)
    ensures InsertAll(s, h, keys).elementSize <= s.elementSize + |keys|
    ensures |InsertAll(s, h, keys).table| >= |s.table|
    ensures 2 * (s.elementSize + |keys|) <= |s.table| ==> |InsertAll(s, h, keys).table| == |s.table|
    decreases |keys|
  {
    if |keys| > 0 {
      InsertAllTable(Add(s, h, keys[0]), h, keys[1..]);
    }
  }

  /** Keys that are pairwise distinct and none of which is stored yet: each of
      them makes `add` insert a new node. */
  ghost predicate Fresh<K>(s: HashSet<K>, keys: seq<K>)
  {
    && Distinct(keys)
    && (forall i | 0 <= i < |keys| :: keys[i] !in Elements(s.table))
  }

  /** The growth policy over several additions: the table size after `m`
      additions of new keys to a set with counter `n` and `t` buckets. */
  function Growth(n: nat, t: nat, m: nat): nat
    decreases m
  {
    if m == 0 then t
    else Growth(n + 1, Grown(n, t), m - 1)
  }

  /** One step of the growth policy. */
  lemma GrowthStep(n: nat, t: nat, m: nat, t': nat)
    requires m > 0 && t' == Grown(n, t)
    ensures Growth(n, t, m) == Growth(n + 1, t', m - 1)
  {
  }

  /** Bulk insertion of fresh keys adds one key per input and sizes the table
      exactly as the growth policy prescribes. */
  lemma {:induction false} InsertAllFresh<K>(s: HashSet<K>, h: K -> nat, keys: seq<K>)
    requires Valid(s, h) && Fresh(s, keys)
    ensures InsertAll(s, h, keys).elementSize == s.elementSize + |keys|
    ensures |InsertAll(s, h, keys).table| == Growth(s.elementSize, |s.table|, |keys|)
    decreases |keys|
  {
    if |keys| > 0 {
      var s' := AddFresh(s, h, keys);
      InsertAllFresh(s', h, keys[1..]);
      GrowthStep(s.elementSize, |s.table|, |keys|, |s'.table|);
      assert |keys[1..]| == |keys| - 1;
    } else {
      assert InsertAll(s, h, keys) == s;
    }
  }

  /** A set built from distinct keys has one key per input, and its table size
      follows the growth policy from the initial `n` buckets. */
  lemma FromKeysDistinct<K>(n: nat, h: K -> nat, keys: seq<K>)
    requires n >= 1 && Distinct(keys)
    ensures Size(FromKeys(n, h, keys)) == |keys|
    ensures |FromKeys(n, h, keys).table| == Growth(0, n, |keys|)
  {
    EmptyValid<K>(n, h);
    InsertAllFresh(Empty<K>(n), h, keys);
  }

  /** Adding the first of a list of fresh keys: the counter grows by one, the
      table by the growth rule, and the remaining keys stay fresh. */
  lemma AddFresh<K>(s: HashSet<K>, h: K -> nat, keys: seq<K>) returns (s': HashSet<K>)
    requires Valid(s, h) && Fresh(s, keys) && |keys| > 0
    ensures s' == Add(s, h, keys[0]) && InsertAll(s, h, keys) == InsertAll(s', h, keys[1..])
    ensures Valid(s', h) && Fresh(s', keys[1..])
    ensures s'.elementSize == s.elementSize + 1
    ensures |s'.table| == Grown(s.elementSize, |s.table|)
  {
    var k, rest := keys[0], keys[1..];
    s' := Add(s, h, k);
    assert k !in Elements(s.table);
    assert Elements(s'.table) == Elements(s.table) + multiset{k};
    forall i | 0 <= i < |rest| ensures rest[i] !in Elements(s'.table) {
      assert rest[i] == keys[i + 1] && keys[i + 1] != k;
    }
    forall i, j | 0 <= i < j < |rest| ensures rest[i] != rest[j] {
      assert rest[i] == keys[i + 1] && rest[j] == keys[j + 1];
    }
  }

  /** The copy constructor: a table of the same size, into which every key of
      `other` is added again, bucket by bucket. */
  function Copy<K(==)>(other: HashSet<K>, h: K -> nat): (r: HashSet<K>)
    requires |other.table| >= 1
    ensures Valid(r, h)
    ensures Contents(r) == Contents(other)
    ensures Valid(other, h) ==> Elements(r.table) == Elements(other.table)
    ensures Valid(other, h) ==> r.elementSize == other.elementSize
    ensures Valid(other, h) && LoadOk(other) ==> |r.table| == |other.table| && LoadOk(r)
  {
    var e := Empty<K>(|other.table|);
    EmptyValid<K>(|other.table|, h);
    var r := InsertAll(e, h, Flatten(other.table));
    InsertAllTable(e, h, Flatten(other.table));
    InsertAllContents(e, h, Flatten(other.table));
    assert Contents(e) == {};
    KeySetOfFlatten(other.table);
    SameContentsSameElements(r, other, h);
    r
  }

  /** The list and range constructors: an empty set of `n` buckets into which
      `keys` are inserted. Its size is the number of distinct keys. */
  function FromKeys<K(==)>(n: nat, h: K -> nat, keys: seq<K>): (r: HashSet<K>)
    requires n >= 1
    ensures Valid(r, h) && LoadOk(r)
    ensures Contents(r) == KeySet(keys)
    ensures Size(r) == |KeySet(keys)|
  {
    EmptyValid<K>(n, h);
    var r := InsertAll(Empty(n), h, keys);
    InsertAllContents(Empty(n), h, keys);
    assert Contents(Empty<K>(n)) == {};
    SizeIsCardinality(r, h);
    r
  }

  /** Copy assignment: build a copy of `other`, then swap it in; the old state
      leaves with the temporary. */
  function Assign<K(==)>(self: HashSet<K>, other: HashSet<K>, h: K -> nat): (r: HashSet<K>)
    requires |other.table| >= 1
    ensures Valid(r, h)
    ensures Contents(r) == Contents(other)
    ensures Valid(other, h) ==> Elements(r.table) == Elements(other.table)
  {
    Swap(self, Copy(other, h)).0
  }

  /** Assignment from a list: build a set of `n` buckets from `keys`, then swap
      it in. */
  function AssignKeys<K(==)>(self: HashSet<K>, n: nat, h: K -> nat, keys: seq<K>): (r: HashSet<K>)
    requires n >= 1
    ensures Valid(r, h)
    ensures Contents(r) == KeySet(keys)
  {
    Swap(self, FromKeys(n, h, keys)).0
  }

  /** `operator==`: equal counters, and every key met while iterating over
      `lhs` is counted in `rhs`. */
  method Equal<K(==)>(lhs: HashSet<K>, rhs: HashSet<K>, h: K -> nat) returns (eq: bool)
    requires |rhs.table| >= 1
    ensures eq <==> lhs.elementSize == rhs.elementSize &&
                    forall k | k in Flatten(lhs.table) :: Count(rhs, h, k) == 1
  {
    if lhs.elementSize != rhs.elementSize {
      return false;
    }
    var it := Begin(lhs.table);
    ghost var seen: seq<K> := [];
    while it.node.Some?
      invariant ValidIter(lhs.table, it)
      invariant seen + Walk(lhs.table, it) == Flatten(lhs.table)
      invariant forall k | k in seen :: Count(rhs, h, k) == 1
      decreases |lhs.table| - it.index, if it.node.Some? then |lhs.table[it.index]| - it.node.value else 0
    {
      var k := Key(lhs.table, it);
      var next := Next(lhs.table, it);
      WalkStep(lhs.table, it);
      assert Flatten(lhs.table) == (seen + [k]) + Walk(lhs.table, next);
      if Count(rhs, h, k) == 0 {
        return false;
      }
      seen := seen + [k];
      it := next;
    }
    return true;
  }

  /** For valid sets, the test `operator==` performs holds exactly when both
      sets store the same keys. */
  lemma EqualIffSameContents<K>(lhs: HashSet<K>, rhs: HashSet<K>, h: K -> nat)
    requires Valid(lhs, h) && Valid(rhs, h)
    ensures (lhs.elementSize == rhs.elementSize &&
             forall k | k in Flatten(lhs.table) :: Count(rhs, h, k) == 1)
            <==> Contents(lhs) == Contents(rhs)
  {
    SizeIsCardinality(lhs, h);
    SizeIsCardinality(rhs, h);
    if lhs.elementSize == rhs.elementSize && forall k | k in Flatten(lhs.table) :: Count(rhs, h, k) == 1 {
      assert Contents(lhs) <= Contents(rhs) by {
        forall k | k in Contents(lhs) ensures k in Contents(rhs) {
          assert k in Flatten(lhs.table);
        }
      }
      SubsetOfEqualSize(Contents(lhs), Contents(rhs));
    }
    if Contents(lhs) == Contents(rhs) {
      forall k | k in Flatten(lhs.table) ensures Count(rhs, h, k) == 1 {
        assert k in Contents(lhs);
      }
    }
  }

  /** A subset as large as its superset is the whole superset. */
  lemma SubsetOfEqualSize<K>(a: set<K>, b: set<K>)
    requires a <= b && |a| == |b|
    ensures a == b
  {
    assert |b - a| == |b| - |a|;
  }

  /** Iterating from `begin()` to `end()` produces every stored key exactly
      once, in ascending bucket order, in as many steps as the counter says. */
  lemma IterationComplete<K>(s: HashSet<K>, h: K -> nat)
    requires Valid(s, h)
    ensures Walk(s.table, Begin(s.table)) == Flatten(s.table)
    ensures |Walk(s.table, Begin(s.table))| == s.elementSize
    ensures multiset(Walk(s.table, Begin(s.table))) == Elements(s.table)
    ensures forall k | k in Walk(s.table, Begin(s.table)) :: multiset(Walk(s.table, Begin(s.table)))[k] == 1
    ensures forall p, q :: 0 <= p < q < |Walk(s.table, Begin(s.table))| ==>
              HashFunc(s, h, Walk(s.table, Begin(s.table))[p]) <= HashFunc(s, h, Walk(s.table, Begin(s.table))[q])
  {
    FlattenAscending(s.table, h, 0);
    assert s.table[0..] == s.table;
  }

  /** Two cursors on stored keys compare equal exactly when their keys are
      equal: a key has one node. */
  lemma SameNodeIffSameKey<K>(s: HashSet<K>, h: K -> nat, a: Iterator, b: Iterator)
    requires Valid(s, h)
    requires ValidIter(s.table, a) && a.node.Some?
    requires ValidIter(s.table, b) && b.node.Some?
    ensures SameNode(a, b) <==> Key(s.table, a) == Key(s.table, b)
  {
    var k := Key(s.table, a);
    if Key(s.table, b) == k {
      assert k in s.table[a.index] && k in s.table[b.index];
      assert Placed(s.table, h);
      assert Bucket(h, k, |s.table|) == a.index;
      assert Bucket(h, k, |s.table|) == b.index;
      assert a.index == b.index;
      var c := s.table[a.index];
      UniqueChain(s.table, a.index, k);
      if a.node.value < b.node.value {
        RepeatedKey(c, a.node.value, b.node.value);
      } else if b.node.value < a.node.value {
        RepeatedKey(c, b.node.value, a.node.value);
      }
    }
  }

  /** After `add(k)`, `count(k)` is 1 and `find(k)` lands on `k`; every key
      stored before is still counted. */
  lemma FindAfterAdd<K>(s: HashSet<K>, h: K -> nat, k: K, x: K)
    requires Valid(s, h)
    ensures Count(Add(s, h, k), h, k) == 1
    ensures Find(Add(s, h, k), h, k).node.Some? && Key(Add(s, h, k).table, Find(Add(s, h, k), h, k)) == k
    ensures Count(s, h, x) == 1 ==> Count(Add(s, h, k), h, x) == 1
  {
  }

  /** After erasing `k`, it is no longer counted and every other key keeps its
      count; erasing from an empty set removes nothing. */
  lemma CountAfterErase<K>(s: HashSet<K>, h: K -> nat, k: K, x: K)
    requires Valid(s, h)
    ensures Count(Erase(s, h, k).0, h, k) == 0
    ensures x != k ==> Count(Erase(s, h, k).0, h, x) == Count(s, h, x)
    ensures s.elementSize == 0 ==> Erase(s, h, k) == (s, 0)
  {
  }
}
