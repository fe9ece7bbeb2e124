# ADS_set: a hash set with separate chaining, in Dafny

This project models `ADS_set<Key, N>` from `ADS_set.h`. It is a set of unique
keys stored in a bucket array of singly linked chains. A key lives in bucket
`hash(key) % tableSize`. Inserting prepends a node to that chain. When an
insertion pushes `elementSize / tableSize` above the load factor 0.5, the table
grows to `tableSize * 6 + 1` buckets and every node is relinked into its new
bucket. Iteration walks the buckets in ascending order, each chain from head to
tail, and skips empty buckets.

The model is functional. The set is the value
`HashSet(table: seq<seq<K>>, elementSize: nat)`, where `|table|` is
`tableSize` and each chain is the sequence of its keys from head to tail.
Every mutating member returns the new state. The hash is a parameter
`h: K -> nat`, because `std::hash` is implementation-defined. Key equality is
Dafny's `==`.

The abstraction is `Elements(table)`, the multiset of all stored keys in bucket
order. `Contents` is the corresponding key set. The class invariant `Valid`
says four things:

- there is at least one bucket;
- every key sits in bucket `h(k) % |table|` (`Placed`);
- no key occurs twice (`Unique`);
- `elementSize` equals the total chain length.

`LoadOk` is the load bound `2 * elementSize <= tableSize`. `Grown(n, t)` is the
growth policy for one new key on its own: `6 * t + 1` buckets when
`2 * (n + 1) > t`, else `t`. `Growth(n, t, m)` applies it `m` times. Both are
reference definitions that the contracts of `add` and bulk insertion are
stated against.

Modules:

- `Chains` (`chains.dfy`): the scan and unlink operations on one chain.
- `Buckets` (`buckets.dfy`): the bucket array, the bucket index, prepending, and the multiset abstraction.
- `Iteration` (`iteration.dfy`): the `Iterator` class.
- `AdsSet` (`ads_set.dfy`): the set's members and the properties relating them.
- `Scenarios` (`scenarios.dfy`): worked cases with the default `N = 7`.

On these points the model and ADS_set.h relate as follows. The model
follows the code as written, except for `operator++`, whose text is
incomplete and is modelled by its evident intent:

- The iterator constructor given a null node calls `operator++`, which
  increments `index` before looking at a bucket. So it starts scanning at
  `index + 1`, not at `index`. `MakeIterator` does the same. Only `end()` uses
  this path, so nothing observable depends on it.
- `end()` therefore carries index `tableSize + 1`. Iterator equality compares
  only node pointers, so this is invisible.
- `Iterator::operator++` (ADS_set.h:259-265) is missing its closing brace and
  `return *this`. `Next` models the evident intent: step along the chain,
  then scan forward to the next non-empty bucket, and end once the index
  reaches `tableSize`.
- After a resize, keys within a bucket come out in reverse of their visiting
  order. This is because relinking prepends. `Resize` reproduces that order
  exactly.

## Model

| member | source | states |
|---|---|---|
| `Chains.Scan` | ADS_set.h:220-227 | the offset found holds `k`, and no earlier node does; nothing is found iff `k` is not in the chain |
| `Chains.Unlink` | ADS_set.h:110-115 | removing the node at offset `j` keeps the other nodes in order; the chain loses exactly one occurrence of that node's key |
| `Buckets.Bucket` | ADS_set.h:36 | the bucket index is below the table size, and is the hash itself when the hash is smaller |
| `Buckets.Prepend` | ADS_set.h:190 | the new key becomes the head of its bucket's chain; the other chains are untouched; the table gains exactly that key; every key stays in its bucket |
| `Chains.DistinctMultiplicity` | ADS_set.h:187-189 | a list of keys has no repeats iff each key occurs in it at most once, the form in which `add`'s duplicate check keeps the table free of repeats |
| `Buckets.UniqueIsDistinct` | ADS_set.h:187-189 | the table's uniqueness invariant, stated on its multiset of keys, is the same as its traversal order having no repeats |
| `Buckets.PlacedLookup` | ADS_set.h:220-222 | in a placed table a key is stored iff it is in its own bucket's chain, which is why `locate` scans one chain |
| `Buckets.FlattenAscending` | ADS_set.h:259-265 | in a placed table, the keys in traversal order have non-decreasing bucket indices |
| `Iteration.Key` | ADS_set.h:257 | `operator*` yields a key stored in the cursor's own bucket |
| `Iteration.SameNode` | ADS_set.h:271-273 | all end cursors compare equal whatever their index; a cursor on a node never equals an end cursor; two cursors on nodes compare equal only at the same position |
| `Iteration.SameNodeEquivalence` | ADS_set.h:271-273 | iterator equality is reflexive, symmetric and transitive |
| `Iteration.Walk` | ADS_set.h:155-157 | the range-for over a set visits only stored keys and visits none exactly when it starts at the end |
| `Iteration.Seek` | ADS_set.h:262-264 | the scan stops at the head of the first non-empty bucket at or after `i`; every bucket it skipped is empty; it stops at an index of at least `tableSize` iff no such bucket exists |
| `Iteration.Next` | ADS_set.h:259-265 | `operator++` moves to the next node of the same chain if there is one; otherwise it moves to a later bucket's head or to the end, skipping only empty buckets |
| `Iteration.MakeIterator` | ADS_set.h:253-256 | a cursor given a node stays on it; a cursor given a null node advances at once to the head of the first non-empty bucket after `index`, skipping only empty buckets, or to the end |
| `Iteration.End` | ADS_set.h:147-149 | `end()` carries the null node |
| `Iteration.Begin` | ADS_set.h:139-146 | traversing from `begin()` yields exactly every key in bucket order |
| `Iteration.WalkFrom` | ADS_set.h:259-265 | from a node, traversal yields the rest of its chain, then all later buckets' chains in order |
| `Iteration.WalkSeek` | ADS_set.h:262-264 | scanning from bucket `i` yields all keys of buckets `i` onward |
| `AdsSet.Empty` | ADS_set.h:30-32 | the default constructor yields `N` buckets, no stored keys and a zero counter |
| `AdsSet.EmptyValid` | ADS_set.h:30-32 | a fresh set of `N >= 1` buckets with `elementSize == 0` satisfies the invariant and the load bound |
| `AdsSet.HashFunc` | ADS_set.h:36 | `hash_func` yields an index of the current table |
| `AdsSet.Locate` | ADS_set.h:220-227 | a found offset holds `k` in `k`'s bucket; in a valid set, `locate` finds `k` iff `k` is stored |
| `AdsSet.Count` | ADS_set.h:122-124 | `count` is 0 or 1; in a valid set it is the number of stored copies of `k` |
| `AdsSet.SizeIsCardinality` | ADS_set.h:76-77 | `size()` is the number of distinct stored keys; `empty()` holds iff no key is stored |
| `AdsSet.Resize` | ADS_set.h:199-216 | the table becomes `6 * tableSize + 1` buckets; exactly the same keys are kept, with no loss and no duplication; `elementSize` is unchanged; every key lands in its new bucket; validity is preserved |
| `AdsSet.Relink` | ADS_set.h:203-212 | relinking keeps the table size, puts every moved key in its bucket, and adds exactly the moved keys |
| `AdsSet.Add` | ADS_set.h:187-196 | a present key leaves the set identical; a new key is added once, and `elementSize` grows by one; the new table size is `Grown(elementSize, T)`, i.e. `6T + 1` exactly when `2 * (elementSize + 1) > T` and `T` otherwise; validity and the load bound are preserved |
| `AdsSet.PrependValid` | ADS_set.h:190-191 | linking a node for an absent key at the head of its chain and counting it keeps the invariant |
| `AdsSet.AddContents` | ADS_set.h:187-196 | `add(k)` turns the key set into the key set plus `k` |
| `AdsSet.Insert` | ADS_set.h:80-85 | reports `true` iff `k` was absent; then the size grows by one, otherwise the set is unchanged; the returned iterator is on `k`'s node in `k`'s bucket |
| `AdsSet.Find` | ADS_set.h:125-129 | in a valid set, `find` lands on a node holding `k` iff `k` is stored, and returns `end()` otherwise |
| `AdsSet.FindAfterAdd` | ADS_set.h:122-129 | after `add(k)`, `count(k) == 1` and `find(k)` lands on `k`; keys counted before are still counted |
| `AdsSet.Erase` | ADS_set.h:102-119 | returns 1 iff `k` was stored; exactly one `k` is removed; `elementSize` drops by the returned count; the table size is kept; an absent key leaves the set identical; validity is preserved |
| `AdsSet.EraseElements` | ADS_set.h:110-117 | unlinking one node removes exactly its key from the table |
| `AdsSet.CountAfterErase` | ADS_set.h:102-119 | after `erase(k)`, `count(k) == 0` and every other key keeps its count; erase on an empty set returns 0 and changes nothing |
| `AdsSet.Clear` | ADS_set.h:92-101 | every bucket is empty, `elementSize == 0`, and the table size is unchanged |
| `AdsSet.ClearEmpties` | ADS_set.h:92-101 | after `clear` the invariant and the load bound hold, and no key is counted |
| `AdsSet.Swap` | ADS_set.h:131-137 | each set receives the other's table and counter |
| `AdsSet.SwapInvolution` | ADS_set.h:235 | swapping twice restores both sets; swapping keeps both valid |
| `AdsSet.InsertAll` | ADS_set.h:86-90 | range insertion keeps the invariant and the load bound |
| `AdsSet.InsertAllContents` | ADS_set.h:86-90 | range insertion makes the key set the old keys plus the inserted ones |
| `AdsSet.InsertAllTable` | ADS_set.h:86-90 | range insertion never shrinks the table; it adds at most one key per input; it does not grow a table that stays within the load bound |
| `AdsSet.AddFresh` | ADS_set.h:187-196 | adding the first of a list of distinct, absent keys grows the counter by one and the table by one step of the growth policy, and leaves the other keys absent |
| `AdsSet.InsertAllFresh` | ADS_set.h:86-90 | inserting `m` distinct, absent keys grows the counter by `m`, and the table size is what `Growth`, the growth policy applied `m` times, gives |
| `AdsSet.FromKeysDistinct` | ADS_set.h:43-44 | a set constructed from `m` distinct keys has size `m` and `Growth(0, N, m)` buckets |
| `AdsSet.FromKeys` | ADS_set.h:43-44 | the list and range constructors store exactly the distinct listed keys; `size()` is their number; the result is valid and within the load bound |
| `AdsSet.KeySetOfFlatten` | ADS_set.h:45-55 | the keys listed in traversal order, as a set, are the table's key set, which is what the copy constructor re-inserts |
| `AdsSet.Copy` | ADS_set.h:45-55 | the copy holds the same keys as the original, with the same `elementSize`; from a set within the load bound, it keeps the same table size |
| `AdsSet.SameContentsSameElements` | ADS_set.h:45-55 | valid sets with the same key set store the same keys and have equal counters |
| `AdsSet.Assign` | ADS_set.h:69-73 | after copy assignment the target holds exactly the source's keys and is valid |
| `AdsSet.AssignKeys` | ADS_set.h:62-66 | after list assignment the target holds exactly the listed keys and is valid |
| `AdsSet.Equal` | ADS_set.h:153-159 | `operator==` returns true iff the counters are equal and every key iterated in `lhs` is counted in `rhs` |
| `AdsSet.EqualIffSameContents` | ADS_set.h:153-159 | for valid sets, that test holds iff both sets have the same key set |
| `AdsSet.IterationComplete` | ADS_set.h:139-149 | traversal from `begin()` to `end()` yields every stored key exactly once, in ascending bucket order, in `elementSize` steps |
| `AdsSet.SameNodeIffSameKey` | ADS_set.h:271-273 | two cursors on stored keys compare equal iff their keys are equal |
| `Scenarios.GrowthFromSeven` | ADS_set.h:192-194 | from 7 buckets the growth policy keeps 7 buckets for three additions and reaches 43 at the fourth |
| `Scenarios.FourthInsertGrows` | ADS_set.h:192-200 | for any hash, a set built from three distinct keys with 7 buckets keeps 7 buckets, and one built from four ends with 43 buckets and size 4; the four keys are counted and any other key is not |
| `Scenarios.CountsOfFour` | ADS_set.h:122-124 | a valid set whose key set is four given keys counts each of them once and every other key zero times |
| `Scenarios.IdentityHashScenario` | ADS_set.h:192-200 | with the identity hash, inserting 3, 10, 17 and 24 ends with 43 buckets; 24 is counted and 99 is not |
| `Scenarios.PermutedInsertsEqual` | ADS_set.h:153-159 | sets built from two orderings of the same keys have equal size and pass the `operator==` test |
| `Scenarios.EraseOnEmpty` | ADS_set.h:102-110 | `erase` on an empty set returns 0 and the size stays 0 |
| `Scenarios.DuplicatesIgnored` | ADS_set.h:187-189 | inserting a list with repeated keys stores each distinct key once |

## Left out

- `dump` (ADS_set.h:172-181): it is debugging output to a stream.
- Memory management: node allocation and release, and the destructor (ADS_set.h:56-59), are not modelled. Chains are values, and a node's identity is its (bucket, offset) position.
- The `lf` member (ADS_set.h:33): it is always 0.5, so swapping it changes nothing. The float test `static_cast<float>(elementSize) / tableSize > lf` is modelled as the exact test `2 * elementSize > tableSize`. From `N = 7` the two tests agree at every table size up to 12,093,235; see the `AdsSet.Add` line below for the first size where they differ.
- `size_t` wrap-around in `tableSize * 6 + 1` and in the counters: the model uses unbounded integers. Such sizes cannot be allocated anyway.
- The fixed `key_equal` (`std::equal_to`) and `hasher` (`std::hash`) aliases (ADS_set.h:22-23) are reduced to Dafny equality and the hash parameter `h`. The unused `key_compare` alias (ADS_set.h:21) is left out.
- `operator!=` for sets and iterators (ADS_set.h:160-162, 274-276): each is the negation of `==`.
- The post-increment `operator++(int)` (ADS_set.h:266-270), `operator->` (ADS_set.h:258) and the iterator's `table` and `tableSize` fields: cursors are evaluated against the table they are passed.
- Iterator invalidation after a mutation is undefined behaviour in the source and is not modelled.
- `AdsSet.Swap`: the model has no identities, so its contract only says which state each side receives. The exchange of `lf` is not represented.
- `AdsSet.Equal`: requires `rhs` to have at least one bucket. Every constructed set has one, but the method does not assume the full invariant.
- `AdsSet.Add`: grows on the exact test `2 * elementSize > tableSize` rather than the float quotient. The first size at which the two differ is the tenth table size from 7, `tableSize = 72,559,411`: with `elementSize = 36,279,706` the operands round to the floats 36,279,704 and 72,559,408, whose quotient is exactly 0.5, so the source does not grow there while the model does, one insertion earlier than the source.
