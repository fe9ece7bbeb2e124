/** The set's forward iterator. A cursor names a node by its bucket `index`
    and its offset `node` within that bucket's chain; `node == None` is the
    null node pointer that marks the end. Keys are produced in ascending
    bucket order and, within a bucket, from the chain's head to its tail. */
module Iteration {
  import opened Chains
  import opened Buckets

  datatype Iterator = Iterator(node: Option<nat>, index: nat)

  /** A cursor that is not at the end names an existing node. */
  predicate ValidIter<K>(t: Table<K>, it: Iterator)
  {
    it.node.Some? ==> it.index < |t| && it.node.value < |t[it.index]|
  }

  /** `operator*`: the key of the current node, which is a stored key of the
      cursor's bucket. */
  function Key<K>(t: Table<K>, it: Iterator): (k: K)
    requires ValidIter(t, it) && it.node.Some?
    ensures k in t[it.index]
  {
    t[it.index][it.node.value]
  }

  /** The scanning loop of `operator++` once its node pointer is null: try
      bucket `i`, `i + 1`, ... and stop at the head of the first non-empty one,
      or at the end when the index reaches the table size. */
  function Seek<K>(t: Table<K>, i: nat): (it: Iterator)
    ensures ValidIter(t, it)
    ensures it.index >= i
    ensures it.node.Some? ==> it.node.value == 0
    ensures forall j :: i <= j < it.index && j < |t| ==> |t[j]| == 0
    ensures it.node.None? ==> it.index >= |t|
    decreases |t| - i
  {
    if i >= |t| then Iterator(None, i)
    else if |t[i]| > 0 then Iterator(Some(0), i)
    else Seek(t, i + 1)
  }

  /** `operator++`: step to the next node of the chain if there is one;
      otherwise skip the empty buckets that follow. */
  function Next<K>(t: Table<K>, it: Iterator): (r: Iterator)
    requires ValidIter(t, it)
    ensures ValidIter(t, r)
    ensures it.node.Some? && it.node.value + 1 < |t[it.index]| ==>
              r.index == it.index && r.node == Some(it.node.value + 1)
    ensures it.node.None? || it.node.value + 1 == |t[it.index]| ==>
              && r.index > it.index
              && (r.node.Some? ==> r.node.value == 0)
              && (r.node.None? ==> r.index >= |t|)
              && forall j :: it.index < j < r.index && j < |t| ==> |t[j]| == 0
  {
    if it.node.Some? && it.node.value + 1 < |t[it.index]| then
      Iterator(Some(it.node.value + 1), it.index)
    else
      Seek(t, it.index + 1)
  }

  /** The iterator constructor: a cursor built on a null node advances at once,
      to the head of the first non-empty bucket after `index`, or to the end. */
  function MakeIterator<K>(t: Table<K>, node: Option<nat>, index: nat): (it: Iterator)
    requires ValidIter(t, Iterator(node, index))
    ensures ValidIter(t, it)
    ensures node.Some? ==> it == Iterator(node, index)
    ensures node.None? ==>
              && it.index > index
              && (it.node.Some? ==> it.node.value == 0)
              && (it.node.None? ==> it.index >= |t|)
              && forall j :: index < j < it.index && j < |t| ==> |t[j]| == 0
  {
    if node.None? then Next(t, Iterator(None, index)) else Iterator(node, index)
  }

  /** `end()`: a cursor on the null node. */
  function End<K>(t: Table<K>): (it: Iterator)
    ensures it.node.None?
    ensures ValidIter(t, it)
  {
    MakeIterator(t, None, |t|)
  }

  /** `begin()`: the head of the first non-empty bucket, or `end()`. */
  function Begin<K>(t: Table<K>): (it: Iterator)
    ensures ValidIter(t, it)
    ensures Walk(t, it) == Flatten(t)
  {
    WalkSeek(t, 0);
    var first := Seek(t, 0);
    if first.node.Some? then first else End(t)
  }

  /** `operator==` between iterators: they are equal iff they point to the
      same node. Every end cursor carries the null node, so all end cursors
      compare equal whatever their index; two cursors on nodes compare equal
      only at the same position. */
  predicate SameNode(a: Iterator, b: Iterator)
    ensures a.node.None? && b.node.None? ==> SameNode(a, b)
    ensures SameNode(a, b) && a.node.Some? ==> a == b
    ensures a.node.Some? != b.node.Some? ==> !SameNode(a, b)
  {
    a.node == b.node && (a.node.Some? ==> a.index == b.index)
  }

  /** Cursor equality is an equivalence. */
  lemma SameNodeEquivalence(a: Iterator, b: Iterator, c: Iterator)
    ensures SameNode(a, a)
    ensures SameNode(a, b) ==> SameNode(b, a)
    ensures SameNode(a, b) && SameNode(b, c) ==> SameNode(a, c)
  {
  }

  /** The keys a traversal from `it` to the end produces, one per `operator++`;
      they are all stored keys, and a traversal is empty exactly at the end. */
  function Walk<K>(t: Table<K>, it: Iterator): (keys: seq<K>)
    requires ValidIter(t, it)
    ensures forall x | x in keys :: x in Flatten(t)
    ensures |keys| == 0 <==> it.node.None?
    decreases |t| - it.index, if it.node.Some? then |t[it.index]| - it.node.value else 0
  {
    if it.node.None? then []
    else
      ChainInFlatten(t, it.index, Key(t, it));
      [Key(t, it)] + Walk(t, Next(t, it))
  }

  /** One step of a traversal produces the current key. */
  lemma WalkStep<K>(t: Table<K>, it: Iterator)
    requires ValidIter(t, it) && it.node.Some?
    ensures Walk(t, it) == [Key(t, it)] + Walk(t, Next(t, it))
  {
  }

  /** From a node, a traversal yields the rest of its chain, then every later
      bucket's chain in order. */
  lemma {:induction false} WalkFrom<K>(t: Table<K>, it: Iterator)
    requires ValidIter(t, it) && it.node.Some?
    ensures Walk(t, it) == t[it.index][it.node.value..] + Flatten(t[it.index + 1..])
    decreases |t| - it.index, |t[it.index]| - it.node.value + 1
  {
    var i, j := it.index, it.node.value;
    assert Walk(t, it) == [t[i][j]] + Walk(t, Next(t, it));
    if j + 1 < |t[i]| {
      assert Next(t, it) == Iterator(Some(j + 1), i);
      WalkFrom(t, Iterator(Some(j + 1), i));
      assert t[i][j..] == [t[i][j]] + t[i][j + 1..];
    } else {
      assert Next(t, it) == Seek(t, i + 1);
      WalkSeek(t, i + 1);
      assert t[i][j..] == [t[i][j]];
    }
  }

  /** Scanning from bucket `i` yields every key of buckets `i` and later. */
  lemma {:induction false} WalkSeek<K>(t: Table<K>, i: nat)
    requires i <= |t|
    ensures Walk(t, Seek(t, i)) == Flatten(t[i..])
    decreases |t| - i + 1, 0
  {
    if i < |t| {
      assert t[i..][1..] == t[i + 1..];
      assert Flatten(t[i..]) == t[i] + Flatten(t[i + 1..]);
      if |t[i]| > 0 {
        WalkFrom(t, Iterator(Some(0), i));
        assert t[i][0..] == t[i];
      } else {
        WalkSeek(t, i + 1);
      }
    }
  }
}
