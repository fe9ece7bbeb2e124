/** One bucket's collision chain of the hash set, modelled as the sequence of
    the keys of its nodes from the head to the tail. Node identity is the
    offset within the chain; there are no pointers. */
module Chains {

  /** An optional value: the model's stand-in for a possibly-null node pointer. */
  datatype Option<T> = None | Some(value: T)

  /** The inner loop of `locate`: walk the chain from its head and stop at the
      first node whose key equals `k`. */
  function Scan<K(==)>(c: seq<K>, k: K): (r: Option<nat>)
    ensures r.Some? ==> r.value < |c| && c[r.value] == k && k !in c[..r.value]
    ensures r.None? <==> k !in c
  {
    if |c| == 0 then None
    else if c[0] == k then Some(0)
    else
      match Scan(c[1..], k)
      case None => None
      case Some(j) =>
        assert c[..j + 1] == [c[0]] + c[1..][..j];
        Some(j + 1)
  }

  /** `erase`'s relinking: the predecessor of the node at offset `j` (or the
      bucket head, when `j` is 0) now points to that node's successor. */
  function Unlink<K>(c: seq<K>, j: nat): (r: seq<K>)
    requires j < |c|
    ensures |r| == |c| - 1
    ensures forall i :: 0 <= i < |r| ==> r[i] == (if i < j then c[i] else c[i + 1])
    ensures multiset(r) + multiset{c[j]} == multiset(c)
    ensures forall x :: x in r ==> x in c
  {
    assert c == c[..j] + [c[j]] + c[j + 1..];
    c[..j] + c[j + 1..]
  }

  /** Multisets that agree on every multiplicity are equal. */
  lemma MultisetExt<K>(a: multiset<K>, b: multiset<K>)
    requires forall x :: a[x] == b[x]
    ensures a == b
  {
  }

  /** Two distinct nodes of one chain holding the same key make that key
      occur twice in the chain's multiset. */
  lemma RepeatedKey<K>(c: seq<K>, i: nat, j: nat)
    requires i < j < |c| && c[i] == c[j]
    ensures multiset(c)[c[i]] >= 2
  {
    assert c == c[..j] + c[j..];
    assert c[i] in c[..j];
    assert c[j..][0] == c[j];
    assert multiset(c) == multiset(c[..j]) + multiset(c[j..]);
  }

  /** No value occurs twice in the sequence. */
  ghost predicate Distinct<K>(q: seq<K>)
  {
    forall i, j | 0 <= i < j < |q| :: q[i] != q[j]
  }

  /** A sequence repeats no value exactly when every value occurs at most once
      in its multiset. */
  lemma {:induction false} DistinctMultiplicity<K>(q: seq<K>)
    ensures Distinct(q) <==> forall k | k in multiset(q) :: multiset(q)[k] <= 1
  {
    if |q| > 0 {
      var a, rest := q[0], q[1..];
      assert q == [a] + rest;
      assert multiset(q) == multiset{a} + multiset(rest);
      DistinctMultiplicity(rest);
      if Distinct(q) {
        forall i, j | 0 <= i < j < |rest| ensures rest[i] != rest[j] {
          assert rest[i] == q[i + 1] && rest[j] == q[j + 1];
        }
        forall j | 0 <= j < |rest| ensures rest[j] != a {
          assert rest[j] == q[j + 1];
        }
      } else {
        var i, j :| 0 <= i < j < |q| && q[i] == q[j];
        RepeatedKey(q, i, j);
      }
    }
  }

  /** A sequence in which no value occurs twice has as many distinct values as
      it has elements. */
  lemma {:induction false} DistinctCard<K>(q: seq<K>)
    requires Distinct(q)
    ensures |set k | k in q| == |q|
  {
    if |q| > 0 {
      var a, rest := q[0], q[1..];
      assert q == [a] + rest;
      forall i, j | 0 <= i < j < |rest| ensures rest[i] != rest[j] {
        assert rest[i] == q[i + 1] && rest[j] == q[j + 1];
      }
      DistinctCard(rest);
      forall j | 0 <= j < |rest| ensures rest[j] != a {
        assert rest[j] == q[j + 1];
      }
      assert (set k | k in q) == {a} + (set k | k in rest);
    }
  }
}
