/**
 * The queue table `tx_asyncreferenceindexing_queue`: one row per record whose
 * reference index is due for recomputation, keyed by its
 * (reference_table, reference_uid, reference_workspace) triple.
 */
module Queue {

  /** One queue row; a workspace of 0 stands for the live workspace. */
  datatype QueueItem = QueueItem(table: string, uid: int, workspace: int)

  /**
   * The rows of `q` that match none of the triples in `done`, in their order.
   * One `DELETE ... WHERE reference_table = .. AND reference_uid = .. AND
   * reference_workspace = ..` is `Without(q, [item])`: it removes every row
   * equal to the triple, not just the first.
   */
  function Without(q: seq<QueueItem>, done: seq<QueueItem>): (r: seq<QueueItem>)
    ensures |r| <= |q|
  {
    if q == [] then []
    else if q[0] in done then Without(q[1..], done)
    else [q[0]] + Without(q[1..], done)
  }

  /** A row survives the deletions exactly when it was queued and its triple was not deleted. */
  lemma {:induction false} WithoutMembers(q: seq<QueueItem>, done: seq<QueueItem>, x: QueueItem)
    ensures x in Without(q, done) <==> x in q && x !in done
  {
    if q != [] {
      WithoutMembers(q[1..], done, x);
      assert q == [q[0]] + q[1..];
    }
  }

  /** Rows with pairwise different triples. */
  predicate Distinct(q: seq<QueueItem>)
  {
    forall i, j :: 0 <= i < j < |q| ==> q[i] != q[j]
  }

  /** Deleting the triples of `done` and then `x` is deleting `done + [x]`. */
  lemma {:induction false} WithoutStep(q: seq<QueueItem>, done: seq<QueueItem>, x: QueueItem)
    ensures Without(Without(q, done), [x]) == Without(q, done + [x])
  {
    if q != [] {
      WithoutStep(q[1..], done, x);
      if q[0] !in done {
        var rest := Without(q[1..], done);
        assert Without(q, done) == [q[0]] + rest;
        assert ([q[0]] + rest)[1..] == rest;
      }
    }
  }

  /** Filtering distributes over concatenation. */
  lemma {:induction false} WithoutAppend(a: seq<QueueItem>, b: seq<QueueItem>, done: seq<QueueItem>)
    ensures Without(a + b, done) == Without(a, done) + Without(b, done)
  {
    if a == [] {
      assert a + b == b;
    } else {
      assert (a + b)[0] == a[0];
      assert (a + b)[1..] == a[1..] + b;
      WithoutAppend(a[1..], b, done);
    }
  }

  /** Rows all of whose triples are in `done` disappear entirely. */
  lemma {:induction false} WithoutCovered(q: seq<QueueItem>, done: seq<QueueItem>)
    requires forall k :: 0 <= k < |q| ==> q[k] in done
    ensures Without(q, done) == []
  {
    if q != [] {
      WithoutCovered(q[1..], done);
    }
  }

  /** Rows none of whose triples are in `done` are kept as they are. */
  lemma {:induction false} WithoutDisjoint(q: seq<QueueItem>, done: seq<QueueItem>)
    requires forall k :: 0 <= k < |q| ==> q[k] !in done
    ensures Without(q, done) == q
  {
    if q != [] {
      WithoutDisjoint(q[1..], done);
      assert q == [q[0]] + q[1..];
    }
  }

  /** In a queue of distinct rows, no row after position n has the triple of a row before it. */
  lemma SuffixAvoidsPrefix(q: seq<QueueItem>, n: nat)
    requires Distinct(q)
    requires n <= |q|
    ensures forall k :: 0 <= k < |q[n..]| ==> q[n..][k] !in q[..n]
  {
    var prefix, suffix := q[..n], q[n..];
    forall k | 0 <= k < |suffix|
      ensures suffix[k] !in prefix
    {
      forall j | 0 <= j < |prefix|
        ensures prefix[j] != suffix[k]
      {
        assert prefix[j] == q[j] && suffix[k] == q[n + k];
      }
    }
  }

  /** Deleting the triples of a prefix of distinct rows leaves exactly the suffix, in order. */
  lemma WithoutPrefix(q: seq<QueueItem>, n: nat)
    requires Distinct(q)
    requires n <= |q|
    ensures Without(q, q[..n]) == q[n..]
  {
    var prefix, suffix := q[..n], q[n..];
    assert q == prefix + suffix;
    WithoutAppend(prefix, suffix, prefix);
    WithoutCovered(prefix, prefix);
    SuffixAvoidsPrefix(q, n);
    WithoutDisjoint(suffix, prefix);
    assert Without(q, prefix) == [] + suffix;
  }
}
