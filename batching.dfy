/**
 * How `pf_get_many` cuts its requests into batches: with a limit of 0 all
 * requests form one batch; otherwise batches of exactly `limit` requests are
 * sent and answered in turn, and the remainder forms a last, smaller batch.
 */
module Batching {

  /** The sizes of the batches for `n` requests, in order. */
  function Batches(n: nat, limit: nat): (b: seq<nat>)
    decreases n
  {
    if n == 0 then []
    else if limit == 0 || n <= limit then [n]
    else [limit] + Batches(n - limit, limit)
  }

  /** The total of a list of sizes. */
  function Sum(s: seq<nat>): nat
  {
    if s == [] then 0 else s[0] + Sum(s[1..])
  }

  /** Where batch `k` ends: the number of requests in batches 0 to `k`. */
  function BatchEnd(sizes: seq<nat>, k: nat): nat
    requires k < |sizes|
  {
    Sum(sizes[..k + 1])
  }

  /** The batches cover the requests exactly, each batch holds at least one
      request, and none holds more than a non-zero limit. */
  lemma {:induction false} BatchesPartition(n: nat, limit: nat)
    ensures Sum(Batches(n, limit)) == n
    ensures forall k :: 0 <= k < |Batches(n, limit)| ==> 0 < Batches(n, limit)[k]
    ensures limit > 0 ==> forall k :: 0 <= k < |Batches(n, limit)| ==> Batches(n, limit)[k] <= limit
    decreases n
  {
    if n > 0 && limit > 0 && n > limit {
      BatchesPartition(n - limit, limit);
      var b := Batches(n, limit);
      assert b == [limit] + Batches(n - limit, limit);
      assert b[1..] == Batches(n - limit, limit);
      forall k | 0 < k < |b|
        ensures 0 < b[k] && b[k] <= limit
      {
        assert b[k] == Batches(n - limit, limit)[k - 1];
      }
    }
  }

  /** The number of batches is the number of requests divided by the limit,
      rounded up; with no limit, one batch unless there is nothing to send. */
  lemma {:induction false} BatchCount(n: nat, limit: nat)
    ensures limit == 0 ==> |Batches(n, limit)| == (if n == 0 then 0 else 1)
    ensures n == 0 ==> |Batches(n, limit)| == 0
    ensures n > 0 && limit > 0 ==>
              (|Batches(n, limit)| - 1) * limit < n <= |Batches(n, limit)| * limit
    decreases n
  {
    if n > 0 && limit > 0 && n > limit {
      BatchCount(n - limit, limit);
      var c := |Batches(n - limit, limit)|;
      assert |Batches(n, limit)| == c + 1;
      assert (c + 1) * limit == c * limit + limit;
      assert (c + 1 - 1) * limit == (c - 1) * limit + limit;
    }
  }

  /** All batches but the last are full. */
  lemma {:induction false} BatchesFull(n: nat, limit: nat)
    requires limit > 0
    ensures forall k :: 0 <= k < |Batches(n, limit)| - 1 ==> Batches(n, limit)[k] == limit
    decreases n
  {
    if n > limit {
      BatchesFull(n - limit, limit);
      var b := Batches(n, limit);
      assert b == [limit] + Batches(n - limit, limit);
      forall k | 0 < k < |b| - 1
        ensures b[k] == limit
      {
        assert b[k] == Batches(n - limit, limit)[k - 1];
      }
    }
  }

  /** The step `pf_get_many` takes when the requests since the last batch
      reach the limit: that batch is full, and the rest follows. */
  lemma BatchesStep(m: nat, limit: nat)
    requires 0 < limit <= m
    ensures Batches(m, limit) == [limit] + Batches(m - limit, limit)
  {
  }

  /** Once the batches `sizes` are behind, a full batch is the next one. */
  lemma BatchesAfterFull(n: nat, limit: nat, start: nat, sizes: seq<nat>)
    requires 0 < limit && start + limit <= n
    requires Batches(n, limit) == sizes + Batches(n - start, limit)
    ensures Batches(n, limit) == (sizes + [limit]) + Batches(n - (start + limit), limit)
  {
    BatchesStep(n - start, limit);
    assert sizes + ([limit] + Batches(n - (start + limit), limit))
           == (sizes + [limit]) + Batches(n - (start + limit), limit);
  }

  /** The last batch: fewer requests than a non-zero limit, or any number
      with no limit. */
  lemma BatchesLast(m: nat, limit: nat)
    requires 0 < m && (limit == 0 || m < limit)
    ensures Batches(m, limit) == [m]
  {
  }

  /** The batches once the loop has queued all `n` requests, `start` of them
      in the batches `sizes` already answered: what is left forms at most one
      batch. */
  lemma BatchesFinish(n: nat, limit: nat, start: nat, sizes: seq<nat>)
    requires start <= n && (limit > 0 ==> n - start < limit)
    requires Batches(n, limit) == sizes + Batches(n - start, limit)
    ensures n > start ==> Batches(n, limit) == sizes + [n - start]
    ensures n == start ==> Batches(n, limit) == sizes
  {
    if n == start {
      assert sizes + [] == sizes;
    }
  }

  /** Sums of a list with one more element. */
  lemma {:induction false} SumSnoc(s: seq<nat>, x: nat)
    ensures Sum(s + [x]) == Sum(s) + x
  {
    if s != [] {
      assert (s + [x])[1..] == s[1..] + [x];
      SumSnoc(s[1..], x);
    } else {
      assert [] + [x] == [x];
    }
  }
}
