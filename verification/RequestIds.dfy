/** `IpcClient::fresh_request_id`. */
module RequestIds {
  import opened Types

  const PERIOD: nat := 0xFFFF_FFFF

  /** The id of call number `k`. */
  function IdAt(k: nat): U32 { k % PERIOD + 1 }

  /** The counter before call number `k`: one past the previous id, wrapping to 0. */
  function CounterAt(k: nat): U32 { if k == 0 then 1 else (IdAt(k - 1) + 1) % U32_LIMIT }

  class IpcClient {
    var nextRequestId: U32
    ghost var calls: nat

    ghost predicate Valid()
      reads this
    {
      nextRequestId == CounterAt(calls)
    }

    constructor ()
      ensures Valid() && calls == 0
    {
      nextRequestId, calls := 1, 0;
    }

    /** The atomic `fetch_add(1)`, which wraps. */
    method FetchAdd() returns (was: U32)
      modifies this`nextRequestId
      ensures was == old(nextRequestId) && nextRequestId == (was + 1) % U32_LIMIT
    {
      was := nextRequestId;
      nextRequestId := (nextRequestId + 1) % U32_LIMIT;
    }

    /** Skips 0, which the protocol reserves. */
    method FreshRequestId() returns (id: U32)
      requires Valid()
      modifies this
      ensures Valid() && calls == old(calls) + 1
      ensures id == IdAt(old(calls))
    {
      CounterWraps(calls);
      CounterWraps(calls + 1);
      id := FetchAdd();
      if id == 0 {
        id := FetchAdd();
      }
      calls := calls + 1;
    }
  }

  /** The counter reads 0 exactly at each wraparound, and otherwise is the next id. */
  lemma CounterWraps(k: nat)
    ensures CounterAt(k) == if k > 0 && k % PERIOD == 0 then 0 else IdAt(k)
  {
    if k > 0 {
      var q := (k - 1) / PERIOD;
      var r := (k - 1) % PERIOD;
      assert k - 1 == q * PERIOD + r;
      if r == PERIOD - 1 {
        assert k == (q + 1) * PERIOD;
        ModOf(q + 1, 0);
      } else {
        assert k == q * PERIOD + (r + 1);
        ModOf(q, r + 1);
      }
    }
  }

  lemma ModOf(q: nat, r: nat)
    requires r < PERIOD
    ensures (q * PERIOD + r) % PERIOD == r
  {
  }

  /** No id is 0, and any 2^32 - 1 consecutive ids are pairwise distinct, across wraparounds. */
  lemma IdsDistinct(k: nat, j: nat)
    requires k < j < k + PERIOD
    ensures IdAt(k) != 0 && IdAt(j) != 0 && IdAt(k) != IdAt(j)
  {
    var q, r := k / PERIOD, k % PERIOD;
    assert k == q * PERIOD + r;
    if r + (j - k) < PERIOD {
      assert j == q * PERIOD + (r + (j - k));
      ModOf(q, r + (j - k));
    } else {
      assert j == (q + 1) * PERIOD + (r + (j - k) - PERIOD);
      ModOf(q + 1, r + (j - k) - PERIOD);
    }
  }

  /** The period is exact: call number k + (2^32 - 1) repeats the id of call k. */
  lemma IdsRepeat(k: nat)
    ensures IdAt(k + PERIOD) == IdAt(k)
  {
    var q, r := k / PERIOD, k % PERIOD;
    assert k + PERIOD == (q + 1) * PERIOD + r;
    ModOf(q + 1, r);
  }
}
