/** The per-question retry policy: `max_retries = 3` retries after the first
    attempt, each preceded by a sleep of `60 * 2 ** retry_count` seconds. */
module RetryPolicy {

  const MaxRetries: nat := 3

  function Pow2(k: nat): (r: nat)
    ensures r >= 1
  {
    if k == 0 then 1 else 2 * Pow2(k - 1)
  }

  /** `wait_time` before retry number `retryCount + 1`, in seconds. */
  function Backoff(retryCount: nat): (r: nat)
    ensures r >= 60
  {
    60 * Pow2(retryCount)
  }

  /** The sleeps taken before retries `from + 1` .. `from + m`, in order. */
  function Backoffs(from: nat, m: nat): seq<nat>
  {
    seq<nat>(m, k requires 0 <= k < m => Backoff(from + k))
  }

  /** One more retry appends its backoff to the schedule. */
  lemma BackoffsSnoc(m: nat)
    ensures Backoffs(0, m + 1) == Backoffs(0, m) + [Backoff(m)]
  {
  }

  /** The backoff starts at one minute and doubles on every retry. */
  lemma BackoffDoubles(k: nat)
    ensures Backoff(0) == 60
    ensures Backoff(k + 1) == 2 * Backoff(k)
    ensures Backoff(k) >= 60
  {
  }

  /** Before giving up, a question has slept 60, 120 and 240 seconds, in that order. */
  lemma FullSchedule()
    ensures Backoffs(0, MaxRetries) == [60, 120, 240]
  {
    var b := Backoffs(0, MaxRetries);
    assert Pow2(0) == 1 && Pow2(1) == 2 && Pow2(2) == 4;
    assert |b| == 3 && b[0] == Backoff(0) && b[1] == Backoff(1) && b[2] == Backoff(2);
  }
}
