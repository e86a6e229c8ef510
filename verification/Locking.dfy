/** `exclusive_lock`: a bounded wait for a lock another process may hold. */
module Locking {

  /** What the waiter cannot choose: whether attempt `k` finds the lock free,
      and how much longer than asked the clock moves around it. */
  datatype Surroundings = Surroundings(free: nat -> bool, lag: nat -> real, oversleep: nat -> real)

  ghost predicate TimeMovesOn(env: Surroundings) {
    forall k :: env.lag(k) >= 0.0 && env.oversleep(k) >= 0.0
  }

  function Max(a: real, b: real): real { if a < b then b else a }

  function Min(a: real, b: real): real { if a < b then a else b }

  /** The least number of polls that cover `timeout`. */
  function Polls(timeout: real, poll: real): (n: nat)
    requires poll > 0.0
    ensures timeout <= 0.0 ==> n == 0
    ensures timeout > 0.0 ==> n > 0 && (n - 1) as real * poll < timeout <= n as real * poll
  {
    if timeout <= 0.0 then 0
    else
      var q := timeout / poll;
      var n := if q == q.Floor as real then q.Floor else q.Floor + 1;
      Scaled(timeout, q, n, poll);
      n
  }

  lemma Scaled(timeout: real, q: real, n: int, poll: real)
    requires poll > 0.0 && q == timeout / poll && n as real - 1.0 < q <= n as real
    ensures (n - 1) as real * poll < timeout <= n as real * poll
  {
    assert q * poll == timeout;
    Stretch((n - 1) as real, q, poll);
    if q < n as real { Stretch(q, n as real, poll); }
  }

  lemma Stretch(a: real, b: real, poll: real)
    requires poll > 0.0
    ensures a < b <==> a * poll < b * poll
  {
    assert (b - a) * poll == b * poll - a * poll;
  }

  /** Attempts until the lock is free or the deadline has passed. The count is
      at most one more than the polls that fit; with no time to wait it is one. */
  method Acquire(timeout: real, poll: real, start: real, env: Surroundings)
    returns (acquired: bool, attempts: nat, now: real)
    requires poll > 0.0 && TimeMovesOn(env)
    ensures 1 <= attempts <= Polls(timeout, poll) + 1
    ensures forall k | 0 <= k < attempts - 1 :: !env.free(k)
    ensures acquired == env.free(attempts - 1)
    ensures !acquired ==> now >= start + Max(0.0, timeout)
    ensures timeout <= 0.0 ==> attempts == 1
  {
    var deadline := start + Max(0.0, timeout);
    now := start;
    attempts := 0;
    while true
      invariant attempts <= Polls(timeout, poll)
      invariant forall k | 0 <= k < attempts :: !env.free(k)
      invariant now >= Min(start + attempts as real * poll, deadline)
      decreases Polls(timeout, poll) - attempts
    {
      attempts := attempts + 1;
      if env.free(attempts - 1) { return true, attempts, now; }
      now := now + env.lag(attempts - 1);
      var remaining := deadline - now;
      if remaining <= 0.0 { return false, attempts, now; }
      assert (attempts - 1) as real * poll < timeout;
      PollsCover(timeout, poll, attempts);
      now := now + Min(poll, remaining) + env.oversleep(attempts - 1);
      assert attempts as real * poll == (attempts - 1) as real * poll + poll;
    }
  }

  lemma PollsCover(timeout: real, poll: real, n: nat)
    requires poll > 0.0 && timeout > 0.0 && n >= 1 && (n - 1) as real * poll < timeout
    ensures n <= Polls(timeout, poll)
  {
    Stretch((n - 1) as real, Polls(timeout, poll) as real, poll);
  }
}
