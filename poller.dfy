/**
 * The bounded exponential-backoff poller `callWithProgress` (src/lib/utils.js): call `fn` with the
 * same arguments; stop with the job's info on status "SUCCESS"; otherwise give up (`null`) once the
 * depth has reached `maxAttempts`, or sleep 3000 * 2^depth ms and try again one level deeper.
 *
 * `fn` is an oracle: `fn(params, d)` is the response of the call made at depth d. A call that
 * throws (a rejected promise) is a `Thrown` response, and the poller passes it on without retrying.
 * Each run yields its outcome and the trace of what it asked for: the calls, with their arguments,
 * and the sleeps, with their lengths, in order.
 */
module Poller {
  import opened Arith

  /** `sleep(2 ** depth * 3000)`: the base delay in milliseconds. */
  const BaseDelayMs: nat := 3000

  /** `response.data.info`: the job's status and whatever else the server reports. */
  datatype JobInfo<D> = JobInfo(status: string, data: D)

  datatype Response<D> = Reply(info: JobInfo<D>) | Thrown(error: string)

  /** What the poller resolves to; `GaveUp` is the source's `null`. */
  datatype Outcome<D> = Completed(info: JobInfo<D>) | GaveUp | Failed(error: string)

  datatype Event<P> = Call(args: P) | Sleep(ms: nat)

  predicate IsSuccess<D>(r: Response<D>) {
    r.Reply? && r.info.status == "SUCCESS"
  }

  /** A reply whose job is not done yet. */
  predicate Pending<D>(r: Response<D>) {
    r.Reply? && r.info.status != "SUCCESS"
  }

  /** The sleep requested after a pending reply at the given depth. */
  function Delay(depth: nat): nat {
    Pow2(depth) * BaseDelayMs
  }

  /** The largest depth at which the poller still calls `fn`. */
  function LastDepth(maxAttempts: int): nat {
    if maxAttempts > 0 then maxAttempts else 0
  }

  /** `callWithProgress(fn, params, maxAttempts, depth)`, with its outcome and its trace. */
  function PollFrom<P, D>(fn: (P, nat) -> Response<D>, params: P, maxAttempts: int, depth: nat)
    : (r: (Outcome<D>, seq<Event<P>>))
    ensures |r.1| % 2 == 1 && r.1[0] == Call(params)
    ensures depth < LastDepth(maxAttempts) ==> depth + |r.1| / 2 <= LastDepth(maxAttempts)
    ensures depth >= LastDepth(maxAttempts) ==> |r.1| == 1
    decreases LastDepth(maxAttempts) - depth
  {
    var response := fn(params, depth);
    if response.Thrown? then (Failed(response.error), [Call(params)])
    else if response.info.status == "SUCCESS" then (Completed(response.info), [Call(params)])
    else if depth >= maxAttempts then (GaveUp, [Call(params)])
    else
      var rest := PollFrom(fn, params, maxAttempts, depth + 1);
      (rest.0, [Call(params), Sleep(Delay(depth))] + rest.1)
  }

  /**
   * `callWithProgress(fn, params, maxAttempts)`, the depth left at its default 0. An integer
   * `maxAttempts` is a hard ceiling: at most max(maxAttempts, 0) + 1 calls. (Called without
   * `maxAttempts`, the source compares `depth >= undefined`, which is always false, and polls
   * until a SUCCESS or a throw; here `maxAttempts` is always an integer.)
   */
  function Poll<P, D>(fn: (P, nat) -> Response<D>, params: P, maxAttempts: int)
    : (r: (Outcome<D>, seq<Event<P>>))
    ensures |r.1| % 2 == 1 && r.1[0] == Call(params)
    ensures |r.1| <= 2 * LastDepth(maxAttempts) + 1
  {
    PollFrom(fn, params, maxAttempts, 0)
  }

  /**
   * The recursion of the source as a loop: each round makes one call, appends it to the trace and
   * either returns or appends the sleep and goes one level deeper.
   */
  method CallWithProgress<P, D>(fn: (P, nat) -> Response<D>, params: P, maxAttempts: int)
    returns (outcome: Outcome<D>, trace: seq<Event<P>>)
    ensures (outcome, trace) == Poll(fn, params, maxAttempts)
    ensures |trace| / 2 <= LastDepth(maxAttempts)
  {
    var depth: nat := 0;
    trace := [];
    ghost var whole := Poll(fn, params, maxAttempts);
    while true
      invariant depth <= LastDepth(maxAttempts)
      invariant |trace| == 2 * depth
      invariant whole.0 == PollFrom(fn, params, maxAttempts, depth).0
      invariant whole.1 == trace + PollFrom(fn, params, maxAttempts, depth).1
      decreases LastDepth(maxAttempts) - depth
    {
      var response := fn(params, depth);
      ghost var here := PollFrom(fn, params, maxAttempts, depth);
      if response.Thrown? || response.info.status == "SUCCESS" || depth >= maxAttempts {
        assert here.1 == [Call(params)];
        trace := trace + [Call(params)];
        if response.Thrown? {
          assert here.0 == Failed(response.error);
          return Failed(response.error), trace;
        }
        if response.info.status == "SUCCESS" {
          assert here.0 == Completed(response.info);
          return Completed(response.info), trace;
        }
        assert here.0 == GaveUp;
        return GaveUp, trace;
      }
      ghost var next := PollFrom(fn, params, maxAttempts, depth + 1);
      var step := [Call(params), Sleep(Delay(depth))];
      assert here == (next.0, step + next.1);
      assert whole.1 == (trace + step) + next.1;
      trace := trace + step;
      depth := depth + 1;
    }
  }

  // ---------------------------------------------------------------------------------------------
  // What every run looks like

  /** The trace of a run event by event: calls at even places, sleeps at odd places. */
  ghost predicate Alternates<P>(trace: seq<Event<P>>, params: P, depth: nat) {
    && |trace| % 2 == 1
    && forall i :: 0 <= i < |trace| ==>
         trace[i] == if i % 2 == 0 then Call(params) else Sleep(Delay(depth + i / 2))
  }

  /**
   * Every trace alternates a call and a sleep and ends with a call: each call uses `params`, the
   * sleep after the call at depth d lasts 3000 * 2^d ms and comes before the call at depth d + 1,
   * and nothing is slept after the last call.
   */
  lemma {:induction false} TraceAlternates<P, D>(
    fn: (P, nat) -> Response<D>, params: P, maxAttempts: int, depth: nat)
    ensures Alternates(PollFrom(fn, params, maxAttempts, depth).1, params, depth)
    decreases LastDepth(maxAttempts) - depth
  {
    var response := fn(params, depth);
    if Pending(response) && depth < maxAttempts {
      var rest := PollFrom(fn, params, maxAttempts, depth + 1).1;
      TraceAlternates(fn, params, maxAttempts, depth + 1);
      var trace := [Call(params), Sleep(Delay(depth))] + rest;
      assert PollFrom(fn, params, maxAttempts, depth).1 == trace;
      forall i | 2 <= i < |trace|
        ensures trace[i] == if i % 2 == 0 then Call(params) else Sleep(Delay(depth + i / 2))
      {
        assert trace[i] == rest[i - 2];
        assert depth + 1 + (i - 2) / 2 == depth + i / 2;
      }
    }
  }

  /** How a run ends, given the response of its last call. */
  ghost predicate EndsWith<D>(outcome: Outcome<D>, last: Response<D>, lastDepth: nat, maxAttempts: int) {
    || (last.Thrown? && outcome == Failed(last.error))
    || (IsSuccess(last) && outcome == Completed(last.info))
    || (Pending(last) && lastDepth >= maxAttempts && outcome == GaveUp)
  }

  /** Every call at a depth in [lo, hi) got a pending reply, and each such depth is in budget. */
  ghost predicate PendingBetween<P, D>(
    fn: (P, nat) -> Response<D>, params: P, maxAttempts: int, lo: nat, hi: nat)
  {
    forall d :: lo <= d < hi ==> Pending(fn(params, d)) && d < maxAttempts
  }

  /** The depth of the last call of a run from `depth`. */
  ghost function LastCall<P, D>(
    fn: (P, nat) -> Response<D>, params: P, maxAttempts: int, depth: nat): nat
  {
    depth + |PollFrom(fn, params, maxAttempts, depth).1| / 2
  }

  /**
   * A run from `depth` makes its last call at depth + |trace| / 2: every earlier call got a pending
   * reply at a depth below `maxAttempts`, and the outcome is decided by the last response alone.
   */
  lemma {:induction false} PollOutcome<P, D>(
    fn: (P, nat) -> Response<D>, params: P, maxAttempts: int, depth: nat)
    ensures var last := LastCall(fn, params, maxAttempts, depth);
            && PendingBetween(fn, params, maxAttempts, depth, last)
            && EndsWith(PollFrom(fn, params, maxAttempts, depth).0, fn(params, last), last, maxAttempts)
    decreases LastDepth(maxAttempts) - depth
  {
    var response := fn(params, depth);
    var run := PollFrom(fn, params, maxAttempts, depth);
    if Pending(response) && depth < maxAttempts {
      PollOutcome(fn, params, maxAttempts, depth + 1);
      var rest := PollFrom(fn, params, maxAttempts, depth + 1);
      assert run.0 == rest.0 && run.1 == [Call(params), Sleep(Delay(depth))] + rest.1;
      var last := LastCall(fn, params, maxAttempts, depth + 1);
      assert LastCall(fn, params, maxAttempts, depth) == last;
      assert PendingBetween(fn, params, maxAttempts, depth, last) by {
        assert PendingBetween(fn, params, maxAttempts, depth + 1, last);
        forall d | depth <= d < last ensures Pending(fn(params, d)) && d < maxAttempts {
          if d > depth {
            assert depth + 1 <= d < last;
          }
        }
      }
    } else {
      assert run.1 == [Call(params)];
      assert LastCall(fn, params, maxAttempts, depth) == depth;
    }
  }

  /**
   * The first SUCCESS wins: if the replies at depths 0 .. k-1 are pending and the one at k is a
   * success, with k within the budget, the run returns that reply's info after exactly k + 1 calls
   * and ends with the call, with no sleep after it.
   */
  lemma FirstSuccessWins<P, D>(fn: (P, nat) -> Response<D>, params: P, maxAttempts: int, k: nat)
    requires k <= LastDepth(maxAttempts)
    requires forall d :: 0 <= d < k ==> Pending(fn(params, d))
    requires IsSuccess(fn(params, k))
    ensures Poll(fn, params, maxAttempts).0 == Completed(fn(params, k).info)
    ensures |Poll(fn, params, maxAttempts).1| == 2 * k + 1
    ensures Poll(fn, params, maxAttempts).1[2 * k] == Call(params)
  {
    PollOutcome(fn, params, maxAttempts, 0);
    TraceAlternates(fn, params, maxAttempts, 0);
  }

  /** An error thrown by `fn` stops the run at once and is passed on unchanged. */
  lemma ThrownStops<P, D>(fn: (P, nat) -> Response<D>, params: P, maxAttempts: int, k: nat)
    requires k <= LastDepth(maxAttempts)
    requires forall d :: 0 <= d < k ==> Pending(fn(params, d))
    requires fn(params, k).Thrown?
    ensures Poll(fn, params, maxAttempts).0 == Failed(fn(params, k).error)
    ensures |Poll(fn, params, maxAttempts).1| == 2 * k + 1
  {
    PollOutcome(fn, params, maxAttempts, 0);
    TraceAlternates(fn, params, maxAttempts, 0);
  }

  // ---------------------------------------------------------------------------------------------
  // Delays

  /** The time a trace spends asleep. */
  function TotalDelay<P>(trace: seq<Event<P>>): nat {
    if trace == [] then 0
    else (if trace[0].Sleep? then trace[0].ms else 0) + TotalDelay(trace[1..])
  }

  /** A run from `depth` sleeps 3000 * (2^depth + ... + 2^(last - 1)) = 3000 * (2^last - 2^depth). */
  lemma {:induction false} TotalDelayFrom<P, D>(
    fn: (P, nat) -> Response<D>, params: P, maxAttempts: int, depth: nat)
    ensures var trace := PollFrom(fn, params, maxAttempts, depth).1;
            TotalDelay(trace) == BaseDelayMs * (Pow2(depth + |trace| / 2) - Pow2(depth))
    decreases LastDepth(maxAttempts) - depth
  {
    var response := fn(params, depth);
    var trace := PollFrom(fn, params, maxAttempts, depth).1;
    if Pending(response) && depth < maxAttempts {
      var rest := PollFrom(fn, params, maxAttempts, depth + 1).1;
      TotalDelayFrom(fn, params, maxAttempts, depth + 1);
      assert trace == [Call(params), Sleep(Delay(depth))] + rest;
      assert trace[1..][1..] == rest;
      assert TotalDelay(trace) == Delay(depth) + TotalDelay(rest);
      assert depth + |trace| / 2 == depth + 1 + |rest| / 2;
      assert Pow2(depth + 1) == 2 * Pow2(depth);
    } else {
      assert trace == [Call(params)];
      assert TotalDelay(trace) == TotalDelay(trace[1..]);
    }
  }

  /**
   * When every reply is pending the run gives up after exactly max(maxAttempts, 0) + 1 calls,
   * having slept 3000 * (2^maxAttempts - 1) ms in all.
   */
  lemma AllPendingGivesUp<P, D>(fn: (P, nat) -> Response<D>, params: P, maxAttempts: int)
    requires forall d :: 0 <= d <= LastDepth(maxAttempts) ==> Pending(fn(params, d))
    ensures Poll(fn, params, maxAttempts).0 == GaveUp
    ensures |Poll(fn, params, maxAttempts).1| == 2 * LastDepth(maxAttempts) + 1
    ensures TotalDelay(Poll(fn, params, maxAttempts).1)
              == BaseDelayMs * (Pow2(LastDepth(maxAttempts)) - 1)
  {
    PollOutcome(fn, params, maxAttempts, 0);
    TraceAlternates(fn, params, maxAttempts, 0);
    TotalDelayFrom(fn, params, maxAttempts, 0);
  }

  /** A job that is done at the first call: one call, no sleep. */
  lemma ImmediateSuccess<P, D>(fn: (P, nat) -> Response<D>, params: P, maxAttempts: int)
    requires IsSuccess(fn(params, 0))
    ensures Poll(fn, params, maxAttempts) == (Completed(fn(params, 0).info), [Call(params)])
    ensures TotalDelay(Poll(fn, params, maxAttempts).1) == 0
  {
  }

  /** A job that never finishes: every status check reports it still running. */
  function NeverDone<P>(params: P, depth: nat): Response<nat> {
    Reply(JobInfo("RUNNING", depth))
  }

  /**
   * The never-finishing job polled with maxAttempts = 3: four calls (depths 0 to 3), sleeps of
   * 3000, 6000 and 12000 ms between them, and `null` at the end.
   */
  lemma NeverDoneThreeAttempts<P>(params: P)
    ensures Poll(NeverDone, params, 3) == (GaveUp, [Call(params), Sleep(3000), Call(params),
                                                    Sleep(6000), Call(params), Sleep(12000),
                                                    Call(params)])
    ensures TotalDelay(Poll(NeverDone, params, 3).1) == 21000
  {
    assert Delay(0) == 3000 && Delay(1) == 6000 && Delay(2) == 12000;
    var t3 := PollFrom(NeverDone, params, 3, 3);
    assert t3 == (GaveUp, [Call(params)]);
    var t2 := PollFrom(NeverDone, params, 3, 2);
    assert t2 == (GaveUp, [Call(params), Sleep(12000)] + t3.1);
    assert t2.1 == [Call(params), Sleep(12000), Call(params)];
    var t1 := PollFrom(NeverDone, params, 3, 1);
    assert t1 == (GaveUp, [Call(params), Sleep(6000)] + t2.1);
    assert t1.1 == [Call(params), Sleep(6000), Call(params), Sleep(12000), Call(params)];
    assert Poll(NeverDone, params, 3) == (GaveUp, [Call(params), Sleep(3000)] + t1.1);
    assert [Call(params), Sleep(3000)] + t1.1 == [Call(params), Sleep(3000), Call(params),
                                                   Sleep(6000), Call(params), Sleep(12000),
                                                   Call(params)];
    AllPendingGivesUp(NeverDone, params, 3);
  }
}
