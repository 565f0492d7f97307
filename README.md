# Token-bucket rate limiter, modelled in Dafny

The rate limiter throttles calls to an arbitrary asynchronous operation with a
token bucket. One shared `i32` counter starts full at `max_tokens`. A
background refiller task (`handle_token`) periodically runs `add_token`, which
adds `tokens_to_add` and clamps the count to `max_tokens`. A caller of
`request_with_limiting` first runs `consume_token`, which polls the counter
under its lock until a poll finds a positive count and decrements it, sleeping
between polls. The caller's operation runs only after that.

The model has three modules:

- `Int32` (`int32.dfy`): the `i32` and `u64` value ranges, and the
  two's-complement wrap-around of an unchecked `i32` addition.
- `TokenBucket` (`token_bucket.dfy`): the counter as a sequential state
  machine. An `Event` is one locked critical section: `Take` is one poll of
  `consume_token` and `Refill` is one tick of `add_token`. `Final` gives the
  count after a sequence of events, `Granted` how many takes succeeded and
  `Refills` how many ticks happened. `Acquired` and `AcquireLog` describe the
  polling loop of `consume_token`, given how many refill ticks happen during
  each of its sleeps. The lemmas state the bucket's guarantees over all runs.
- `Limiter` (`rate_limiter.dfy`): the class `RateLimiter`, with the mutable
  count `tokens` and the four constructor arguments as constants. Each method
  is one piece of the source: `TryConsume` is one locked poll, `AddToken` is
  `add_token`, `HandleToken` is the refiller loop, `ConsumeToken` is the
  polling loop and `RequestWithLimiting` is the wrapper. The ghost field
  `history` records every critical section run on the count. The object
  invariant `Valid()` says that `tokens` is always `Final` of that history,
  starting from a full bucket. It also says that the number of operations
  started (`requests`) never exceeds the takes granted.

The code accepts a non-positive `max_tokens` and a negative `tokens_to_add`
without complaint, and so does the model. A bucket with a non-positive
`max_tokens` never grants a take (`DegenerateNeverGrants`,
`DegenerateNeverAcquires`). A negative `tokens_to_add` only drains the count:
each tick lowers it by `|tokens_to_add|` (`NegativeRefillDrains`). The bounds
`0 <= tokens <= max_tokens` are proved only when both numbers are non-negative
(`StaysInRange`). The upper bound alone holds for every configuration
(`NeverAboveCapacity`).

## Model

| member | source | states |
|---|---|---|
| `Int32.Wrap` | src/lib.rs:66 | the `i32` result of the unchecked addition is congruent to the true sum modulo 2^32, and equals it when the sum fits in `i32` |
| `TokenBucket.Step` | src/lib.rs:33-70 | one locked section: a take lowers the count by one exactly when it is positive and otherwise leaves it unchanged; a refill gives `Refilled` |
| `TokenBucket.Refilled` | src/lib.rs:64-71 | a refill tick gives a count that is at most `max_tokens` and at most `tokens + tokens_to_add`, and equal to one of the two, so it is their minimum |
| `TokenBucket.RefillFullStaysFull` | src/lib.rs:66-70 | with `tokens_to_add >= 0`, refilling a full bucket leaves it full |
| `TokenBucket.RefillZeroIsIdentity` | src/lib.rs:66-70 | refilling with `tokens_to_add = 0` leaves any count up to `max_tokens` unchanged |
| `TokenBucket.RefillNeverLowers` | src/lib.rs:66-70 | with `tokens_to_add >= 0`, a refill maps a count within capacity to a count between it and `max_tokens` |
| `TokenBucket.RefillClampsToCapacity` | src/lib.rs:66-70 | capacity 10, count 9, refill 5 gives 10 (clamped), not 14 |
| `TokenBucket.RefillAsWritten` | src/lib.rs:64-71 | `add_token` with the sum in wrapping `i32` arithmetic yields either `max_tokens` or the wrapped sum |
| `TokenBucket.RefillAsWrittenAgrees` | src/lib.rs:66-70 | when `tokens + tokens_to_add` fits in `i32`, the as-written refill equals the clamped minimum |
| `TokenBucket.RefillAsWrittenOverflow` | src/lib.rs:66-67 | refilling a full bucket of 10 with `i32::MAX` gives -2147483639 as written and 10 when clamped |
| `TokenBucket.NeverAboveCapacity` | src/lib.rs:33-70 | for every configuration, a count that starts at or below `max_tokens` stays there after any takes and refills |
| `TokenBucket.StaysInRange` | src/lib.rs:33-70 | with `max_tokens >= 0` and `tokens_to_add >= 0`, `0 <= tokens <= max_tokens` is preserved by every sequence of takes and refills |
| `TokenBucket.Conservation` | src/lib.rs:33-70 | granted takes plus the remaining count never exceed the initial count plus `tokens_to_add` per refill tick |
| `TokenBucket.AdmissionBound` | src/lib.rs:33-70 | from an in-range count, the takes granted are at most the initial count plus `tokens_to_add` per refill tick (no over-admission) |
| `TokenBucket.DegenerateNeverGrants` | src/lib.rs:19-37 | with `max_tokens <= 0`, no take ever succeeds, whatever refills happen |
| `TokenBucket.TakesOnly` | src/lib.rs:33-37 | `n` takes with no refill grant `min(n, tokens)` on a positive count and decrement it by as many; on a non-positive count they grant none and change nothing |
| `TokenBucket.DrainFromFull` | src/lib.rs:19-37 | from a fresh bucket with no refill, the first `max_tokens` takes all succeed and every later one fails, leaving the count at 0 |
| `TokenBucket.FailedTakeThenRefill` | src/lib.rs:34-70 | with `max_tokens > 0`, a take on an empty bucket fails and leaves 0; one refill followed by a take then succeeds if and only if `tokens_to_add > 0` |
| `TokenBucket.TicksClamp` | src/lib.rs:57-71 | for a refill of either sign, `n` refill ticks turn a count within capacity into `min(max_tokens, tokens + n * tokens_to_add)` |
| `TokenBucket.NegativeRefillDrains` | src/lib.rs:64-71 | with a negative `tokens_to_add`, `n` ticks lower a count within capacity by exactly `-n * tokens_to_add`, without bound |
| `TokenBucket.Acquired` | src/lib.rs:30-43 | the polling loop acquires whenever the count is already positive, and with no sleep left it acquires exactly when the count is positive |
| `TokenBucket.AcquireLog` | src/lib.rs:30-43 | the polling loop's events start and end with a take; with a positive count or no sleep left they are that single take |
| `TokenBucket.AcquireGrantsOne` | src/lib.rs:30-43 | one run of the polling loop is granted exactly one token when it acquires and none otherwise |
| `TokenBucket.AcquiredIff` | src/lib.rs:30-43 | with positive capacity and non-negative refill, the polling loop on an in-range count acquires if and only if the count is positive, or refills are positive and some sleep sees a tick |
| `TokenBucket.DegenerateNeverAcquires` | src/lib.rs:30-43 | with `max_tokens <= 0`, the polling loop never acquires, however many ticks happen |
| `Limiter.RateLimiter.constructor` | src/lib.rs:19-28 | the new limiter holds the four arguments, the count starts at `max_tokens` (full), no events have happened and the invariant holds |
| `Limiter.RateLimiter.TryConsume` | src/lib.rs:33-37 | the poll succeeds if and only if the count was positive; on success the count drops by exactly 1, on failure it is unchanged |
| `Limiter.RateLimiter.AddToken` | src/lib.rs:64-71 | the count becomes `max_tokens` or `tokens + tokens_to_add`, whichever is smaller (the clamped refill), and the invariant is kept |
| `Limiter.RateLimiter.HandleToken` | src/lib.rs:57-62 | `ticks` iterations of the refiller loop append that many refill events and leave the count the state machine predicts |
| `Limiter.RateLimiter.ConsumeToken` | src/lib.rs:30-43 | the polling loop returns `Acquired`, appends exactly the takes and ticks of `AcquireLog`, and leaves the count the state machine predicts |
| `Limiter.RateLimiter.RequestWithLimiting` | src/lib.rs:45-53 | the caller's operation runs only after a granted take, and its result is returned unchanged; the call takes exactly one token when it returns a result and none otherwise, and one request is counted per token acquired |
| `Limiter.RateLimiter.RequestsBounded` | src/lib.rs:30-53 | operations started plus tokens left never exceed `max_tokens` plus `tokens_to_add` per refill tick; with a non-negative configuration, operations started alone are bounded so |

## Left out

- The tokio `Runtime`, the `Arc<Mutex<i32>>` sharing and every `lock().await` are left out. Each locked section is one atomic method, because this is concurrency plumbing with no logic on the count.
- The `sleep` calls and the intervals `add_token_per_millis` and `wait_time_millis` are stored but play no part. Wall-clock timing cannot be verified, so refill ticks are explicit events instead.
- The `anyhow` error of `Runtime::new()?` is left out: it is a runtime-allocation failure with no logic behind it, so the constructor always succeeds.
- Limiter.RateLimiter.ConsumeToken: only refill ticks can happen during a sleep, so takes by other concurrent callers are not modelled. It also gives up once `waits` is exhausted, where the source keeps polling forever.
- Limiter.RateLimiter.HandleToken: runs a given number of ticks; the source loop never ends and is stopped only when the runtime is dropped.
- Limiter.RateLimiter.RequestWithLimiting: the caller's closure is a total function `() -> R`, and its future and any error it returns are part of `R`. The source's indefinite wait is modelled as `None` once `waits` runs out.
- Limiter.RateLimiter.AddToken: a negative `tokens_to_add` can drive the count down without bound (`NegativeRefillDrains`), and the model computes that over unbounded integers. The source's `i32` wrap-around below `i32::MIN` is not modelled. The upper overflow is corrected as described under Findings.
- Fairness, starvation and the ordering among concurrent callers are not stated, because they are unspecified and about concurrency.

## Findings

| source | as written | input that shows it | evidently intended | confidence | as-written member | corrected member |
|---|---|---|---|---|---|---|
| src/lib.rs:66-69 | `*tokens + tokens_to_add` is an unchecked `i32` addition. In a release build it wraps and the wrapped sum is compared and stored; a debug build panics, ending the refiller task | `max_tokens = 10`, `tokens = 10`, `tokens_to_add = i32::MAX`: the count becomes -2147483639 | the count is clamped to `max_tokens`, here 10 | high (not executed) | `TokenBucket.RefillAsWrittenOverflow` | `TokenBucket.Refilled` |

The rest of the model uses the corrected `Refilled`. `RefillAsWrittenAgrees`
shows that the two agree whenever the sum fits in `i32`.
