/** The token bucket of the rate limiter as a sequential state machine over one
    integer, the token count. Each event is one locked critical section on the
    count: `Take` is one poll of `consume_token`, `Refill` is one tick of the
    background refiller (`add_token`). */
module TokenBucket {
  import opened Int32

  /** The two numbers the count's behaviour depends on: `max_tokens` and `tokens_to_add`. */
  datatype Config = Config(maxTokens: int, tokensToAdd: int)

  datatype Event = Take | Refill

  function Min(a: int, b: int): int { if a <= b then a else b }

  /** The count after one refill tick: clamped to the capacity, computed without overflow. */
  function Refilled(c: Config, tokens: int): (r: int)
    ensures r <= c.maxTokens && r <= tokens + c.tokensToAdd
    ensures r == c.maxTokens || r == tokens + c.tokensToAdd
  {
    if c.maxTokens > tokens + c.tokensToAdd then tokens + c.tokensToAdd else c.maxTokens
  }

  /** The count after one event. A take lowers the count by one exactly when
      it is positive and otherwise leaves it; a refill is `Refilled`. */
  function Step(c: Config, tokens: int, e: Event): (r: int)
    ensures e == Take ==> tokens - 1 <= r <= tokens && (r < tokens <==> tokens > 0)
    ensures e == Refill ==> r == Refilled(c, tokens)
  {
    match e
    case Take => if tokens > 0 then tokens - 1 else tokens
    case Refill => Refilled(c, tokens)
  }

  /** The count after the events of `h`, in order, starting from `tokens`. */
  function Final(c: Config, tokens: int, h: seq<Event>): int
    decreases |h|
  {
    if h == [] then tokens else Step(c, Final(c, tokens, h[..|h| - 1]), h[|h| - 1])
  }

  /** How many of the takes in `h` succeed. */
  function Granted(c: Config, tokens: int, h: seq<Event>): nat
    decreases |h|
  {
    if h == [] then 0
    else
      var before := Final(c, tokens, h[..|h| - 1]);
      Granted(c, tokens, h[..|h| - 1]) + (if h[|h| - 1] == Take && before > 0 then 1 else 0)
  }

  /** How many refill ticks `h` holds. */
  function Refills(h: seq<Event>): nat
    decreases |h|
  {
    if h == [] then 0 else Refills(h[..|h| - 1]) + (if h[|h| - 1] == Refill then 1 else 0)
  }

  /** `n` consecutive takes. */
  function Takes(n: nat): seq<Event> { seq(n, _ => Take) }

  /** `n` consecutive refill ticks. */
  function Ticks(n: nat): seq<Event> { seq(n, _ => Refill) }

  /** Whether the polling loop of `consume_token` obtains a token when `waits[i]`
      refill ticks happen while it sleeps after its i-th failed poll. The loop
      polls once more after each sleep; past the end of `waits` it gives up. */
  function Acquired(c: Config, tokens: int, waits: seq<nat>): (r: bool)
    ensures tokens > 0 ==> r
    ensures waits == [] ==> (r <==> tokens > 0)
    decreases |waits|
  {
    tokens > 0 || (waits != [] && Acquired(c, Final(c, tokens, Ticks(waits[0])), waits[1..]))
  }

  /** The events on the count while that polling loop runs: a take per poll and
      the refill ticks in between. */
  function AcquireLog(c: Config, tokens: int, waits: seq<nat>): (log: seq<Event>)
    ensures |log| >= 1 && log[0] == Take && log[|log| - 1] == Take
    ensures tokens > 0 || waits == [] ==> log == [Take]
    decreases |waits|
  {
    if tokens > 0 || waits == [] then [Take]
    else [Take] + Ticks(waits[0]) + AcquireLog(c, Final(c, tokens, Ticks(waits[0])), waits[1..])
  }

  // ---------------------------------------------------------------------------
  // One refill tick

  /** A full bucket stays full under a non-negative refill. */
  lemma RefillFullStaysFull(c: Config)
    requires 0 <= c.tokensToAdd
    ensures Refilled(c, c.maxTokens) == c.maxTokens
  {
  }

  /** A refill of zero tokens leaves any count up to the capacity unchanged. */
  lemma RefillZeroIsIdentity(c: Config, tokens: int)
    requires c.tokensToAdd == 0 && tokens <= c.maxTokens
    ensures Refilled(c, tokens) == tokens
  {
  }

  /** A non-negative refill never lowers a count that is within the capacity. */
  lemma RefillNeverLowers(c: Config, tokens: int)
    requires 0 <= c.tokensToAdd && tokens <= c.maxTokens
    ensures tokens <= Refilled(c, tokens) <= c.maxTokens
  {
  }

  /** Capacity 10, count 9, refill 5: the result is clamped to 10, not 14. */
  lemma RefillClampsToCapacity()
    ensures Refilled(Config(10, 5), 9) == 10
  {
  }

  // ---------------------------------------------------------------------------
  // The as-written refill: `*tokens + tokens_to_add` is an unchecked i32 addition

  /** `add_token` as written, with the sum evaluated in wrapping `i32` arithmetic. */
  function RefillAsWritten(maxTokens: int32, tokensToAdd: int32, tokens: int32): (r: int32)
    ensures r == maxTokens || r == Wrap(tokens + tokensToAdd)
  {
    var sum := Wrap(tokens + tokensToAdd);
    if maxTokens > sum then sum else maxTokens
  }

  /** Without overflow the as-written refill and `Refilled` agree. */
  lemma RefillAsWrittenAgrees(maxTokens: int32, tokensToAdd: int32, tokens: int32)
    requires MIN <= tokens + tokensToAdd <= MAX
    ensures RefillAsWritten(maxTokens, tokensToAdd, tokens) == Refilled(Config(maxTokens, tokensToAdd), tokens)
  {
  }

  /** A full bucket of 10 refilled with `i32::MAX` tokens: the sum wraps and the
      as-written refill leaves a large negative count, where clamping gives 10. */
  lemma RefillAsWrittenOverflow()
    ensures RefillAsWritten(10, MAX, 10) == -2147483639
    ensures Refilled(Config(10, MAX), 10) == 10
  {
    assert Wrap(10 + MAX) == -2147483639;
  }

  // ---------------------------------------------------------------------------
  // Runs of events

  lemma {:induction false} FinalAppend(c: Config, tokens: int, h: seq<Event>, k: seq<Event>)
    ensures Final(c, tokens, h + k) == Final(c, Final(c, tokens, h), k)
    ensures Granted(c, tokens, h + k) == Granted(c, tokens, h) + Granted(c, Final(c, tokens, h), k)
    ensures Refills(h + k) == Refills(h) + Refills(k)
    decreases |k|
  {
    if k == [] {
      assert h + k == h;
    } else {
      assert (h + k)[..|h + k| - 1] == h + k[..|k| - 1];
      assert (h + k)[|h + k| - 1] == k[|k| - 1];
      FinalAppend(c, tokens, h, k[..|k| - 1]);
    }
  }

  /** Whatever the configuration, a count that starts within the capacity never exceeds it. */
  lemma {:induction false} NeverAboveCapacity(c: Config, tokens: int, h: seq<Event>)
    requires tokens <= c.maxTokens
    ensures Final(c, tokens, h) <= c.maxTokens
    decreases |h|
  {
    if h != [] {
      NeverAboveCapacity(c, tokens, h[..|h| - 1]);
    }
  }

  /** With a non-negative capacity and refill, `0 <= tokens <= max_tokens` holds
      after every sequence of takes and refills. */
  lemma {:induction false} StaysInRange(c: Config, tokens: int, h: seq<Event>)
    requires 0 <= c.tokensToAdd
    requires 0 <= tokens <= c.maxTokens
    ensures 0 <= Final(c, tokens, h) <= c.maxTokens
    decreases |h|
  {
    if h != [] {
      StaysInRange(c, tokens, h[..|h| - 1]);
    }
  }

  /** Conservation: every granted take used a token that was there at the start
      or was added by a refill, and a refill adds at most `tokens_to_add`. */
  lemma {:induction false} Conservation(c: Config, tokens: int, h: seq<Event>)
    ensures Granted(c, tokens, h) + Final(c, tokens, h) <= tokens + c.tokensToAdd * Refills(h)
    decreases |h|
  {
    if h != [] {
      var h' := h[..|h| - 1];
      var n := Refills(h');
      Conservation(c, tokens, h');
      if h[|h| - 1] == Refill {
        assert Refills(h) == n + 1;
        assert Granted(c, tokens, h) == Granted(c, tokens, h');
        assert Final(c, tokens, h) <= Final(c, tokens, h') + c.tokensToAdd;
        MulSucc(c.tokensToAdd, n);
      } else {
        assert Refills(h) == n;
      }
    }
  }

  lemma MulSucc(a: int, n: nat)
    ensures a * (n + 1) == a * n + a
  {
  }

  /** No over-admission: from an in-range count, the takes granted over any run
      number at most the initial count plus `tokens_to_add` per refill tick. */
  lemma AdmissionBound(c: Config, tokens: int, h: seq<Event>)
    requires 0 <= c.tokensToAdd
    requires 0 <= tokens <= c.maxTokens
    ensures Granted(c, tokens, h) <= tokens + c.tokensToAdd * Refills(h)
  {
    Conservation(c, tokens, h);
    StaysInRange(c, tokens, h);
  }

  /** A bucket with non-positive capacity never grants a take, whatever happens. */
  lemma {:induction false} DegenerateNeverGrants(c: Config, tokens: int, h: seq<Event>)
    requires tokens <= c.maxTokens <= 0
    ensures Granted(c, tokens, h) == 0
    decreases |h|
  {
    if h != [] {
      DegenerateNeverGrants(c, tokens, h[..|h| - 1]);
      NeverAboveCapacity(c, tokens, h[..|h| - 1]);
    }
  }

  /** `n` takes with no refill: a positive count grants `min(n, tokens)` of them
      and is decremented by as many; a non-positive count grants none and is unchanged. */
  lemma {:induction false} TakesOnly(c: Config, tokens: int, n: nat)
    ensures Granted(c, tokens, Takes(n)) == if tokens > 0 then Min(n, tokens) else 0
    ensures Final(c, tokens, Takes(n)) == if tokens > 0 then tokens - Min(n, tokens) else tokens
  {
    if n > 0 {
      assert Takes(n)[..n - 1] == Takes(n - 1);
      assert Takes(n)[n - 1] == Take;
      TakesOnly(c, tokens, n - 1);
    } else {
      assert Takes(n) == [];
    }
  }

  /** From a freshly built bucket with no refill, exactly `max_tokens` consecutive
      takes succeed: the first `n <= max_tokens` all succeed, and any further take fails. */
  lemma DrainFromFull(c: Config, n: nat)
    requires 0 <= c.maxTokens
    ensures n <= c.maxTokens ==> Granted(c, c.maxTokens, Takes(n)) == n
    ensures n >= c.maxTokens ==> Granted(c, c.maxTokens, Takes(n)) == c.maxTokens
    ensures n >= c.maxTokens ==> Final(c, c.maxTokens, Takes(n)) == 0
  {
    TakesOnly(c, c.maxTokens, n);
  }

  /** After a take fails on an empty bucket, one refill tick followed by a take
      succeeds if and only if `tokens_to_add` is positive. */
  lemma FailedTakeThenRefill(c: Config)
    requires 0 < c.maxTokens
    ensures Granted(c, 0, [Take]) == 0 && Final(c, 0, [Take]) == 0
    ensures Granted(c, 0, [Take, Refill, Take]) == 1 <==> 0 < c.tokensToAdd
  {
    assert [Take, Refill, Take][..2] == [Take, Refill];
    assert [Take, Refill][..1] == [Take];
    assert [Take][..0] == [];
  }

  /** `n` refill ticks clamp once: a count within the capacity becomes
      `min(max_tokens, tokens + n * tokens_to_add)`, for a refill of either sign. */
  lemma {:induction false} TicksClamp(c: Config, tokens: int, n: nat)
    requires tokens <= c.maxTokens
    ensures Final(c, tokens, Ticks(n)) == Min(c.maxTokens, tokens + n * c.tokensToAdd)
  {
    if n > 0 {
      assert Ticks(n)[..n - 1] == Ticks(n - 1);
      assert Ticks(n)[n - 1] == Refill;
      TicksClamp(c, tokens, n - 1);
      MulSucc(c.tokensToAdd, n - 1);
      var before := Final(c, tokens, Ticks(n - 1));
      assert Final(c, tokens, Ticks(n)) == Refilled(c, before);
      assert tokens + n * c.tokensToAdd == tokens + (n - 1) * c.tokensToAdd + c.tokensToAdd;
    } else {
      assert Ticks(n) == [];
    }
  }

  /** A negative `tokens_to_add` is accepted: every tick then lowers the count
      by `|tokens_to_add|`, without bound. */
  lemma NegativeRefillDrains(c: Config, tokens: int, n: nat)
    requires c.tokensToAdd < 0 && tokens <= c.maxTokens
    ensures Final(c, tokens, Ticks(n)) == tokens + n * c.tokensToAdd
    ensures n > 0 ==> Final(c, tokens, Ticks(n)) < tokens
  {
    TicksClamp(c, tokens, n);
    assert n * c.tokensToAdd <= 0;
    if n > 0 {
      assert n * c.tokensToAdd <= c.tokensToAdd;
    }
  }

  /** Refill ticks never grant a take. */
  lemma {:induction false} TicksGrantNothing(c: Config, tokens: int, n: nat)
    ensures Granted(c, tokens, Ticks(n)) == 0
  {
    if n > 0 {
      assert Ticks(n)[..n - 1] == Ticks(n - 1);
      assert Ticks(n)[n - 1] == Refill;
      TicksGrantNothing(c, tokens, n - 1);
    } else {
      assert Ticks(n) == [];
    }
  }

  // ---------------------------------------------------------------------------
  // The polling loop of consume_token

  /** The polling loop's events begin with a take and end with one. */
  lemma AcquireLogShape(c: Config, tokens: int, waits: seq<nat>)
    ensures |AcquireLog(c, tokens, waits)| >= 1
    ensures AcquireLog(c, tokens, waits)[0] == Take
    ensures AcquireLog(c, tokens, waits) == [Take] + AcquireLog(c, tokens, waits)[1..]
  {
  }

  /** After a failed poll at position `i`, the rest of the polling loop is the
      sleep's ticks followed by the polling loop on the refilled count. */
  lemma AcquireAfterSleep(c: Config, tokens: int, waits: seq<nat>, i: nat)
    requires tokens <= 0 && i < |waits|
    ensures var t' := Final(c, tokens, Ticks(waits[i]));
      && AcquireLog(c, tokens, waits[i..])[1..] == Ticks(waits[i]) + AcquireLog(c, t', waits[i + 1..])
      && Acquired(c, tokens, waits[i..]) == Acquired(c, t', waits[i + 1..])
  {
    assert waits[i..][1..] == waits[i + 1..];
  }

  /** One call of the polling loop takes exactly one token when it acquires one,
      and none when it does not. */
  lemma {:induction false} AcquireGrantsOne(c: Config, tokens: int, waits: seq<nat>)
    ensures Granted(c, tokens, AcquireLog(c, tokens, waits)) == if Acquired(c, tokens, waits) then 1 else 0
    decreases |waits|
  {
    assert [Take][..0] == [];
    if tokens <= 0 && waits != [] {
      var t' := Final(c, tokens, Ticks(waits[0]));
      var rest := AcquireLog(c, t', waits[1..]);
      assert AcquireLog(c, tokens, waits) == ([Take] + Ticks(waits[0])) + rest;
      FinalAppend(c, tokens, [Take], Ticks(waits[0]));
      TicksGrantNothing(c, tokens, waits[0]);
      FinalAppend(c, tokens, [Take] + Ticks(waits[0]), rest);
      AcquireGrantsOne(c, t', waits[1..]);
    }
  }

  /** With positive capacity and a non-negative refill, the polling loop started
      on an in-range count acquires a token if and only if the count is positive
      or refills are positive and at least one tick happens during a sleep. */
  lemma {:induction false} AcquiredIff(c: Config, tokens: int, waits: seq<nat>)
    requires 0 < c.maxTokens && 0 <= c.tokensToAdd
    requires 0 <= tokens <= c.maxTokens
    ensures Acquired(c, tokens, waits) <==>
              tokens > 0 || (0 < c.tokensToAdd && exists i :: 0 <= i < |waits| && waits[i] > 0)
    decreases |waits|
  {
    if tokens == 0 && waits != [] {
      var w := waits[0];
      TicksClamp(c, 0, w);
      var t' := Final(c, 0, Ticks(w));
      if 0 < c.tokensToAdd && w > 0 {
        assert w * c.tokensToAdd >= c.tokensToAdd;
        assert t' > 0;
      } else {
        assert w * c.tokensToAdd == 0;
        assert t' == 0;
        AcquiredIff(c, 0, waits[1..]);
        if exists i :: 0 <= i < |waits| && waits[i] > 0 {
          var i :| 0 <= i < |waits| && waits[i] > 0;
          if 0 < c.tokensToAdd {
            assert i > 0 && waits[1..][i - 1] > 0;
          }
        }
        if exists i :: 0 <= i < |waits[1..]| && waits[1..][i] > 0 {
          var i :| 0 <= i < |waits[1..]| && waits[1..][i] > 0;
          assert waits[i + 1] > 0;
        }
      }
    }
  }

  /** A bucket with non-positive capacity never acquires, however long it waits. */
  lemma {:induction false} DegenerateNeverAcquires(c: Config, tokens: int, waits: seq<nat>)
    requires tokens <= c.maxTokens <= 0
    ensures !Acquired(c, tokens, waits)
    decreases |waits|
  {
    if waits != [] {
      NeverAboveCapacity(c, tokens, Ticks(waits[0]));
      DegenerateNeverAcquires(c, Final(c, tokens, Ticks(waits[0])), waits[1..]);
    }
  }
}
