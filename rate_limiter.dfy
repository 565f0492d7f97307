/** The rate limiter object: the shared `i32` token count and its configuration,
    with one atomic method per locked critical section of the source. The ghost
    `history` records every critical section run on the count, so that the
    object's state is always the token-bucket state machine run from a full
    bucket; `requests` counts the caller operations started. */
module Limiter {
  import opened Int32
  import opened TokenBucket

  datatype Option<T> = None | Some(value: T)

  /** Where the polling loop of `consume_token` stands after the polls so far:
      `done` is the events it has run, `tokens` the count and `i` the number of
      sleeps taken. Once acquired, `done` is the whole log; until then the rest
      of the log is the events still to come. */
  ghost predicate Polling(c: Config, t0: int, waits: seq<nat>, i: nat, tokens: int, done: seq<Event>, acquired: bool)
  {
    && i <= |waits|
    && (acquired ==> Acquired(c, t0, waits) && done == AcquireLog(c, t0, waits))
    && (!acquired ==> tokens <= 0 && Acquired(c, t0, waits) == Acquired(c, tokens, waits[i..])
                      && AcquireLog(c, t0, waits) == done + AcquireLog(c, tokens, waits[i..])[1..])
  }

  lemma PollingStart(c: Config, t0: int, waits: seq<nat>)
    ensures Polling(c, t0, waits, 0, Step(c, t0, Take), [Take], t0 > 0)
  {
    assert waits[0..] == waits;
  }

  /** One sleep of the polling loop followed by its next poll. */
  lemma PollingNext(c: Config, t0: int, waits: seq<nat>, i: nat, t: int, done: seq<Event>)
    requires i < |waits| && Polling(c, t0, waits, i, t, done, false)
    ensures var t' := Final(c, t, Ticks(waits[i]));
      Polling(c, t0, waits, i + 1, Step(c, t', Take), done + Ticks(waits[i]) + [Take], t' > 0)
  {
    var t' := Final(c, t, Ticks(waits[i]));
    var r := AcquireLog(c, t', waits[i + 1..]);
    AcquireAfterSleep(c, t, waits, i);
    AcquireLogShape(c, t', waits[i + 1..]);
    Regroup(done, Ticks(waits[i]), r);
    if t' > 0 {
      assert r[1..] == [];
    }
  }

  lemma PollingEnd(c: Config, t0: int, waits: seq<nat>, i: nat, t: int, done: seq<Event>, acquired: bool)
    requires Polling(c, t0, waits, i, t, done, acquired)
    requires acquired || i == |waits|
    ensures acquired == Acquired(c, t0, waits) && done == AcquireLog(c, t0, waits)
  {
    if !acquired {
      assert waits[i..] == [];
      assert AcquireLog(c, t, [])[1..] == [];
    }
  }

  /** Appending a sleep's ticks and the next poll to the events done so far. */
  lemma Extend(h0: seq<Event>, done: seq<Event>, ticks: seq<Event>)
    ensures h0 + done + ticks + [Take] == h0 + (done + ticks + [Take])
  {
  }

  /** Moves the leading take of `r` to the end of the events already done. */
  lemma Regroup(done: seq<Event>, ticks: seq<Event>, r: seq<Event>)
    requires |r| >= 1 && r[0] == Take
    ensures done + (ticks + r) == (done + ticks + [Take]) + r[1..]
  {
    assert r == [Take] + r[1..];
  }

  class RateLimiter {
    var tokens: int
    const maxTokens: int32
    const tokensToAdd: int32
    const addTokenPerMillis: uint64
    const waitTimeMillis: uint64

    ghost var history: seq<Event>
    ghost var requests: nat

    function Cfg(): Config {
      Config(maxTokens, tokensToAdd)
    }

    /** The count is the state machine's result over the history, never exceeds
        the capacity, stays an `i32` under a non-negative refill, and every
        started operation was preceded by a granted take. */
    ghost predicate Valid()
      reads this
    {
      && tokens == Final(Cfg(), maxTokens, history)
      && tokens <= maxTokens
      && (0 <= tokensToAdd ==> Min(0, maxTokens) <= tokens)
      && requests <= Granted(Cfg(), maxTokens, history)
    }

    /** `RateLimiter::new`: the bucket starts full. */
    constructor (maxTokens: int32, tokensToAdd: int32, addTokenPerMillis: uint64, waitTimeMillis: uint64)
      ensures Valid()
      ensures this.maxTokens == maxTokens && this.tokensToAdd == tokensToAdd
      ensures this.addTokenPerMillis == addTokenPerMillis && this.waitTimeMillis == waitTimeMillis
      ensures tokens == maxTokens && history == [] && requests == 0
    {
      this.maxTokens := maxTokens;
      this.tokensToAdd := tokensToAdd;
      this.addTokenPerMillis := addTokenPerMillis;
      this.waitTimeMillis := waitTimeMillis;
      tokens := maxTokens;
      history := [];
      requests := 0;
    }

    /** One locked poll of `consume_token`: succeeds exactly when the count is
        positive, and then takes one token; a failed poll changes nothing. */
    method TryConsume() returns (ok: bool)
      requires Valid()
      modifies this
      ensures Valid()
      ensures ok <==> old(tokens) > 0
      ensures ok ==> tokens == old(tokens) - 1
      ensures !ok ==> tokens == old(tokens)
      ensures history == old(history) + [Take] && requests == old(requests)
    {
      ghost var h := history;
      ok := tokens > 0;
      if ok {
        tokens := tokens - 1;
      }
      history := history + [Take];
      assert history[..|history| - 1] == h;
    }

    /** `add_token`: adds `tokens_to_add`, clamping the count to `max_tokens`. */
    method AddToken()
      requires Valid()
      modifies this
      ensures Valid()
      ensures tokens <= maxTokens && tokens <= old(tokens) + tokensToAdd
      ensures tokens == maxTokens || tokens == old(tokens) + tokensToAdd
      ensures tokens == Refilled(Cfg(), old(tokens))
      ensures history == old(history) + [Refill] && requests == old(requests)
    {
      ghost var h := history;
      if maxTokens > tokens + tokensToAdd {
        tokens := tokens + tokensToAdd;
      } else {
        tokens := maxTokens;
      }
      history := history + [Refill];
      assert history[..|history| - 1] == h;
    }

    /** The refiller task `handle_token`, run for `ticks` iterations: each
        iteration sleeps for `add_token_per_millis` and then runs `add_token`. */
    method HandleToken(ticks: nat)
      requires Valid()
      modifies this
      ensures Valid()
      ensures history == old(history) + Ticks(ticks) && requests == old(requests)
      ensures tokens == Final(Cfg(), old(tokens), Ticks(ticks))
    {
      ghost var t0 := tokens;
      ghost var h0 := history;
      var j := 0;
      while j < ticks
        invariant 0 <= j <= ticks
        invariant Valid() && requests == old(requests)
        invariant history == h0 + Ticks(j)
        invariant tokens == Final(Cfg(), t0, Ticks(j))
      {
        AddToken();
        assert Ticks(j + 1) == Ticks(j) + [Refill];
        assert Ticks(j + 1)[..j] == Ticks(j);
        j := j + 1;
      }
    }

    /** The polling loop of `consume_token`: polls until a take succeeds, with
        `waits[i]` refill ticks happening during the i-th sleep. Returns whether
        a token was taken; past the end of `waits` it gives up. */
    method ConsumeToken(waits: seq<nat>) returns (acquired: bool)
      requires Valid()
      modifies this
      ensures Valid()
      ensures acquired == Acquired(Cfg(), old(tokens), waits)
      ensures history == old(history) + AcquireLog(Cfg(), old(tokens), waits)
      ensures tokens == Final(Cfg(), old(tokens), AcquireLog(Cfg(), old(tokens), waits))
      ensures requests == old(requests)
    {
      ghost var c := Cfg();
      ghost var t0 := tokens;
      ghost var h0 := history;
      var i := 0;
      acquired := TryConsume();
      ghost var done := [Take];
      PollingStart(c, t0, waits);
      while !acquired && i < |waits|
        invariant Valid() && requests == old(requests)
        invariant history == h0 + done
        invariant Polling(c, t0, waits, i, tokens, done, acquired)
      {
        ghost var t := tokens;
        HandleToken(waits[i]);
        acquired := TryConsume();
        PollingNext(c, t0, waits, i, t, done);
        Extend(h0, done, Ticks(waits[i]));
        done := done + Ticks(waits[i]) + [Take];
        i := i + 1;
      }
      PollingEnd(c, t0, waits, i, tokens, done, acquired);
      FinalAppend(c, maxTokens, h0, done);
    }

    /** `request_with_limiting`: takes one token, then runs the caller's
        operation and returns its result unchanged. `None` stands for a wait
        that outlasts `waits`. */
    method RequestWithLimiting<R>(waits: seq<nat>, makeRequest: () -> R) returns (response: Option<R>)
      requires Valid()
      modifies this
      ensures Valid()
      ensures response == if Acquired(Cfg(), old(tokens), waits) then Some(makeRequest()) else None
      ensures history == old(history) + AcquireLog(Cfg(), old(tokens), waits)
      ensures requests == old(requests) + (if response.Some? then 1 else 0)
      ensures tokens == Final(Cfg(), old(tokens), AcquireLog(Cfg(), old(tokens), waits))
      ensures Granted(Cfg(), old(tokens), AcquireLog(Cfg(), old(tokens), waits)) == (if response.Some? then 1 else 0)
    {
      ghost var c := Cfg();
      ghost var t0 := tokens;
      ghost var h0 := history;
      var acquired := ConsumeToken(waits);
      AcquireGrantsOne(c, t0, waits);
      if acquired {
        FinalAppend(c, maxTokens, h0, AcquireLog(c, t0, waits));
        requests := requests + 1;
        response := Some(makeRequest());
      } else {
        response := None;
      }
    }

    /** No over-admission for the object: operations started plus tokens left are
        bounded by the capacity plus `tokens_to_add` per refill tick so far. */
    lemma RequestsBounded()
      requires Valid()
      ensures requests + tokens <= maxTokens + tokensToAdd * Refills(history)
      ensures 0 <= maxTokens && 0 <= tokensToAdd ==> requests <= maxTokens + tokensToAdd * Refills(history)
    {
      Conservation(Cfg(), maxTokens, history);
    }
  }
}
