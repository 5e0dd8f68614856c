/** rate_limit.py: a token bucket per key, polled under one lock. */
module RateLimit {
  type Key = string

  datatype Bucket = Bucket(tokens: real, lastRefill: real)

  type Buckets = map<Key, Bucket>

  /** One turn under the lock: the clock is read once if the bucket has to be created, then
      once more. */
  datatype Attempt = Attempt(key: Key, rate: int, created: real, now: real)

  /** Tokens refilled over some seconds: each unit of the rate adds one token a minute.
      Kept free of products; RefillIs gives the closed form. */
  function Refill(rate: int, seconds: real): real
    decreases if rate < 0 then -rate else rate
  {
    if rate == 0 then 0.0
    else if rate > 0 then Refill(rate - 1, seconds) + seconds / 60.0
    else Refill(rate + 1, seconds) - seconds / 60.0
  }

  lemma {:induction false} RefillIs(rate: int, seconds: real)
    ensures Refill(rate, seconds) == seconds * (rate as real / 60.0)
    decreases if rate < 0 then -rate else rate
  {
    if rate > 0 {
      RefillIs(rate - 1, seconds);
      assert seconds * (rate as real / 60.0) == seconds * ((rate - 1) as real / 60.0) + seconds / 60.0;
    } else if rate < 0 {
      RefillIs(rate + 1, seconds);
      assert seconds * (rate as real / 60.0) == seconds * ((rate + 1) as real / 60.0) - seconds / 60.0;
    }
  }

  function Min(x: real, y: real): real {
    if x <= y then x else y
  }

  /** What a bucket holds at a later instant, before anything is taken. */
  function Level(b: Bucket, rate: int, now: real): real {
    Min(rate as real, b.tokens + Refill(rate, now - b.lastRefill))
  }

  function BucketFor(buckets: Buckets, a: Attempt): Bucket {
    if a.key in buckets then buckets[a.key] else Bucket(0.0, a.created)
  }

  predicate Granted(buckets: Buckets, a: Attempt) {
    Level(BucketFor(buckets, a), a.rate, a.now) >= 1.0
  }

  function Tried(buckets: Buckets, a: Attempt): Buckets {
    var level := Level(BucketFor(buckets, a), a.rate, a.now);
    buckets[a.key := Bucket(if level >= 1.0 then level - 1.0 else level, a.now)]
  }

  // -------------------------------------------------------------- histories

  /** The buckets after attempts by any callers on any keys, in the order they got the lock. */
  function After(buckets: Buckets, attempts: seq<Attempt>): Buckets
    decreases |attempts|
  {
    if attempts == [] then buckets else After(Tried(buckets, attempts[0]), attempts[1..])
  }

  function Grants(buckets: Buckets, attempts: seq<Attempt>, k: Key): nat
    decreases |attempts|
  {
    if attempts == [] then 0
    else (if attempts[0].key == k && Granted(buckets, attempts[0]) then 1 else 0)
         + Grants(Tried(buckets, attempts[0]), attempts[1..], k)
  }

  /** The clock never goes back, from t on. */
  predicate Clocked(attempts: seq<Attempt>, t: real) {
    attempts == [] || (t <= attempts[0].created <= attempts[0].now && Clocked(attempts[1..], attempts[0].now))
  }

  function End(attempts: seq<Attempt>, t: real): real {
    if attempts == [] then t else attempts[|attempts| - 1].now
  }

  predicate RateOf(attempts: seq<Attempt>, k: Key, rate: int) {
    forall i | 0 <= i < |attempts| && attempts[i].key == k :: attempts[i].rate == rate
  }

  predicate BucketOk(buckets: Buckets, k: Key, rate: int, t: real) {
    k in buckets ==> 0.0 <= buckets[k].tokens <= rate as real && buckets[k].lastRefill <= t
  }

  // ------------------------------------------------------------- the limiter

  lemma {:induction false} OneMore(buckets: Buckets, attempts: seq<Attempt>, a: Attempt)
    ensures After(buckets, attempts + [a]) == Tried(After(buckets, attempts), a)
    decreases |attempts|
  {
    var more := attempts + [a];
    if attempts == [] {
      assert more[1..] == [];
    } else {
      assert more[1..] == attempts[1..] + [a];
      OneMore(Tried(buckets, attempts[0]), attempts[1..], a);
    }
  }

  lemma {:induction false} AfterSplit(buckets: Buckets, xs: seq<Attempt>, ys: seq<Attempt>, t: real)
    ensures After(buckets, xs + ys) == After(After(buckets, xs), ys)
    ensures Clocked(xs + ys, t) ==> Clocked(xs, t) && Clocked(ys, End(xs, t))
    decreases |xs|
  {
    if xs == [] {
      assert xs + ys == ys;
    } else {
      assert (xs + ys)[1..] == xs[1..] + ys;
      AfterSplit(Tried(buckets, xs[0]), xs[1..], ys, xs[0].now);
    }
  }

  /** One poll of a waiting caller: what others do while it sleeps, and its own turn. */
  datatype Poll = Poll(others: seq<Attempt>, own: Attempt)

  function Turns(polls: seq<Poll>): seq<Attempt> {
    if polls == [] then [] else Turns(polls[..|polls| - 1]) + polls[|polls| - 1].others + [polls[|polls| - 1].own]
  }

  /** Whether poll i is granted, all others before it included. */
  predicate Served(buckets: Buckets, polls: seq<Poll>, i: nat)
    requires i < |polls|
  {
    Granted(After(buckets, Turns(polls[..i]) + polls[i].others), polls[i].own)
  }

  lemma TurnsNext(buckets: Buckets, polls: seq<Poll>, i: nat)
    requires i < |polls|
    ensures var before := After(buckets, Turns(polls[..i]));
            && Served(buckets, polls, i) == Granted(After(before, polls[i].others), polls[i].own)
            && After(buckets, Turns(polls[..i + 1])) == Tried(After(before, polls[i].others), polls[i].own)
  {
    var others := polls[i].others;
    assert polls[..i + 1][..i] == polls[..i];
    AfterSplit(buckets, Turns(polls[..i]), others, 0.0);
    OneMore(buckets, Turns(polls[..i]) + others, polls[i].own);
  }

  /** The tokens with a sixtieth of the rate for each second gone by, and no more than the rate. */
  function Filled(b: Bucket, rate: int, now: real): (tokens: real)
    ensures tokens <= rate as real && tokens <= b.tokens + (now - b.lastRefill) * (rate as real / 60.0)
    ensures tokens == rate as real || tokens == b.tokens + (now - b.lastRefill) * (rate as real / 60.0)
  {
    var elapsed := now - b.lastRefill;
    Min(rate as real, b.tokens + elapsed * (rate as real / 60.0))
  }

  lemma FilledIs(b: Bucket, rate: int, now: real)
    ensures Filled(b, rate, now) == Level(b, rate, now)
  {
    RefillIs(rate, now - b.lastRefill);
  }

  class RateLimiter {
    var buckets: Buckets

    constructor ()
      ensures buckets == map[]
    {
      buckets := map[];
    }

    method Try(a: Attempt) returns (granted: bool)
      modifies this
      ensures buckets == Tried(old(buckets), a) && granted == Granted(old(buckets), a)
      ensures var b := if a.key in old(buckets) then old(buckets)[a.key] else Bucket(0.0, a.created);
              && (granted <==> Filled(b, a.rate, a.now) >= 1.0)
              && buckets == old(buckets)[a.key := Bucket(Filled(b, a.rate, a.now) - (if granted then 1.0 else 0.0), a.now)]
    {
      if a.key !in buckets {
        buckets := buckets[a.key := Bucket(0.0, a.created)];
      }
      var b := buckets[a.key];
      var tokens := Filled(b, a.rate, a.now);
      FilledIs(b, a.rate, a.now);
      granted := tokens >= 1.0;
      buckets := buckets[a.key := Bucket(if granted then tokens - 1.0 else tokens, a.now)];
    }

    /** Turns of other callers. */
    method TryAll(attempts: seq<Attempt>)
      modifies this
      ensures buckets == After(old(buckets), attempts)
    {
      for i := 0 to |attempts|
        invariant buckets == After(old(buckets), attempts[..i])
      {
        OneMore(old(buckets), attempts[..i], attempts[i]);
        assert attempts[..i + 1] == attempts[..i] + [attempts[i]];
        var granted := Try(attempts[i]);
      }
      assert attempts[..|attempts|] == attempts;
    }

    method PollOnce(poll: Poll) returns (granted: bool)
      modifies this
      ensures buckets == Tried(After(old(buckets), poll.others), poll.own)
      ensures granted == Granted(After(old(buckets), poll.others), poll.own)
    {
      TryAll(poll.others);
      granted := Try(poll.own);
    }

    /** Polls until a token is deducted, while others use the limiter whenever the lock is free.
        Every poll before the last is refused; the last is granted, or the caller is no longer
        watched. */
    method Acquire(polls: seq<Poll>) returns (turns: nat, granted: bool)
      modifies this
      ensures turns <= |polls| && (!granted ==> turns == |polls|)
      ensures buckets == After(old(buckets), Turns(polls[..turns]))
      ensures granted <==> turns > 0 && Served(old(buckets), polls, turns - 1)
      ensures forall i: nat | i < (if granted then turns - 1 else turns) :: !Served(old(buckets), polls, i)
    {
      turns, granted := 0, false;
      while turns < |polls|
        invariant turns <= |polls| && !granted && buckets == After(old(buckets), Turns(polls[..turns]))
        invariant forall i: nat | i < turns :: !Served(old(buckets), polls, i)
      {
        TurnsNext(old(buckets), polls, turns);
        granted := PollOnce(polls[turns]);
        turns := turns + 1;
        if granted {
          return;
        }
      }
    }
  }

  // ---------------------------------------------------------------- bounds

  /** What key k could spend at time t. */
  function Available(buckets: Buckets, k: Key, rate: int, t: real): real {
    if k in buckets then Level(buckets[k], rate, t) else 0.0
  }

  lemma {:induction false} Later(rate: nat, a: real, b: real, c: real)
    ensures Refill(rate, c - a) == Refill(rate, b - a) + Refill(rate, c - b)
    decreases rate
  {
    if rate > 0 {
      Later(rate - 1, a, b, c);
    }
  }

  lemma {:induction false} Grows(rate: nat, d: real)
    requires d >= 0.0
    ensures Refill(rate, d) >= 0.0
    decreases rate
  {
    if rate > 0 {
      Grows(rate - 1, d);
    }
  }

  lemma {:induction false} NoTime(rate: nat)
    ensures Refill(rate, 0.0) == 0.0
    decreases rate
  {
    if rate > 0 {
      NoTime(rate - 1);
    }
  }

  /** Waiting from t to u adds at most the refill. */
  lemma AvailableLater(buckets: Buckets, k: Key, rate: int, t: real, u: real)
    requires rate >= 1 && BucketOk(buckets, k, rate, t) && t <= u
    ensures 0.0 <= Available(buckets, k, rate, t) <= Available(buckets, k, rate, u) <= rate as real
    ensures Available(buckets, k, rate, u) <= Available(buckets, k, rate, t) + Refill(rate, u - t)
  {
    Grows(rate, u - t);
    if k in buckets {
      Grows(rate, t - buckets[k].lastRefill);
      Later(rate, buckets[k].lastRefill, t, u);
    }
  }

  /** A turn spends exactly what it grants, keeps the bucket within its capacity, and leaves
      the other buckets alone. */
  lemma TurnSpends(buckets: Buckets, a: Attempt, k: Key, rate: int, t: real)
    requires rate >= 1 && BucketOk(buckets, k, rate, t) && t <= a.created <= a.now && (a.key == k ==> a.rate == rate)
    ensures BucketOk(Tried(buckets, a), k, rate, a.now)
    ensures Available(Tried(buckets, a), k, rate, a.now) + (if a.key == k && Granted(buckets, a) then 1.0 else 0.0)
              <= Available(buckets, k, rate, t) + Refill(rate, a.now - t)
    ensures Available(Tried(buckets, a), k, rate, a.now) + (if a.key == k && Granted(buckets, a) then 1.0 else 0.0) <= rate as real
  {
    AvailableLater(buckets, k, rate, t, a.now);
    if a.key == k {
      if k !in buckets {
        Grows(rate, a.now - a.created);
        Grows(rate, a.created - t);
        Later(rate, t, a.created, a.now);
      }
      var b := Tried(buckets, a)[k];
      NoTime(rate);
    }
  }

  /** Conservation: grants plus what is left never exceed what there was plus the refill. */
  lemma {:induction false} Spending(buckets: Buckets, attempts: seq<Attempt>, k: Key, rate: int, t: real)
    requires rate >= 1 && BucketOk(buckets, k, rate, t) && Clocked(attempts, t) && RateOf(attempts, k, rate)
    ensures t <= End(attempts, t) && BucketOk(After(buckets, attempts), k, rate, End(attempts, t))
    ensures Grants(buckets, attempts, k) as real + Available(After(buckets, attempts), k, rate, End(attempts, t))
              <= Available(buckets, k, rate, t) + Refill(rate, End(attempts, t) - t)
    decreases |attempts|
  {
    NoTime(rate);
    if attempts != [] {
      var a := attempts[0];
      var rest := attempts[1..];
      assert RateOf(rest, k, rate) by {
        forall i | 0 <= i < |rest| && rest[i].key == k ensures rest[i].rate == rate {
          assert rest[i] == attempts[i + 1];
        }
      }
      TurnSpends(buckets, a, k, rate, t);
      Spending(Tried(buckets, a), rest, k, rate, a.now);
      Later(rate, t, a.now, End(rest, a.now));
      assert End(attempts, t) == End(rest, a.now);
    }
  }

  /** Over every history of callers and keys, a bucket stays between empty and full. */
  lemma TokensInRange(history: seq<Attempt>, k: Key, rate: int, t: real)
    requires rate >= 1 && Clocked(history, t) && RateOf(history, k, rate) && k in After(map[], history)
    ensures 0.0 <= After(map[], history)[k].tokens <= rate as real
  {
    Spending(map[], history, k, rate, t);
  }

  lemma ClockedWindow(history: seq<Attempt>, i: nat, j: nat, t: real)
    requires Clocked(history, t) && i < j <= |history|
    ensures Clocked(history[..i], t) && Clocked(history[i..j], End(history[..i], t))
  {
    var before, window := history[..i], history[i..j];
    assert history == before + (window + history[j..]);
    AfterSplit(map[], before, window + history[j..], t);
    AfterSplit(map[], window, history[j..], End(before, t));
  }

  lemma WindowFrom(buckets: Buckets, window: seq<Attempt>, k: Key, rate: int, t: real)
    requires rate >= 1 && BucketOk(buckets, k, rate, t) && window != [] && Clocked(window, t) && RateOf(window, k, rate)
    ensures Grants(buckets, window, k) as real
              <= rate as real + Refill(rate, window[|window| - 1].now - window[0].now)
  {
    var a, rest := window[0], window[1..];
    TurnSpends(buckets, a, k, rate, t);
    assert RateOf(rest, k, rate) by {
      forall i | 0 <= i < |rest| && rest[i].key == k ensures rest[i].rate == rate {
        assert rest[i] == window[i + 1];
      }
    }
    Spending(Tried(buckets, a), rest, k, rate, a.now);
    AvailableLater(After(Tried(buckets, a), rest), k, rate, End(rest, a.now), End(rest, a.now));
    assert End(rest, a.now) == window[|window| - 1].now;
  }

  lemma WindowRefill(history: seq<Attempt>, i: nat, j: nat, k: Key, rate: int, t: real)
    requires rate >= 1 && Clocked(history, t) && RateOf(history, k, rate) && i < j <= |history|
    ensures Grants(After(map[], history[..i]), history[i..j], k) as real
              <= rate as real + Refill(rate, history[j - 1].now - history[i].now)
  {
    ClockedWindow(history, i, j, t);
    Spending(map[], history[..i], k, rate, t);
    WindowFrom(After(map[], history[..i]), history[i..j], k, rate, End(history[..i], t));
  }

  lemma {:induction false} SinceRefill(buckets: Buckets, history: seq<Attempt>, i: nat, k: Key, rate: int, t: real)
    requires rate >= 1 && Clocked(history, t) && RateOf(history, k, rate) && k !in buckets
    requires i < |history| && history[i].key == k && forall j | 0 <= j < i :: history[j].key != k
    ensures Grants(buckets, history, k) as real
              <= Refill(rate, history[|history| - 1].now - history[i].created)
    decreases |history|
  {
    var a, rest := history[0], history[1..];
    if i == 0 {
      assert Clocked(history, a.created);
      Spending(buckets, history, k, rate, a.created);
      AvailableLater(After(buckets, history), k, rate, End(history, a.created), End(history, a.created));
    } else {
      assert RateOf(rest, k, rate) by {
        forall j | 0 <= j < |rest| && rest[j].key == k ensures rest[j].rate == rate {
          assert rest[j] == history[j + 1];
        }
      }
      forall j | 0 <= j < i - 1 ensures rest[j].key != k {
        assert rest[j] == history[j + 1];
      }
      assert history[0].key != k;
      SinceRefill(Tried(buckets, a), rest, i - 1, k, rate, a.now);
    }
  }

  // ----------------------------------------------------- in closed form

  lemma ClosedForm(grants: real, capacity: real, rate: int, seconds: real)
    requires grants <= capacity + Refill(rate, seconds)
    ensures grants <= capacity + rate as real * seconds / 60.0
  {
    RefillIs(rate, seconds);
  }

  /** Grants for a key among the attempts from i up to j of a history that starts with no
      buckets: over the seconds between the first and the last, at most the rate plus the
      refill of that time. */
  lemma WindowBound(history: seq<Attempt>, i: nat, j: nat, k: Key, rate: int, t: real, seconds: real)
    requires rate >= 1 && Clocked(history, t) && RateOf(history, k, rate) && i < j <= |history|
    requires seconds == history[j - 1].now - history[i].now
    ensures Grants(After(map[], history[..i]), history[i..j], k) as real <= rate as real + rate as real * seconds / 60.0
  {
    WindowRefill(history, i, j, k, rate, t);
    ClosedForm(Grants(After(map[], history[..i]), history[i..j], k) as real, rate as real, rate, seconds);
  }

  /** A bucket starts empty, so over the seconds since the creation of a key's bucket grants stay
      within the refill alone. */
  lemma SinceCreation(history: seq<Attempt>, i: nat, k: Key, rate: int, t: real, seconds: real)
    requires rate >= 1 && Clocked(history, t) && RateOf(history, k, rate)
    requires i < |history| && history[i].key == k && forall j | 0 <= j < i :: history[j].key != k
    requires seconds == history[|history| - 1].now - history[i].created
    ensures Grants(map[], history, k) as real <= rate as real * seconds / 60.0
  {
    SinceRefill(map[], history, i, k, rate, t);
    ClosedForm(Grants(map[], history, k) as real, 0.0, rate, seconds);
  }

  // ------------------------------------------------------- tight and alive

  function Burst(k: Key, rate: int, now: real, n: nat): seq<Attempt> {
    seq(n, i requires 0 <= i < n => Attempt(k, rate, now, now))
  }

  /** At one instant a bucket holding at least n tokens, and fewer than n + 1, grants exactly n
      of any larger number of attempts; a full one grants its whole rate at once. */
  lemma {:induction false} BurstExact(buckets: Buckets, k: Key, rate: int, now: real, n: nat, tries: nat)
    requires rate >= 1 && k in buckets && buckets[k].lastRefill == now && n <= tries
    requires n as real <= buckets[k].tokens < n as real + 1.0 && buckets[k].tokens <= rate as real
    ensures Grants(buckets, Burst(k, rate, now, tries), k) == n
    decreases tries
  {
    if tries > 0 {
      var burst := Burst(k, rate, now, tries);
      assert burst[1..] == Burst(k, rate, now, tries - 1);
      NoTime(rate);
      assert Level(buckets[k], rate, now) == buckets[k].tokens;
      BurstExact(Tried(buckets, burst[0]), k, rate, now, if n > 0 then n - 1 else 0, tries - 1);
    }
  }

  /** Without a grant nothing is spent, so all the refill is still there. */
  lemma {:induction false} Accumulates(buckets: Buckets, history: seq<Attempt>, k: Key, rate: int, t: real)
    requires rate >= 1 && k in buckets && RateOf(history, k, rate)
    requires history != [] && history[|history| - 1].key == k && Grants(buckets, history, k) == 0
    ensures buckets[k].tokens + Refill(rate, End(history, t) - buckets[k].lastRefill) < 1.0
    decreases |history|
  {
    var a, rest := history[0], history[1..];
    var b := buckets[k];
    if rest != [] {
      assert RateOf(rest, k, rate) by {
        forall i | 0 <= i < |rest| && rest[i].key == k ensures rest[i].rate == rate {
          assert rest[i] == history[i + 1];
        }
      }
      Accumulates(Tried(buckets, a), rest, k, rate, a.now);
      Later(rate, b.lastRefill, a.now, End(rest, a.now));
    }
  }

  /** A key is refused only while less than one token's time, 60 / rate seconds, has passed:
      whatever other keys do in between, attempts on a key from t on that end with one on it
      and are never granted span less than that. */
  lemma RefusedOnlyBriefly(buckets: Buckets, history: seq<Attempt>, k: Key, rate: int, t: real)
    requires rate >= 1 && BucketOk(buckets, k, rate, t) && k in buckets && RateOf(history, k, rate)
    requires history != [] && history[|history| - 1].key == k && Grants(buckets, history, k) == 0
    ensures Refill(rate, End(history, t) - t) < 1.0
  {
    var b := buckets[k];
    Accumulates(buckets, history, k, rate, t);
    Later(rate, b.lastRefill, t, End(history, t));
    Grows(rate, t - b.lastRefill);
  }

  /** A key whose rate is below one is never granted anything, in any history. */
  lemma {:induction false} NeverBelowOne(buckets: Buckets, history: seq<Attempt>, k: Key)
    requires forall i | 0 <= i < |history| && history[i].key == k :: history[i].rate < 1
    ensures Grants(buckets, history, k) == 0
    decreases |history|
  {
    if history != [] {
      var rest := history[1..];
      forall i | 0 <= i < |rest| && rest[i].key == k ensures rest[i].rate < 1 {
        assert rest[i] == history[i + 1];
      }
      assert history[0].key == k ==> history[0].rate < 1;
      NeverBelowOne(Tried(buckets, history[0]), rest, k);
    }
  }
}
