/** The sliding-window rate limiter of the client: a log of admission
    timestamps, pruned from the front as entries leave the window, to which
    a caller's clock reading is appended when fewer than `limit` entries
    remain. One iteration of the blocking `acquire` loop is modelled as a
    pure step that takes the clock reading as an argument and, instead of
    sleeping, hands the computed delay back to its environment. */
module RateLimiter {

  import opened JavaLong
  import opened Results

  /** The limiter's state: the window length in milliseconds, the capacity,
      and the admission log, oldest entry first. */
  datatype Limiter = Limiter(window: Long, limit: Int, log: seq<Millis>)

  /** What one iteration of the acquire loop does: admit the caller, loop
      again at once, or sleep for `waitFor` milliseconds and loop again. */
  datatype Outcome =
    | Admitted(next: Limiter)
    | Retry(next: Limiter)
    | Wait(next: Limiter, waitFor: Long)

  /** A positive `long` number of milliseconds to sleep. */
  type Delay = x: int | 0 < x <= LONG_MAX witness 1

  const WINDOW_MESSAGE: string := "Window time must be positive"
  const LIMIT_MESSAGE: string := "Limit must be positive"

  /** The configuration every constructed limiter has. */
  predicate Configured(l: Limiter)
  {
    l.window > 0 && l.limit > 0
  }

  predicate Sorted(s: seq<int>)
  {
    forall i, j :: 0 <= i <= j < |s| ==> s[i] <= s[j]
  }

  /** No entry of the log lies after the clock reading `now`. */
  predicate NotAhead(log: seq<Millis>, now: Millis)
  {
    forall i :: 0 <= i < |log| ==> log[i] <= now
  }

  /** The state a limiter keeps at clock reading `now` when it is driven by a
      clock that never runs backwards: configured, within capacity, ordered,
      and with no entry from the future. */
  predicate Good(l: Limiter, now: Millis)
  {
    && Configured(l)
    && |l.log| <= l.limit
    && Sorted(l.log)
    && NotAhead(l.log, now)
  }

  /** The limiter constructor: the window is checked before the limit, and a
      new limiter starts with an empty log. */
  function New(windowMillis: Long, limit: Int): (r: Result<Limiter>)
    ensures r.Ok? <==> windowMillis > 0 && limit > 0
    ensures r.Ok? ==> Good(r.value, 0) && r.value.log == []
    ensures r.Ok? ==> r.value.window == windowMillis && r.value.limit == limit
    ensures windowMillis <= 0 ==> r == IllegalArgument(WINDOW_MESSAGE)
    ensures windowMillis > 0 && limit <= 0 ==> r == IllegalArgument(LIMIT_MESSAGE)
  {
    if windowMillis <= 0 then IllegalArgument(WINDOW_MESSAGE)
    else if limit <= 0 then IllegalArgument(LIMIT_MESSAGE)
    else Ok(Limiter(windowMillis, limit, []))
  }

  /** An entry is stale at `now` once `now - t`, in `long` arithmetic, has
      reached the window length. */
  predicate Stale(window: Long, now: Millis, t: Millis)
  {
    Sub(now, t) >= window
  }

  /** How many entries at the front of the log `cleanOld(now)` removes: it
      stops at the first fresh entry, or when the log is empty. */
  function StalePrefix(window: Long, log: seq<Millis>, now: Millis): (k: nat)
    ensures k <= |log|
    ensures forall i :: 0 <= i < k ==> Stale(window, now, log[i])
    ensures k < |log| ==> !Stale(window, now, log[k])
    decreases |log|
  {
    if log == [] then 0
    else if Stale(window, now, log[0]) then 1 + StalePrefix(window, log[1..], now)
    else 0
  }

  /** `cleanOld(now)`: the log with its stale front removed. */
  function Prune(window: Long, log: seq<Millis>, now: Millis): seq<Millis>
  {
    log[StalePrefix(window, log, now)..]
  }

  /** One iteration of the acquire loop at clock reading `now`: prune; admit
      when there is room; otherwise compute how long until the oldest entry
      leaves the window, and either sleep that long or, when the delay is not
      positive, prune again and loop at once. */
  function Step(l: Limiter, now: Millis): (r: Outcome)
    requires Configured(l)
    ensures r.next.window == l.window && r.next.limit == l.limit
    ensures r.Wait? ==> 0 < r.waitFor
  {
    var pruned := Prune(l.window, l.log, now);
    if |pruned| < l.limit then
      Admitted(l.(log := pruned + [now]))
    else
      var oldest := pruned[0];
      var waitFor := Sub(l.window, Sub(now, oldest));
      if waitFor <= 0 then
        Retry(l.(log := Prune(l.window, pruned, now)))
      else
        Wait(l.(log := pruned), waitFor)
  }

  /** A suffix of an ordered log with no future entry is again such a log. */
  lemma OrderedSuffix(log: seq<Millis>, k: nat, now: Millis)
    requires k <= |log| && Sorted(log) && NotAhead(log, now)
    ensures Sorted(log[k..]) && NotAhead(log[k..], now)
  {
    assert forall i :: 0 <= i < |log| - k ==> log[k..][i] == log[k + i];
  }

  /** Appending the current reading to an ordered log with no future entry
      keeps it ordered. */
  lemma OrderedAppend(log: seq<Millis>, now: Millis)
    requires Sorted(log) && NotAhead(log, now)
    ensures Sorted(log + [now]) && NotAhead(log + [now], now)
  {
  }

  /** The entries of the log still inside the window at `now`, in order:
      what pruning should leave when the log is ordered. */
  function Fresh(window: Long, log: seq<Millis>, now: Millis): seq<Millis>
  {
    if log == [] then []
    else (if Stale(window, now, log[0]) then [] else [log[0]]) + Fresh(window, log[1..], now)
  }

  /** Pruning keeps a suffix of the log: what it removes is a run of stale
      entries at the front, and the first entry it keeps, if any, is fresh. */
  lemma PruneKeepsSuffix(window: Long, log: seq<Millis>, now: Millis)
    ensures var p := Prune(window, log, now);
            && |p| <= |log| && p == log[|log| - |p|..]
            && (forall i :: 0 <= i < |log| - |p| ==> Stale(window, now, log[i]))
            && (p != [] ==> !Stale(window, now, p[0]))
  {
  }

  /** On an ordered log every entry pruning keeps is fresh. */
  lemma PruneSortedKeepsOnlyFresh(window: Long, log: seq<Millis>, now: Millis)
    requires Sorted(log)
    ensures var p := Prune(window, log, now);
            forall i :: 0 <= i < |p| ==> !Stale(window, now, p[i])
  {
    var p := Prune(window, log, now);
    forall i | 0 <= i < |p|
      ensures !Stale(window, now, p[i])
    {
      assert p[i] == log[StalePrefix(window, log, now) + i];
      assert p[0] <= p[i];
    }
  }

  lemma {:induction false} FreshOfAllFresh(window: Long, log: seq<Millis>, now: Millis)
    requires forall i :: 0 <= i < |log| ==> !Stale(window, now, log[i])
    ensures Fresh(window, log, now) == log
    decreases |log|
  {
    if log != [] {
      FreshOfAllFresh(window, log[1..], now);
      assert [log[0]] + log[1..] == log;
    }
  }

  /** On an ordered log, dropping stale entries from the front keeps exactly
      the entries that are inside the window: no fresh entry is lost and no
      stale entry survives. */
  lemma {:induction false} PruneSortedIsFresh(window: Long, log: seq<Millis>, now: Millis)
    requires Sorted(log)
    ensures Prune(window, log, now) == Fresh(window, log, now)
    decreases |log|
  {
    if log != [] {
      if Stale(window, now, log[0]) {
        assert log[1..][StalePrefix(window, log[1..], now)..] == log[1 + StalePrefix(window, log[1..], now)..];
        PruneSortedIsFresh(window, log[1..], now);
      } else {
        PruneSortedKeepsOnlyFresh(window, log, now);
        FreshOfAllFresh(window, log, now);
      }
    }
  }

  /** Pruning twice at the same clock reading prunes nothing more. */
  lemma PruneIdempotent(window: Long, log: seq<Millis>, now: Millis)
    ensures Prune(window, Prune(window, log, now), now) == Prune(window, log, now)
  {
    var p := Prune(window, log, now);
    if p != [] {
      assert StalePrefix(window, p, now) == 0;
    }
  }

  /** A step admits exactly when the pruned log has room, and then appends
      the clock reading at the tail; otherwise the log changes only by the
      prune. */
  lemma StepAdmission(l: Limiter, now: Millis)
    requires Configured(l)
    ensures var p := Prune(l.window, l.log, now);
            var r := Step(l, now);
            && (r.Admitted? <==> |p| < l.limit)
            && (r.Admitted? ==> r.next.log == p + [now] && |r.next.log| == |p| + 1 <= l.limit)
            && (!r.Admitted? ==> r.next.log == p && l.limit <= |p|)
  {
    PruneIdempotent(l.window, l.log, now);
  }

  /** An admission leaves the clock reading at the tail of a log within
      capacity. */
  lemma StepAdmitsNow(l: Limiter, now: Millis)
    requires Configured(l)
    ensures var r := Step(l, now);
            r.Admitted? ==> |r.next.log| <= l.limit && r.next.log != [] && r.next.log[|r.next.log| - 1] == now
  {
  }

  /** When the caller has to sleep, the delay is the time until the oldest
      entry leaves the window, computed without overflow; it is at most the
      window exactly when the oldest entry is not in the future. */
  lemma StepWaitFor(l: Limiter, now: Millis)
    requires Configured(l)
    ensures var r := Step(l, now);
            r.Wait? ==>
              && r.next.log != []
              && 0 < r.waitFor == l.window - (now - r.next.log[0])
              && (r.waitFor <= l.window <==> r.next.log[0] <= now)
  {
  }

  /** The immediate re-check (`waitFor <= 0`) happens exactly when the log is
      full and its oldest entry lies so far after `now` that
      `windowMillis - (now - oldest)` overflows a `long`. */
  lemma StepRetryIff(l: Limiter, now: Millis)
    requires Configured(l)
    ensures var p := Prune(l.window, l.log, now);
            Step(l, now).Retry? <==> l.limit <= |p| && p[0] - now > LONG_MAX - l.window
  {
  }

  /** A full log whose single entry is at the end of time, read at time 0
      with a one-millisecond window, takes the re-check branch. */
  lemma RetryThroughOverflow()
    ensures Step(Limiter(1, 1, [LONG_MAX]), 0).Retry?
  {
    assert Prune(1, [LONG_MAX], 0) == [LONG_MAX];
  }

  /** While no entry lies after the clock reading, the re-check branch is
      unreachable and any delay is at most one window. */
  lemma NoRetryWhenNotAhead(l: Limiter, now: Millis)
    requires Configured(l) && NotAhead(l.log, now)
    ensures !Step(l, now).Retry?
    ensures Step(l, now).Wait? ==> Step(l, now).waitFor <= l.window
  {
    var p := Prune(l.window, l.log, now);
    StepRetryIff(l, now);
    PruneKeepsSuffix(l.window, l.log, now);
    if p != [] {
      assert p[0] == l.log[|l.log| - |p|];
    }
  }

  /** A step at `now` keeps the limiter configured, within capacity, ordered
      and free of future entries. */
  lemma StepKeepsGood(l: Limiter, now: Millis)
    requires Good(l, now)
    ensures Good(Step(l, now).next, now)
  {
    var p := Prune(l.window, l.log, now);
    PruneKeepsSuffix(l.window, l.log, now);
    OrderedSuffix(l.log, |l.log| - |p|, now);
    StepAdmission(l, now);
    if Step(l, now).Admitted? {
      OrderedAppend(p, now);
    }
  }

  /** A later clock reading keeps a good limiter good. */
  lemma GoodLater(l: Limiter, now: Millis, later: Millis)
    requires Good(l, now) && now <= later
    ensures Good(l, later)
  {
  }

  /** A good limiter stepped at a later reading stays good, never loops at
      once, and sleeps at most one window. */
  lemma StepLater(l: Limiter, before: Millis, now: Millis)
    requires Good(l, before) && before <= now
    ensures Good(Step(l, now).next, now)
    ensures !Step(l, now).Retry?
    ensures Step(l, now).Wait? ==> Step(l, now).waitFor <= l.window
  {
    GoodLater(l, before, now);
    StepKeepsGood(l, now);
    NoRetryWhenNotAhead(l, now);
  }

  /** After a step that sleeps, and with no other caller admitted meanwhile,
      the next step admits exactly when the clock has advanced by at least
      the delay: the delay is neither too short nor longer than needed. */
  lemma WaitIsExact(l: Limiter, now: Millis, later: Millis)
    requires Good(l, now) && now <= later
    requires Step(l, now).Wait?
    ensures var r := Step(l, now);
            Step(r.next, later).Admitted? <==> now + r.waitFor <= later
  {
    var r := Step(l, now);
    StepAdmission(l, now);
    StepWaitFor(l, now);
    FullAdmitsWhenHeadStale(r.next, later);
  }

  /** On a full log, a step admits exactly when the oldest entry has become
      stale. */
  lemma FullAdmitsWhenHeadStale(l: Limiter, now: Millis)
    requires Configured(l) && |l.log| == l.limit
    ensures Step(l, now).Admitted? <==> Stale(l.window, now, l.log[0])
  {
    StepAdmission(l, now);
    assert StalePrefix(l.window, l.log, now) > 0 <==> Stale(l.window, now, l.log[0]);
  }

  /** `acquire()`: repeat the loop iteration, reading the clock afresh each
      time, until the caller is admitted. The readings the clock will give
      are the argument; if they run out first the caller is still waiting.
      Returns the limiter afterwards, the delays slept, whether the caller
      was admitted, and how many readings were taken. When the clock never
      runs backwards and starts no earlier than the log's entries, the
      limiter stays good and no delay exceeds one window. */
  method Acquire(l: Limiter, clock: seq<Millis>)
    returns (next: Limiter, waits: seq<Delay>, admitted: bool, used: nat)
    requires Configured(l)
    ensures used <= |clock| && |waits| <= used
    ensures next.window == l.window && next.limit == l.limit
    ensures !admitted ==> used == |clock|
    ensures admitted ==> 0 < used && next.log != [] && next.log[|next.log| - 1] == clock[used - 1]
    ensures admitted ==> |next.log| <= l.limit
    ensures Sorted(clock) && 0 < |clock| && Good(l, clock[0]) ==>
              && 0 < used
              && Good(next, clock[used - 1])
              && forall i :: 0 <= i < |waits| ==> waits[i] <= l.window
  {
    ghost var monotone := Sorted(clock) && 0 < |clock| && Good(l, clock[0]);
    next, waits, admitted, used := l, [], false, 0;
    while used < |clock|
      invariant used <= |clock| && |waits| <= used
      invariant Configured(next) && next.window == l.window && next.limit == l.limit
      invariant monotone ==> Good(next, clock[if used == 0 then 0 else used - 1])
      invariant monotone ==> forall i :: 0 <= i < |waits| ==> waits[i] <= l.window
    {
      var now := clock[used];
      if monotone {
        StepLater(next, clock[if used == 0 then 0 else used - 1], now);
      }
      StepAdmitsNow(next, now);
      var r := Step(next, now);
      next, used := r.next, used + 1;
      match r
      case Admitted(_) =>
        admitted := true;
        return;
      case Retry(_) =>
      case Wait(_, waitFor) =>
        waits := waits + [waitFor];
    }
  }
}
