/** Many callers. Every iteration of the acquire loop runs while holding the
    limiter's lock, so whatever the threads do, the limiter sees one
    iteration after another, each at its own clock reading. A run is such a
    sequence; the theorems here hold for every interleaving of callers. */
module Safety {

  import opened JavaLong
  import opened Results
  import opened RateLimiter
  import opened Windows

  /** What a series of loop iterations leaves behind: the final limiter and
      the clock readings admitted along the way, in order. */
  datatype Trace = Trace(final: Limiter, admitted: seq<Millis>)

  /** One more loop iteration, at clock reading `now`. */
  function Extend(t: Trace, now: Millis): (t': Trace)
    requires Configured(t.final)
    ensures Configured(t'.final)
    ensures t'.final.window == t.final.window && t'.final.limit == t.final.limit
    ensures |t'.admitted| <= |t.admitted| + 1
  {
    var r := Step(t.final, now);
    Trace(r.next, t.admitted + if r.Admitted? then [now] else [])
  }

  /** The loop iterations at the first `n` clock readings, one after another. */
  function Run(l: Limiter, clocks: seq<Millis>, n: nat): (t: Trace)
    requires Configured(l) && n <= |clocks|
    ensures Configured(t.final)
    ensures t.final.window == l.window && t.final.limit == l.limit
    ensures |t.admitted| <= n
  {
    if n == 0 then Trace(l, [])
    else Extend(Run(l, clocks, n - 1), clocks[n - 1])
  }

  /** The bookkeeping that ties a log to the history `h` of admissions at
      clock reading `now`: the log is the tail of the history, everything
      before it has left the window, the history is ordered and not in the
      future, and no window holds more than `limit` admissions. */
  ghost predicate Ledger(h: seq<Millis>, log: seq<Millis>, now: Millis, window: Long, limit: Int)
  {
    && |log| <= |h|
    && log == h[|h| - |log|..]
    && Sorted(h)
    && NotAhead(h, now)
    && (forall i :: 0 <= i < |h| - |log| ==> now - h[i] >= window)
    && AtMostPerWindow(h, window, limit)
  }

  ghost predicate Accounted(t: Trace, now: Millis)
  {
    Ledger(t.admitted, t.final.log, now, t.final.window, t.final.limit)
  }

  lemma LedgerEmpty(now: Millis, window: Long, limit: Int)
    requires 0 <= limit
    ensures Ledger([], [], now, window, limit)
  {
  }

  lemma LedgerLater(h: seq<Millis>, log: seq<Millis>, now: Millis, later: Millis, window: Long, limit: Int)
    requires Ledger(h, log, now, window, limit) && now <= later
    ensures Ledger(h, log, later, window, limit)
  {
  }

  /** Pruning `k` stale entries off the front of the log keeps the ledger. */
  lemma LedgerPrune(h: seq<Millis>, log: seq<Millis>, k: nat, now: Millis, window: Long, limit: Int)
    requires Ledger(h, log, now, window, limit)
    requires k <= |log|
    requires forall i :: 0 <= i < k ==> now - log[i] >= window
    ensures Ledger(h, log[k..], now, window, limit)
  {
    var m := |h| - |log|;
    assert log[k..] == h[m + k..];
    forall i | m <= i < m + k
      ensures now - h[i] >= window
    {
      assert h[i] == log[i - m];
    }
  }

  /** Admitting `now` when fewer than `limit` entries remain keeps the ledger. */
  lemma LedgerAdmit(h: seq<Millis>, log: seq<Millis>, now: Millis, window: Long, limit: Int)
    requires Ledger(h, log, now, window, limit)
    requires |log| < limit
    ensures Ledger(h + [now], log + [now], now, window, limit)
  {
    var m := |h| - |log|;
    var h' := h + [now];
    assert log + [now] == h'[m..];
    OrderedAppend(h, now);
    AppendKeepsAtMost(h, window, limit, now, m);
  }

  /** One more iteration either admits `now` onto the pruned log or leaves
      just the pruned log. */
  lemma ExtendShape(t: Trace, now: Millis)
    requires Configured(t.final)
    ensures var p := Prune(t.final.window, t.final.log, now);
            Extend(t, now) ==
              if |p| < t.final.limit then Trace(t.final.(log := p + [now]), t.admitted + [now])
              else Trace(t.final.(log := p), t.admitted)
  {
    StepAdmission(t.final, now);
    assert t.admitted + [] == t.admitted;
  }

  /** Pruning `k` stale entries and then admitting `now` if there is room
      keeps the ledger. */
  lemma LedgerStep(h: seq<Millis>, log: seq<Millis>, k: nat, now: Millis, window: Long, limit: Int)
    requires Ledger(h, log, now, window, limit)
    requires k <= |log|
    requires forall i :: 0 <= i < k ==> now - log[i] >= window
    ensures |log[k..]| < limit ==> Ledger(h + [now], log[k..] + [now], now, window, limit)
    ensures limit <= |log[k..]| ==> Ledger(h, log[k..], now, window, limit)
  {
    LedgerPrune(h, log, k, now, window, limit);
    if |log[k..]| < limit {
      LedgerAdmit(h, log[k..], now, window, limit);
    }
  }

  /** One loop iteration keeps the bookkeeping. */
  lemma StepAccounted(t: Trace, now: Millis)
    requires Configured(t.final) && Accounted(t, now)
    ensures Accounted(Extend(t, now), now)
  {
    var l, h := t.final, t.admitted;
    var k := StalePrefix(l.window, l.log, now);
    var p := l.log[k..];
    assert p == Prune(l.window, l.log, now);
    assert Ledger(h, l.log, now, l.window, l.limit);
    LedgerStep(h, l.log, k, now, l.window, l.limit);
    ExtendShape(t, now);
  }

  lemma {:induction false} RunAccounted(l: Limiter, clocks: seq<Millis>, n: nat)
    requires Configured(l) && l.log == [] && Sorted(clocks)
    requires 0 < n <= |clocks|
    ensures Accounted(Run(l, clocks, n), clocks[n - 1])
  {
    var before := Run(l, clocks, n - 1);
    if n == 1 {
      LedgerEmpty(clocks[0], l.window, l.limit);
    } else {
      RunAccounted(l, clocks, n - 1);
      LedgerLater(before.admitted, before.final.log, clocks[n - 2], clocks[n - 1], l.window, l.limit);
    }
    StepAccounted(before, clocks[n - 1]);
  }

  /** The limiter's safety promise: however the callers interleave, as long
      as the clock never runs backwards, the admissions of a new limiter are
      ordered and no window of `windowMillis` milliseconds holds more than
      `limit` of them. */
  lemma SafetyTheorem(windowMillis: Long, limit: Int, l: Limiter, clocks: seq<Millis>)
    requires New(windowMillis, limit) == Ok(l)
    requires Sorted(clocks)
    ensures Sorted(Run(l, clocks, |clocks|).admitted)
    ensures AtMostPerWindow(Run(l, clocks, |clocks|).admitted, windowMillis, limit)
  {
    if clocks != [] {
      RunAccounted(l, clocks, |clocks|);
    }
  }

  /** Any two admissions of the history are at least `window` apart. */
  ghost predicate Spaced(h: seq<Millis>, window: Long)
  {
    forall i, j :: 0 <= i < j < |h| ==> h[j] - h[i] >= window
  }

  /** With a limit of one, the log is empty before the first admission and
      afterwards holds exactly the latest admission. */
  ghost predicate HoldsLatest(t: Trace)
  {
    if t.admitted == [] then t.final.log == []
    else t.final.log == [t.admitted[|t.admitted| - 1]]
  }

  /** Appending a reading at least one window after the latest entry keeps
      a history spaced. */
  lemma SpacedAppend(h: seq<Millis>, now: Millis, window: Long)
    requires 0 < window && Spaced(h, window)
    requires h != [] ==> now - h[|h| - 1] >= window
    ensures Spaced(h + [now], window)
  {
    var h' := h + [now];
    forall i, j | 0 <= i < j < |h'|
      ensures h'[j] - h'[i] >= window
    {
      if j == |h| && i < |h| - 1 {
        assert h[|h| - 1] - h[i] >= window;
      }
    }
  }

  /** With a limit of one, an iteration at any clock reading admits only a
      reading at least one window after the latest admission. */
  lemma ExtendSerial(t: Trace, now: Millis)
    requires Configured(t.final) && t.final.limit == 1
    requires HoldsLatest(t) && Spaced(t.admitted, t.final.window)
    ensures HoldsLatest(Extend(t, now)) && Spaced(Extend(t, now).admitted, t.final.window)
  {
    var l, h := t.final, t.admitted;
    var p := Prune(l.window, l.log, now);
    assert p == [] || p == l.log by {
      PruneKeepsSuffix(l.window, l.log, now);
    }
    assert p == [] && h != [] ==> now - h[|h| - 1] >= l.window by {
      if p == [] && h != [] {
        PruneKeepsSuffix(l.window, l.log, now);
        assert Stale(l.window, now, l.log[0]);
        SubOfReadings(now, l.log[0]);
      }
    }
    ExtendShape(t, now);
    if p == [] {
      assert p + [now] == [now];
      SpacedAppend(h, now, l.window);
    }
  }

  lemma {:induction false} RunSerial(l: Limiter, clocks: seq<Millis>, n: nat)
    requires Configured(l) && l.limit == 1 && l.log == [] && n <= |clocks|
    ensures HoldsLatest(Run(l, clocks, n)) && Spaced(Run(l, clocks, n).admitted, l.window)
  {
    if n > 0 {
      var t := Run(l, clocks, n - 1);
      RunSerial(l, clocks, n - 1);
      ExtendSerial(t, clocks[n - 1]);
      assert Run(l, clocks, n) == Extend(t, clocks[n - 1]);
    }
  }

  /** A limit of one serializes the callers: whatever the clock does, even
      running backwards, any two admissions are at least one window apart,
      because a new admission needs the single logged one to have left the
      window. */
  lemma LimitOneSerializes(windowMillis: Long, l: Limiter, clocks: seq<Millis>)
    requires New(windowMillis, 1) == Ok(l)
    ensures var h := Run(l, clocks, |clocks|).admitted;
            forall i, j :: 0 <= i < j < |h| ==> h[j] - h[i] >= windowMillis
  {
    RunSerial(l, clocks, |clocks|);
  }

  /** An iteration never leaves more than `limit` entries in the log. */
  lemma ExtendWithinLimit(t: Trace, now: Millis)
    requires Configured(t.final) && |t.final.log| <= t.final.limit
    ensures |Extend(t, now).final.log| <= t.final.limit
  {
    var p := Prune(t.final.window, t.final.log, now);
    assert |p| <= |t.final.log| by {
      PruneKeepsSuffix(t.final.window, t.final.log, now);
    }
    ExtendShape(t, now);
  }

  /** Whatever the clock does, the log of a run never holds more than
      `limit` entries. */
  lemma {:induction false} RunWithinLimit(l: Limiter, clocks: seq<Millis>, n: nat)
    requires Configured(l) && |l.log| <= l.limit && n <= |clocks|
    ensures |Run(l, clocks, n).final.log| <= l.limit
  {
    if n > 0 {
      RunWithinLimit(l, clocks, n - 1);
      ExtendWithinLimit(Run(l, clocks, n - 1), clocks[n - 1]);
    }
  }

  /** A reading no later than any logged entry prunes nothing, so with room
      left it is admitted behind them. */
  lemma ExtendBehindLog(t: Trace, now: Millis)
    requires Configured(t.final) && |t.final.log| < t.final.limit
    requires forall i :: 0 <= i < |t.final.log| ==> now <= t.final.log[i]
    ensures Extend(t, now) == Trace(t.final.(log := t.final.log + [now]), t.admitted + [now])
  {
    var l := t.final;
    assert StalePrefix(l.window, l.log, now) == 0 by {
      if l.log != [] {
        SubOfReadings(now, l.log[0]);
      }
    }
    ExtendShape(t, now);
  }

  /** A reading at least one window after every logged entry prunes them
      all and is admitted alone. */
  lemma ExtendAfterLog(t: Trace, now: Millis)
    requires Configured(t.final)
    requires forall i :: 0 <= i < |t.final.log| ==> now - t.final.log[i] >= t.final.window
    ensures Extend(t, now) == Trace(t.final.(log := [now]), t.admitted + [now])
  {
    var l := t.final;
    assert StalePrefix(l.window, l.log, now) == |l.log| by {
      var k := StalePrefix(l.window, l.log, now);
      if k < |l.log| {
        SubOfReadings(now, l.log[k]);
      }
    }
    assert Prune(l.window, l.log, now) + [now] == [now];
    ExtendShape(t, now);
  }

  /** Readings that run backwards twice: 500 after 10000, 700 after 11000. */
  const BACKWARD_READINGS: seq<Millis> := [0, 10000, 500, 11000, 700]

  /** A run whose last reading is one window or more after every entry of
      the log before it admits that reading alone. */
  lemma RunAfterLog(l: Limiter, clocks: seq<Millis>, n: nat, t: Trace)
    requires Configured(l) && 0 < n <= |clocks| && Run(l, clocks, n - 1) == t
    requires forall i :: 0 <= i < |t.final.log| ==> clocks[n - 1] - t.final.log[i] >= t.final.window
    ensures Run(l, clocks, n) == Trace(t.final.(log := [clocks[n - 1]]), t.admitted + [clocks[n - 1]])
  {
    ExtendAfterLog(t, clocks[n - 1]);
  }

  /** A run whose last reading is no later than any entry of the log before
      it, with room left, admits that reading behind them. */
  lemma RunBehindLog(l: Limiter, clocks: seq<Millis>, n: nat, t: Trace)
    requires Configured(l) && 0 < n <= |clocks| && Run(l, clocks, n - 1) == t
    requires |t.final.log| < t.final.limit
    requires forall i :: 0 <= i < |t.final.log| ==> clocks[n - 1] <= t.final.log[i]
    ensures Run(l, clocks, n) == Trace(t.final.(log := t.final.log + [clocks[n - 1]]), t.admitted + [clocks[n - 1]])
  {
    ExtendBehindLog(t, clocks[n - 1]);
  }

  /** Five readings that each run back behind the previous one or jump a
      window ahead of everything before: `c[2]` is behind `c[1]`, `c[4]`
      behind `c[3]`, and `c[1]`, `c[3]` are a window after all earlier
      readings. */
  predicate ZigZag(c: seq<Millis>, window: Long)
  {
    && |c| == 5
    && c[1] - c[0] >= window && c[2] <= c[1]
    && c[3] - c[1] >= window && c[3] - c[2] >= window && c[4] <= c[3]
  }

  /** With a limit of two, the first two zig-zag readings are admitted,
      the second pruning the first ... */
  lemma ZigZagTwo(l: Limiter, clocks: seq<Millis>)
    requires Configured(l) && l.limit == 2 && l.log == [] && ZigZag(clocks, l.window)
    ensures Run(l, clocks, 2) == Trace(l.(log := [clocks[1]]), clocks[..2])
  {
    assert clocks[..1] == clocks[..0] + [clocks[0]];
    assert clocks[..2] == clocks[..1] + [clocks[1]];
    RunAfterLog(l, clocks, 1, Trace(l, clocks[..0]));
    RunAfterLog(l, clocks, 2, Trace(l.(log := [clocks[0]]), clocks[..1]));
  }

  /** ... the third, behind the second, prunes nothing and is admitted ... */
  lemma ZigZagThree(l: Limiter, clocks: seq<Millis>)
    requires Configured(l) && l.limit == 2 && l.log == [] && ZigZag(clocks, l.window)
    ensures Run(l, clocks, 3) == Trace(l.(log := [clocks[1], clocks[2]]), clocks[..3])
  {
    assert clocks[..3] == clocks[..2] + [clocks[2]];
    ZigZagTwo(l, clocks);
    RunBehindLog(l, clocks, 3, Trace(l.(log := [clocks[1]]), clocks[..2]));
  }

  /** ... the fourth prunes both entries and is admitted alone ... */
  lemma ZigZagFour(l: Limiter, clocks: seq<Millis>)
    requires Configured(l) && l.limit == 2 && l.log == [] && ZigZag(clocks, l.window)
    ensures Run(l, clocks, 4) == Trace(l.(log := [clocks[3]]), clocks[..4])
  {
    assert clocks[..4] == clocks[..3] + [clocks[3]];
    ZigZagThree(l, clocks);
    RunAfterLog(l, clocks, 4, Trace(l.(log := [clocks[1], clocks[2]]), clocks[..3]));
  }

  /** ... and the fifth, behind the fourth, is admitted too: a limit of two
      admits all five zig-zag readings. */
  lemma ZigZagAdmitsAll(l: Limiter, clocks: seq<Millis>)
    requires Configured(l) && l.limit == 2 && l.log == [] && ZigZag(clocks, l.window)
    ensures Run(l, clocks, 5).admitted == clocks
  {
    assert clocks[..5] == clocks[..4] + [clocks[4]];
    ZigZagFour(l, clocks);
    RunBehindLog(l, clocks, 5, Trace(l.(log := [clocks[3]]), clocks[..4]));
  }

  /** The window bound needs a clock that never runs backwards. With a
      window of one second and a limit of two, readings 0, 10000, 500, 11000
      and 700 are all admitted: the steps at 500 and 700 see only later
      entries, which they never prune. The window (-300, 700] then holds
      three admissions. */
  lemma BackwardClockOverfillsWindow(l: Limiter, clocks: seq<Millis>)
    requires l == Limiter(1000, 2, []) && clocks == BACKWARD_READINGS
    ensures Run(l, clocks, |clocks|).admitted == clocks
    ensures InWindow(clocks, 1000, 700) == 3 > l.limit
  {
    ZigZagAdmitsAll(l, clocks);
    CountOfBackwardReadings(clocks);
  }

  /** Of those readings, 0, 500 and 700 lie in the window (-300, 700]. */
  lemma CountOfBackwardReadings(h: seq<Millis>)
    requires h == [0, 10000, 500, 11000, 700]
    ensures InWindow(h, 1000, 700) == 3
  {
    assert h[..4] == [0, 10000, 500, 11000] && h[..4][..3] == [0, 10000, 500];
    assert h[..4][..3][..2] == [0, 10000] && h[..4][..3][..2][..1] == [0];
    assert Count([0], -300, 700) == 1;
    assert Count([0, 10000], -300, 700) == 1;
    assert Count([0, 10000, 500], -300, 700) == 2;
    assert Count([0, 10000, 500, 11000], -300, 700) == 2;
  }

  /** Over any run with a clock that never runs backwards, a good limiter
      stays good: its log stays ordered and within capacity. */
  lemma {:induction false} RunKeepsGood(l: Limiter, clocks: seq<Millis>, n: nat, start: Millis)
    requires Good(l, start) && Sorted(clocks) && n <= |clocks|
    requires forall i :: 0 <= i < |clocks| ==> start <= clocks[i]
    ensures Good(Run(l, clocks, n).final, if n == 0 then start else clocks[n - 1])
  {
    if n > 0 {
      var before := Run(l, clocks, n - 1);
      RunKeepsGood(l, clocks, n - 1, start);
      GoodLater(before.final, if n == 1 then start else clocks[n - 2], clocks[n - 1]);
      StepKeepsGood(before.final, clocks[n - 1]);
    }
  }

  /** A window of one second and a limit of two: the first two of three
      calls at the same instant are admitted, ... */
  lemma TwoCallsAdmitted()
    ensures New(1000, 2) == Ok(Limiter(1000, 2, []))
    ensures Step(Limiter(1000, 2, []), 0) == Admitted(Limiter(1000, 2, [0]))
    ensures Step(Limiter(1000, 2, [0]), 0) == Admitted(Limiter(1000, 2, [0, 0]))
  {
    assert Prune(1000, [], 0) == [];
    assert StalePrefix(1000, [0], 0) == 0;
    assert Prune(1000, [0], 0) == [0];
  }

  /** ... the third finds the log full and sleeps a full second, ... */
  lemma ThirdCallWaits()
    ensures Step(Limiter(1000, 2, [0, 0]), 0) == Wait(Limiter(1000, 2, [0, 0]), 1000)
  {
    assert StalePrefix(1000, [0, 0], 0) == 0;
    assert Prune(1000, [0, 0], 0) == [0, 0];
  }

  /** ... and, woken a full second later, finds both earlier admissions out
      of the window and is admitted into an emptied log. */
  lemma ThirdCallAfterWaiting()
    ensures Step(Limiter(1000, 2, [0, 0]), 1000) == Admitted(Limiter(1000, 2, [1000]))
  {
    assert StalePrefix(1000, [0], 1000) == 1;
    assert StalePrefix(1000, [0, 0], 1000) == 2;
    assert Prune(1000, [0, 0], 1000) == [];
  }
}
