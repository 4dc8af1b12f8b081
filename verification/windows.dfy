/** Counting admissions inside a trailing time window. The window ending at
    time `T` with length `w` holds the instants `t` with `T - w < t <= T`. */
module Windows {

  /** The number of entries of `h` in the half-open interval `(lo, hi]`. */
  function Count(h: seq<int>, lo: int, hi: int): (c: nat)
    ensures c <= |h|
  {
    if h == [] then 0
    else Count(h[..|h| - 1], lo, hi) + if lo < h[|h| - 1] <= hi then 1 else 0
  }

  /** The number of entries of `h` in the window of length `w` ending at `T`. */
  function InWindow(h: seq<int>, w: int, T: int): nat
  {
    Count(h, T - w, T)
  }

  /** No window of length `w` holds more than `limit` entries of `h`. */
  ghost predicate AtMostPerWindow(h: seq<int>, w: int, limit: int)
  {
    forall T :: InWindow(h, w, T) <= limit
  }

  lemma CountSnoc(h: seq<int>, x: int, lo: int, hi: int)
    ensures Count(h + [x], lo, hi) == Count(h, lo, hi) + if lo < x <= hi then 1 else 0
  {
    assert (h + [x])[..|h|] == h;
  }

  /** Entries of the first interval that all lie in the second are counted
      there too. */
  lemma {:induction false} CountMono(h: seq<int>, lo: int, hi: int, lo': int, hi': int)
    requires forall i :: 0 <= i < |h| && lo < h[i] <= hi ==> lo' < h[i] <= hi'
    ensures Count(h, lo, hi) <= Count(h, lo', hi')
    decreases |h|
  {
    if h != [] {
      var init := h[..|h| - 1];
      assert forall i :: 0 <= i < |init| ==> init[i] == h[i];
      CountMono(init, lo, hi, lo', hi');
    }
  }

  /** When the first `k` entries lie outside the interval, only the other
      `|h| - k` can be counted. */
  lemma {:induction false} CountBeyondPrefix(h: seq<int>, k: nat, lo: int, hi: int)
    requires k <= |h|
    requires forall i :: 0 <= i < k ==> !(lo < h[i] <= hi)
    ensures Count(h, lo, hi) <= |h| - k
    decreases |h|
  {
    if h != [] {
      var init := h[..|h| - 1];
      assert forall i :: 0 <= i < |init| ==> init[i] == h[i];
      if k == |h| {
        CountBeyondPrefix(init, k - 1, lo, hi);
      } else {
        CountBeyondPrefix(init, k, lo, hi);
      }
    }
  }

  /** Appending an entry at `now` keeps every window within `limit` when no
      earlier entry is after `now`, the first `k` entries have left the
      window ending at `now`, and fewer than `limit` entries remain. */
  lemma AppendKeepsAtMost(h: seq<int>, w: int, limit: int, now: int, k: nat)
    requires AtMostPerWindow(h, w, limit)
    requires forall i :: 0 <= i < |h| ==> h[i] <= now
    requires k <= |h|
    requires forall i :: 0 <= i < k ==> now - h[i] >= w
    requires |h| - k < limit
    ensures AtMostPerWindow(h + [now], w, limit)
  {
    forall T
      ensures InWindow(h + [now], w, T) <= limit
    {
      CountSnoc(h, now, T - w, T);
      assert InWindow(h, w, T) <= limit;
      if T - w < now <= T {
        CountMono(h, T - w, T, now - w, now);
        CountBeyondPrefix(h, k, now - w, now);
      }
    }
  }
}
