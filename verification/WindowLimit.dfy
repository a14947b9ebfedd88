/** How long an interval the limiter of ratelimit.py keeps at or below its maximum: the exact length, for every
    window, maximum and bound on how far the clock may step back. */
module WindowLimit {
  import opened RateLimit

  /** At most `max` attempts are allowed in the interval of this length after lo. */
  predicate AtMost(window: real, max: int, clocks: seq<real>, lo: real, len: real) {
    Within(Granted(window, max, clocks), lo, lo + len) <= max
  }

  /** No run whose clock steps back by at most `slack` exceeds the maximum in any interval of this length. */
  ghost predicate Bounded(window: real, max: int, slack: real, len: real) {
    forall clocks: seq<real>, lo: real :: Steady(clocks, slack) ==> AtMost(window, max, clocks, lo, len)
  }

  // ---------------------------------------------------------------- counting

  lemma {:induction false} WithinGrows(ts: seq<real>, lo: real, hi: real, hi': real)
    requires hi <= hi'
    ensures Within(ts, lo, hi) <= Within(ts, lo, hi')
  {
    if ts != [] {
      WithinGrows(ts[..|ts| - 1], lo, hi, hi');
    }
  }

  lemma {:induction false} WithinNone(ts: seq<real>, lo: real, hi: real)
    requires UpTo(ts, lo) || hi <= lo
    ensures Within(ts, lo, hi) == 0
  {
    if ts != [] {
      WithinNone(ts[..|ts| - 1], lo, hi);
    }
  }

  lemma {:induction false} NoneGranted(window: real, max: int, clocks: seq<real>)
    requires max <= 0
    ensures Granted(window, max, clocks) == []
  {
    if clocks != [] {
      NoneGranted(window, max, clocks[..|clocks| - 1]);
    }
  }

  lemma Snoc(window: real, max: int, clocks: seq<real>, t: real)
    ensures Stored(window, max, clocks + [t]) == After(Stored(window, max, clocks), window, max, t)
    ensures Granted(window, max, clocks + [t]) ==
      if Allows(Stored(window, max, clocks), window, max, t) then Granted(window, max, clocks) + [t]
      else Granted(window, max, clocks)
  {
    assert (clocks + [t])[..|clocks|] == clocks;
  }

  lemma AtMostIs(window: real, max: int, clocks: seq<real>, lo: real, len: real, granted: seq<real>)
    requires granted == Granted(window, max, clocks)
    ensures AtMost(window, max, clocks, lo, len) <==> Within(granted, lo, lo + len) <= max
  {
  }

  // ---------------------------------------------------------------- a maximum of one

  /** Each timestamp is at least `window` after the one before it. */
  ghost predicate Spaced(ts: seq<real>, window: real) {
    forall i :: 0 < i < |ts| ==> ts[i - 1] + window <= ts[i]
  }

  /** With a maximum of one the last allowed attempt is what is stored, so the next one is a whole window
      later, whatever the clock does. */
  lemma {:induction false} SingleSpaced(window: real, clocks: seq<real>)
    ensures var granted := Granted(window, 1, clocks);
      Spaced(granted, window) && Stored(window, 1, clocks) == if granted == [] then [] else [granted[|granted| - 1]]
  {
    if clocks != [] {
      var n := |clocks| - 1;
      SingleSpaced(window, clocks[..n]);
      SingleStep(Granted(window, 1, clocks[..n]), window, clocks[n]);
    }
  }

  lemma SingleStep(granted: seq<real>, window: real, now: real)
    requires Spaced(granted, window)
    ensures var stored := if granted == [] then [] else [granted[|granted| - 1]];
      if Allows(stored, window, 1, now) then Spaced(granted + [now], window) && After(stored, window, 1, now) == [now]
      else After(stored, window, 1, now) == stored
  {
    if granted != [] {
      var last := granted[|granted| - 1];
      RecentSnoc([], last, now - window);
      assert [] + [last] == [last];
    }
  }

  lemma {:induction false} SpacedUpTo(ts: seq<real>, window: real)
    requires Spaced(ts, window) && 0.0 <= window && ts != []
    ensures UpTo(ts[..|ts| - 1], ts[|ts| - 1] - window)
  {
    var n := |ts| - 1;
    if n > 0 {
      SpacedUpTo(ts[..n], window);
    }
  }

  lemma {:induction false} SpacedWithin(ts: seq<real>, window: real, lo: real, hi: real)
    requires Spaced(ts, window) && hi - lo <= window
    ensures Within(ts, lo, hi) <= 1
  {
    if hi <= lo {
      WithinNone(ts, lo, hi);
    } else if ts != [] {
      var n := |ts| - 1;
      if lo < ts[n] <= hi {
        SpacedUpTo(ts, window);
        WithinNone(ts[..n], lo, hi);
      } else {
        SpacedWithin(ts[..n], window, lo, hi);
      }
    }
  }

  /** With a maximum of one the whole window holds at most one allowed attempt, whatever the clock does. */
  lemma SingleBound(window: real, clocks: seq<real>, lo: real, len: real)
    requires len <= window
    ensures AtMost(window, 1, clocks, lo, len)
  {
    var granted := Granted(window, 1, clocks);
    SingleSpaced(window, clocks);
    SpacedWithin(granted, window, lo, lo + len);
    AtMostIs(window, 1, clocks, lo, len, granted);
  }

  // ---------------------------------------------------------------- the run that exceeds the maximum

  function Copies(n: nat, t: real): (ts: seq<real>)
    ensures |ts| == n && AllAre(ts, t)
  {
    seq(n, i => t)
  }

  predicate AllAre(ts: seq<real>, t: real) {
    forall i :: 0 <= i < |ts| ==> ts[i] == t
  }

  lemma {:induction false} RecentAll(ts: seq<real>, t: real, cutoff: real)
    requires AllAre(ts, t)
    ensures Recent(ts, cutoff) == if t > cutoff then ts else []
  {
    if ts != [] {
      var n := |ts| - 1;
      RecentAll(ts[..n], t, cutoff);
      assert ts[..n] + [ts[n]] == ts;
    }
  }

  lemma {:induction false} WithinAll(ts: seq<real>, t: real, lo: real, hi: real)
    requires AllAre(ts, t) && lo < t <= hi
    ensures Within(ts, lo, hi) == |ts|
  {
    if ts != [] {
      WithinAll(ts[..|ts| - 1], t, lo, hi);
    }
  }

  lemma SteadySnoc(clocks: seq<real>, t: real, slack: real)
    requires 0.0 <= slack && Steady(clocks, slack) && UpTo(clocks, t + slack)
    ensures Steady(clocks + [t], slack)
  {
  }

  /** The first `max` attempts at one time are allowed and stored. */
  lemma {:induction false} FillsUp(window: real, max: int, ts: seq<real>, t: real)
    requires AllAre(ts, t) && 0.0 < window && |ts| <= max
    ensures Granted(window, max, ts) == ts && Stored(window, max, ts) == ts
  {
    if ts != [] {
      var front := ts[..|ts| - 1];
      FillsUp(window, max, front, t);
      FillStep(window, max, front, t);
      Snoc(window, max, front, t);
      assert front + [t] == ts;
    }
  }

  lemma FillStep(window: real, max: int, ts: seq<real>, t: real)
    requires AllAre(ts, t) && 0.0 < window && |ts| < max
    ensures Allows(ts, window, max, t) && After(ts, window, max, t) == ts + [t]
  {
    RecentAll(ts, t, t - window);
  }

  /** Without a window nothing is ever counted. */
  lemma {:induction false} NeverFull(window: real, max: int, ts: seq<real>, t: real)
    requires AllAre(ts, t) && window <= 0.0 && max >= 1
    ensures Granted(window, max, ts) == ts && AllAre(Stored(window, max, ts), t)
  {
    if ts != [] {
      var front := ts[..|ts| - 1];
      NeverFull(window, max, front, t);
      NeverStep(window, max, Stored(window, max, front), t);
      Snoc(window, max, front, t);
      assert front + [t] == ts;
    }
  }

  lemma NeverStep(window: real, max: int, stored: seq<real>, t: real)
    requires AllAre(stored, t) && window <= 0.0 && max >= 1
    ensures Allows(stored, window, max, t) && AllAre(After(stored, window, max, t), t)
  {
    RecentAll(stored, t, t - window);
  }

  /** An attempt one window after `max` attempts at t drops them all and is allowed. */
  lemma NextWindow(window: real, max: int, ts: seq<real>, t: real)
    requires AllAre(ts, t) && 0.0 < window && |ts| == max >= 1
    ensures Granted(window, max, ts + [t + window]) == ts + [t + window]
    ensures Stored(window, max, ts + [t + window]) == [t + window]
  {
    FillsUp(window, max, ts, t);
    RecentAll(ts, t, t + window - window);
    Snoc(window, max, ts, t + window);
  }

  /** If the clock then steps back, by no more than the window, one attempt more is allowed. */
  lemma StepBack(window: real, max: int, ts: seq<real>, t: real, d: real)
    requires AllAre(ts, t) && 0.0 < window && |ts| == max >= 2 && 0.0 <= d <= window
    ensures var clocks := ts + [t + window] + [t + window - d]; Granted(window, max, clocks) == clocks
  {
    NextWindow(window, max, ts, t);
    OneCounts(t + window, t + window - d - window);
    Snoc(window, max, ts + [t + window], t + window - d);
  }

  lemma OneCounts(t: real, cutoff: real)
    ensures |Recent([t], cutoff)| <= 1
  {
  }

  /** Steady clocks whose last step goes back by d. */
  lemma StepBackSteady(ts: seq<real>, window: real, t: real, d: real, slack: real)
    requires AllAre(ts, t) && 0.0 <= d <= slack && d <= window
    ensures Steady(ts + [t + window] + [t + window - d], slack)
  {
    SteadySnoc(ts, t + window, slack);
    SteadySnoc(ts + [t + window], t + window - d, slack);
  }

  /** A longer interval than the limit is exceeded by a run within the slack. */
  lemma Exceeded(window: real, max: int, slack: real, len: real) returns (clocks: seq<real>)
    requires 0.0 < window && max >= 2 && 0.0 <= slack && len > 0.0 && len > window - slack
    ensures Steady(clocks, slack) && !AtMost(window, max, clocks, 0.0, len)
  {
    var d := if slack < window then slack else window;
    var t := len - (window - d);
    var ts := Copies(max, t);
    clocks := ts + [t + window] + [t + window - d];
    StepBack(window, max, ts, t, d);
    StepBackSteady(ts, window, t, d, slack);
    WithinAll(ts, t, 0.0, len);
    WithinSnoc(ts, t + window, 0.0, len);
    WithinSnoc(ts + [t + window], t + window - d, 0.0, len);
  }

  lemma ExceededByTwo(window: real, slack: real, len: real) returns (clocks: seq<real>)
    requires 0.0 < window < len && 0.0 <= slack
    ensures Steady(clocks, slack) && !AtMost(window, 1, clocks, 0.0, len)
  {
    var t := len - window;
    var ts := Copies(1, t);
    clocks := ts + [len];
    NextWindow(window, 1, ts, t);
    SteadySnoc(ts, len, slack);
    OneMore(ts, t, len, len);
    AtMostIs(window, 1, clocks, 0.0, len, clocks);
  }

  lemma OneMore(ts: seq<real>, t: real, u: real, len: real)
    requires AllAre(ts, t) && 0.0 < t <= len && 0.0 < u <= len
    ensures Within(ts + [u], 0.0, len) == |ts| + 1
  {
    WithinAll(ts, t, 0.0, len);
    WithinSnoc(ts, u, 0.0, len);
  }

  lemma ExceededAtOnce(window: real, max: int, slack: real, len: real) returns (clocks: seq<real>)
    requires window <= 0.0 < len && max >= 1 && 0.0 <= slack
    ensures Steady(clocks, slack) && !AtMost(window, max, clocks, 0.0, len)
  {
    clocks := Copies(max + 1, len);
    NeverFull(window, max, clocks, len);
    WithinAll(clocks, len, 0.0, len);
  }

  // ---------------------------------------------------------------- the exact limit

  lemma WithinLimit(window: real, max: int, slack: real, len: real)
    requires max >= 1 && (len <= 0.0 || len <= if max == 1 then window else window - slack)
    ensures Bounded(window, max, slack, len)
  {
    forall clocks: seq<real>, lo: real | Steady(clocks, slack) ensures AtMost(window, max, clocks, lo, len) {
      if len <= 0.0 {
        WithinNone(Granted(window, max, clocks), lo, lo + len);
      } else if max == 1 {
        SingleBound(window, clocks, lo, len);
      } else {
        WindowBound(window, max, clocks, slack, lo);
        WithinGrows(Granted(window, max, clocks), lo, lo + len, lo + window - slack);
      }
    }
  }

  /** The maximum holds in every interval of a length, in every run whose clock steps back by at most the slack,
      exactly when the length is at most the window less the slack; for a maximum of one the slack does not
      matter. */
  lemma ExactLimit(window: real, max: int, slack: real, len: real)
    requires max >= 1 && 0.0 <= slack
    ensures Bounded(window, max, slack, len) <==> len <= 0.0 || len <= if max == 1 then window else window - slack
  {
    if len <= 0.0 || len <= if max == 1 then window else window - slack {
      WithinLimit(window, max, slack, len);
    } else {
      var clocks;
      if window <= 0.0 {
        clocks := ExceededAtOnce(window, max, slack, len);
      } else if max == 1 {
        clocks := ExceededByTwo(window, slack, len);
      } else {
        clocks := Exceeded(window, max, slack, len);
      }
      assert !AtMost(window, max, clocks, 0.0, len);
    }
  }

  /** Two attempts, one a window later and one after the clock stepped back by d: three lie in one window. */
  lemma StepBackOverfills(window: real, t: real, d: real, clocks: seq<real>)
    requires 0.0 < t < d <= window && clocks == [t, t] + [t + window] + [t + window - d]
    ensures Steady(clocks, d) && Granted(window, 2, clocks) == clocks && Within(clocks, 0.0, window) == 3
  {
    var ts := [t, t];
    StepBack(window, 2, ts, t, d);
    StepBackSteady(ts, window, t, d, d);
    WithinAll(ts, t, 0.0, window);
    WithinSnoc(ts, t + window, 0.0, window);
    WithinSnoc(ts + [t + window], t + window - d, 0.0, window);
  }

  /** An instance: with a clock that steps back by 1.5, four attempts are allowed of which three lie within one
      window of length 10, although the maximum is two. */
  lemma WindowNeedsSteadyClock() returns (clocks: seq<real>)
    ensures clocks == [0.5, 0.5, 10.5, 9.0]
    ensures Steady(clocks, 1.5) && Granted(10.0, 2, clocks) == clocks && Within(clocks, 0.0, 10.0) == 3
  {
    var window, t, d := 10.0, 0.5, 1.5;
    clocks := [t, t] + [t + window] + [t + window - d];
    StepBackOverfills(window, t, d, clocks);
  }
}
