/** ratelimit.py: the sliding-window limiter. Times are reals; `now` is the clock value the caller read
    before it took the lock, so successive values may go backwards. */
module RateLimit {
  import opened Bytes
  import Hex

  type Key = (string, string)

  function KeyOf(ip: string, credentialId: bytes): Key {
    (ip, Hex.ToHex(credentialId))
  }

  /** Clients and credentials do not share keys. */
  lemma KeysSeparate(ip: string, c: bytes, ip': string, c': bytes)
    ensures KeyOf(ip, c) == KeyOf(ip', c') <==> ip == ip' && c == c'
  {
    if KeyOf(ip, c) == KeyOf(ip', c') {
      Hex.HexInjective(c, c');
    }
  }

  /** The timestamps after `cutoff`, in order. */
  function Recent(ts: seq<real>, cutoff: real): (r: seq<real>)
    ensures |r| <= |ts|
  {
    if ts == [] then []
    else
      var n := |ts| - 1;
      if ts[n] > cutoff then Recent(ts[..n], cutoff) + [ts[n]] else Recent(ts[..n], cutoff)
  }

  predicate Allows(stored: seq<real>, window: real, max: int, now: real) {
    |Recent(stored, now - window)| < max
  }

  /** The stored list after one attempt. */
  function After(stored: seq<real>, window: real, max: int, now: real): seq<real> {
    var kept := Recent(stored, now - window);
    if Allows(stored, window, max, now) then kept + [now] else kept
  }

  function Lookup(history: map<Key, seq<real>>, key: Key): seq<real> {
    if key in history then history[key] else []
  }

  class RateLimiter {
    const window: real
    const max: int
    var history: map<Key, seq<real>>

    constructor (window: real, max: int)
      ensures this.window == window && this.max == max && history == map[]
    {
      this.window := window;
      this.max := max;
      history := map[];
    }

    /** `allow`. The defaultdict creates the key even when the attempt is denied, and a denied attempt
        still drops old timestamps. */
    method Allow(ip: string, credentialId: bytes, now: real) returns (ok: bool)
      modifies this
      ensures ok == Allows(Lookup(old(history), KeyOf(ip, credentialId)), window, max, now)
      ensures history == Apply(window, max, old(history), Attempt(KeyOf(ip, credentialId), now))
    {
      var key := KeyOf(ip, credentialId);
      if key !in history {
        history := history[key := []];
      }
      var cutoff := now - window;
      history := history[key := Recent(history[key], cutoff)];
      if |history[key]| >= max {
        return false;
      }
      history := history[key := history[key] + [now]];
      return true;
    }

    /** `reset` */
    method Reset(ip: string, credentialId: bytes)
      modifies this
      ensures history == Apply(window, max, old(history), Forget(KeyOf(ip, credentialId)))
    {
      history := history - {KeyOf(ip, credentialId)};
    }
  }

  // ---------------------------------------------------------------- one key

  /** The stored list after attempts with these clock values, in the order in which they took the lock. */
  function Stored(window: real, max: int, clocks: seq<real>): seq<real> {
    if clocks == [] then []
    else
      var n := |clocks| - 1;
      After(Stored(window, max, clocks[..n]), window, max, clocks[n])
  }

  /** The clock values of the attempts that were allowed. */
  function Granted(window: real, max: int, clocks: seq<real>): seq<real> {
    if clocks == [] then []
    else
      var n := |clocks| - 1;
      var before := Granted(window, max, clocks[..n]);
      if Allows(Stored(window, max, clocks[..n]), window, max, clocks[n]) then before + [clocks[n]] else before
  }

  /** How many timestamps lie in the half-open interval (lo, hi]. */
  function Within(ts: seq<real>, lo: real, hi: real): nat {
    if ts == [] then 0
    else Within(ts[..|ts| - 1], lo, hi) + if lo < ts[|ts| - 1] <= hi then 1 else 0
  }

  ghost predicate UpTo(ts: seq<real>, hi: real) {
    forall i :: 0 <= i < |ts| ==> ts[i] <= hi
  }

  lemma RecentSnoc(ts: seq<real>, t: real, cutoff: real)
    ensures Recent(ts + [t], cutoff) == if t > cutoff then Recent(ts, cutoff) + [t] else Recent(ts, cutoff)
  {
    assert (ts + [t])[..|ts|] == ts;
  }

  /** Purging first at an earlier cutoff changes nothing. */
  lemma {:induction false} RecentTwice(ts: seq<real>, c: real, cutoff: real)
    requires c <= cutoff
    ensures Recent(Recent(ts, c), cutoff) == Recent(ts, cutoff)
  {
    if ts != [] {
      var n := |ts| - 1;
      RecentTwice(ts[..n], c, cutoff);
      RecentSnoc(Recent(ts[..n], c), ts[n], cutoff);
    }
  }

  lemma {:induction false} WithinRecent(ts: seq<real>, lo: real, hi: real)
    ensures Within(ts, lo, hi) <= |Recent(ts, lo)|
    ensures UpTo(ts, hi) ==> Within(ts, lo, hi) == |Recent(ts, lo)|
  {
    if ts != [] {
      WithinRecent(ts[..|ts| - 1], lo, hi);
    }
  }

  /** A stored list never exceeds the limit. */
  lemma {:induction false} StoredBounded(window: real, max: int, clocks: seq<real>)
    ensures |Stored(window, max, clocks)| <= if max > 0 then max else 0
  {
    if clocks != [] {
      StoredBounded(window, max, clocks[..|clocks| - 1]);
    }
  }

  lemma {:induction false} RecentAfterCutoff(ts: seq<real>, cutoff: real)
    ensures forall i :: 0 <= i < |Recent(ts, cutoff)| ==> Recent(ts, cutoff)[i] > cutoff
  {
    if ts != [] {
      RecentAfterCutoff(ts[..|ts| - 1], cutoff);
    }
  }

  /** Every attempt, also a denied one, drops what has left the window: nothing older stays stored. */
  lemma StoredFresh(window: real, max: int, clocks: seq<real>)
    requires window > 0.0 && clocks != []
    ensures forall i :: 0 <= i < |Stored(window, max, clocks)| ==>
      Stored(window, max, clocks)[i] > clocks[|clocks| - 1] - window
  {
    var n := |clocks| - 1;
    RecentAfterCutoff(Stored(window, max, clocks[..n]), clocks[n] - window);
  }

  lemma {:induction false} GrantedUpTo(window: real, max: int, clocks: seq<real>, hi: real)
    requires UpTo(clocks, hi)
    ensures UpTo(Granted(window, max, clocks), hi)
  {
    if clocks != [] {
      GrantedUpTo(window, max, clocks[..|clocks| - 1], hi);
    }
  }

  /** What one attempt does to the timestamps after lo. */
  lemma RecentAfter(stored: seq<real>, window: real, max: int, now: real, lo: real)
    requires now - window <= lo
    ensures Recent(After(stored, window, max, now), lo) ==
      if Allows(stored, window, max, now) && now > lo then Recent(stored, lo) + [now] else Recent(stored, lo)
  {
    RecentTwice(stored, now - window, lo);
    if Allows(stored, window, max, now) {
      RecentKept(Recent(stored, now - window), stored, now, lo);
    }
  }

  lemma RecentKept(kept: seq<real>, stored: seq<real>, now: real, lo: real)
    requires Recent(kept, lo) == Recent(stored, lo)
    ensures Recent(kept + [now], lo) == if now > lo then Recent(stored, lo) + [now] else Recent(stored, lo)
  {
    RecentSnoc(kept, now, lo);
  }

  /** The granted attempts after lo are all still stored, if no attempt's cutoff has passed lo. */
  lemma {:induction false} StillStored(window: real, max: int, clocks: seq<real>, lo: real)
    requires UpTo(clocks, lo + window)
    ensures Recent(Stored(window, max, clocks), lo) == Recent(Granted(window, max, clocks), lo)
  {
    if clocks != [] {
      var n := |clocks| - 1;
      StillStored(window, max, clocks[..n], lo);
      RecentAfter(Stored(window, max, clocks[..n]), window, max, clocks[n], lo);
      RecentSnoc(Granted(window, max, clocks[..n]), clocks[n], lo);
    }
  }

  /** Clock values go back by at most `slack` from one attempt to any later one. */
  ghost predicate Steady(clocks: seq<real>, slack: real) {
    forall i, j :: 0 <= i <= j < |clocks| ==> clocks[i] <= clocks[j] + slack
  }

  /** The counting bound: no interval shorter than the window by the clock's slack holds more than the
      maximum of allowed attempts. */
  lemma {:induction false} WindowBound(window: real, max: int, clocks: seq<real>, slack: real, lo: real)
    requires Steady(clocks, slack)
    ensures Within(Granted(window, max, clocks), lo, lo + window - slack) <= if max > 0 then max else 0
  {
    if clocks != [] {
      var n := |clocks| - 1;
      var hi := lo + window - slack;
      if lo < clocks[n] <= hi {
        assert UpTo(clocks, lo + window);
        StillStored(window, max, clocks, lo);
        StoredBounded(window, max, clocks);
        WithinRecent(Granted(window, max, clocks), lo, hi);
      } else {
        WindowBound(window, max, clocks[..n], slack, lo);
        WithinSnoc(Granted(window, max, clocks[..n]), clocks[n], lo, hi);
      }
    }
  }

  lemma WithinSnoc(ts: seq<real>, t: real, lo: real, hi: real)
    ensures Within(ts + [t], lo, hi) == Within(ts, lo, hi) + if lo < t <= hi then 1 else 0
  {
    assert (ts + [t])[..|ts|] == ts;
  }

  lemma DecisionFrom(stored: seq<real>, granted: seq<real>, window: real, max: int, now: real)
    requires Recent(stored, now - window) == Recent(granted, now - window) && UpTo(granted, now)
    ensures Allows(stored, window, max, now) <==> Within(granted, now - window, now) < max
  {
    WithinRecent(granted, now - window, now);
  }

  /** With a clock that never goes back, an attempt is allowed exactly when fewer than the maximum were
      allowed in the window that ends now. */
  lemma ExactDecision(window: real, max: int, clocks: seq<real>, now: real)
    requires Steady(clocks, 0.0) && UpTo(clocks, now)
    ensures Allows(Stored(window, max, clocks), window, max, now) <==>
      Within(Granted(window, max, clocks), now - window, now) < max
  {
    StillStored(window, max, clocks, now - window);
    GrantedUpTo(window, max, clocks, now);
    DecisionFrom(Stored(window, max, clocks), Granted(window, max, clocks), window, max, now);
  }

  lemma {:induction false} RecentShrinks(ts: seq<real>, c: real, cutoff: real)
    ensures |Recent(Recent(ts, c), cutoff)| <= |Recent(ts, cutoff)|
  {
    if ts != [] {
      var n := |ts| - 1;
      RecentShrinks(ts[..n], c, cutoff);
      RecentSnoc(Recent(ts[..n], c), ts[n], cutoff);
    }
  }

  lemma RecentNoMore(kept: seq<real>, granted: seq<real>, t: real, cutoff: real)
    requires |Recent(kept, cutoff)| <= |Recent(granted, cutoff)|
    ensures |Recent(kept + [t], cutoff)| <= |Recent(granted + [t], cutoff)|
  {
    RecentSnoc(kept, t, cutoff);
    RecentSnoc(granted, t, cutoff);
  }

  lemma AfterNoMore(stored: seq<real>, granted: seq<real>, window: real, max: int, now: real, cutoff: real)
    requires |Recent(stored, cutoff)| <= |Recent(granted, cutoff)|
    ensures Allows(stored, window, max, now) ==>
      |Recent(After(stored, window, max, now), cutoff)| <= |Recent(granted + [now], cutoff)|
    ensures !Allows(stored, window, max, now) ==>
      |Recent(After(stored, window, max, now), cutoff)| <= |Recent(granted, cutoff)|
  {
    RecentShrinks(stored, now - window, cutoff);
    RecentNoMore(Recent(stored, now - window), granted, now, cutoff);
  }

  /** Whatever the clock does, no more timestamps are stored after a cutoff than attempts were allowed
      after it: a denial always has the maximum of allowed attempts behind it. */
  lemma {:induction false} StoredGranted(window: real, max: int, clocks: seq<real>, cutoff: real)
    ensures |Recent(Stored(window, max, clocks), cutoff)| <= |Recent(Granted(window, max, clocks), cutoff)|
  {
    if clocks != [] {
      var earlier, now := clocks[..|clocks| - 1], clocks[|clocks| - 1];
      StoredGranted(window, max, earlier, cutoff);
      AfterNoMore(Stored(window, max, earlier), Granted(window, max, earlier), window, max, now, cutoff);
    }
  }

  // ---------------------------------------------------------------- all keys

  /** Calls in the order in which they take the lock. */
  datatype Call = Attempt(key: Key, now: real) | Forget(key: Key)

  function Apply(window: real, max: int, history: map<Key, seq<real>>, c: Call): map<Key, seq<real>> {
    match c
    case Attempt(key, now) => history[key := After(Lookup(history, key), window, max, now)]
    case Forget(key) => history - {key}
  }

  function Run(window: real, max: int, calls: seq<Call>): map<Key, seq<real>> {
    if calls == [] then map[]
    else Apply(window, max, Run(window, max, calls[..|calls| - 1]), calls[|calls| - 1])
  }

  /** The clock values of the attempts on one key since it was last forgotten. */
  function Clocks(calls: seq<Call>, key: Key): seq<real> {
    if calls == [] then []
    else
      var c, before := calls[|calls| - 1], Clocks(calls[..|calls| - 1], key);
      if c.key != key then before else if c.Forget? then [] else before + [c.now]
  }

  /** Keys do not interfere: what is stored for one depends on the attempts on it since its last reset,
      and on nothing else. */
  lemma {:induction false} KeysIndependent(window: real, max: int, calls: seq<Call>, key: Key)
    ensures Lookup(Run(window, max, calls), key) == Stored(window, max, Clocks(calls, key))
  {
    if calls != [] {
      var c, before := calls[|calls| - 1], Clocks(calls[..|calls| - 1], key);
      KeysIndependent(window, max, calls[..|calls| - 1], key);
      if c.key == key && c.Attempt? {
        assert (before + [c.now])[..|before|] == before;
      }
    }
  }
}
