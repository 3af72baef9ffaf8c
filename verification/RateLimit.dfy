/**
 The in-memory sliding-window rate limiter (src/backend/rate_limit.py): one limiter per key of
 the shared log.
 */
module RateLimit {

  datatype Outcome = Admitted | Limited(retryAfter: int) | IndexError

  // The timestamps after a cutoff, in order.
  function Since(ts: seq<real>, cutoff: real): seq<real> {
    if ts == [] then []
    else
      var init, last := ts[..|ts| - 1], ts[|ts| - 1];
      if last > cutoff then Since(init, cutoff) + [last] else Since(init, cutoff)
  }

  // Python's `int`: truncation towards zero.
  function Truncate(x: real): int { if x >= 0.0 then x.Floor else -((-x).Floor) }

  lemma SinceAppend(ts: seq<real>, t: real, cutoff: real)
    ensures Since(ts + [t], cutoff) == if t > cutoff then Since(ts, cutoff) + [t] else Since(ts, cutoff)
  {
    assert (ts + [t])[..|ts|] == ts;
  }

  lemma {:induction false} PruneShorter(ts: seq<real>, c1: real, c2: real)
    ensures |Since(Since(ts, c1), c2)| <= |Since(ts, c2)|
  {
    if ts != [] {
      var init, last := ts[..|ts| - 1], ts[|ts| - 1];
      PruneShorter(init, c1, c2);
      SinceAppend(Since(init, c1), last, c2);
    }
  }

  ghost predicate DropsNone(ts: seq<real>, c1: real, c2: real) { forall t :: t in ts ==> !(c2 < t <= c1) }

  lemma DropsSnoc(init: seq<real>, last: real, c1: real, c2: real)
    ensures DropsNone(init + [last], c1, c2) <==> DropsNone(init, c1, c2) && !(c2 < last <= c1)
  {
    var ts := init + [last];
    assert last in ts by { assert ts[|init|] == last; }
    assert forall t :: t in init ==> t in ts;
    assert forall t :: t in ts ==> t in init || t == last;
  }

  // Pruning at one cutoff and filtering at another is filtering at the other exactly when the
  // pruning dropped nothing the other keeps; a clock that never steps back guarantees that.
  lemma {:induction false} PruneExact(ts: seq<real>, c1: real, c2: real)
    ensures Since(Since(ts, c1), c2) == Since(ts, c2) <==> DropsNone(ts, c1, c2)
  {
    if ts != [] {
      var init, last := ts[..|ts| - 1], ts[|ts| - 1];
      PruneExact(init, c1, c2);
      PruneShorter(init, c1, c2);
      SinceAppend(Since(init, c1), last, c2);
      assert ts == init + [last];
      DropsSnoc(init, last, c1, c2);
      SameSnoc(Since(Since(init, c1), c2), Since(init, c2), last);
    }
  }

  lemma SameSnoc(a: seq<real>, b: seq<real>, t: real)
    ensures a + [t] == b + [t] <==> a == b
    ensures |a| <= |b| ==> a != b + [t]
  {
    assert (a + [t])[..|a|] == a && (b + [t])[..|b|] == b;
  }

  // ----- The limiter

  // A lookup in a dictionary whose default is the empty list.
  function At(m: map<string, seq<real>>, key: string): seq<real> { if key in m then m[key] else [] }

  class Limiter {
    const maxRequests: int
    const windowSeconds: int
    var log: map<string, seq<real>>
    // Every accepted call, and the latest time seen.
    ghost var history: map<string, seq<real>>
    ghost var clock: real

    constructor (max: int, window: int, start: real)
      ensures Valid() && maxRequests == max && windowSeconds == window && history == map[] && clock == start
    {
      maxRequests, windowSeconds, log, history, clock := max, window, map[], map[], start;
    }

    // For every decision still to come, the pruned log is as good as the whole history.
    ghost predicate Valid()
      reads this
    {
      AllGood(log, history, windowSeconds, maxRequests, clock)
    }

    // Drops a key's expired entries.
    method Prune(key: string, now: real)
      requires Valid() && now >= clock
      modifies this
      ensures Valid() && clock == now && history == old(history)
      ensures At(log, key) == Since(At(history, key), now - windowSeconds as real)
      ensures forall other :: other != key ==> At(log, other) == At(old(log), other)
    {
      AllGoodPrune(log, history, key, windowSeconds, maxRequests, clock, now);
      log := log[key := Since(At(log, key), now - windowSeconds as real)];
      clock := now;
    }

    // Appends an accepted call.
    method Record(key: string, now: real)
      requires Valid() && now == clock && |Since(At(history, key), now - windowSeconds as real)| < maxRequests
      modifies this
      ensures Valid() && clock == now
      ensures At(history, key) == At(old(history), key) + [now]
      ensures forall other :: other != key ==>
              At(history, other) == At(old(history), other) && At(log, other) == At(old(log), other)
    {
      AllGoodRecord(log, history, key, windowSeconds, maxRequests, now);
      history := history[key := At(history, key) + [now]];
      log := log[key := At(log, key) + [now]];
    }

    method Limit(key: string, now: real) returns (outcome: Outcome)
      requires Valid() && now >= clock
      modifies this
      ensures Valid() && clock == now
      ensures outcome == Admitted <==> |Since(At(old(history), key), now - windowSeconds as real)| < maxRequests
      ensures outcome == IndexError <==> maxRequests <= 0
      ensures outcome.Limited? ==> outcome.retryAfter == RetryAfter(At(old(history), key), windowSeconds, now)
      ensures At(history, key) == if outcome == Admitted then At(old(history), key) + [now] else At(old(history), key)
      ensures forall other :: other != key ==>
              At(history, other) == At(old(history), other) && At(log, other) == At(old(log), other)
    {
      Prune(key, now);
      var recent := At(log, key);
      if |recent| >= maxRequests {
        PacedPositive(At(history, key), windowSeconds, maxRequests, now - windowSeconds as real);
        if recent == [] {
          return IndexError;
        }
        return Limited(Truncate(windowSeconds as real - (now - recent[0])) + 1);
      }
      Record(key, now);
      return Admitted;
    }
  }

  // What the limiter keeps true of one key's log and accepted calls.
  ghost predicate Good(log: seq<real>, h: seq<real>, window: int, max: int, clock: real) {
    Faithful(log, h, clock - window as real) && Paced(h, window, max) && UpTo(h, clock)
  }

  lemma GoodLater(log: seq<real>, h: seq<real>, window: int, max: int, clock: real, now: real)
    requires Good(log, h, window, max, clock) && now >= clock
    ensures Good(log, h, window, max, now)
    ensures Good(Since(log, now - window as real), h, window, max, now)
    ensures Since(log, now - window as real) == Since(h, now - window as real)
  {
    FaithfulPrune(log, h, clock - window as real, now - window as real);
  }

  lemma GoodRecord(log: seq<real>, h: seq<real>, window: int, max: int, now: real)
    requires Good(log, h, window, max, now) && |Since(h, now - window as real)| < max
    ensures Good(log + [now], h + [now], window, max, now)
  {
    FaithfulAppend(log, h, now - window as real, now);
    PacedStep(h, window, max, now);
  }

  ghost predicate AllGood(log: map<string, seq<real>>, history: map<string, seq<real>>, window: int, max: int,
                          clock: real) {
    forall key :: Good(At(log, key), At(history, key), window, max, clock)
  }

  lemma AllGoodPrune(log: map<string, seq<real>>, history: map<string, seq<real>>, key: string,
                     window: int, max: int, clock: real, now: real)
    requires AllGood(log, history, window, max, clock) && now >= clock
    ensures AllGood(log[key := Since(At(log, key), now - window as real)], history, window, max, now)
    ensures Since(At(log, key), now - window as real) == Since(At(history, key), now - window as real)
  {
    var pruned := log[key := Since(At(log, key), now - window as real)];
    assert Good(At(log, key), At(history, key), window, max, clock);
    GoodLater(At(log, key), At(history, key), window, max, clock, now);
    forall k ensures Good(At(pruned, k), At(history, k), window, max, now) {
      if k != key {
        assert At(pruned, k) == At(log, k);
        GoodLater(At(log, k), At(history, k), window, max, clock, now);
      }
    }
  }

  lemma AllGoodRecord(log: map<string, seq<real>>, history: map<string, seq<real>>, key: string,
                      window: int, max: int, now: real)
    requires AllGood(log, history, window, max, now) && |Since(At(history, key), now - window as real)| < max
    ensures AllGood(log[key := At(log, key) + [now]], history[key := At(history, key) + [now]], window, max, now)
  {
    assert Good(At(log, key), At(history, key), window, max, now);
    GoodRecord(At(log, key), At(history, key), window, max, now);
    var log', history' := log[key := At(log, key) + [now]], history[key := At(history, key) + [now]];
    forall k ensures Good(At(log', k), At(history', k), window, max, now) {
      if k != key {
        assert At(log', k) == At(log, k) && At(history', k) == At(history, k);
      }
    }
  }

  // A log decides like a history from a cutoff on.
  ghost predicate Faithful(log: seq<real>, h: seq<real>, from: real) {
    forall c: real :: c >= from ==> Since(log, c) == Since(h, c)
  }

  ghost predicate UpTo(h: seq<real>, clock: real) { forall i :: 0 <= i < |h| ==> h[i] <= clock }

  lemma FaithfulPrune(log: seq<real>, h: seq<real>, from: real, cutoff: real)
    requires Faithful(log, h, from) && cutoff >= from
    ensures Since(log, cutoff) == Since(h, cutoff)
    ensures Faithful(Since(log, cutoff), h, cutoff)
  {
    forall c: real | c >= cutoff ensures Since(Since(log, cutoff), c) == Since(h, c) {
      PruneExact(h, cutoff, c);
    }
  }

  lemma FaithfulAppend(log: seq<real>, h: seq<real>, from: real, now: real)
    requires Faithful(log, h, from)
    ensures Faithful(log + [now], h + [now], from)
  {
    forall c: real | c >= from ensures Since(log + [now], c) == Since(h + [now], c) {
      SinceAppend(log, now, c);
      SinceAppend(h, now, c);
    }
  }

  // ----- Pace

  // Each accepted call found fewer than the maximum in the window before it.
  ghost predicate Paced(h: seq<real>, window: int, max: int) {
    forall j :: 0 <= j < |h| ==> |Since(h[..j], h[j] - window as real)| < max
  }

  lemma PacedAt(h: seq<real>, window: int, max: int, j: nat)
    requires Paced(h, window, max) && j < |h|
    ensures |Since(h[..j], h[j] - window as real)| < max
  {}

  lemma PacedStep(h: seq<real>, window: int, max: int, now: real)
    requires Paced(h, window, max) && |Since(h, now - window as real)| < max
    ensures Paced(h + [now], window, max)
  {
    forall j | 0 <= j < |h| + 1 ensures |Since((h + [now])[..j], (h + [now])[j] - window as real)| < max {
      if j < |h| {
        assert (h + [now])[..j] == h[..j];
        PacedAt(h, window, max, j);
      } else {
        assert (h + [now])[..j] == h;
      }
    }
  }

  lemma PacedPositive(h: seq<real>, window: int, max: int, cutoff: real)
    requires Paced(h, window, max)
    ensures Since(h, cutoff) != [] ==> max >= 1
  {
    if h != [] {
      assert |Since(h[..0], h[0] - window as real)| < max;
    }
  }

  // The accepted calls in the half-open window (low, high].
  function Inside(h: seq<real>, low: real, high: real): seq<real> {
    if h == [] then []
    else
      var init, last := h[..|h| - 1], h[|h| - 1];
      if low < last <= high then Inside(init, low, high) + [last] else Inside(init, low, high)
  }

  lemma {:induction false} InsideSize(h: seq<real>, low: real, high: real, cutoff: real)
    requires cutoff <= low
    ensures |Inside(h, low, high)| <= |Since(h, cutoff)|
  {
    if h != [] {
      InsideSize(h[..|h| - 1], low, high, cutoff);
    }
  }

  lemma PacedPrefix(h: seq<real>, window: int, max: int)
    requires Paced(h, window, max) && h != []
    ensures Paced(h[..|h| - 1], window, max)
  {
    var n := |h| - 1;
    forall j | 0 <= j < n ensures |Since(h[..n][..j], h[..n][j] - window as real)| < max {
      assert h[..n][..j] == h[..j];
      PacedAt(h, window, max, j);
    }
  }

  // No window of the configured length, wherever it ends, holds more accepted calls than allowed.
  lemma {:induction false} WindowBound(h: seq<real>, window: int, max: int, high: real)
    requires Paced(h, window, max)
    ensures |Inside(h, high - window as real, high)| <= if max >= 0 then max else 0
  {
    if h != [] {
      var init, last, low := h[..|h| - 1], h[|h| - 1], high - window as real;
      PacedPrefix(h, window, max);
      PacedAt(h, window, max, |h| - 1);
      WindowBound(init, window, max, high);
      if low < last <= high {
        InsideSize(init, low, high, last - window as real);
      }
    }
  }

  // ----- Retrying

  // The delay the limiter announces when the window is full.
  ghost function RetryAfter(h: seq<real>, window: int, now: real): int {
    var recent := Since(h, now - window as real);
    if recent == [] then 0 else Truncate(window as real - (now - recent[0])) + 1
  }

  lemma {:induction false} SinceHead(h: seq<real>, cutoff: real)
    ensures forall i :: 0 <= i < |Since(h, cutoff)| ==> Since(h, cutoff)[i] > cutoff
    ensures |Since(h, cutoff)| <= |h|
    ensures h != [] && h[0] <= cutoff ==> |Since(h, cutoff)| <= |h| - 1
  {
    if h != [] {
      SinceHead(h[..|h| - 1], cutoff);
    }
  }

  lemma {:induction false} SinceIsInside(h: seq<real>, low: real, high: real)
    requires forall i :: 0 <= i < |h| ==> h[i] <= high
    ensures Inside(h, low, high) == Since(h, low)
  {
    if h != [] {
      SinceIsInside(h[..|h| - 1], low, high);
    }
  }

  lemma TruncateAbove(x: real)
    requires x > 0.0
    ensures Truncate(x) >= 0 && (Truncate(x) + 1) as real > x
  {}

  // Once the oldest entry of a full window has expired, the window has room.
  lemma OldestExpires(h: seq<real>, cutoff: real, cutoff': real, max: int)
    requires cutoff <= cutoff' && Since(h, cutoff) != [] && Since(h, cutoff)[0] <= cutoff'
    requires |Since(h, cutoff)| <= max
    ensures |Since(h, cutoff')| < max
  {
    SinceHead(Since(h, cutoff), cutoff');
    PruneExact(h, cutoff, cutoff');
  }

  // The window that ends now is at most full.
  lemma NeverOverfull(h: seq<real>, window: int, max: int, now: real)
    requires Paced(h, window, max) && max >= 1 && UpTo(h, now)
    ensures |Since(h, now - window as real)| <= max
  {
    WindowBound(h, window, max, now);
    SinceIsInside(h, now - window as real, now);
  }

  // A call repeated no sooner than the announced delay is admitted, if none was accepted meanwhile.
  lemma RetryAdmitted(h: seq<real>, window: int, max: int, now: real, later: real)
    requires Paced(h, window, max) && max >= 1 && UpTo(h, now)
    requires |Since(h, now - window as real)| >= max
    requires later >= now + RetryAfter(h, window, now) as real
    ensures |Since(h, later - window as real)| < max
    ensures RetryAfter(h, window, now) >= 1
  {
    var cutoff := now - window as real;
    var oldest := Since(h, cutoff)[0];
    assert oldest > cutoff by { SinceHead(h, cutoff); }
    TruncateAbove(window as real - (now - oldest));
    NeverOverfull(h, window, max, now);
    OldestExpires(h, cutoff, later - window as real, max);
  }

  // The announced delay is tight: it outlasts what the oldest entry of the window has left, and one
  // second less does not.
  lemma RetryTight(h: seq<real>, window: int, now: real)
    requires Since(h, now - window as real) != []
    ensures var left := Since(h, now - window as real)[0] + window as real - now;
            0.0 < left && (RetryAfter(h, window, now) - 1) as real <= left < RetryAfter(h, window, now) as real
  {
    SinceHead(h, now - window as real);
    var left := window as real - (now - Since(h, now - window as real)[0]);
    TruncateAbove(left);
    assert Truncate(left) as real <= left;
  }
}
