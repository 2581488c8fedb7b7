/**
  The chat endpoint's in-memory rate limiter: per user, the timestamps of the
  requests admitted in the last minute, at most ten of them.
 */
module RateLimit {

  const RATE_LIMIT_WINDOW: int := 60_000
  const RATE_LIMIT_MAX: nat := 10

  /** A timestamp still counts against the user at time `now`. */
  predicate InWindow(t: int, now: int) {
    now - t < RATE_LIMIT_WINDOW
  }

  /** `timestamps.filter(t => now - t < RATE_LIMIT_WINDOW)`. */
  function Recent(ts: seq<int>, now: int): (r: seq<int>)
    ensures |r| <= |ts|
    ensures forall t :: t in r <==> t in ts && InWindow(t, now)
  {
    if ts == [] then []
    else (if InWindow(ts[0], now) then [ts[0]] else []) + Recent(ts[1..], now)
  }

  /** The timestamps the filter drops. */
  function Expired(ts: seq<int>, now: int): (r: seq<int>)
  {
    if ts == [] then []
    else (if InWindow(ts[0], now) then [] else [ts[0]]) + Expired(ts[1..], now)
  }

  /** Pruning frees exactly as many slots as there are expired timestamps. */
  lemma {:induction false} RecentAndExpiredPartition(ts: seq<int>, now: int)
    ensures |Recent(ts, now)| + |Expired(ts, now)| == |ts|
    ensures forall t :: t in Expired(ts, now) <==> t in ts && !InWindow(t, now)
  {
    if ts != [] { RecentAndExpiredPartition(ts[1..], now); }
  }

  /** Timestamps that are all still in the window are all kept. */
  lemma {:induction false} RecentKeepsInWindow(ts: seq<int>, now: int)
    requires forall i :: 0 <= i < |ts| ==> InWindow(ts[i], now)
    ensures Recent(ts, now) == ts
  {
    if ts != [] { RecentKeepsInWindow(ts[1..], now); }
  }

  /** A later clock never counts more timestamps: capacity only comes back with time. */
  lemma {:induction false} RecentShrinksWithTime(ts: seq<int>, now: int, later: int)
    requires now <= later
    ensures |Recent(ts, later)| <= |Recent(ts, now)|
  {
    if ts != [] { RecentShrinksWithTime(ts[1..], now, later); }
  }

  /** `rateLimitMap.get(userId) || []`. */
  function Stored(windows: map<string, seq<int>>, userId: string): seq<int> {
    if userId in windows then windows[userId] else []
  }

  /** `isRateLimited`'s answer: the user already has the maximum within the window. */
  function Limited(windows: map<string, seq<int>>, userId: string, now: int): bool {
    |Recent(Stored(windows, userId), now)| >= RATE_LIMIT_MAX
  }

  /**
    The map after `isRateLimited`: the user's list is pruned, and `now` is
    appended only when the request is admitted; other users are untouched.
   */
  function AfterCheck(windows: map<string, seq<int>>, userId: string, now: int): map<string, seq<int>> {
    var kept := Recent(Stored(windows, userId), now);
    windows[userId := if |kept| >= RATE_LIMIT_MAX then kept else kept + [now]]
  }

  /** The invariant the limiter keeps: no user has more than the maximum stored. */
  predicate Bounded(windows: map<string, seq<int>>) {
    forall u :: u in windows ==> |windows[u]| <= RATE_LIMIT_MAX
  }

  /**
    What one check does: it answers "limited" exactly when the user has at
    least the maximum of timestamps in the window, records `now` exactly when
    it answers "admitted", leaves every other user alone and keeps the bound.
   */
  lemma AfterCheckSpec(windows: map<string, seq<int>>, userId: string, now: int)
    requires Bounded(windows)
    ensures var w := AfterCheck(windows, userId, now);
      var kept := Recent(Stored(windows, userId), now);
      && Bounded(w)
      && w.Keys == windows.Keys + {userId}
      && (forall u :: u in windows && u != userId ==> w[u] == windows[u])
      && (Limited(windows, userId, now) ==> w[userId] == kept)
      && (!Limited(windows, userId, now) ==> w[userId] == kept + [now] && |kept| < RATE_LIMIT_MAX)
      && (forall t :: t in w[userId] ==> InWindow(t, now))
  {
    var kept := Recent(Stored(windows, userId), now);
    assert |kept| <= |Stored(windows, userId)| <= RATE_LIMIT_MAX;
  }

  /**
    After as many admitted requests as the maximum, all within the window, the
    next request is limited.
   */
  lemma FullWindowIsLimited(windows: map<string, seq<int>>, userId: string, now: int)
    requires |Stored(windows, userId)| >= RATE_LIMIT_MAX
    requires forall i :: 0 <= i < |Stored(windows, userId)| ==> InWindow(Stored(windows, userId)[i], now)
    ensures Limited(windows, userId, now)
  {
    RecentKeepsInWindow(Stored(windows, userId), now);
  }

  /** The process-wide `rateLimitMap`. */
  class RateLimiter {
    var windows: map<string, seq<int>>

    ghost predicate Valid()
      reads this
    {
      Bounded(windows)
    }

    constructor ()
      ensures Valid() && windows == map[]
    {
      windows := map[];
    }

    /** `isRateLimited(userId)` at clock reading `now`. */
    method IsRateLimited(userId: string, now: int) returns (limited: bool)
      requires Valid()
      modifies this
      ensures Valid()
      ensures limited == Limited(old(windows), userId, now)
      ensures windows == AfterCheck(old(windows), userId, now)
    {
      AfterCheckSpec(windows, userId, now);
      var timestamps := Recent(Stored(windows, userId), now);
      if |timestamps| >= RATE_LIMIT_MAX {
        windows := windows[userId := timestamps];
        return true;
      }
      timestamps := timestamps + [now];
      windows := windows[userId := timestamps];
      return false;
    }
  }

  /** Eleven requests from one user at one instant: the first ten are admitted, the eleventh is refused. */
  method TenThenLimited(userId: string, now: int) returns (answers: seq<bool>)
    ensures answers == seq(RATE_LIMIT_MAX, _ => false) + [true]
  {
    var limiter := new RateLimiter();
    answers := [];
    var n := 0;
    while n < RATE_LIMIT_MAX
      invariant 0 <= n <= RATE_LIMIT_MAX
      invariant limiter.Valid()
      invariant Stored(limiter.windows, userId) == seq(n, _ => now)
      invariant answers == seq(n, _ => false)
    {
      RecentKeepsInWindow(Stored(limiter.windows, userId), now);
      var limited := limiter.IsRateLimited(userId, now);
      answers := answers + [limited];
      n := n + 1;
    }
    FullWindowIsLimited(limiter.windows, userId, now);
    var limited := limiter.IsRateLimited(userId, now);
    answers := answers + [limited];
  }
}
