/** The per-client sliding-window rate limiter of the contact endpoint
    (`tooManyRecentSubmissions` and the process-wide `ipSubmissionMap` in
    app/api/contact/route.ts). */
module ContactRateLimit {

  /** `RATE_LIMIT_WINDOW_MS`: ten minutes. */
  const RateLimitWindowMs: int := 10 * 60 * 1000
  /** `RATE_LIMIT_MAX_SUBMISSIONS`. */
  const RateLimitMaxSubmissions: nat := 5

  /** The ledger: client identifier to the timestamps of its accepted
      submissions, oldest first. */
  type Ledger = map<string, seq<int>>

  /** `ipSubmissionMap.get(ip) || []`. */
  function Stored(ledger: Ledger, ip: string): seq<int> {
    if ip in ledger then ledger[ip] else []
  }

  /** The pruning `filter`: the timestamps still inside the window at `now`,
      kept in their stored order. */
  function Recent(ts: seq<int>, now: int): (r: seq<int>)
    ensures |r| <= |ts|
    ensures forall t :: t in r <==> t in ts && now - t < RateLimitWindowMs
    ensures (forall t | t in ts :: now - t < RateLimitWindowMs) ==> r == ts
    ensures (forall t | t in ts :: now - t >= RateLimitWindowMs) ==> r == []
  {
    if ts == [] then []
    else
      assert ts == [ts[0]] + ts[1..];
      assert ts[0] in ts && forall t | t in ts[1..] :: t in ts;
      (if now - ts[0] < RateLimitWindowMs then [ts[0]] else []) + Recent(ts[1..], now)
  }

  /** Pruning a list is pruning its two halves: the filter keeps the
      surviving timestamps in their stored order. */
  lemma {:induction false} RecentConcat(a: seq<int>, b: seq<int>, now: int)
    ensures Recent(a + b, now) == Recent(a, now) + Recent(b, now)
    decreases |a|
  {
    if a == [] {
      assert a + b == b;
    } else {
      assert (a + b)[0] == a[0];
      assert (a + b)[1..] == a[1..] + b;
      RecentConcat(a[1..], b, now);
    }
  }

  /** A single timestamp survives exactly when it is less than a window
      old at `now`. */
  lemma RecentSingle(t: int, now: int)
    ensures Recent([t], now) == if now - t < RateLimitWindowMs then [t] else []
  {
    assert [t][1..] == [];
  }

  /** One call of `tooManyRecentSubmissions(ip, now)`: whether the client is
      over quota, and the ledger afterwards. The verdict is refusal exactly
      when the pruned list already fills the quota; the client's entry is
      rewritten with the pruned list, with `now` appended only when the
      call lets the submission through; no other client's entry changes. */
  function LimitStep(ledger: Ledger, ip: string, now: int): (r: (bool, Ledger))
    ensures var (limited, after) := r;
      && (limited <==> |Recent(Stored(ledger, ip), now)| >= RateLimitMaxSubmissions)
      && ip in after
      && after[ip] == Recent(Stored(ledger, ip), now) + (if limited then [] else [now])
      && (forall t :: t in after[ip] <==> (t in Stored(ledger, ip) && now - t < RateLimitWindowMs) || (!limited && t == now))
      && (forall other | other != ip :: (other in after <==> other in ledger) && Stored(after, other) == Stored(ledger, other))
  {
    var recent := Recent(Stored(ledger, ip), now);
    if |recent| >= RateLimitMaxSubmissions then (true, ledger[ip := recent])
    else (false, ledger[ip := recent + [now]])
  }

  /** No client ever holds more than the quota of timestamps. */
  ghost predicate Bounded(ledger: Ledger) {
    forall ip | ip in ledger :: |ledger[ip]| <= RateLimitMaxSubmissions
  }

  /** A call never takes a client over the quota. */
  lemma LimitStepBounded(ledger: Ledger, ip: string, now: int)
    requires Bounded(ledger)
    ensures Bounded(LimitStep(ledger, ip, now).1)
  {
  }

  /** Once every stored timestamp of a client is at least a window old, its
      next submission goes through and starts a fresh list. */
  lemma WindowElapsedAdmits(ledger: Ledger, ip: string, now: int)
    requires forall t | t in Stored(ledger, ip) :: now - t >= RateLimitWindowMs
    ensures LimitStep(ledger, ip, now) == (false, ledger[ip := [now]])
  {
    var recent := Recent(Stored(ledger, ip), now);
    assert recent == [];
    assert recent + [now] == [now];
  }

  /** Successive calls for one client at the given times: the verdicts and
      the final ledger. */
  function Replay(ledger: Ledger, ip: string, times: seq<int>): (seq<bool>, Ledger)
    decreases |times|
  {
    if times == [] then ([], ledger)
    else
      var (limited, next) := LimitStep(ledger, ip, times[0]);
      var (rest, last) := Replay(next, ip, times[1..]);
      ([limited] + rest, last)
  }

  /** All calls fall inside one window: every call is less than a window
      after each earlier one. */
  ghost predicate WithinOneWindow(times: seq<int>) {
    forall i, j | 0 <= i < j < |times| :: times[j] - times[i] < RateLimitWindowMs
  }

  /** A burst inside one window: starting from a stored list whose
      timestamps are all within the window of every call, the `i`-th call is
      refused exactly when the stored list and the `i` earlier calls already
      fill the quota. */
  lemma {:induction false} BurstVerdicts(ledger: Ledger, ip: string, times: seq<int>)
    requires WithinOneWindow(times)
    requires forall t, i | t in Stored(ledger, ip) && 0 <= i < |times| :: times[i] - t < RateLimitWindowMs
    ensures |Replay(ledger, ip, times).0| == |times|
    ensures forall i | 0 <= i < |times| ::
      Replay(ledger, ip, times).0[i] == (|Stored(ledger, ip)| + i >= RateLimitMaxSubmissions)
    decreases |times|
  {
    if times != [] {
      var stored := Stored(ledger, ip);
      var (limited, next) := LimitStep(ledger, ip, times[0]);
      assert Recent(stored, times[0]) == stored;
      var nextStored := Stored(next, ip);
      assert nextStored == if limited then stored else stored + [times[0]];
      forall t, i | t in nextStored && 0 <= i < |times[1..]|
        ensures times[1..][i] - t < RateLimitWindowMs
      {
        assert times[1..][i] == times[i + 1];
      }
      BurstVerdicts(next, ip, times[1..]);
      var verdicts := Replay(ledger, ip, times).0;
      forall i | 0 <= i < |times|
        ensures verdicts[i] == (|stored| + i >= RateLimitMaxSubmissions)
      {
        if i > 0 {
          assert verdicts[i] == Replay(next, ip, times[1..]).0[i - 1];
        }
      }
    }
  }

  /** From a fresh ledger, six submissions from one client inside one window:
      the first five go through and the sixth is refused. */
  lemma SixthSubmissionInWindowIsRefused(ip: string, times: seq<int>)
    requires |times| == 6 && WithinOneWindow(times)
    ensures Replay(map[], ip, times).0 == [false, false, false, false, false, true]
  {
    BurstVerdicts(map[], ip, times);
  }

  /** The ledger as the endpoint keeps it in memory: one object for the
      lifetime of the process, updated in place by each call. */
  class RateLimiter {
    var submissions: Ledger

    /** No client holds more than the quota. */
    ghost predicate Valid()
      reads this
    {
      Bounded(submissions)
    }

    /** `new Map<string, number[]>()` at process start. */
    constructor ()
      ensures submissions == map[] && Valid()
    {
      submissions := map[];
    }

    /** `tooManyRecentSubmissions(clientIp, now)`: prune the client's list,
        refuse when the quota is already used, otherwise record `now`. */
    method TooManyRecentSubmissions(clientIp: string, now: int) returns (limited: bool)
      modifies this
      ensures (limited, submissions) == LimitStep(old(submissions), clientIp, now)
      ensures limited <==> |Recent(Stored(old(submissions), clientIp), now)| >= RateLimitMaxSubmissions
      ensures submissions[clientIp] ==
        Recent(Stored(old(submissions), clientIp), now) + (if limited then [] else [now])
      ensures forall other | other != clientIp ::
        (other in submissions <==> other in old(submissions)) &&
        Stored(submissions, other) == Stored(old(submissions), other)
      ensures old(Valid()) ==> Valid()
    {
      var recent := Recent(if clientIp in submissions then submissions[clientIp] else [], now);
      if |recent| >= RateLimitMaxSubmissions {
        submissions := submissions[clientIp := recent];
        return true;
      }
      recent := recent + [now];
      submissions := submissions[clientIp := recent];
      return false;
    }
  }
}
