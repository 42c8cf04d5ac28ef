/** The gateway's sliding-window request limiter. */
module RateLimiter {

  const WINDOW: real := 60.0

  /** How many of these instants lie in (t - 60, t]. */
  function LastMinute(times: seq<real>, t: real): nat {
    if times == [] then 0
    else
      var last := times[|times| - 1];
      LastMinute(times[..|times| - 1], t) + if t - WINDOW < last <= t then 1 else 0
  }

  /** The instants later than `since`, in order. */
  function Recent(times: seq<real>, since: real): seq<real> {
    if times == [] then []
    else
      var last := times[|times| - 1];
      Recent(times[..|times| - 1], since) + if since < last then [last] else []
  }

  /** At no instant were more than `limit` requests accepted in the last minute. */
  ghost predicate WithinLimit(accepted: seq<real>, limit: int) {
    forall t :: LastMinute(accepted, t) <= limit
  }

  ghost predicate SortedUpTo(times: seq<real>, clock: real) {
    && (forall i, j :: 0 <= i < j < |times| ==> times[i] <= times[j])
    && (forall i :: 0 <= i < |times| ==> times[i] <= clock)
  }

  /** The deque is the accepted history with only expired instants dropped. */
  ghost predicate Tracks(window: seq<real>, accepted: seq<real>, clock: real) {
    && SortedUpTo(accepted, clock)
    && |window| <= |accepted| && window == accepted[|accepted| - |window|..]
    && (forall i :: 0 <= i < |accepted| - |window| ==> accepted[i] <= clock - WINDOW)
  }

  /** A defaultdict lookup. */
  function Get(m: map<string, seq<real>>, client: string): seq<real> {
    if client in m then m[client] else []
  }

  ghost predicate Sound(window: seq<real>, accepted: seq<real>, clock: real, limit: int) {
    Tracks(window, accepted, clock) && (limit > 0 ==> WithinLimit(accepted, limit))
  }

  ghost predicate ClientValid(windows: map<string, seq<real>>, history: map<string, seq<real>>, clock: real, limit: int,
                              client: string)
  {
    Sound(Get(windows, client), Get(history, client), clock, limit)
  }

  ghost predicate AllValid(windows: map<string, seq<real>>, history: map<string, seq<real>>, clock: real, limit: int) {
    forall client :: ClientValid(windows, history, clock, limit, client)
  }

  lemma UpdateKeepsAll(windows: map<string, seq<real>>, history: map<string, seq<real>>, clock: real, limit: int,
                       client: string, window: seq<real>, accepted: seq<real>)
    requires AllValid(windows, history, clock, limit)
    requires Sound(window, accepted, clock, limit)
    ensures AllValid(windows[client := window], history[client := accepted], clock, limit)
  {
    var windows', history' := windows[client := window], history[client := accepted];
    forall c ensures ClientValid(windows', history', clock, limit, c) {
      assert ClientValid(windows, history, clock, limit, c);
    }
  }

  lemma AllLater(windows: map<string, seq<real>>, history: map<string, seq<real>>, clock: real, now: real, limit: int)
    requires AllValid(windows, history, clock, limit) && clock <= now
    ensures AllValid(windows, history, now, limit)
  {
    forall c ensures ClientValid(windows, history, now, limit, c) {
      assert ClientValid(windows, history, clock, limit, c);
    }
  }

  class Limiter {
    const limit: int
    /** Per client, the deque of instants. */
    var windows: map<string, seq<real>>
    /** The last instant the monotonic clock returned. */
    var clock: real
    /** Per client, every instant at which a request was ever accepted. */
    ghost var history: map<string, seq<real>>

    ghost predicate Valid()
      reads this
    {
      AllValid(windows, history, clock, limit)
    }

    constructor (limit: int)
      ensures Valid() && this.limit == limit && history == map[]
    {
      this.limit := limit;
      windows, clock, history := map[], 0.0, map[];
    }

    /** Drop the expired front of a deque. */
    static method Expire(window: seq<real>, now: real, ghost accepted: seq<real>) returns (recent: seq<real>)
      requires Tracks(window, accepted, now)
      ensures recent == Recent(accepted, now - WINDOW) && |recent| == LastMinute(accepted, now)
      ensures Tracks(recent, accepted, now)
    {
      recent := window;
      while recent != [] && recent[0] <= now - WINDOW
        invariant Tracks(recent, accepted, now)
        decreases |recent|
      {
        recent := recent[1..];
      }
      RecentIsSuffix(accepted, |accepted| - |recent|, now - WINDOW);
      CountIsRecent(accepted, now);
    }

    /** The decision for one client's deque. */
    static method Admit(window: seq<real>, now: real, limit: int, ghost accepted: seq<real>)
      returns (allowed: bool, window': seq<real>, ghost accepted': seq<real>)
      requires limit > 0 && Sound(window, accepted, now, limit)
      ensures allowed <==> LastMinute(accepted, now) < limit
      ensures !allowed ==> LastMinute(accepted, now) == limit
      ensures accepted' == if allowed then accepted + [now] else accepted
      ensures Sound(window', accepted', now, limit) && window' == Recent(accepted', now - WINDOW)
    {
      window' := Expire(window, now, accepted);
      accepted' := accepted;
      assert LastMinute(accepted, now) <= limit;
      if |window'| >= limit {
        return false, window', accepted';
      }
      AcceptKeepsLimit(accepted, now, limit);
      AcceptTracks(window', accepted, now);
      return true, window' + [now], accepted + [now];
    }

    /** One request under /api/: let through, or answered with 429. */
    method Request(client: string, now: real) returns (allowed: bool)
      requires Valid() && clock <= now
      modifies this
      ensures Valid() && clock == now
      ensures limit <= 0 ==> allowed
      ensures limit > 0 ==> (allowed <==> LastMinute(old(Get(history, client)), now) < limit)
      ensures limit > 0 && !allowed ==> LastMinute(old(Get(history, client)), now) == limit
      ensures limit > 0 ==>
                && history == old(history)[client :=
                     if allowed then old(Get(history, client)) + [now] else old(Get(history, client))]
                && windows == old(windows)[client := Recent(history[client], now - WINDOW)]
      ensures limit <= 0 ==> history == old(history) && windows == old(windows)
    {
      ghost var accepted := Get(history, client);
      AllLater(windows, history, clock, now, limit);
      if limit <= 0 {
        clock := now;
        return true;
      }
      assert ClientValid(windows, history, now, limit, client);
      var window: seq<real>;
      allowed, window, accepted := Admit(Get(windows, client), now, limit, accepted);
      UpdateKeepsAll(windows, history, now, limit, client, window, accepted);
      windows, history, clock := windows[client := window], history[client := accepted], now;
    }
  }

  lemma AcceptTracks(window: seq<real>, accepted: seq<real>, now: real)
    requires Tracks(window, accepted, now) && window == Recent(accepted, now - WINDOW)
    ensures Tracks(window + [now], accepted + [now], now)
    ensures window + [now] == Recent(accepted + [now], now - WINDOW)
  {
    assert (accepted + [now])[..|accepted|] == accepted;
  }

  /** In a sorted history the recent part is a suffix. */
  lemma {:induction false} RecentIsSuffix(times: seq<real>, n: nat, since: real)
    requires forall i, j :: 0 <= i < j < |times| ==> times[i] <= times[j]
    requires n <= |times| && forall i :: 0 <= i < n ==> times[i] <= since
    requires n < |times| ==> since < times[n]
    ensures Recent(times, since) == times[n..]
  {
    if times == [] {
    } else {
      var before := times[..|times| - 1];
      if n < |times| {
        RecentIsSuffix(before, n, since);
        assert times[n..] == before[n..] + [times[|times| - 1]];
      } else {
        RecentIsSuffix(before, |before|, since);
      }
    }
  }

  lemma {:induction false} CountIsRecent(times: seq<real>, now: real)
    requires forall i :: 0 <= i < |times| ==> times[i] <= now
    ensures LastMinute(times, now) == |Recent(times, now - WINDOW)|
  {
    if times == [] {
    } else {
      CountIsRecent(times[..|times| - 1], now);
    }
  }

  /** After the last accepted instant the count of the last minute only falls. */
  lemma {:induction false} CountFalls(times: seq<real>, now: real, t: real)
    requires forall i :: 0 <= i < |times| ==> times[i] <= now
    requires now <= t
    ensures LastMinute(times, t) <= LastMinute(times, now)
  {
    if times == [] {
    } else {
      CountFalls(times[..|times| - 1], now, t);
    }
  }

  lemma AcceptKeepsLimit(times: seq<real>, now: real, limit: int)
    requires WithinLimit(times, limit)
    requires forall i :: 0 <= i < |times| ==> times[i] <= now
    requires LastMinute(times, now) < limit
    ensures WithinLimit(times + [now], limit)
  {
    forall t ensures LastMinute(times + [now], t) <= limit {
      assert (times + [now])[..|times|] == times;
      assert LastMinute(times, t) <= limit;
      if t >= now { CountFalls(times, now, t); }
    }
  }

  // --------------------------------------------------------------------- in plain instants

  ghost predicate InOrder(times: seq<real>) { forall i, j :: 0 <= i < j < |times| ==> times[i] <= times[j] }

  predicate InLastMinute(times: seq<real>, i: int, t: real)
    requires 0 <= i < |times|
  {
    t - 60.0 < times[i] <= t
  }

  /** The instants of the last sixty seconds are consecutive, and counted right. */
  lemma {:induction false} WindowIs(times: seq<real>, t: real) returns (a: nat, b: nat)
    requires InOrder(times)
    ensures a <= b <= |times| && LastMinute(times, t) == b - a
    ensures forall i :: 0 <= i < |times| ==> (InLastMinute(times, i, t) <==> a <= i < b)
  {
    if times == [] {
      a, b := 0, 0;
    } else {
      var n := |times| - 1;
      a, b := WindowIs(times[..n], t);
      forall i | 0 <= i < n ensures InLastMinute(times, i, t) <==> a <= i < b {
        assert InLastMinute(times[..n], i, t) <==> InLastMinute(times, i, t);
      }
      if InLastMinute(times, n, t) {
        if a == b { a := n; } else { assert InLastMinute(times, a, t) && InLastMinute(times, n - 1, t); }
        b := n + 1;
      } else if a == b {
        a, b := 0, 0;
      }
    }
  }

  /** Of limit + 1 accepted requests in a row the first and the last are sixty seconds apart. */
  ghost predicate SpreadOut(accepted: seq<real>, limit: nat) {
    forall i :: 0 <= i < |accepted| - limit ==> accepted[i + limit] - accepted[i] >= 60.0
  }

  lemma SpreadExactly(accepted: seq<real>, limit: nat)
    requires InOrder(accepted) && limit > 0
    ensures WithinLimit(accepted, limit) <==> SpreadOut(accepted, limit)
  {
    if WithinLimit(accepted, limit) {
      forall i | 0 <= i < |accepted| - limit ensures accepted[i + limit] - accepted[i] >= 60.0 {
        var t := accepted[i + limit];
        var a, b := WindowIs(accepted, t);
        assert LastMinute(accepted, t) <= limit;
        if t - accepted[i] < 60.0 { assert InLastMinute(accepted, i, t) && InLastMinute(accepted, i + limit, t); }
      }
    }
    if SpreadOut(accepted, limit) {
      forall t ensures LastMinute(accepted, t) <= limit {
        var a, b := WindowIs(accepted, t);
        assert a + limit < b ==> InLastMinute(accepted, a, t) && InLastMinute(accepted, a + limit, t);
      }
    }
  }

  /** There is room exactly if fewer than the limit were accepted so far, or the one that many back
    * is sixty seconds old. */
  lemma RoomExactly(accepted: seq<real>, now: real, limit: nat)
    requires SortedUpTo(accepted, now) && limit > 0
    ensures LastMinute(accepted, now) < limit <==>
            |accepted| < limit || now - accepted[|accepted| - limit] >= 60.0
  {
    var n := |accepted|;
    var a, b := WindowIs(accepted, now);
    if n >= limit {
      if now - accepted[n - limit] < 60.0 {
        assert InLastMinute(accepted, n - limit, now) && InLastMinute(accepted, n - 1, now);
      } else if a < b {
        assert InLastMinute(accepted, a, now);
        assert !InLastMinute(accepted, n - limit, now);
      }
    }
  }
}
