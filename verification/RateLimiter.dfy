/** The sliding-window rate limiter of `server/uploadpic.go`. Times are in nanoseconds. */
module RateLimiter {

  const REQUEST_INTERVAL := 60 * 1_000_000_000

  /** One call for an address: when it came, the limit configured then, and whether it was let through. */
  datatype Call = Call(time: int, maxRequests: int, accepted: bool)

  function Times(log: seq<Call>): seq<int> {
    seq(|log|, i requires 0 <= i < |log| => log[i].time)
  }

  ghost predicate NonDecreasing(times: seq<int>) {
    forall i, j :: 0 <= i < j < |times| ==> times[i] <= times[j]
  }

  /** The times that are no older than one interval at `now`, in order. */
  function Recent(times: seq<int>, now: int): seq<int> {
    if times == [] then []
    else (if now - times[0] > REQUEST_INTERVAL then [] else [times[0]]) + Recent(times[1..], now)
  }

  /** Every call was let through exactly when the attempts of the interval before it, itself included,
      were at most its limit. */
  ghost predicate Faithful(log: seq<Call>) {
    && NonDecreasing(Times(log))
    && forall j :: 0 <= j < |log| ==>
         (log[j].accepted <==> |Recent(Times(log[..j + 1]), log[j].time)| <= log[j].maxRequests)
  }

  /** `count` is all the attempts of a log that were no older than one interval at its last. */
  ghost predicate Tracks(log: seq<Call>, count: seq<int>) {
    Faithful(log) && count == if log == [] then [] else Recent(Times(log), log[|log| - 1].time)
  }

  class RateLimiter {
    var counts: map<string, seq<int>>
    ghost var logs: map<string, seq<Call>>  // all calls so far, by address

    ghost function Log(ip: string): seq<Call>
      reads this
    {
      if ip in logs then logs[ip] else []
    }

    function Count(ip: string): seq<int>
      reads this
    {
      if ip in counts then counts[ip] else []
    }

    ghost predicate Valid()
      reads this
    {
      forall ip :: Tracks(Log(ip), Count(ip))
    }

    constructor ()
      ensures Valid() && forall ip :: Log(ip) == []
    {
      counts, logs := map[], map[];
    }

    method CheckAndUpdateRateLimit(ip: string, now: int, maxRequests: int) returns (accepted: bool)
      requires Valid()
      requires Log(ip) != [] ==> Log(ip)[|Log(ip)| - 1].time <= now
      modifies this
      ensures Valid()
      ensures Log(ip) == old(Log(ip)) + [Call(now, maxRequests, accepted)]
      ensures accepted <==> |Count(ip)| <= maxRequests
      ensures forall other :: other != ip ==> Log(other) == old(Log(other)) && Count(other) == old(Count(other))
    {
      hide Tracks, Recent;
      ghost var log := Log(ip);
      NewCall(log, Count(ip), now, maxRequests);
      counts := counts[ip := Count(ip) + [now]];
      Trim(ip, now);
      accepted := |counts[ip]| <= maxRequests;
      logs := logs[ip := log + [Call(now, maxRequests, accepted)]];
      forall other | other != ip
        ensures Log(other) == old(Log(other)) && Count(other) == old(Count(other)) && Tracks(Log(other), Count(other))
      {
        assert old(Tracks(Log(other), Count(other)));
      }
    }

    /** The loop that drops expired entries from the front. */
    method Trim(ip: string, now: int)
      requires ip in counts && NonDecreasing(counts[ip])
      modifies this`counts
      ensures counts == old(counts)[ip := Recent(old(counts)[ip], now)]
    {
      while |counts[ip]| > 0 && now - counts[ip][0] > REQUEST_INTERVAL
        invariant ip in counts && counts == old(counts)[ip := counts[ip]] && NonDecreasing(counts[ip])
        invariant Recent(counts[ip], now) == Recent(old(counts)[ip], now)
        decreases |counts[ip]|
      {
        counts := counts[ip := counts[ip][1..]];
      }
      RecentAll(counts[ip], now);
    }
  }

  // ---------------------------------------------------------------- the lists

  lemma {:induction false} RecentConcat(a: seq<int>, b: seq<int>, now: int)
    ensures Recent(a + b, now) == Recent(a, now) + Recent(b, now)
  {
    if a == [] {
      assert a + b == b && Recent(a, now) == [];
      assert [] + Recent(b, now) == Recent(b, now);
    } else {
      assert (a + b)[1..] == a[1..] + b && (a + b)[0] == a[0];
      RecentFirst(a, now);
      RecentFirst(a + b, now);
      hide Recent;
      RecentConcat(a[1..], b, now);
    }
  }

  lemma RecentFirst(times: seq<int>, now: int)
    requires times != []
    ensures Recent(times, now)
         == (if now - times[0] > REQUEST_INTERVAL then [] else [times[0]]) + Recent(times[1..], now)
  {}

  lemma RecentOne(t: int, now: int)
    ensures Recent([t], now) == if now - t > REQUEST_INTERVAL then [] else [t]
  {
    assert [t][1..] == [];
  }

  lemma NonDecreasingAppend(times: seq<int>, now: int)
    requires NonDecreasing(times) && forall t :: t in times ==> t <= now
    ensures NonDecreasing(times + [now])
  {
    var all := times + [now];
    forall i, j | 0 <= i < j < |all| ensures all[i] <= all[j] {
      assert all[i] == times[i] && times[i] in times;
    }
  }

  lemma UpToLast(times: seq<int>)
    requires NonDecreasing(times) && times != []
    ensures forall t :: t in times ==> t <= times[|times| - 1]
  {}

  /** Trimming earlier does not change what trimming later leaves. */
  lemma {:induction false} RecentAgain(times: seq<int>, earlier: int, now: int)
    requires earlier <= now
    ensures Recent(Recent(times, earlier), now) == Recent(times, now)
  {
    if times == [] {
    } else {
      RecentAgain(times[1..], earlier, now);
      RecentOne(times[0], now);
      var rest := Recent(times[1..], earlier);
      assert Recent(times, earlier) == if earlier - times[0] > REQUEST_INTERVAL then rest else [times[0]] + rest;
      if earlier - times[0] <= REQUEST_INTERVAL {
        RecentConcat([times[0]], Recent(times[1..], earlier), now);
      }
    }
  }

  lemma {:induction false} RecentOrdered(times: seq<int>, now: int)
    requires NonDecreasing(times)
    ensures NonDecreasing(Recent(times, now)) && forall t :: t in Recent(times, now) ==> t in times
  {
    if times == [] {
    } else {
      RecentOrdered(times[1..], now);
      assert forall t :: t in times[1..] ==> t in times;
      var rest := Recent(times[1..], now);
      forall j | 0 <= j < |rest| ensures times[0] <= rest[j] {
        assert rest[j] in rest;
        var i :| 0 <= i < |times[1..]| && times[1..][i] == rest[j];
        assert times[0] <= times[i + 1];
      }
    }
  }

  lemma {:induction false} RecentAll(times: seq<int>, now: int)
    requires NonDecreasing(times) && (times != [] ==> now - times[0] <= REQUEST_INTERVAL)
    ensures Recent(times, now) == times
  {
    if times == [] {
    } else {
      assert times == [times[0]] + times[1..];
      RecentAll(times[1..], now);
    }
  }

  /** The trimmed list with a new attempt at its end stands for the whole log with that attempt. */
  lemma AppendedCall(log: seq<Call>, now: int)
    requires Faithful(log) && (log != [] ==> log[|log| - 1].time <= now)
    ensures var kept := if log == [] then [] else Recent(Times(log), log[|log| - 1].time);
            && NonDecreasing(kept + [now])
            && Recent(kept + [now], now) == Recent(Times(log) + [now], now)
  {
    var times := Times(log);
    if log == [] {
      assert times == [] && [] + [now] == [now];
      AppendedToNothing(now);
    } else {
      var last := log[|log| - 1].time;
      hide Recent;
      RecentOrdered(times, last);
      RecentConcat(times, [now], now);
      RecentConcat(Recent(times, last), [now], now);
      RecentAgain(times, last, now);
      UpToLast(times);
      hide *;
      assert last <= now && forall t :: t in Recent(times, last) ==> t in times;
      NonDecreasingAppend(Recent(times, last), now);
    }
  }

  lemma AppendedToNothing(now: int)
    ensures NonDecreasing([now])
  {}

  lemma FaithfulAppend(log: seq<Call>, call: Call)
    requires Faithful(log) && (log != [] ==> log[|log| - 1].time <= call.time)
    requires call.accepted <==> |Recent(Times(log) + [call.time], call.time)| <= call.maxRequests
    ensures Faithful(log + [call])
    ensures Times(log + [call]) == Times(log) + [call.time]
  {
    var all := log + [call];
    assert Times(all) == Times(log) + [call.time];
    if log != [] { UpToLast(Times(log)); }
    NonDecreasingAppend(Times(log), call.time);
    forall j | 0 <= j < |all|
      ensures all[j].accepted <==> |Recent(Times(all[..j + 1]), all[j].time)| <= all[j].maxRequests
    {
      if j < |log| {
        assert all[..j + 1] == log[..j + 1];
      } else {
        assert all[..j + 1] == all;
      }
    }
  }

  /** One more call, decided by the trimmed list with the new attempt in it, keeps the list true. */
  lemma NewCall(log: seq<Call>, count: seq<int>, now: int, maxRequests: int)
    requires Tracks(log, count) && (log != [] ==> log[|log| - 1].time <= now)
    ensures var kept := Recent(count + [now], now);
            && NonDecreasing(count + [now])
            && Tracks(log + [Call(now, maxRequests, |kept| <= maxRequests)], kept)
  {
    AppendedCall(log, now);
    FaithfulAppend(log, Call(now, maxRequests, |Recent(count + [now], now)| <= maxRequests));
  }

  // ---------------------------------------------------------------- the bound

  /** How many calls of a log were let through in the closed interval that begins at `start`. */
  function AcceptedIn(log: seq<Call>, start: int): nat {
    if log == [] then 0
    else
      var last := log[|log| - 1];
      AcceptedIn(log[..|log| - 1], start)
      + (if last.accepted && start <= last.time <= start + REQUEST_INTERVAL then 1 else 0)
  }

  lemma {:induction false} AcceptedAreRecent(log: seq<Call>, start: int, now: int)
    requires now <= start + REQUEST_INTERVAL
    ensures AcceptedIn(log, start) <= |Recent(Times(log), now)|
  {
    if log == [] {
    } else {
      var init, last := log[..|log| - 1], log[|log| - 1];
      AcceptedAreRecent(init, start, now);
      assert Times(log) == Times(init) + [last.time];
      RecentConcat(Times(init), [last.time], now);
      RecentOne(last.time, now);
    }
  }

  /** From the k-th on the attempts are of the last 60 seconds, before it they are older. */
  ghost predicate KeptFrom(times: seq<int>, now: int, k: nat) {
    && k <= |times| && Recent(times, now) == times[k..]
    && (forall i :: 0 <= i < k ==> now - times[i] > 60_000_000_000)
    && (forall i :: k <= i < |times| ==> now - times[i] <= 60_000_000_000)
  }

  /** What is kept at `now` is the attempts of the last 60 seconds: all of them, and no older one. */
  lemma {:induction false} RecentExactly(times: seq<int>, now: int)
    requires NonDecreasing(times)
    ensures exists k: nat :: KeptFrom(times, now, k)
  {
    if times == [] {
      assert KeptFrom(times, now, 0);
    } else if now - times[0] > REQUEST_INTERVAL {
      RecentExactly(times[1..], now);
      var k: nat :| KeptFrom(times[1..], now, k);
      OneOlder(times, now, k);
    } else {
      RecentAll(times, now);
      assert times == times[0..];
      assert KeptFrom(times, now, 0);
    }
  }

  lemma OneOlder(times: seq<int>, now: int, k: nat)
    requires times != [] && now - times[0] > 60_000_000_000 && KeptFrom(times[1..], now, k)
    ensures KeptFrom(times, now, k + 1)
  {
    var rest := times[1..];
    assert rest[k..] == times[k + 1..];
    RecentFirst(times, now);
    assert [] + Recent(rest, now) == Recent(rest, now);
    hide Recent;
    assert forall i :: 1 <= i < |times| ==> times[i] == rest[i - 1];
  }

  /** The calls let through in a closed interval of 60 seconds. */
  ghost function LetThrough(log: seq<Call>, start: int): set<nat> {
    set j: nat | j < |log| && log[j].accepted && start <= log[j].time <= start + 60_000_000_000
  }

  lemma {:induction false} AcceptedInCounts(log: seq<Call>, start: int)
    ensures AcceptedIn(log, start) == |LetThrough(log, start)|
  {
    if log == [] {
      assert LetThrough(log, start) == {};
    } else {
      var init, last := log[..|log| - 1], log[|log| - 1];
      AcceptedInCounts(init, start);
      assert LetThrough(log, start) == LetThrough(init, start)
             + (if last.accepted && start <= last.time <= start + 60_000_000_000 then {|init|} else {});
    }
  }

  /** Every closed one-minute interval of a whole run lets at most `limit` calls of an address through,
      when none of its calls was let through under a higher limit. */
  lemma {:induction false} WindowBound(log: seq<Call>, start: int, limit: nat)
    requires Faithful(log)
    requires forall j :: 0 <= j < |log| && log[j].accepted ==> log[j].maxRequests <= limit
    ensures |LetThrough(log, start)| == AcceptedIn(log, start) <= limit
  {
    AcceptedInCounts(log, start);
    if log == [] {
    } else {
      var n := |log| - 1;
      if log[n].accepted && start <= log[n].time <= start + REQUEST_INTERVAL {
        assert log[..n + 1] == log;
        AcceptedAreRecent(log, start, log[n].time);
      } else {
        PrefixFaithful(log, n);
        WindowBound(log[..n], start, limit);
      }
    }
  }

  lemma PrefixFaithful(log: seq<Call>, n: nat)
    requires Faithful(log) && n <= |log|
    ensures Faithful(log[..n])
  {
    assert Times(log[..n]) == Times(log)[..n];
    forall j | 0 <= j < n
      ensures log[..n][j].accepted <==> |Recent(Times(log[..n][..j + 1]), log[j].time)| <= log[j].maxRequests
    {
      assert log[..n][..j + 1] == log[..j + 1];
    }
  }
}
