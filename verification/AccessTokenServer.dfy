/** The access-token server of `wechat/mp/core/access_token_server.go`: any number of callers and one
    daemon, joined by two unbuffered channels, around a cache that is read without a lock. */
module AccessTokenServer {
  import opened Strings

  const SECOND := 1_000_000_000
  const LONGEST := 31556952

  datatype AccessToken = AccessToken(token: string, expiresIn: int)

  /** What one request to the token endpoint comes to. */
  datatype Reply = GetFailed | BadStatus | BadJson | ErrCode | Granted(token: string, expiresIn: int)

  /** The lifetime left once the safety margin is taken off; none when the lifetime is refused. */
  function Reduced(expiresIn: int): Option<int> {
    if expiresIn > LONGEST then None
    else if expiresIn > 60 * 60 then Some(expiresIn - 60 * 10)
    else if expiresIn > 60 * 30 then Some(expiresIn - 60 * 5)
    else if expiresIn > 60 * 5 then Some(expiresIn - 60)
    else if expiresIn > 60 then Some(expiresIn - 10)
    else None
  }

  /** What a reply leaves in the cache. */
  function Outcome(reply: Reply): Option<AccessToken> {
    if reply.Granted? && Reduced(reply.expiresIn).Some?
    then Some(AccessToken(reply.token, Reduced(reply.expiresIn).value))
    else None
  }

  /** A refresh of `current` is answered from the cache: another caller has already replaced it. */
  predicate Hit(cache: Option<AccessToken>, current: string) {
    current != "" && cache.Some? && cache.value.token != current
  }

  function Answer(fetched: Option<AccessToken>): Result<string> {
    if fetched.Some? then Ok(fetched.value.token) else Err("no token")
  }

  /** Lifetimes up to a minute or beyond a year are refused; the margin is ten minutes, five, one, or ten
      seconds, by the hour, the half hour and the five minutes. */
  lemma Margins(granted: int)
    ensures granted <= 60 || granted > 31556952 ==> Reduced(granted) == None
    ensures 60 < granted <= 300 ==> Reduced(granted) == Some(granted - 10)
    ensures 300 < granted <= 1800 ==> Reduced(granted) == Some(granted - 60)
    ensures 1800 < granted <= 3600 ==> Reduced(granted) == Some(granted - 300)
    ensures 3600 < granted <= 31556952 ==> Reduced(granted) == Some(granted - 600)
  {}

  /** A fetch leaves a token exactly when the endpoint granted one for an accepted lifetime. */
  lemma FetchOutcome(reply: Reply, token: string)
    ensures (Outcome(reply).Some? && Outcome(reply).value.token == token)
            <==> reply.Granted? && reply.token == token && 60 < reply.expiresIn <= 31556952
  {}

  // ---------------------------------------------------------------- the protocol, step by step

  datatype Caller =
    | Idle
    | Requesting(current: string)
    | Awaiting(current: string)
    | Answered(current: string, result: Result<string>)

  /** `rearm` is the lifetime the ticker is to be set to once the answer is handed over. */
  datatype Daemon =
    | Selecting
    | Serving(current: string)
    | Replying(result: Result<string>, rearm: Option<int>)
    | Ticking

  /** One answer the daemon worked out: for whom, to what, and from which reply if it had to ask. */
  datatype Served = Served(caller: nat, current: string, result: Result<string>, reply: Option<Reply>)

  /** `serving`, `log`, `lastFetch` and `granted` only record what happened; no step depends on them. */
  datatype State = State(
    callers: map<nat, Caller>,
    daemon: Daemon,
    cache: Option<AccessToken>,
    tick: int,
    serving: Option<nat>,
    log: seq<Served>,
    lastFetch: Option<Reply>,
    granted: Option<int>)
  {
    function At(c: nat): Caller {
      if c in callers then callers[c] else Idle
    }
  }

  datatype Event =
    | CallRefresh(c: nat, current: string)  // RefreshToken is called
    | CallToken(c: nat)                     // Token is called and reads the cache
    | Accept(c: nat)                        // the request rendezvous
    | AnswerFromCache
    | Fetch(reply: Reply)                   // the daemon asks the endpoint for a caller
    | Deliver(c: nat)                       // the response rendezvous, with any caller that is waiting
    | Tick
    | TickFetch(reply: Reply)               // the daemon asks the endpoint on its own account
    | Return(c: nat)

  predicate Enabled(s: State, e: Event) {
    match e
    case CallRefresh(c, _) => s.At(c).Idle?
    case CallToken(c) => s.At(c).Idle?
    case Accept(c) => s.daemon.Selecting? && s.At(c).Requesting?
    case AnswerFromCache => s.daemon.Serving? && Hit(s.cache, s.daemon.current)
    case Fetch(_) => s.daemon.Serving? && !Hit(s.cache, s.daemon.current)
    case Deliver(c) => s.daemon.Replying? && s.At(c).Awaiting?
    case Tick => s.daemon.Selecting?
    case TickFetch(_) => s.daemon.Ticking?
    case Return(c) => s.At(c).Answered?
  }

  function Distance(a: int, b: int): int {
    if a >= b then a - b else b - a
  }

  /** The ticker period after the daemon's own fetch. */
  function Retick(tick: int, fetched: Option<AccessToken>): int {
    if fetched.Some? && Distance(tick, fetched.value.expiresIn * SECOND) > 5 * SECOND
    then fetched.value.expiresIn * SECOND
    else tick
  }

  function Logged(s: State, result: Result<string>, reply: Option<Reply>): seq<Served> {
    if s.serving.Some? && s.daemon.Serving?
    then s.log + [Served(s.serving.value, s.daemon.current, result, reply)]
    else s.log
  }

  function LastGranted(s: State, reply: Reply): Option<int> {
    if Outcome(reply).Some? then Some(reply.expiresIn) else s.granted
  }

  function Next(s: State, e: Event): State
    requires Enabled(s, e)
  {
    match e
    case CallRefresh(c, current) => s.(callers := s.callers[c := Requesting(current)])
    case CallToken(c) =>
      s.(callers := s.callers[c := if s.cache.Some? then Answered("", Ok(s.cache.value.token)) else Requesting("")])
    case Accept(c) =>
      var current := s.At(c).current;
      s.(callers := s.callers[c := Awaiting(current)], daemon := Serving(current), serving := Some(c))
    case AnswerFromCache =>
      var result := Ok(s.cache.value.token);
      s.(daemon := Replying(result, None), log := Logged(s, result, None))
    case Fetch(reply) =>
      var fetched := Outcome(reply);
      var result := Answer(fetched);
      s.(cache := fetched, lastFetch := Some(reply), granted := LastGranted(s, reply),
         daemon := Replying(result, if fetched.Some? then Some(fetched.value.expiresIn) else None),
         log := Logged(s, result, Some(reply)))
    case Deliver(c) =>
      s.(callers := s.callers[c := Answered(s.At(c).current, s.daemon.result)],
         daemon := Selecting, serving := None,
         tick := if s.daemon.rearm.Some? then s.daemon.rearm.value * SECOND else s.tick)
    case Tick => s.(daemon := Ticking)
    case TickFetch(reply) =>
      s.(cache := Outcome(reply), lastFetch := Some(reply), granted := LastGranted(s, reply),
         daemon := Selecting, tick := Retick(s.tick, Outcome(reply)))
    case Return(c) => s.(callers := s.callers[c := Idle])
  }

  predicate ValidRun(s: State, es: seq<Event>)
    decreases |es|
  {
    es == [] || (Enabled(s, es[0]) && ValidRun(Next(s, es[0]), es[1..]))
  }

  function Run(s: State, es: seq<Event>): State
    requires ValidRun(s, es)
    decreases |es|
  {
    if es == [] then s else Run(Next(s, es[0]), es[1..])
  }

  /** A server just made: the first tick is between 100 and 299 days away. */
  ghost predicate Init(s: State) {
    && s.callers == map[] && s.daemon == Selecting && s.cache == None
    && 100 * 86400 * SECOND <= s.tick < 300 * 86400 * SECOND
    && s.serving == None && s.log == [] && s.lastFetch == None && s.granted == None
  }

  // ---------------------------------------------------------------- what every step keeps

  /** Exactly while the daemon serves or answers somebody, exactly one caller is between its request and
      its response; it is the caller being served, and the pending answer is the one to its own request. */
  ghost predicate OneAtATime(s: State) {
    && (s.serving.Some? <==> s.daemon.Serving? || s.daemon.Replying?)
    && (forall c: nat :: s.At(c).Awaiting? <==> s.serving == Some(c))
    && (s.daemon.Serving? ==> s.At(s.serving.value).current == s.daemon.current)
    && (s.daemon.Replying? ==>
          && s.log != []
          && var last := s.log[|s.log| - 1];
             && last.caller == s.serving.value && last.current == s.At(s.serving.value).current
             && last.result == s.daemon.result)
  }

  /** A logged answer repeats the refused token only if the endpoint granted that very token anew. */
  ghost predicate HonestLog(log: seq<Served>) {
    forall i :: 0 <= i < |log| ==>
      var a := log[i];
      && (a.current != "" && a.result == Ok(a.current) ==>
            a.reply.Some? && Outcome(a.reply.value).Some? && a.reply.value.token == a.current)
      && (a.reply.Some? ==> a.result == Answer(Outcome(a.reply.value)))
  }

  /** The cache is what the last fetch came to: nothing before the first, nothing after a failure. */
  ghost predicate CacheIsLastOutcome(s: State) {
    s.cache == if s.lastFetch.Some? then Outcome(s.lastFetch.value) else None
  }

  /** The period is positive, within 5 seconds of the reduced lifetime, at least 5 seconds shorter than
      the lifetime granted, and its nanoseconds fit an int64. */
  ghost predicate Timely(tick: int, granted: int) {
    && Reduced(granted).Some?
    && var lifetime := Reduced(granted).value;
       && 0 < lifetime * SECOND <= MAX_INT64
       && 0 < tick <= MAX_INT64
       && Distance(tick, lifetime * SECOND) <= 5 * SECOND
       && tick <= (granted - 5) * SECOND
  }

  /** After any successful fetch the ticker is timely, from the moment its answer is handed over. */
  ghost predicate Timed(s: State) {
    && 0 < s.tick <= LONGEST * SECOND
    && (s.granted.Some? ==> Reduced(s.granted.value).Some?)
    && (if s.daemon.Replying? && s.daemon.rearm.Some?
        then s.granted.Some? && s.daemon.rearm == Reduced(s.granted.value)
        else s.granted.Some? ==> Timely(s.tick, s.granted.value))
  }

  ghost predicate Inv(s: State) {
    OneAtATime(s) && HonestLog(s.log) && CacheIsLastOutcome(s) && Timed(s)
  }

  lemma InitInv(s: State)
    requires Init(s)
    ensures Inv(s)
  {}

  lemma StepOneAtATime(s: State, e: Event)
    requires OneAtATime(s) && Enabled(s, e)
    ensures OneAtATime(Next(s, e))
  {}

  lemma StepHonestLog(s: State, e: Event)
    requires HonestLog(s.log) && Enabled(s, e)
    ensures HonestLog(Next(s, e).log)
  {}

  lemma StepTimed(s: State, e: Event)
    requires Timed(s) && Enabled(s, e) && OneAtATime(s)
    ensures Timed(Next(s, e))
  {}

  lemma StepInv(s: State, e: Event)
    requires Inv(s) && Enabled(s, e)
    ensures Inv(Next(s, e))
  {
    StepOneAtATime(s, e);
    StepHonestLog(s, e);
    StepTimed(s, e);
  }

  lemma {:induction false} RunInv(s: State, es: seq<Event>)
    requires Inv(s) && ValidRun(s, es)
    ensures Inv(Run(s, es))
    decreases |es|
  {
    if es == [] {
    } else {
      StepInv(s, es[0]);
      RunInv(Next(s, es[0]), es[1..]);
    }
  }

  lemma {:induction false} RunAppend(s: State, a: seq<Event>, b: seq<Event>)
    requires ValidRun(s, a) && ValidRun(Run(s, a), b)
    ensures ValidRun(s, a + b) && Run(s, a + b) == Run(Run(s, a), b)
    decreases |a|
  {
    if a == [] {
      assert a + b == b;
    } else {
      assert (a + b)[1..] == a[1..] + b;
      RunAppend(Next(s, a[0]), a[1..], b);
    }
  }

  // ---------------------------------------------------------------- each caller its own answer

  /** Whoever takes the response is the only caller waiting, and what it takes was worked out for it and
      for the token it passed, although the response channel does not say for whom a response is. */
  lemma DeliversOwnAnswer(s0: State, es: seq<Event>, c: nat)
    requires Init(s0) && ValidRun(s0, es) && Enabled(Run(s0, es), Deliver(c))
    ensures var s := Run(s0, es);
            && s.log != []
            && var a := s.log[|s.log| - 1];
               && a.caller == c && a.current == s.At(c).current
               && Next(s, Deliver(c)).At(c) == Answered(a.current, a.result)
               && forall d: nat :: s.At(d).Awaiting? <==> d == c
  {
    InitInv(s0);
    RunInv(s0, es);
  }

  /** In every run `Token` answers at once with the token that the last fetch granted, if it granted one, and
      else becomes a request for any token. */
  lemma TokenAnswers(s0: State, es: seq<Event>, c: nat)
    requires Init(s0) && ValidRun(s0, es) && Run(s0, es).At(c).Idle?
    ensures var s := Run(s0, es);
            && Enabled(s, CallToken(c))
            && var t := Next(s, CallToken(c));
               if s.lastFetch.Some? && s.lastFetch.value.Granted? && 60 < s.lastFetch.value.expiresIn <= 31556952
               then t.At(c) == Answered("", Ok(s.lastFetch.value.token))
               else t.At(c) == Requesting("")
    ensures var s, t := Run(s0, es), Next(Run(s0, es), CallToken(c));
            t == s.(callers := t.callers) && forall d: nat :: d != c ==> t.At(d) == s.At(d)
  {
    InitInv(s0);
    RunInv(s0, es);
  }

  /** `lastFetch` is what the endpoint said last, to whichever of the two kinds of fetch. */
  lemma LastFetchIsLast(s: State, e: Event)
    requires Enabled(s, e)
    ensures Next(s, e).lastFetch
         == if e.Fetch? then Some(e.reply) else if e.TickFetch? then Some(e.reply) else s.lastFetch
  {}

  /** A call of `RefreshToken` becomes a request for what it passes, and returns what it was answered. */
  lemma RefreshAsks(s: State, c: nat, current: string)
    requires s.At(c).Idle?
    ensures Enabled(s, CallRefresh(c, current))
    ensures Next(s, CallRefresh(c, current)).At(c) == Requesting(current)
  {}

  /** What the daemon answers: a refresh of a token that is no longer cached, with the cached one; any other
      with what the fetch grants, or an error. */
  lemma DaemonAnswers(s: State, reply: Reply)
    requires OneAtATime(s) && s.daemon.Serving?
    ensures var current := s.daemon.current;
            if current != "" && s.cache.Some? && s.cache.value.token != current
            then Enabled(s, AnswerFromCache) && Next(s, AnswerFromCache).daemon.result == Ok(s.cache.value.token)
                 && Next(s, AnswerFromCache).cache == s.cache
            else Enabled(s, Fetch(reply))
                 && (if reply.Granted? && 60 < reply.expiresIn <= 31556952
                     then Next(s, Fetch(reply)).daemon.result == Ok(reply.token)
                     else Next(s, Fetch(reply)).daemon.result.Err?)
  {}

  predicate DaemonStep(e: Event) {
    !e.CallRefresh? && !e.CallToken? && !e.Return?
  }

  /** The daemon finishes what it is doing in at most two steps of its own. */
  lemma FinishCurrent(s: State, reply: Reply) returns (es: seq<Event>)
    requires Inv(s)
    ensures |es| <= 2 && ValidRun(s, es) && forall e :: e in es ==> DaemonStep(e)
    ensures var t := Run(s, es);
            && t.daemon.Selecting?
            && forall c: nat :: t.At(c) == s.At(c) || (s.At(c).Awaiting? && t.At(c).Answered?)
  {
    match s.daemon
    case Selecting => es := [];
    case Ticking =>
      es := [TickFetch(reply)];
      assert Run(s, es) == Next(s, es[0]);
    case Replying(_, _) =>
      es := [Deliver(s.serving.value)];
      assert Run(s, es) == Next(s, es[0]);
    case Serving(current) =>
      es := AnswerSteps(s, reply);
      AnswerStepsRun(s, reply);
  }

  /** The two steps in which a request that was accepted is worked out and answered. */
  function AnswerSteps(s: State, reply: Reply): seq<Event>
    requires s.daemon.Serving? && s.serving.Some?
  {
    [if Hit(s.cache, s.daemon.current) then AnswerFromCache else Fetch(reply), Deliver(s.serving.value)]
  }

  lemma AnswerStepsRun(s: State, reply: Reply)
    requires OneAtATime(s) && s.daemon.Serving?
    ensures var es := AnswerSteps(s, reply);
            && ValidRun(s, es)
            && Run(s, es) == Next(Next(s, es[0]), es[1])
  {
    var es := AnswerSteps(s, reply);
    StepOneAtATime(s, es[0]);
    assert es[1..] == [es[1]];
    assert Run(Next(s, es[0]), [es[1]]) == Next(Next(s, es[0]), es[1]);
  }

  /** No deadlock: from every reachable state, and whatever the endpoint replies, five steps of the
      daemon are enough to answer any given caller. */
  lemma NeverDeadlocks(s0: State, run: seq<Event>, c: nat, reply: Reply) returns (es: seq<Event>)
    requires Init(s0) && ValidRun(s0, run)
    requires Run(s0, run).At(c).Requesting? || Run(s0, run).At(c).Awaiting?
    ensures |es| <= 5 && ValidRun(Run(s0, run), es) && Run(Run(s0, run), es).At(c).Answered?
    ensures forall e :: e in es ==> DaemonStep(e)
  {
    InitInv(s0);
    RunInv(s0, run);
    var s := Run(s0, run);
    es := FinishCurrent(s, reply);
    RunInv(s, es);
    var t := Run(s, es);
    if t.At(c).Requesting? {
      var u := Next(t, Accept(c));
      StepInv(t, Accept(c));
      var answer := AnswerSteps(u, reply);
      AnswerStepsRun(u, reply);
      assert ([Accept(c)] + answer)[1..] == answer;
      RunAppend(s, es, [Accept(c)] + answer);
      es := es + ([Accept(c)] + answer);
    }
  }

  // ---------------------------------------------------------------- many callers, one fetch

  predicate OtherThan(cache: Option<AccessToken>, current: string) {
    cache.Some? && cache.value.token != current
  }

  /** No fetch of this run fails or grants `current` again. */
  predicate NeverReissues(es: seq<Event>, current: string) {
    forall e :: e in es ==>
      && (e.Fetch? ==> OtherThan(Outcome(e.reply), current))
      && (e.TickFetch? ==> OtherThan(Outcome(e.reply), current))
  }

  /** The fetches of a run made to answer a refresh of `current`. */
  function FetchesFor(s: State, es: seq<Event>, current: string): nat
    requires ValidRun(s, es)
    decreases |es|
  {
    if es == [] then 0
    else (if es[0].Fetch? && s.daemon == Serving(current) then 1 else 0) + FetchesFor(Next(s, es[0]), es[1..], current)
  }

  /** Once `current` has been replaced, every refresh of it is answered with another token and without a
      fetch, however many callers ask, as long as no fetch fails or grants `current` again. */
  lemma {:induction false} Coalesces(s: State, es: seq<Event>, current: string)
    requires Inv(s) && ValidRun(s, es)
    requires current != "" && OtherThan(s.cache, current) && NeverReissues(es, current)
    ensures FetchesFor(s, es, current) == 0
    ensures OtherThan(Run(s, es).cache, current)
    ensures var log := Run(s, es).log;
            && s.log <= log
            && forall i :: |s.log| <= i < |log| && log[i].current == current ==>
                 log[i].reply == None && log[i].result.Ok? && log[i].result.value != current
    decreases |es|
  {
    if es == [] {
    } else {
      var e, t := es[0], Next(s, es[0]);
      assert e in es;
      StepInv(s, e);
      assert NeverReissues(es[1..], current) by {
        forall f | f in es[1..] ensures f in es {}
      }
      CoalescesStep(s, e, current);
      Coalesces(t, es[1..], current);
    }
  }

  lemma CoalescesStep(s: State, e: Event, current: string)
    requires Inv(s) && Enabled(s, e) && current != "" && OtherThan(s.cache, current)
    requires e.Fetch? ==> OtherThan(Outcome(e.reply), current)
    requires e.TickFetch? ==> OtherThan(Outcome(e.reply), current)
    ensures e.Fetch? ==> s.daemon != Serving(current)
    ensures var t := Next(s, e);
            && OtherThan(t.cache, current)
            && s.log <= t.log && |t.log| <= |s.log| + 1
            && (|t.log| > |s.log| && t.log[|s.log|].current == current ==>
                  && t.log[|s.log|].reply == None
                  && t.log[|s.log|].result.Ok? && t.log[|s.log|].result.value != current)
  {}

  /** From any state and for any number of callers, one fetch at most is made for refreshes of `current`,
      as long as no fetch fails or grants it again. */
  lemma {:induction false} FetchesOnce(s: State, es: seq<Event>, current: string)
    requires Inv(s) && ValidRun(s, es) && current != "" && NeverReissues(es, current)
    ensures FetchesFor(s, es, current) <= 1
    decreases |es|
  {
    if es == [] {
    } else {
      var e, t := es[0], Next(s, es[0]);
      assert e in es;
      StepInv(s, e);
      assert NeverReissues(es[1..], current) by {
        forall f | f in es[1..] ensures f in es {}
      }
      hide Inv, NeverReissues;
      if e.Fetch? {
        FetchReplaces(s, e, current);
        Coalesces(t, es[1..], current);
      } else {
        FetchesOnce(t, es[1..], current);
      }
    }
  }

  lemma FetchReplaces(s: State, e: Event, current: string)
    requires Enabled(s, e) && e.Fetch? && OtherThan(Outcome(e.reply), current)
    ensures OtherThan(Next(s, e).cache, current)
  {}

  /** A refresh of `current` that comes back with `current` comes from a fetch, made for that very
      caller, in which the endpoint granted `current` again. */
  lemma ReusesOnlyReissued(s0: State, es: seq<Event>, c: nat)
    requires Init(s0) && ValidRun(s0, es) && Enabled(Run(s0, es), Deliver(c))
    requires var s := Run(s0, es);
             s.At(c).current != "" && s.daemon.result == Ok(s.At(c).current)
    ensures var s := Run(s0, es);
            && s.log != []
            && var a := s.log[|s.log| - 1];
               && a.caller == c && a.reply.Some?
               && Outcome(a.reply.value).Some? && a.reply.value.token == s.At(c).current
  {
    InitInv(s0);
    RunInv(s0, es);
  }

  // ---------------------------------------------------------------- timing

  /** Whenever the daemon is free after a successful fetch, its ticker is timely. */
  lemma TickerIsTimely(s0: State, es: seq<Event>)
    requires Init(s0) && ValidRun(s0, es)
    ensures var s := Run(s0, es);
            && CacheIsLastOutcome(s)
            && 0 < s.tick <= MAX_INT64
            && (s.granted.Some? && !s.daemon.Replying? ==> Timely(s.tick, s.granted.value))
  {
    InitInv(s0);
    RunInv(s0, es);
  }

  /** The period, in nanoseconds: an answer out of a successful fetch sets it to the reduced lifetime, any
      other answer leaves it; the daemon's own fetch sets it if that is more than 5 seconds away. */
  lemma TickerRule(s: State, c: nat, token: string, granted: int)
    ensures Enabled(s, Fetch(Granted(token, granted))) && Reduced(granted).Some? && s.At(c).Awaiting? ==>
              var t := Next(s, Fetch(Granted(token, granted)));
              Enabled(t, Deliver(c)) && Next(t, Deliver(c)).tick == Reduced(granted).value * 1_000_000_000
    ensures Enabled(s, AnswerFromCache) && s.At(c).Awaiting? ==>
              var t := Next(s, AnswerFromCache);
              Enabled(t, Deliver(c)) && Next(t, Deliver(c)).tick == s.tick
    ensures Enabled(s, TickFetch(Granted(token, granted))) && Reduced(granted).Some? ==>
              var period := Reduced(granted).value * 1_000_000_000;
              Next(s, TickFetch(Granted(token, granted))).tick
              == if -5_000_000_000 <= s.tick - period <= 5_000_000_000 then s.tick else period
  {}

  // ---------------------------------------------------------------- the code of the daemon

  class DefaultAccessTokenServer {
    var tokenCache: Option<AccessToken>
    var tickDuration: int

    constructor (initTickDuration: int)
      ensures tokenCache == None && tickDuration == initTickDuration
    {
      tokenCache, tickDuration := None, initTickDuration;
    }

    /** The server's fields are those of a protocol state. */
    ghost predicate Mirrors(s: State)
      reads this
    {
      tokenCache == s.cache && tickDuration == s.tick
    }

    /** `Token`: the cached token at once, or nothing, and then `RefreshToken("")` is called. */
    method Token(ghost s: State, ghost c: nat) returns (answer: Option<string>)
      requires Mirrors(s) && s.At(c).Idle?
      ensures tokenCache.Some? ==> answer == Some(tokenCache.value.token)
      ensures tokenCache.None? ==> answer == None
      ensures Next(s, CallToken(c)).At(c) == if answer.Some? then Answered("", Ok(answer.value)) else Requesting("")
    {
      var p := tokenCache;
      if p.Some? {
        return Some(p.value.token);
      }
      answer := None;
    }

    /** `reply` is what the endpoint would say; it matters only when it is asked. */
    method UpdateToken(currentToken: string, reply: Reply) returns (r: Result<AccessToken>, cached: bool)
      modifies this`tokenCache
      ensures cached == Hit(old(tokenCache), currentToken)
      ensures cached ==> tokenCache == old(tokenCache) && r == Ok(tokenCache.value)
      ensures !cached ==> tokenCache == Outcome(reply)
      ensures !cached ==> (r.Ok? <==> tokenCache.Some?) && (r.Ok? ==> r.value == tokenCache.value)
    {
      if currentToken != "" {
        var p := tokenCache;
        if p.Some? && currentToken != p.value.token {
          return Ok(p.value), true;
        }
      }
      cached := false;
      if !reply.Granted? {
        tokenCache := None;
        return Err("request failed"), false;
      }
      var expiresIn := reply.expiresIn;
      if expiresIn > LONGEST {
        tokenCache := None;
        return Err("expires_in too large"), false;
      } else if expiresIn > 60 * 60 {
        expiresIn := expiresIn - 60 * 10;
      } else if expiresIn > 60 * 30 {
        expiresIn := expiresIn - 60 * 5;
      } else if expiresIn > 60 * 5 {
        expiresIn := expiresIn - 60;
      } else if expiresIn > 60 {
        expiresIn := expiresIn - 10;
      } else {
        tokenCache := None;
        return Err("expires_in too small"), false;
      }
      tokenCache := Some(AccessToken(reply.token, expiresIn));
      r := Ok(tokenCache.value);
    }

    /** The daemon's branch for a request: what it does to the server is the two protocol steps that
        answer the request, and the response is the one they hand over. */
    method ServeRequest(currentToken: string, reply: Reply, ghost s: State) returns (response: Result<string>)
      requires Mirrors(s) && OneAtATime(s) && s.daemon == Serving(currentToken)
      modifies this
      ensures ValidRun(s, AnswerSteps(s, reply)) && Mirrors(Run(s, AnswerSteps(s, reply)))
      ensures Run(s, AnswerSteps(s, reply)).At(s.serving.value) == Answered(currentToken, response)
    {
      AnswerStepsRun(s, reply);
      var r, cached := UpdateToken(currentToken, reply);
      if r.Err? {
        return Err("no token");
      }
      response := Ok(r.value.token);
      if !cached {
        tickDuration := r.value.expiresIn * SECOND;
      }
    }

    /** The daemon's branch for a tick. */
    method ServeTick(reply: Reply, ghost s: State)
      requires Mirrors(s) && s.daemon.Ticking?
      modifies this
      ensures Mirrors(Next(s, TickFetch(reply)))
    {
      var r, _ := UpdateToken("", reply);
      if r.Err? {
        return;
      }
      var newTickDuration := r.value.expiresIn * SECOND;
      var difference := tickDuration - newTickDuration;
      if (if difference >= 0 then difference else -difference) > SECOND * 5 {
        tickDuration := newTickDuration;
      }
    }
  }

  // ---------------------------------------------------------------- the client's one retry

  /** The answer of an API endpoint to a call made with some token. */
  datatype ApiReply = TransportError | ErrCodeReply(errCode: int)

  const INVALID_CREDENTIAL := 40001
  const TOKEN_EXPIRED := 42001

  predicate TokenRefused(r: ApiReply) {
    r.ErrCodeReply? && (r.errCode == INVALID_CREDENTIAL || r.errCode == TOKEN_EXPIRED)
  }

  /** These are the answers that refuse a token. */
  lemma RefusingAnswers(r: ApiReply)
    ensures TokenRefused(r) <==> r == ErrCodeReply(40001) || r == ErrCodeReply(42001)
  {}

  datatype CallResult = NoToken | Finished(reply: ApiReply)

  /** One call of `RefreshToken`: the run of the server before it, the caller, and the steps from then on
      until the answer is about to be handed over. */
  datatype Call = Call(start: State, before: seq<Event>, caller: nat, during: seq<Event>)

  /** The server when the call for `current` has been made. */
  ghost function Called(call: Call, current: string): State
    requires ValidRun(call.start, call.before)
    requires Enabled(Run(call.start, call.before), CallRefresh(call.caller, current))
  {
    Next(Run(call.start, call.before), CallRefresh(call.caller, current))
  }

  /** In this run the call for `current` is answered with `answer`. */
  ghost predicate Answers(call: Call, current: string, answer: string) {
    && Init(call.start) && ValidRun(call.start, call.before)
    && Enabled(Run(call.start, call.before), CallRefresh(call.caller, current))
    && var s := Called(call, current);
       && ValidRun(s, call.during) && Deliver(call.caller) !in call.during
       && Enabled(Run(s, call.during), Deliver(call.caller))
       && Run(s, call.during).daemon.result == Ok(answer)
  }

  /** In these steps the daemon, serving this caller, fetches and the endpoint grants `token`. */
  predicate GrantedIn(s: State, es: seq<Event>, c: nat, token: string)
    requires ValidRun(s, es)
    decreases |es|
  {
    es != []
    && (|| (es[0].Fetch? && s.serving == Some(c) && Outcome(es[0].reply).Some? && es[0].reply.token == token)
        || GrantedIn(Next(s, es[0]), es[1..], c, token))
  }

  lemma {:induction false} AnswerStands(s: State, es: seq<Event>, c: nat)
    requires Inv(s) && ValidRun(s, es) && s.daemon.Replying? && s.serving == Some(c) && Deliver(c) !in es
    ensures Run(s, es).daemon == s.daemon
    decreases |es|
  {
    if es == [] {
    } else {
      assert es[0] in es && forall e :: e in es[1..] ==> e in es;
      StepInv(s, es[0]);
      AnswerStands(Next(s, es[0]), es[1..], c);
    }
  }

  /** A caller that has asked, or is being served, and in the end is answered with the token it passed. */
  lemma {:induction false} SameAnswerIsGranted(s: State, es: seq<Event>, c: nat, current: string)
    requires Inv(s) && ValidRun(s, es) && Deliver(c) !in es && current != ""
    requires || s.At(c) == Requesting(current)
             || (s.At(c) == Awaiting(current) && s.serving == Some(c) && s.daemon == Serving(current))
    requires Enabled(Run(s, es), Deliver(c)) && Run(s, es).daemon.result == Ok(current)
    ensures GrantedIn(s, es, c, current)
    decreases |es|
  {
    var e, t := es[0], Next(s, es[0]);
    assert e in es && forall x :: x in es[1..] ==> x in es;
    StepInv(s, e);
    if t.daemon.Replying? && t.serving == Some(c) {
      AnswerStands(t, es[1..], c);
      FetchedSame(s, e, c, current);
    } else {
      StillServed(s, e, c, current);
      hide Inv, Next, Enabled;
      SameAnswerIsGranted(t, es[1..], c, current);
    }
  }

  /** The daemon answers a refresh with the same token only out of a fetch that granted it. */
  lemma FetchedSame(s: State, e: Event, c: nat, current: string)
    requires Inv(s) && Enabled(s, e) && e != Deliver(c) && current != ""
    requires || s.At(c) == Requesting(current)
             || (s.At(c) == Awaiting(current) && s.serving == Some(c) && s.daemon == Serving(current))
    requires Next(s, e).daemon.Replying? && Next(s, e).serving == Some(c) && Next(s, e).daemon.result == Ok(current)
    ensures e.Fetch? && s.serving == Some(c) && Outcome(e.reply).Some? && e.reply.token == current
  {}

  lemma StillServed(s: State, e: Event, c: nat, current: string)
    requires Inv(s) && Enabled(s, e) && e != Deliver(c)
    requires || s.At(c) == Requesting(current)
             || (s.At(c) == Awaiting(current) && s.serving == Some(c) && s.daemon == Serving(current))
    ensures var t := Next(s, e);
            || t.At(c) == Requesting(current)
            || (t.At(c) == Awaiting(current) && t.serving == Some(c)
                && (t.daemon == Serving(current) || t.daemon.Replying?))
  {}

  /** A call that is answered with the token it passed: between the call and its answer the daemon, serving
      this very call, has fetched, and the endpoint has granted that token anew. */
  lemma SameTokenWasGranted(call: Call, current: string)
    requires Answers(call, current, current) && current != ""
    ensures GrantedIn(Called(call, current), call.during, call.caller, current)
  {
    InitInv(call.start);
    RunInv(call.start, call.before);
    var s := Run(call.start, call.before);
    StepInv(s, CallRefresh(call.caller, current));
    SameAnswerIsGranted(Called(call, current), call.during, call.caller, current);
  }

  lemma {:induction false} GrantedBySomeFetch(s: State, es: seq<Event>, c: nat, token: string)
    requires ValidRun(s, es) && GrantedIn(s, es, c, token)
    ensures exists e :: e in es && e.Fetch? && Outcome(e.reply).Some? && e.reply.token == token
    decreases |es|
  {
    assert es[0] in es;
    if GrantedIn(Next(s, es[0]), es[1..], c, token) {
      GrantedBySomeFetch(Next(s, es[0]), es[1..], c, token);
    }
  }

  /** If meanwhile no fetch grants it again, the answer is another token. */
  lemma AnotherTokenComesBack(call: Call, current: string, answer: string)
    requires Answers(call, current, answer) && current != ""
    requires forall e :: e in call.during && e.Fetch? && Outcome(e.reply).Some? ==> e.reply.token != current
    ensures answer != current
  {
    if answer == current {
      SameTokenWasGranted(call, current);
      GrantedBySomeFetch(Called(call, current), call.during, call.caller, current);
    }
  }

  /** `GetJSON` and `PostJSON`: `call(i, t)` is the reply to the i-th request, made with token `t`. At most
      two requests are made; the second one only after the first token was refused, and with the token
      that refreshing it gave. The last reply is the result, also when it refuses the token again. `inRun` is the
      run of the server in which the one refresh is answered: the second request uses the refused token again
      only if, in that run and between this refresh and its answer, a fetch for this refresh granted it anew. */
  method CallWithRetry(
      first: Result<string>, call: (nat, string) -> ApiReply, refresh: string -> Result<string>, ghost inRun: Call)
    returns (result: CallResult, used: seq<string>)
    requires first.Ok? && refresh(first.value).Ok? ==> Answers(inRun, first.value, refresh(first.value).value)
    ensures first.Err? ==> used == [] && result == NoToken
    ensures first.Ok? ==> 1 <= |used| <= 2 && used[0] == first.value
    ensures |used| == 2 ==> TokenRefused(call(0, used[0])) && refresh(used[0]) == Ok(used[1])
    ensures result.Finished? ==> used != [] && result.reply == call(|used| - 1, used[|used| - 1])
    ensures first.Ok? ==> (result == NoToken <==> TokenRefused(call(0, used[0])) && refresh(used[0]).Err?)
    ensures |used| == 1 && result.Finished? ==> !TokenRefused(call(0, used[0]))
    ensures |used| == 2 && used[1] == used[0] != "" ==>
              && Answers(inRun, used[0], used[1])
              && GrantedIn(Called(inRun, used[0]), inRun.during, inRun.caller, used[0])
  {
    hide Answers, GrantedIn, Called;
    used := [];
    if first.Err? {
      return NoToken, used;
    }
    var token := first.value;
    var hasRetried := false;
    while true
      invariant hasRetried == (|used| == 1) && |used| <= 1
      invariant !hasRetried ==> token == first.value
      invariant hasRetried ==>
          used[0] == first.value && TokenRefused(call(0, used[0])) && refresh(used[0]) == Ok(token)
      decreases !hasRetried
    {
      var reply := call(|used|, token);
      used := used + [token];
      if |used| == 2 && used[1] == used[0] != "" {
        SameTokenWasGranted(inRun, used[0]);
      }
      if reply.TransportError? {
        return Finished(reply), used;
      }
      if TokenRefused(reply) && !hasRetried {
        hasRetried := true;
        var refreshed := refresh(token);
        if refreshed.Err? {
          return NoToken, used;
        }
        token := refreshed.value;
      } else {
        return Finished(reply), used;
      }
    }
  }
}
