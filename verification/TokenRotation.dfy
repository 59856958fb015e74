/** Rotation of the callback server's token (`wechat/mp/core/server.go`): requests load the current and
    the previous token without a lock, check a signature, and may retire the previous one later, while
    `SetToken` runs in between. */
module TokenRotation {
  import opened Strings

  datatype TokenBucket = TokenBucket(current: string, last: string)

  /** A request: it has loaded a bucket; it has verified against the current token and is about to retire
      the previous one; or it is through. `signature` is what it carries. */
  datatype Request =
    | Loaded(signature: string, seen: TokenBucket)
    | Retiring(signature: string, seen: TokenBucket)
    | Accepted(signature: string, token: string)
    | Refused

  /** `history` records the tokens in the order in which they became current. */
  datatype State = State(bucket: TokenBucket, requests: map<nat, Request>, history: seq<string>)

  datatype Event =
    | SetToken(token: string)
    | Load(r: nat, signature: string)
    | Check(r: nat)
    | Retire(r: nat)

  predicate Enabled(s: State, e: Event) {
    match e
    case SetToken(_) => true
    case Load(r, _) => r !in s.requests
    case Check(r) => r in s.requests && s.requests[r].Loaded?
    case Retire(r) => r in s.requests && s.requests[r].Retiring?
  }

  /** The signature check of request `r`: `sign` signs the timestamp and nonce of a request under a token. */
  function Checked(q: Request, r: nat, sign: (nat, string) -> string): Request
    requires q.Loaded?
  {
    if q.seen.current == "" then Refused
    else if q.signature == sign(r, q.seen.current) then
      if q.seen.last != "" then Retiring(q.signature, q.seen) else Accepted(q.signature, q.seen.current)
    else if q.seen.last != "" && q.signature == sign(r, q.seen.last) then Accepted(q.signature, q.seen.last)
    else Refused
  }

  function Next(s: State, e: Event, sign: (nat, string) -> string): State
    requires Enabled(s, e)
  {
    match e
    case SetToken(token) =>
      if token == "" || token == s.bucket.current then s
      else s.(bucket := TokenBucket(token, s.bucket.current), history := s.history + [token])
    case Load(r, signature) => s.(requests := s.requests[r := Loaded(signature, s.bucket)])
    case Check(r) => s.(requests := s.requests[r := Checked(s.requests[r], r, sign)])
    case Retire(r) =>
      var q := s.requests[r];
      s.(requests := s.requests[r := Accepted(q.signature, q.seen.current)],
         bucket := if q.seen.last != s.bucket.last then s.bucket else TokenBucket(s.bucket.current, ""))
  }

  predicate ValidRun(s: State, es: seq<Event>, sign: (nat, string) -> string)
    decreases |es|
  {
    es == [] || (Enabled(s, es[0]) && ValidRun(Next(s, es[0], sign), es[1..], sign))
  }

  function Run(s: State, es: seq<Event>, sign: (nat, string) -> string): State
    requires ValidRun(s, es, sign)
    decreases |es|
  {
    if es == [] then s else Run(Next(s, es[0], sign), es[1..], sign)
  }

  function Init(token: string): State {
    State(TokenBucket(token, ""), map[], [token])
  }

  // ---------------------------------------------------------------- invariants

  /** A bucket that the history has seen: some token of it, and the one before or none. */
  ghost predicate SeenAt(history: seq<string>, b: TokenBucket, k: nat) {
    && k < |history| && b.current == history[k]
    && (b.last == "" || (k > 0 && b.last == history[k - 1]))
  }

  /** A request about to retire the previous token carries a signature under the one it saw as current. */
  ghost predicate Verified(s: State, sign: (nat, string) -> string) {
    forall r :: r in s.requests && s.requests[r].Retiring? ==>
      s.requests[r].signature == sign(r, s.requests[r].seen.current)
  }

  ghost predicate Inv(s: State, sign: (nat, string) -> string) {
    && Verified(s, sign)
    && s.history != [] && SeenAt(s.history, s.bucket, |s.history| - 1)
    && (forall k :: 0 <= k < |s.history| ==> s.history[k] != "")
    && (forall k :: 0 < k < |s.history| ==> s.history[k] != s.history[k - 1])
    && (forall r :: r in s.requests && (s.requests[r].Loaded? || s.requests[r].Retiring?) ==>
          exists k :: SeenAt(s.history, s.requests[r].seen, k))
  }

  lemma StepInv(s: State, e: Event, sign: (nat, string) -> string)
    requires Inv(s, sign) && Enabled(s, e)
    ensures Inv(Next(s, e, sign), sign) && s.history <= Next(s, e, sign).history
  {
    var t := Next(s, e, sign);
    StepVerified(s, e, sign);
    hide Verified;
    forall r | r in t.requests && (t.requests[r].Loaded? || t.requests[r].Retiring?)
      ensures exists k :: SeenAt(t.history, t.requests[r].seen, k)
    {
      StepSeen(s, e, r, sign);
    }
  }

  lemma StepVerified(s: State, e: Event, sign: (nat, string) -> string)
    requires Verified(s, sign) && Enabled(s, e)
    ensures Verified(Next(s, e, sign), sign)
  {}

  lemma StepSeen(s: State, e: Event, r: nat, sign: (nat, string) -> string)
    requires Inv(s, sign) && Enabled(s, e)
    requires var t := Next(s, e, sign);
             r in t.requests && (t.requests[r].Loaded? || t.requests[r].Retiring?)
    ensures var t := Next(s, e, sign); exists k :: SeenAt(t.history, t.requests[r].seen, k)
  {
    var t := Next(s, e, sign);
    if r in s.requests && (s.requests[r].Loaded? || s.requests[r].Retiring?) {
      var k :| SeenAt(s.history, s.requests[r].seen, k);
      assert SeenAt(t.history, t.requests[r].seen, k);
    } else {
      assert SeenAt(t.history, t.requests[r].seen, |s.history| - 1);
    }
  }

  lemma {:induction false} RunInv(s: State, es: seq<Event>, sign: (nat, string) -> string)
    requires Inv(s, sign) && ValidRun(s, es, sign)
    ensures Inv(Run(s, es, sign), sign) && s.history <= Run(s, es, sign).history
    decreases |es|
  {
    if es == [] {
    } else {
      StepInv(s, es[0], sign);
      RunInv(Next(s, es[0], sign), es[1..], sign);
    }
  }

  /** In every run from a server with a token, the current token is never empty and never the previous. */
  lemma CurrentIsSound(token: string, es: seq<Event>, sign: (nat, string) -> string)
    requires token != "" && ValidRun(Init(token), es, sign)
    ensures var b := Run(Init(token), es, sign).bucket; b.current != "" && b.current != b.last
  {
    assert SeenAt([token], TokenBucket(token, ""), 0);
    RunInv(Init(token), es, sign);
  }

  /** An accepted request carries a signature under a token that was current at some time. */
  ghost predicate OnlyKnownTokens(s: State, sign: (nat, string) -> string) {
    forall r :: r in s.requests && s.requests[r].Accepted? ==>
      s.requests[r].signature == sign(r, s.requests[r].token) && s.requests[r].token in s.history
  }

  lemma StepOnlyKnownTokens(s: State, e: Event, sign: (nat, string) -> string)
    requires Inv(s, sign) && OnlyKnownTokens(s, sign) && Enabled(s, e)
    ensures OnlyKnownTokens(Next(s, e, sign), sign)
  {
    if e.Check? || e.Retire? {
      var k: nat :| SeenAt(s.history, s.requests[e.r].seen, k);
      assert s.history[k] in s.history && (k > 0 ==> s.history[k - 1] in s.history);
    }
  }

  lemma {:induction false} RunOnlyKnownTokens(s: State, es: seq<Event>, sign: (nat, string) -> string)
    requires Inv(s, sign) && OnlyKnownTokens(s, sign) && ValidRun(s, es, sign)
    ensures OnlyKnownTokens(Run(s, es, sign), sign)
    decreases |es|
  {
    if es == [] {
    } else {
      StepOnlyKnownTokens(s, es[0], sign);
      StepInv(s, es[0], sign);
      RunOnlyKnownTokens(Next(s, es[0], sign), es[1..], sign);
    }
  }

  /** In every run, whoever is accepted has signed under a token that was set at some time; and a check is
      passed exactly with a signature under one of the two tokens that the request loaded. */
  lemma AcceptedOnlyUnderKnownToken(token: string, es: seq<Event>, r: nat, sign: (nat, string) -> string)
    requires token != "" && ValidRun(Init(token), es, sign)
    ensures var s := Run(Init(token), es, sign);
            && OnlyKnownTokens(s, sign)
            && (Enabled(s, Check(r)) ==>
                  var q := s.requests[r];
                  && q.seen.current in s.history && (q.seen.last != "" ==> q.seen.last in s.history)
                  && (Checked(q, r, sign).Refused? <==>
                        && q.signature != sign(r, q.seen.current)
                        && (q.seen.last == "" || q.signature != sign(r, q.seen.last))))
  {
    assert SeenAt([token], TokenBucket(token, ""), 0);
    RunInv(Init(token), es, sign);
    RunOnlyKnownTokens(Init(token), es, sign);
    var s := Run(Init(token), es, sign);
    if Enabled(s, Check(r)) {
      var k: nat :| SeenAt(s.history, s.requests[r].seen, k);
      assert s.history[k] in s.history && (k > 0 ==> s.history[k - 1] in s.history);
    }
  }

  // ---------------------------------------------------------------- what each step does

  /** Setting a token that is neither empty nor the current one makes it current and that one the previous;
      any other changes nothing. No request is touched. */
  lemma SettingAToken(s: State, token: string, sign: (nat, string) -> string)
    ensures var t := Next(s, SetToken(token), sign);
            && t.requests == s.requests
            && (if token == "" || token == s.bucket.current then t == s
                else t.bucket.current == token && t.bucket.last == s.bucket.current && t.history == s.history + [token])
  {}

  /** A request sees the bucket as it is when it loads it. */
  lemma Loading(s: State, r: nat, signature: string, sign: (nat, string) -> string)
    requires r !in s.requests
    ensures var t := Next(s, Load(r, signature), sign);
            t.bucket == s.bucket && t.requests == s.requests[r := Loaded(signature, s.bucket)]
  {}

  /** Which token a check accepts under: the current one if the signature fits it, and then the previous one
      has to be retired first if there is one; else the previous one if it fits that. */
  lemma Checking(s: State, r: nat, sign: (nat, string) -> string)
    requires Enabled(s, Check(r)) && s.requests[r].seen.current != ""
    ensures var q, t := s.requests[r], Next(s, Check(r), sign);
            && t.bucket == s.bucket && t.requests.Keys == s.requests.Keys
            && (q.signature == sign(r, q.seen.current) ==>
                  t.requests[r] == if q.seen.last == "" then Accepted(q.signature, q.seen.current)
                                   else Retiring(q.signature, q.seen))
            && (q.signature != sign(r, q.seen.current) && q.seen.last != "" && q.signature == sign(r, q.seen.last) ==>
                  t.requests[r] == Accepted(q.signature, q.seen.last))
  {}

  /** A retirement takes the previous token away exactly when it is still the one the request saw, and the
      request is accepted under the token it saw as current. */
  lemma RetiringToken(s: State, r: nat, sign: (nat, string) -> string)
    requires Enabled(s, Retire(r))
    ensures var q, t := s.requests[r], Next(s, Retire(r), sign);
            && t.bucket.current == s.bucket.current
            && t.bucket.last == (if q.seen.last == s.bucket.last then "" else s.bucket.last)
            && t.requests == s.requests[r := Accepted(q.signature, q.seen.current)]
  {}

  // ---------------------------------------------------------------- the grace window

  /** What may end the grace of the previous token: a real change of the token, or the retirement by a
      request whose signature was verified under the token that is current now. */
  predicate EndsGrace(s: State, e: Event, sign: (nat, string) -> string)
    requires Enabled(s, e)
  {
    || (e.SetToken? && e.token != "" && e.token != s.bucket.current)
    || (e.Retire? && s.requests[e.r].seen.current == s.bucket.current
        && s.requests[e.r].signature == sign(e.r, s.bucket.current))
  }

  predicate NeverEndsGrace(s: State, es: seq<Event>, sign: (nat, string) -> string)
    requires ValidRun(s, es, sign)
    decreases |es|
  {
    es == [] || (!EndsGrace(s, es[0], sign) && NeverEndsGrace(Next(s, es[0], sign), es[1..], sign))
  }

  /** A request that has verified, or is going to verify, under a token other than `b.current` and that
      will then retire the token `b.last`: it loaded its bucket when `b.last` was the previous token of
      another one. */
  ghost predicate Stale(s: State, r: nat, b: TokenBucket, sign: (nat, string) -> string) {
    && r in s.requests
    && var q := s.requests[r];
       && (q.Retiring? || (q.Loaded? && q.signature == sign(r, q.seen.current)))
       && q.seen.last == b.last && q.seen.current != b.current
  }

  ghost predicate NobodyStale(s: State, b: TokenBucket, sign: (nat, string) -> string) {
    forall r :: !Stale(s, r, b, sign)
  }

  /** While nobody is stale, no step but one that may end the grace touches the bucket, and nobody
      becomes stale. */
  lemma GraceStep(s: State, e: Event, sign: (nat, string) -> string)
    requires Inv(s, sign) && NobodyStale(s, s.bucket, sign) && Enabled(s, e) && !EndsGrace(s, e, sign)
    ensures var t := Next(s, e, sign); t.bucket == s.bucket && NobodyStale(t, t.bucket, sign)
  {
    var t := Next(s, e, sign);
    if e.Retire? {
      assert !Stale(s, e.r, s.bucket, sign);
    }
    forall r ensures !Stale(t, r, s.bucket, sign) {
      assert !Stale(s, r, s.bucket, sign);
    }
  }

  lemma {:induction false} GraceLasts(s: State, es: seq<Event>, sign: (nat, string) -> string)
    requires Inv(s, sign) && NobodyStale(s, s.bucket, sign) && ValidRun(s, es, sign) && NeverEndsGrace(s, es, sign)
    ensures Run(s, es, sign).bucket == s.bucket
    decreases |es|
  {
    if es == [] {
    } else {
      GraceStep(s, es[0], sign);
      StepInv(s, es[0], sign);
      GraceLasts(Next(s, es[0], sign), es[1..], sign);
    }
  }

  /** The bucket that setting a token leaves outlasts every run without an event that may end the grace. */
  ghost predicate GraceAlwaysLasts(t: State, sign: (nat, string) -> string) {
    forall es :: LastingRun(t, es, sign) ==> Run(t, es, sign).bucket == t.bucket
  }

  ghost predicate LastingRun(t: State, es: seq<Event>, sign: (nat, string) -> string) {
    ValidRun(t, es, sign) && NeverEndsGrace(t, es, sign)
  }

  /** The steps with which a stale request retires the previous token. */
  function LateRetirement(q: Request, r: nat): seq<Event> {
    if q.Loaded? then [Check(r), Retire(r)] else [Retire(r)]
  }

  lemma StaleEndsGrace(t: State, r: nat, sign: (nat, string) -> string)
    requires Inv(t, sign) && t.bucket.last != "" && Stale(t, r, t.bucket, sign)
    ensures var es := LateRetirement(t.requests[r], r);
            LastingRun(t, es, sign) && Run(t, es, sign).bucket == TokenBucket(t.bucket.current, "")
  {
    var q := t.requests[r];
    var k :| SeenAt(t.history, q.seen, k);
    if q.Loaded? {
      TwoSteps(t, Check(r), Retire(r), sign);
      var u := Next(t, Check(r), sign);
      assert [Check(r), Retire(r)][1..] == [Retire(r)] && [Retire(r)][1..] == [];
      assert NeverEndsGrace(u, [Retire(r)], sign);
    } else {
      var u := Next(t, Retire(r), sign);
      assert [Retire(r)][1..] == [];
      assert ValidRun(u, [], sign) && Run(u, [], sign) == u;
    }
  }

  /** Setting a token gives the one it replaces its full grace exactly when no request is stale at that
      moment, whatever tokens were used before and whatever happens after. */
  lemma GraceExact(s: State, next: string, sign: (nat, string) -> string)
    requires Inv(s, sign) && next != "" && next != s.bucket.current
    ensures var t := Next(s, SetToken(next), sign);
            && t.bucket == TokenBucket(next, s.bucket.current)
            && (GraceAlwaysLasts(t, sign) <==> NobodyStale(s, TokenBucket(next, s.bucket.current), sign))
  {
    var t := Next(s, SetToken(next), sign);
    StepInv(s, SetToken(next), sign);
    if NobodyStale(s, t.bucket, sign) {
      NobodyStaleAfterwards(s, next, sign);
      forall es | LastingRun(t, es, sign) ensures Run(t, es, sign).bucket == t.bucket {
        GraceLasts(t, es, sign);
      }
    } else {
      var r :| Stale(s, r, t.bucket, sign);
      assert Stale(t, r, t.bucket, sign);
      StaleEndsGrace(t, r, sign);
      assert !GraceAlwaysLasts(t, sign) by {
        assert LastingRun(t, LateRetirement(t.requests[r], r), sign);
      }
    }
  }

  lemma NobodyStaleAfterwards(s: State, next: string, sign: (nat, string) -> string)
    requires next != "" && next != s.bucket.current
    requires NobodyStale(s, TokenBucket(next, s.bucket.current), sign)
    ensures var t := Next(s, SetToken(next), sign); NobodyStale(t, t.bucket, sign)
  {
    var t := Next(s, SetToken(next), sign);
    forall r ensures !Stale(t, r, t.bucket, sign) {
      assert !Stale(s, r, t.bucket, sign);
    }
  }

  /** The token that is current was never current before. */
  ghost predicate SetOnce(s: State) {
    forall k :: 0 <= k < |s.history| - 1 ==> s.history[k] != s.bucket.current
  }

  /** A token that was set only once leaves nobody stale when it is replaced. */
  lemma WithoutReuseNobodyIsStale(s: State, next: string, sign: (nat, string) -> string)
    requires Inv(s, sign) && SetOnce(s)
    ensures NobodyStale(s, TokenBucket(next, s.bucket.current), sign)
  {
    var h, b := s.history, TokenBucket(next, s.bucket.current);
    forall r ensures !Stale(s, r, b, sign) {
      if r in s.requests && (s.requests[r].Loaded? || s.requests[r].Retiring?) {
        var k: nat :| SeenAt(h, s.requests[r].seen, k);
        assert k > 0 ==> h[k - 1] != s.bucket.current;
      }
    }
  }

  /** After any `SetToken` that finds nobody stale, the token it replaced goes on being accepted until
      another one is set or a request signed under the new token retires it, whatever stale requests do
      late. In particular after one that replaces a token that was set only once. */
  lemma PreviousTokenStaysAccepted(
      token: string, before: seq<Event>, next: string, after: seq<Event>, sign: (nat, string) -> string)
    requires token != "" && ValidRun(Init(token), before, sign)
    requires var s := Run(Init(token), before, sign);
             var t := Next(s, SetToken(next), sign);
             && next != "" && next != s.bucket.current
             && LastingRun(t, after, sign)
             && (NobodyStale(s, TokenBucket(next, s.bucket.current), sign) || SetOnce(s))
    ensures var s := Run(Init(token), before, sign);
            var b := Run(Next(s, SetToken(next), sign), after, sign).bucket;
            && b == TokenBucket(next, s.bucket.current)
            && forall r ::
                 && !Checked(Loaded(sign(r, s.bucket.current), b), r, sign).Refused?
                 && !Checked(Loaded(sign(r, next), b), r, sign).Refused?
  {
    var s0 := Init(token);
    assert SeenAt(s0.history, s0.bucket, 0);
    RunInv(s0, before, sign);
    var s := Run(s0, before, sign);
    if SetOnce(s) {
      WithoutReuseNobodyIsStale(s, next, sign);
    }
    GraceExact(s, next, sign);
  }

  /** With a token value used twice the grace can end early: a request that verified under `B`, when `A`
      was the previous token, retires `A` again after `A` came back and was replaced by `D`. */
  lemma ReuseEndsGraceEarly(sign: (nat, string) -> string)
    ensures var before := [SetToken("B"), Load(0, sign(0, "B")), Check(0), SetToken("A")];
            var after := [Retire(0)];
            && ValidRun(Init("A"), before, sign)
            && var s := Run(Init("A"), before, sign);
               var t := Next(s, SetToken("D"), sign);
               && t.bucket == TokenBucket("D", "A") && Stale(s, 0, t.bucket, sign)
               && ValidRun(t, after, sign)
               && t.requests[0].Retiring? && t.requests[0].signature == sign(0, "B")
               && Run(t, after, sign).bucket == TokenBucket("D", "")
  {
    var s0 := Init("A");
    var s1 := Next(s0, SetToken("B"), sign);
    var s2 := Next(s1, Load(0, sign(0, "B")), sign);
    var s3 := Next(s2, Check(0), sign);
    var s4 := Next(s3, SetToken("A"), sign);
    var before := [SetToken("B"), Load(0, sign(0, "B")), Check(0), SetToken("A")];
    assert before[1..][1..][1..][1..] == [];
    assert ValidRun(s4, [], sign) && Run(s4, [], sign) == s4;
    assert before[1..][1..][1..] == [SetToken("A")] && before[1..][1..] == [Check(0), SetToken("A")];
    assert before[1..] == [Load(0, sign(0, "B")), Check(0), SetToken("A")];
    assert ValidRun(s3, [SetToken("A")], sign) && Run(s3, [SetToken("A")], sign) == s4;
    assert ValidRun(s2, [Check(0), SetToken("A")], sign) && Run(s2, [Check(0), SetToken("A")], sign) == s4;
    assert ValidRun(s1, before[1..], sign) && Run(s1, before[1..], sign) == s4;
    assert ValidRun(s0, before, sign) && Run(s0, before, sign) == s4;
    var t := Next(s4, SetToken("D"), sign);
    assert t.bucket == TokenBucket("D", "A");
    var u := Next(t, Retire(0), sign);
    assert [Retire(0)][1..] == [] && Run(u, [], sign) == u;
    assert Run(t, [Retire(0)], sign) == u;
  }

  // ---------------------------------------------------------------- the code

  /** The bucket is replaced as a whole, under the mutex; requests load it without. */
  class Server {
    var bucket: TokenBucket

    constructor (token: string)
      ensures bucket == Init(token).bucket
    {
      bucket := TokenBucket(token, "");
    }

    method SetToken(token: string, ghost s: State, ghost sign: (nat, string) -> string) returns (r: Result<()>)
      requires bucket == s.bucket
      modifies this
      ensures r.Err? <==> token == ""
      ensures bucket == Next(s, Event.SetToken(token), sign).bucket
    {
      if token == "" {
        return Err("empty token");
      }
      var currentToken := bucket.current;
      if token == currentToken {
        return Ok(());
      }
      bucket := TokenBucket(token, currentToken);
      r := Ok(());
    }

    method RemoveLastToken(lastToken: string, ghost s: State, ghost r: nat, ghost sign: (nat, string) -> string)
      requires bucket == s.bucket
      requires Enabled(s, Retire(r)) && s.requests[r].seen.last == lastToken
      modifies this
      ensures bucket == Next(s, Retire(r), sign).bucket
    {
      if lastToken != bucket.last {
        return;
      }
      bucket := TokenBucket(bucket.current, "");
    }

    /** The check of `ServeHTTP` when nothing runs in between: load, check, and retire if the current
        token verified and there is a previous one. */
    method VerifySignature(r: nat, haveSignature: string, sign: (nat, string) -> string, ghost s: State)
      returns (token: Option<string>)
      requires bucket == s.bucket && r !in s.requests
      modifies this
      ensures var es := Uninterrupted(s, r, haveSignature, sign);
              && ValidRun(s, es, sign) && bucket == Run(s, es, sign).bucket
              && r in Run(s, es, sign).requests
              && Run(s, es, sign).requests[r]
                 == if token.None? then Refused else Accepted(haveSignature, token.value)
    {
      var currentToken, lastToken := bucket.current, bucket.last;
      ghost var s1 := Next(s, Load(r, haveSignature), sign);
      ghost var s2 := Next(s1, Check(r), sign);
      TwoSteps(s, Load(r, haveSignature), Check(r), sign);
      if currentToken == "" {
        return None;
      }
      if haveSignature != sign(r, currentToken) {
        if lastToken == "" {
          return None;
        }
        if haveSignature != sign(r, lastToken) {
          return None;
        }
        return Some(lastToken);
      }
      if lastToken != "" {
        RemoveLastToken(lastToken, s2, r, sign);
        ThreeSteps(s, Load(r, haveSignature), Check(r), Retire(r), sign);
      }
      return Some(currentToken);
    }
  }

  /** The steps of a request that meets nobody else. */
  ghost function Uninterrupted(s: State, r: nat, signature: string, sign: (nat, string) -> string): seq<Event> {
    if Checked(Loaded(signature, s.bucket), r, sign).Retiring?
    then [Load(r, signature), Check(r), Retire(r)]
    else [Load(r, signature), Check(r)]
  }

  lemma TwoSteps(s: State, a: Event, b: Event, sign: (nat, string) -> string)
    requires Enabled(s, a) && Enabled(Next(s, a, sign), b)
    ensures ValidRun(s, [a, b], sign) && Run(s, [a, b], sign) == Next(Next(s, a, sign), b, sign)
  {
    var t := Next(s, a, sign);
    assert [a, b][1..] == [b] && [b][1..] == [];
    assert ValidRun(t, [b], sign) && Run(t, [b], sign) == Next(t, b, sign);
  }

  lemma ThreeSteps(s: State, a: Event, b: Event, c: Event, sign: (nat, string) -> string)
    requires Enabled(s, a) && Enabled(Next(s, a, sign), b) && Enabled(Next(Next(s, a, sign), b, sign), c)
    ensures ValidRun(s, [a, b, c], sign)
    ensures Run(s, [a, b, c], sign) == Next(Next(Next(s, a, sign), b, sign), c, sign)
  {
    assert [a, b, c][1..] == [b, c];
    TwoSteps(Next(s, a, sign), b, c, sign);
  }
}
