/** The ledger of the replies in `wsclient/ws.go` and `main.go`: where every accepted message is, over whole
    runs, drains that overflow included. */
module Ledger {
  import opened Strings
  import opened PendingQueue
  import opened Rendezvous

  // ---------------------------------------------------------------- places

  /** All the places there are. */
  ghost function Places(s: State): set<Place> {
    (set w | w in s.waiters :: Result(w)) + (set w | w in s.buffers :: Buffer(w))
    + (set key, i: nat | key in s.pending && i < |s.pending[key]| :: InQueue(key, i))
    + (set n: nat, i: nat | n < |s.replies| && i < |s.replies[n]| :: InReply(n, i))
  }

  /** The places where this message is. */
  ghost function Holders(s: State, m: Message): (ps: set<Place>)
    ensures forall p :: p in ps <==> Holds(s, p) == Some(m)
  {
    set p | p in Places(s) && Holds(s, p) == Some(m)
  }

  /** Messages held, plus those dropped by overflows, are those accepted plus those repeated, counted. */
  ghost predicate Balanced(s: State) {
    forall m :: |Holders(s, m)| + multiset(s.dropped)[m] == multiset(s.arrived)[m] + multiset(s.repeated)[m]
  }

  /** Ids number the accepted messages, so no two of them are the same. */
  ghost predicate Numbered(arrived: seq<Message>) {
    forall i :: 0 <= i < |arrived| ==> arrived[i].id == i
  }

  ghost predicate Conserved(s: State) {
    && Balanced(s) && Numbered(s.arrived) && |s.dropped| == |s.repeated|
    && forall p :: Holds(s, p).Some? ==> Holds(s, p).value in s.arrived
  }

  // ---------------------------------------------------------------- what a step moves

  /** Where a step moves the message that is in place `p`; nowhere if an overflow drops it. */
  ghost function Moved(s: State, e: Event, p: Place): Option<Place>
    requires Enabled(s, e)
  {
    if e.Take? && p == Buffer(e.w) then Some(Result(e.w))
    else if e.Drain? && p.InQueue? && p.key == e.key then
      var k := Taken(s.Queue(e.key), e.length);
      if p.i < k then Some(InReply(|s.replies|, p.i))
      else if p.i == k then None
      else Some(InQueue(e.key, p.i - k - 1))
    else Some(p)
  }

  /** A drain that overflows. */
  ghost predicate Overflows(s: State, e: Event) {
    e.Drain? && Taken(s.Queue(e.key), e.length) < |s.Queue(e.key)|
  }

  /** The message at which it breaks, and the last one, of which it leaves a second copy. */
  ghost function Break(s: State, e: Event): Place
    requires Overflows(s, e)
  {
    InQueue(e.key, Taken(s.Queue(e.key), e.length))
  }

  ghost function Copy(s: State, e: Event): Place
    requires Overflows(s, e)
  {
    InQueue(e.key, |s.Queue(e.key)| - Taken(s.Queue(e.key), e.length) - 1)
  }

  predicate Accepts(e: Event) {
    e.Receive? || e.Add?
  }

  /** Where a step puts the message it accepts. */
  ghost function Arrival(s: State, e: Event): Place
    requires Enabled(s, e) && Accepts(e)
  {
    if e.Receive? && e.key in s.echo then Buffer(s.echo[e.key]) else InQueue(e.key, |s.Queue(e.key)|)
  }

  /** A place that a step fills with something that no other place held alone before. */
  ghost predicate IsNew(s: State, e: Event, p: Place)
    requires Enabled(s, e)
  {
    (Accepts(e) && p == Arrival(s, e)) || (Overflows(s, e) && p == Copy(s, e))
  }

  /** The place from which a step brought what is now in place `p`. */
  ghost function Source(s: State, e: Event, p: Place): Place
    requires Enabled(s, e)
  {
    if e.Take? && p == Result(e.w) then Buffer(e.w)
    else if e.Drain? && p.InReply? && p.n == |s.replies| then InQueue(e.key, p.i)
    else if e.Drain? && p.InQueue? && p.key == e.key then
      InQueue(e.key, p.i + Taken(s.Queue(e.key), e.length) + 1)
    else p
  }

  /** A step moves messages only to where it says, each from its own place; all it drops is the message at
      the break. */
  lemma StepMoves(s: State, e: Event, p: Place)
    requires EntriesAreOpen(s) && Enabled(s, e) && Holds(s, p).Some?
    ensures var t, q := Next(s, e), Moved(s, e, p);
            if q.Some? then
              Holds(t, q.value) == Holds(s, p) && !IsNew(s, e, q.value) && Source(s, e, q.value) == p
            else
              Overflows(s, e) && p == Break(s, e)
  {
    if e.Drain? {
      DrainMoves(s, e, p);
    }
  }

  lemma DrainMoves(s: State, e: Event, p: Place)
    requires e.Drain? && Holds(s, p).Some?
    ensures var t, q := Next(s, e), Moved(s, e, p);
            if q.Some? then
              Holds(t, q.value) == Holds(s, p) && !IsNew(s, e, q.value) && Source(s, e, q.value) == p
            else
              Overflows(s, e) && p == Break(s, e)
  {
    var k := Taken(s.Queue(e.key), e.length);
    DrainedQueue(s, e.key, k);
    DrainedElsewhere(s, e.key, k);
    assert Next(s, e) == Drained(s, e.key, k);
    hide Taken, Drained, Next, Enabled;
  }

  /** What is not new in its place was moved there. */
  lemma StepBrings(s: State, e: Event, p: Place)
    requires EntriesAreOpen(s) && Enabled(s, e) && Holds(Next(s, e), p).Some? && !IsNew(s, e, p)
    ensures var q := Source(s, e, p); Holds(s, q) == Holds(Next(s, e), p) && Moved(s, e, q) == Some(p)
  {
    if e.Drain? {
      DrainBrings(s, e, p);
    }
  }

  lemma DrainBrings(s: State, e: Event, p: Place)
    requires e.Drain? && Holds(Next(s, e), p).Some? && !IsNew(s, e, p)
    ensures var q := Source(s, e, p); Holds(s, q) == Holds(Next(s, e), p) && Moved(s, e, q) == Some(p)
  {
    var k := Taken(s.Queue(e.key), e.length);
    var t := Drained(s, e.key, k);
    DrainedQueue(s, e.key, k);
    DrainedElsewhere(s, e.key, k);
    assert Next(s, e) == t;
    hide Taken, Drained, Next, Enabled;
    match p
    case InQueue(key, i) =>
      if key == e.key {
        assert i < |s.Queue(key)| - k - 1;
      }
    case InReply(n, i) =>
      if n == |s.replies| {
        assert i < k && t.replies[n] == s.Queue(e.key)[..k];
      } else {
        assert t.replies[n] == s.replies[n];
      }
    case Result(_) =>
    case Buffer(_) =>
  }

  /** What is new: the message accepted, or the copy of the last one in an overflow. */
  lemma StepAdds(s: State, e: Event)
    requires Enabled(s, e)
    ensures var t := Next(s, e);
            && (Accepts(e) ==>
                  && Holds(t, Arrival(s, e)).Some? && Holds(t, Arrival(s, e)).value.id == |s.arrived|
                  && t.arrived == s.arrived + [Holds(t, Arrival(s, e)).value])
            && (!Accepts(e) ==> t.arrived == s.arrived)
            && (Overflows(s, e) ==>
                  && Holds(s, Break(s, e)).Some? && t.dropped == s.dropped + [Holds(s, Break(s, e)).value]
                  && Holds(t, Copy(s, e)).Some? && t.repeated == s.repeated + [Holds(t, Copy(s, e)).value])
            && (!Overflows(s, e) ==> t.dropped == s.dropped && t.repeated == s.repeated)
  {
    if Overflows(s, e) {
      OverflowAdds(s, e);
      hide Next, Overflows;
    }
  }

  lemma OverflowAdds(s: State, e: Event)
    requires Overflows(s, e)
    ensures var t := Next(s, e);
            && t.arrived == s.arrived
            && Holds(s, Break(s, e)).Some? && t.dropped == s.dropped + [Holds(s, Break(s, e)).value]
            && Holds(t, Copy(s, e)).Some? && t.repeated == s.repeated + [Holds(t, Copy(s, e)).value]
  {
    var k := Taken(s.Queue(e.key), e.length);
    DrainedQueue(s, e.key, k);
    assert Next(s, e) == Drained(s, e.key, k);
    hide Taken, Remaining, Next;
  }

  // ---------------------------------------------------------------- counting

  /** As many places on one side as on the other of a pairing. */
  lemma {:induction false} SameSize(d: set<Place>, e: set<Place>, to: map<Place, Place>)
    requires to.Keys == d && to.Values == e
    requires forall p, q :: p in d && q in d && to[p] == to[q] ==> p == q
    ensures |d| == |e|
    decreases d
  {
    if d == {} {
    } else {
      var p :| p in d;
      var rest := to - {p};
      forall v ensures v in rest.Values <==> v in e && v != to[p] {
        if v in e && v != to[p] {
          var q :| q in d && to[q] == v;
          assert q in rest && rest[q] == v;
        }
      }
      assert rest.Values == e - {to[p]};
      SameSize(d - {p}, e - {to[p]}, rest);
    }
  }

  /** The places of a message that a step carries over, before and after. */
  lemma CarriedOver(s: State, e: Event, m: Message, before: set<Place>, after: set<Place>)
    requires EntriesAreOpen(s) && Enabled(s, e)
    requires forall p :: p in before <==> p in Holders(s, m) && Moved(s, e, p).Some?
    requires forall p :: p in after <==> p in Holders(Next(s, e), m) && !IsNew(s, e, p)
    ensures |before| == |after|
  {
    var to := map p | p in before :: Moved(s, e, p).value;
    forall p | p in before ensures to[p] in after && Source(s, e, to[p]) == p {
      StepMoves(s, e, p);
    }
    forall q | q in after ensures q in to.Values {
      StepBrings(s, e, q);
      assert Source(s, e, q) in before && to[Source(s, e, q)] == q;
    }
    assert to.Values == after;
    SameSize(before, after, to);
  }

  lemma OneMoreOf(msgs: seq<Message>, x: Message, m: Message)
    ensures multiset(msgs + [x])[m] == multiset(msgs)[m] + (if x == m then 1 else 0)
  {}

  lemma Lost(s: State, e: Event, m: Message, lost: set<Place>)
    requires EntriesAreOpen(s) && Enabled(s, e)
    requires forall p :: p in lost <==> p in Holders(s, m) && Moved(s, e, p).None?
    ensures multiset(Next(s, e).dropped)[m] == multiset(s.dropped)[m] + |lost|
  {
    StepAdds(s, e);
    forall p | p in lost ensures Overflows(s, e) && p == Break(s, e) {
      StepMoves(s, e, p);
    }
    if Overflows(s, e) {
      var x := Holds(s, Break(s, e)).value;
      OneMoreOf(s.dropped, x, m);
      assert Moved(s, e, Break(s, e)).None?;
      assert lost == if x == m then {Break(s, e)} else {};
    } else {
      assert lost == {};
    }
  }

  lemma Gained(s: State, e: Event, m: Message, news: set<Place>)
    requires Enabled(s, e)
    requires forall p :: p in news <==> p in Holders(Next(s, e), m) && IsNew(s, e, p)
    ensures var t := Next(s, e);
            multiset(t.arrived)[m] + multiset(t.repeated)[m]
            == multiset(s.arrived)[m] + multiset(s.repeated)[m] + |news|
  {
    StepAdds(s, e);
    hide Next, Taken, Enabled, Holds, Arrival, Copy, Break, Holders;
    if Accepts(e) {
      OnePlace(s, e, m, news, Arrival(s, e));
      OneMoreOf(s.arrived, Holds(Next(s, e), Arrival(s, e)).value, m);
    } else if Overflows(s, e) {
      OnePlace(s, e, m, news, Copy(s, e));
      OneMoreOf(s.repeated, Holds(Next(s, e), Copy(s, e)).value, m);
    } else {
      assert news == {};
    }
  }

  lemma OnePlace(s: State, e: Event, m: Message, news: set<Place>, p: Place)
    requires Enabled(s, e) && Holds(Next(s, e), p).Some?
    requires forall q :: q in news <==> q == p && q in Holders(Next(s, e), m)
    ensures |news| == if Holds(Next(s, e), p).value == m then 1 else 0
  {
    hide Holders, Next;
    assert news == if Holds(Next(s, e), p).value == m then {p} else {};
  }

  lemma StepBalanced(s: State, e: Event, m: Message)
    requires EntriesAreOpen(s) && Balanced(s) && Enabled(s, e)
    ensures var t := Next(s, e);
            |Holders(t, m)| + multiset(t.dropped)[m] == multiset(t.arrived)[m] + multiset(t.repeated)[m]
  {
    var t := Next(s, e);
    var lost := set p | p in Holders(s, m) && Moved(s, e, p).None?;
    var news := set p | p in Holders(t, m) && IsNew(s, e, p);
    CarriedOver(s, e, m, Holders(s, m) - lost, Holders(t, m) - news);
    StepAdds(s, e);
    Lost(s, e, m, lost);
    Gained(s, e, m, news);
    hide *;
    assert |Holders(s, m)| == |Holders(s, m) - lost| + |lost|;
    assert |Holders(t, m)| == |Holders(t, m) - news| + |news|;
  }

  lemma StepConserved(s: State, e: Event)
    requires EntriesAreOpen(s) && Conserved(s) && Enabled(s, e)
    ensures Conserved(Next(s, e))
  {
    var t := Next(s, e);
    StepNumbered(s, e);
    hide Next, Numbered, Holds, Holders;
    forall m ensures |Holders(t, m)| + multiset(t.dropped)[m] == multiset(t.arrived)[m] + multiset(t.repeated)[m] {
      StepBalanced(s, e, m);
    }
    forall p | Holds(t, p).Some? ensures Holds(t, p).value in t.arrived {
      StepGenuine(s, e, p);
    }
  }

  lemma StepNumbered(s: State, e: Event)
    requires Enabled(s, e) && Numbered(s.arrived)
    ensures Numbered(Next(s, e).arrived)
    ensures |Next(s, e).dropped| - |s.dropped| == |Next(s, e).repeated| - |s.repeated|
  {
    StepAdds(s, e);
    hide Next, Holds, Arrival, Copy, Break, Overflows, Enabled;
  }

  lemma CopyOfLast(s: State, e: Event)
    requires Overflows(s, e)
    ensures var last := InQueue(e.key, |s.Queue(e.key)| - 1);
            Holds(s, last).Some? && Holds(Next(s, e), Copy(s, e)) == Holds(s, last)
  {
    var q := s.Queue(e.key);
    var k := Taken(q, e.length);
    DrainedQueue(s, e.key, k);
    assert Next(s, e) == Drained(s, e.key, k);
    hide Taken, Drained, Next, Enabled;
    var t := Drained(s, e.key, k);
    assert Copy(s, e) == InQueue(e.key, |q| - k - 1) && t.Queue(e.key)[|q| - k - 1] == q[|q| - 1];
  }

  lemma StepGenuine(s: State, e: Event, p: Place)
    requires EntriesAreOpen(s) && Enabled(s, e) && Holds(Next(s, e), p).Some?
    requires forall q :: Holds(s, q).Some? ==> Holds(s, q).value in s.arrived
    ensures Holds(Next(s, e), p).value in Next(s, e).arrived
  {
    StepAdds(s, e);
    if !IsNew(s, e, p) {
      StepBrings(s, e, p);
      hide *;
    } else if Overflows(s, e) {
      CopyOfLast(s, e);
      hide *;
    }
  }

  lemma {:induction false} RunConserved(s: State, es: seq<Event>)
    requires Rendezvous.Inv(s) && Conserved(s) && ValidRun(s, es)
    ensures Conserved(Run(s, es))
    decreases |es|
  {
    if es == [] {
    } else {
      hide Conserved;
      StepConserved(s, es[0]);
      StepEntriesAreOpen(s, es[0]);
      StepRightKey(s, es[0]);
      RunConserved(Next(s, es[0]), es[1..]);
    }
  }

  // ---------------------------------------------------------------- what that gives

  lemma {:induction false} NumberedOnce(arrived: seq<Message>, m: Message)
    requires Numbered(arrived)
    ensures multiset(arrived)[m] <= 1
  {
    if arrived == [] {
    } else {
      var init, x := arrived[..|arrived| - 1], arrived[|arrived| - 1];
      NumberedOnce(init, m);
      assert arrived == init + [x];
      OneMoreOf(init, x, m);
      forall i | 0 <= i < |init| ensures init[i] != x {
        assert init[i] == arrived[i];
      }
    }
  }

  lemma NothingHeld(m: Message)
    ensures Holders(EMPTY, m) == {}
  {
    assert forall p :: Holds(EMPTY, p) == None;
  }

  lemma EmptyConserved()
    ensures Conserved(EMPTY)
  {
    forall m ensures |Holders(EMPTY, m)| == 0 {
      NothingHeld(m);
    }
  }

  /** In every reachable state the ledger balances, message by message: held plus dropped is accepted plus
      repeated, and every overflow drops one and repeats one. What is held was accepted; what was accepted
      and not dropped is held; and as long as no drain has overflowed, in exactly one place. */
  lemma Conservation(es: seq<Event>)
    requires ValidRun(EMPTY, es)
    ensures var s := Run(EMPTY, es);
            && Balanced(s) && |s.dropped| == |s.repeated|
            && (forall p :: Holds(s, p).Some? ==> Holds(s, p).value in s.arrived)
            && (forall m :: m in s.arrived && m !in s.dropped ==> Holders(s, m) != {})
            && (s.dropped == [] ==> forall m :: |Holders(s, m)| == if m in s.arrived then 1 else 0)
  {
    EmptyConserved();
    RunConserved(EMPTY, es);
    var s := Run(EMPTY, es);
    forall m | m in s.arrived && m !in s.dropped ensures Holders(s, m) != {} {
      assert |Holders(s, m)| + multiset(s.dropped)[m] == multiset(s.arrived)[m] + multiset(s.repeated)[m];
    }
    forall m ensures s.dropped == [] ==> |Holders(s, m)| == if m in s.arrived then 1 else 0 {
      NumberedOnce(s.arrived, m);
      assert |Holders(s, m)| + multiset(s.dropped)[m] == multiset(s.arrived)[m] + multiset(s.repeated)[m];
    }
  }

  /** A drain that overflows loses one message and keeps the last one twice: after three messages and a
      reply that fills the budget, the first is nowhere, and the last would be sent out twice. */
  lemma OverflowRun(key: string, x: string, y: string, z: string)
    ensures var a, b, c := Message(0, key, x), Message(1, key, y), Message(2, key, z);
            var es := [Add(key, x), Add(key, y), Add(key, z), Drain(key, LIMIT)];
            && ValidRun(EMPTY, es)
            && var s := Run(EMPTY, es);
               && s.Queue(key) == [b, c, c] && s.dropped == [a] && s.repeated == [c] && s.replies == [[]]
               && Holders(s, a) == {}
  {
    var a, b, c := Message(0, key, x), Message(1, key, y), Message(2, key, z);
    var s1, s2, s3 := Queued(key, [a]), Queued(key, [a, b]), Queued(key, [a, b, c]);
    var drain := Drain(key, LIMIT);
    ThreeAdds(key, x, y, z);
    ThreeOverflow(a, b, c);
    hide *;
    DrainedThree(key, a, b, c);
    FirstStep(s3, drain, []);
    FirstStep(s2, Add(key, z), [drain]);
    FirstStep(s1, Add(key, y), [Add(key, z), drain]);
    FirstStep(EMPTY, Add(key, x), [Add(key, y), Add(key, z), drain]);
    ThreeEvents(Add(key, x), Add(key, y), Add(key, z), drain);
  }

  lemma ThreeEvents(a: Event, b: Event, c: Event, d: Event)
    ensures [d] + [] == [d] && [c] + [d] == [c, d] && [b] + [c, d] == [b, c, d] && [a] + [b, c, d] == [a, b, c, d]
  {}

  /** Nothing but these messages accepted, all of them waiting in one queue. */
  function Queued(key: string, msgs: seq<Message>): State {
    EMPTY.(pending := map[key := msgs], arrived := msgs)
  }

  lemma ThreeAdds(key: string, x: string, y: string, z: string)
    ensures var a, b, c := Message(0, key, x), Message(1, key, y), Message(2, key, z);
            && Enabled(EMPTY, Add(key, x)) && Next(EMPTY, Add(key, x)) == Queued(key, [a])
            && Enabled(Queued(key, [a]), Add(key, y))
            && Next(Queued(key, [a]), Add(key, y)) == Queued(key, [a, b])
            && Enabled(Queued(key, [a, b]), Add(key, z))
            && Next(Queued(key, [a, b]), Add(key, z)) == Queued(key, [a, b, c])
  {
    var a, b, c := Message(0, key, x), Message(1, key, y), Message(2, key, z);
    AddOnto(key, [a], y);
    AddOnto(key, [a, b], z);
    assert [] + [a] == [a] && [a] + [b] == [a, b] && [a, b] + [c] == [a, b, c];
  }

  lemma AddOnto(key: string, msgs: seq<Message>, content: string)
    ensures Next(Queued(key, msgs), Add(key, content)) == Queued(key, msgs + [Message(|msgs|, key, content)])
  {
    assert Queued(key, msgs).Queue(key) == msgs;
  }

  lemma DrainedThree(key: string, a: Message, b: Message, c: Message)
    requires Taken([a, b, c], LIMIT) == 0 && Remaining([a, b, c], 0, true) == [b, c, c]
    requires a != b && a != c
    ensures Enabled(Queued(key, [a, b, c]), Drain(key, LIMIT))
    ensures var t := Next(Queued(key, [a, b, c]), Drain(key, LIMIT));
            && t.Queue(key) == [b, c, c] && t.dropped == [a] && t.repeated == [c] && t.replies == [[]]
            && Holders(t, a) == {} && ValidRun(t, []) && Run(t, []) == t
  {
    hide Taken, Remaining;
    var s := Queued(key, [a, b, c]);
    assert s.Queue(key) == [a, b, c];
    var t := Next(s, Drain(key, LIMIT));
    assert t.pending == map[key := [b, c, c]] && t.replies == [[]];
    forall p ensures Holds(t, p) != Some(a) {}
  }

  lemma FirstStep(s: State, e: Event, rest: seq<Event>)
    requires Enabled(s, e) && ValidRun(Next(s, e), rest)
    ensures ValidRun(s, [e] + rest) && Run(s, [e] + rest) == Run(Next(s, e), rest)
  {
    assert ([e] + rest)[1..] == rest;
  }
}
