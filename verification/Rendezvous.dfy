/** How replies find the request that waits for them (`wsclient/ws.go`): one-shot channels of capacity 1
    under a mutex-guarded map, timeouts, and a queue for what nobody waits for. Each step is one critical
    section, one receive, or one timer. */
module Rendezvous {
  import opened Strings
  import opened PendingQueue

  /** A call of `WaitForActionMessage`: waiting, past its timeout but not yet past the delete that
      follows it, or done. */
  datatype Waiter =
    | Waiting(key: string)
    | Expired(key: string)
    | TimedOut(key: string)
    | Got(key: string, message: Message)

  /** Every waiter has one channel of its own; `buffers` has the channels' contents. `replies` and
      `arrived` record what was drained into replies and what was accepted, in order; `dropped` and
      `repeated` what each overflowing drain lost and what it left in the queue twice. */
  datatype State = State(
    waiters: map<nat, Waiter>,
    buffers: map<nat, Option<Message>>,
    echo: map<string, nat>,
    pending: map<string, seq<Message>>,
    replies: seq<seq<Message>>,
    arrived: seq<Message>,
    dropped: seq<Message>,
    repeated: seq<Message>)
  {
    function Queue(key: string): seq<Message> {
      if key in pending then pending[key] else []
    }
  }

  datatype Event =
    | Wait(w: nat, key: string)             // register a fresh channel, overwriting an older entry
    | Receive(key: string, content: string) // recvMessage, under the map's mutex
    | Add(key: string, content: string)     // AddMessageToPending
    | Take(w: nat)                          // the waiter receives from its channel
    | Expire(w: nat)                        // the waiter's select picks the timeout
    | Forget(w: nat)                        // the delete after a timeout, whoever's entry it is
    | Drain(key: string, length: nat)       // GetPendingMessages with clear, for a reply of this length

  /** `Receive` holds the mutex while it sends, so it is stuck when the channel it finds is full. */
  predicate SendBlocks(s: State, key: string) {
    key in s.echo && s.echo[key] in s.buffers && s.buffers[s.echo[key]].Some?
  }

  ghost predicate Enabled(s: State, e: Event) {
    match e
    case Wait(w, _) => w !in s.waiters
    case Receive(key, _) => !SendBlocks(s, key)
    case Add(_, _) => true
    case Take(w) => w in s.waiters && s.waiters[w].Waiting? && w in s.buffers && s.buffers[w].Some?
    case Expire(w) => w in s.waiters && s.waiters[w].Waiting?
    case Forget(w) => w in s.waiters && s.waiters[w].Expired?
    case Drain(_, _) => true
  }

  function Push(s: State, m: Message): State {
    s.(pending := s.pending[m.key := s.Queue(m.key) + [m]], arrived := s.arrived + [m])
  }

  ghost function Next(s: State, e: Event): State
    requires Enabled(s, e)
  {
    match e
    case Wait(w, key) =>
      s.(waiters := s.waiters[w := Waiting(key)], buffers := s.buffers[w := None], echo := s.echo[key := w])
    case Receive(key, content) =>
      var m := Message(|s.arrived|, key, content);
      if key in s.echo then
        s.(buffers := s.buffers[s.echo[key] := Some(m)], echo := s.echo - {key}, arrived := s.arrived + [m])
      else Push(s, m)
    case Add(key, content) => Push(s, Message(|s.arrived|, key, content))
    case Take(w) =>
      s.(waiters := s.waiters[w := Got(s.waiters[w].key, s.buffers[w].value)], buffers := s.buffers[w := None])
    case Expire(w) => s.(waiters := s.waiters[w := Expired(s.waiters[w].key)])
    case Forget(w) =>
      s.(waiters := s.waiters[w := TimedOut(s.waiters[w].key)], echo := s.echo - {s.waiters[w].key})
    case Drain(key, length) => Drained(s, key, Taken(s.Queue(key), length))
  }

  /** A drain that takes `k` messages. */
  function Drained(s: State, key: string, k: nat): State
    requires k <= |s.Queue(key)|
  {
    var q := s.Queue(key);
    s.(replies := s.replies + [q[..k]],
       pending := if q == [] then s.pending else s.pending[key := Remaining(q, k, true)],
       dropped := if k < |q| then s.dropped + [q[k]] else s.dropped,
       repeated := if k < |q| then s.repeated + [q[|q| - 1]] else s.repeated)
  }

  /** What a drain leaves, message by message. */
  lemma DrainedQueue(s: State, key: string, k: nat)
    requires k <= |s.Queue(key)|
    ensures var q, t := s.Queue(key), Drained(s, key, k);
            && |t.Queue(key)| == |q| - k
            && (forall j :: 0 <= j < |q| - k - 1 ==> t.Queue(key)[j] == q[j + k + 1])
            && (k < |q| ==> t.Queue(key)[|q| - k - 1] == q[|q| - 1])
            && t.replies == s.replies + [q[..k]]
  {
    var q := s.Queue(key);
    assert q != [] ==> Drained(s, key, k).Queue(key) == Remaining(q, k, true);
    RemainingAt(q, k);
  }

  /** A drain touches one queue only. */
  lemma DrainedElsewhere(s: State, key: string, k: nat)
    requires k <= |s.Queue(key)|
    ensures var t := Drained(s, key, k);
            && t.waiters == s.waiters && t.buffers == s.buffers
            && forall other :: other != key ==> t.Queue(other) == s.Queue(other)
  {
    hide Remaining;
  }

  ghost predicate ValidRun(s: State, es: seq<Event>)
    decreases |es|
  {
    es == [] || (Enabled(s, es[0]) && ValidRun(Next(s, es[0]), es[1..]))
  }

  ghost function Run(s: State, es: seq<Event>): State
    requires ValidRun(s, es)
    decreases |es|
  {
    if es == [] then s else Run(Next(s, es[0]), es[1..])
  }

  const EMPTY := State(map[], map[], map[], map[], [], [], [], [])

  // ---------------------------------------------------------------- where messages are

  datatype Place = Result(w: nat) | Buffer(w: nat) | InQueue(key: string, i: nat) | InReply(n: nat, i: nat)

  function Holds(s: State, p: Place): Option<Message> {
    match p
    case Result(w) => if w in s.waiters && s.waiters[w].Got? then Some(s.waiters[w].message) else None
    case Buffer(w) => if w in s.buffers then s.buffers[w] else None
    case InQueue(key, i) => if i < |s.Queue(key)| then Some(s.Queue(key)[i]) else None
    case InReply(n, i) => if n < |s.replies| && i < |s.replies[n]| then Some(s.replies[n][i]) else None
  }

  /** A message is only ever in a queue, a channel or a result of its own key. */
  ghost predicate RightKey(s: State) {
    && (forall w :: w in s.waiters && s.waiters[w].Got? ==> s.waiters[w].message.key == s.waiters[w].key)
    && (forall w :: w in s.buffers && s.buffers[w].Some? ==>
          w in s.waiters && s.buffers[w].value.key == s.waiters[w].key)
    && (forall key, i :: 0 <= i < |s.Queue(key)| ==> s.Queue(key)[i].key == key)
  }

  /** An entry of the map leads to an empty channel whose waiter still waits, for the entry's key. */
  ghost predicate EntriesAreOpen(s: State) {
    && s.waiters.Keys == s.buffers.Keys
    && (forall key :: key in s.echo ==>
          var w := s.echo[key];
          && w in s.waiters && w in s.buffers && s.buffers[w].None?
          && (s.waiters[w].Waiting? || s.waiters[w].Expired?) && s.waiters[w].key == key)
  }

  ghost predicate Inv(s: State) {
    RightKey(s) && EntriesAreOpen(s)
  }

  lemma StepEntriesAreOpen(s: State, e: Event)
    requires EntriesAreOpen(s) && Enabled(s, e)
    ensures EntriesAreOpen(Next(s, e))
  {}

  lemma DrainRightKey(s: State, key: string, k: nat)
    requires RightKey(s) && k <= |s.Queue(key)|
    ensures RightKey(Drained(s, key, k))
  {
    DrainedQueue(s, key, k);
    DrainedElsewhere(s, key, k);
    hide Drained;
    var q, t := s.Queue(key), Drained(s, key, k);
    forall i | 0 <= i < |t.Queue(key)| ensures t.Queue(key)[i].key == key {
      hide Remaining, RightKey;
      assert t.Queue(key)[i] == q[if i == |q| - k - 1 then |q| - 1 else i + k + 1];
      RightKeyAt(s, key, if i == |q| - k - 1 then |q| - 1 else i + k + 1);
    }
  }

  lemma RightKeyAt(s: State, key: string, i: nat)
    requires RightKey(s) && i < |s.Queue(key)|
    ensures s.Queue(key)[i].key == key
  {}

  lemma StepRightKey(s: State, e: Event)
    requires EntriesAreOpen(s) && RightKey(s) && Enabled(s, e)
    ensures RightKey(Next(s, e))
  {
    var t := Next(s, e);
    if e.Drain? {
      DrainRightKey(s, e.key, Taken(s.Queue(e.key), e.length));
      assert t == Drained(s, e.key, Taken(s.Queue(e.key), e.length));
    } else {
      forall key: string, i | 0 <= i < |t.Queue(key)| ensures t.Queue(key)[i].key == key {
        assert i < |s.Queue(key)| ==> t.Queue(key)[i] == s.Queue(key)[i];
      }
    }
  }

  lemma {:induction false} RunInv(s: State, es: seq<Event>)
    requires Inv(s) && ValidRun(s, es)
    ensures Inv(Run(s, es))
    decreases |es|
  {
    if es == [] {
    } else {
      StepEntriesAreOpen(s, es[0]);
      StepRightKey(s, es[0]);
      RunInv(Next(s, es[0]), es[1..]);
    }
  }

  // ---------------------------------------------------------------- what each step does

  /** A wait makes an entry for its key, to a channel of its own that is empty. */
  lemma Registering(s: State, w: nat, key: string)
    requires w !in s.waiters
    ensures var t := Next(s, Wait(w, key));
            && t.waiters == s.waiters[w := Waiting(key)] && t.buffers == s.buffers[w := None]
            && t.echo == s.echo[key := w] && t.pending == s.pending && t.arrived == s.arrived
  {}

  /** A message goes to the channel of the entry of its key, which is removed, or else to the end of the queue
      of its key. Nothing else changes. */
  lemma Receiving(s: State, key: string, content: string)
    requires Enabled(s, Receive(key, content))
    ensures var t, m := Next(s, Receive(key, content)), Message(|s.arrived|, key, content);
            && t.waiters == s.waiters && t.arrived == s.arrived + [m]
            && (if key in s.echo
                then && t.buffers == s.buffers[s.echo[key] := Some(m)] && t.echo == s.echo - {key}
                     && t.pending == s.pending
                else t.buffers == s.buffers && t.echo == s.echo && t.Queue(key) == s.Queue(key) + [m])
            && forall other :: other != key ==> t.Queue(other) == s.Queue(other)
  {}

  /** A message added goes to the end of the queue of its key, entry or not. */
  lemma Adding(s: State, key: string, content: string)
    ensures var t := Next(s, Add(key, content));
            && t.waiters == s.waiters && t.buffers == s.buffers && t.echo == s.echo
            && t.Queue(key) == s.Queue(key) + [Message(|s.arrived|, key, content)]
            && forall other :: other != key ==> t.Queue(other) == s.Queue(other)
  {}

  /** A waiter that takes a message has it as its result, and its channel is empty again. */
  lemma Taking(s: State, w: nat)
    requires Enabled(s, Take(w))
    ensures var t := Next(s, Take(w));
            && s.buffers[w].Some?
            && t.waiters == s.waiters[w := Got(s.waiters[w].key, s.buffers[w].value)]
            && t.buffers == s.buffers[w := None] && t.echo == s.echo && t.pending == s.pending
  {}

  /** A timeout first only ends the waiting; then the entry of the key goes, whoever's it is. */
  lemma TimingOut(s: State, w: nat)
    requires Enabled(s, Expire(w))
    ensures var t := Next(s, Expire(w));
            && t.echo == s.echo && t.buffers == s.buffers && t.pending == s.pending && Enabled(t, Forget(w))
            && var u := Next(t, Forget(w));
               && u.waiters == s.waiters[w := TimedOut(s.waiters[w].key)]
               && u.echo == s.echo - {s.waiters[w].key} && u.buffers == s.buffers && u.pending == s.pending
  {}

  /** A drain puts what it takes into a reply and leaves the rest, of this queue only. */
  lemma Draining(s: State, key: string, length: nat)
    ensures var q, t := s.Queue(key), Next(s, Drain(key, length));
            var k := Taken(q, length);
            && t.replies == s.replies + [q[..k]] && t.Queue(key) == Remaining(q, k, true)
            && t.waiters == s.waiters && t.buffers == s.buffers && t.echo == s.echo
            && forall other :: other != key ==> t.Queue(other) == s.Queue(other)
  {
    hide Taken;
  }

  // ---------------------------------------------------------------- what that gives

  /** In every reachable state messages lie only in channels, queues and results of their own key, and the
      send under the mutex never blocks. */
  lemma NeverBlocks(es: seq<Event>)
    requires ValidRun(EMPTY, es)
    ensures var s := Run(EMPTY, es);
            && RightKey(s)
            && (forall key :: !SendBlocks(s, key))
            && (forall key, content :: Enabled(s, Receive(key, content)))
  {
    RunInv(EMPTY, es);
  }

  /** A waiter's result is final: no waiter gets two messages. */
  lemma {:induction false} ResultIsFinal(s: State, es: seq<Event>, w: nat)
    requires ValidRun(s, es) && w in s.waiters && s.waiters[w].Got?
    ensures var t := Run(s, es); w in t.waiters && t.waiters[w] == s.waiters[w]
    decreases |es|
  {
    if es == [] {
    } else {
      ResultIsFinal(Next(s, es[0]), es[1..], w);
    }
  }

  /** A message for a key with an entry goes to the channel of the waiter that the entry names, and that
      waiter can take it at once unless its timeout has already fired. */
  lemma ReachesTheWaiter(es: seq<Event>, key: string, content: string)
    requires ValidRun(EMPTY, es) && key in Run(EMPTY, es).echo
    ensures var s := Run(EMPTY, es);
            var w, m := s.echo[key], Message(|s.arrived|, key, content);
            && Enabled(s, Receive(key, content))
            && var t := Next(s, Receive(key, content));
               && Holds(t, Buffer(w)) == Some(m) && key !in t.echo
               && w in s.waiters && s.waiters[w].key == key
               && (s.waiters[w].Waiting? ==>
                     Enabled(t, Take(w)) && Next(t, Take(w)).waiters[w] == Got(key, m))
  {
    RunInv(EMPTY, es);
  }

  // ---------------------------------------------------------------- the code

  /** A channel of capacity 1. */
  class Chan {
    var buffer: Option<Message>

    constructor ()
      ensures buffer == None
    {
      buffer := None;
    }

    /** A send into a full channel would block, so its callers show that it is empty. */
    method Send(m: Message)
      requires buffer == None
      modifies this
      ensures buffer == Some(m)
    {
      buffer := Some(m);
    }
  }

  /** No two waiters have one channel. */
  ghost predicate Separate(chans: map<nat, Chan>) {
    forall v, w :: v in chans && w in chans && v != w ==> chans[v] != chans[w]
  }

  /** The entries are the channels of the waiters that the protocol's entries name. */
  ghost predicate Leads(entries: map<string, Chan>, chans: map<nat, Chan>, echo: map<string, nat>) {
    && entries.Keys == echo.Keys
    && forall k :: k in echo ==> echo[k] in chans && entries[k] == chans[echo[k]]
  }

  lemma EntryLeads(entries: map<string, Chan>, chans: map<nat, Chan>, echo: map<string, nat>, key: string)
    requires Leads(entries, chans, echo) && key in entries
    ensures key in echo && echo[key] in chans && entries[key] == chans[echo[key]]
    ensures Leads(entries - {key}, chans, echo - {key})
  {}

  lemma OneChannel(chans: map<nat, Chan>, w: nat)
    requires Separate(chans) && w in chans
    ensures forall v :: v in chans && v != w ==> chans[v] != chans[w]
  {}

  lemma NewChannel(
      entries: map<string, Chan>, chans: map<nat, Chan>, echo: map<string, nat>, key: string, w: nat, ch: Chan)
    requires Leads(entries, chans, echo) && Separate(chans) && w !in chans && ch !in chans.Values
    requires forall k :: k in echo ==> echo[k] != w
    ensures Leads(entries[key := ch], chans[w := ch], echo[key := w]) && Separate(chans[w := ch])
  {}

  /** The package's two maps; `chanOf` names the channel that each waiter made. */
  class Hub {
    var echoToChanMap: map<string, Chan>
    const pendingMessages: PendingMessages
    ghost var chanOf: map<nat, Chan>

    ghost predicate Mirrors(s: State)
      reads this, chanOf.Values, pendingMessages, pendingMessages.owner.Keys
    {
      && Separate(chanOf) && Contents() == s.buffers && Leads(echoToChanMap, chanOf, s.echo)
      && SameQueues(s.pending)
    }

    /** What is in the waiters' channels. */
    ghost function Contents(): map<nat, Option<Message>>
      reads this, chanOf.Values
    {
      map w | w in chanOf :: chanOf[w].buffer
    }

    ghost predicate SameQueues(pending: map<string, seq<Message>>)
      reads pendingMessages, pendingMessages.owner.Keys
    {
      && pendingMessages.Valid()
      && forall k :: pendingMessages.Queue(k) == if k in pending then pending[k] else []
    }

    constructor ()
      ensures Mirrors(EMPTY) && fresh(pendingMessages)
    {
      echoToChanMap, chanOf := map[], map[];
      pendingMessages := new PendingMessages();
    }

    /** `recvMessage` from the lock on. The send finds its channel empty in every reachable state. */
    method RecvMessage(echoKey: string, message: Message, ghost s: State)
      requires Mirrors(s) && EntriesAreOpen(s)
      requires message.id == |s.arrived| && message.key == echoKey
      modifies this, chanOf.Values, pendingMessages, pendingMessages.owner.Keys
      ensures Enabled(s, Receive(echoKey, message.content))
      ensures Mirrors(Next(s, Receive(echoKey, message.content)))
    {
      hide SameQueues;
      if echoKey in echoToChanMap {
        HandOver(echoKey, message, s);
      } else {
        AddMessageToPending(echoKey, message, s);
      }
    }

    /** The branch that sends, and removes the entry. */
    method HandOver(echoKey: string, message: Message, ghost s: State)
      requires Mirrors(s) && EntriesAreOpen(s) && echoKey in echoToChanMap
      requires message.id == |s.arrived| && message.key == echoKey
      modifies this, chanOf.Values
      ensures Enabled(s, Receive(echoKey, message.content))
      ensures Mirrors(Next(s, Receive(echoKey, message.content)))
    {
      hide SameQueues, Separate, Leads;
      EntryLeads(echoToChanMap, chanOf, s.echo, echoKey);
      ghost var w := s.echo[echoKey];
      var ch := echoToChanMap[echoKey];
      ch.Send(message);
      echoToChanMap := echoToChanMap - {echoKey};
      OneChannel(chanOf, w);
      assert Contents() == s.buffers[w := Some(message)];
    }

    method AddMessageToPending(echoKey: string, message: Message, ghost s: State)
      requires Mirrors(s) && message.id == |s.arrived| && message.key == echoKey
      modifies pendingMessages, pendingMessages.owner.Keys
      ensures Mirrors(Next(s, Add(echoKey, message.content)))
    {
      pendingMessages.AddMessageToPending(echoKey, message);
    }

    /** What goes into a reply of this length, and what stays in the queue. */
    method GetPendingMessages(userid: string, currentLength: nat, ghost s: State)
      returns (taken: seq<Message>, totalLength: nat)
      requires Mirrors(s)
      modifies pendingMessages, pendingMessages.owner.Keys
      ensures var t := Next(s, Drain(userid, currentLength));
              Mirrors(t) && t.replies == s.replies + [taken] && totalLength == currentLength + Total(taken)
    {
      taken, totalLength := pendingMessages.GetPendingMessages(userid, true, currentLength);
    }

    /** The first half of `WaitForActionMessage`. */
    method Register(userid: string, ghost w: nat, ghost s: State) returns (ch: Chan)
      requires Mirrors(s) && EntriesAreOpen(s) && w !in s.waiters
      modifies this
      ensures Mirrors(Next(s, Wait(w, userid))) && fresh(ch) && w in chanOf && ch == chanOf[w]
    {
      hide SameQueues, Separate, Leads;
      ch := new Chan();
      NewChannel(echoToChanMap, chanOf, s.echo, userid, w, ch);
      echoToChanMap := echoToChanMap[userid := ch];
      chanOf := chanOf[w := ch];
      assert Contents() == s.buffers[w := None];
    }

    /** The branch of the `select` that receives. */
    method TakeFrom(ch: Chan, ghost w: nat, ghost s: State) returns (m: Message)
      requires Mirrors(s) && w in chanOf && ch == chanOf[w] && Enabled(s, Take(w))
      modifies ch
      ensures Mirrors(Next(s, Take(w))) && Next(s, Take(w)).waiters[w] == Got(s.waiters[w].key, m)
    {
      m := ch.buffer.value;
      ch.buffer := None;
    }

    /** The branch of the `select` that times out: the entry goes, whoever's it is. */
    method Forget(userid: string, ghost w: nat, ghost s: State)
      requires Mirrors(s) && Enabled(s, Event.Forget(w)) && s.waiters[w].key == userid
      modifies this
      ensures Mirrors(Next(s, Event.Forget(w)))
    {
      echoToChanMap := echoToChanMap - {userid};
    }
  }
}
