/** The way of a reply back to who asked: the user's id goes out as a row number (`Processor`), the reply
    names the row, `recvMessage` looks the row up and hands the reply to the waiter of that key. */
module Routing {
  import opened Strings
  import opened RowKeys
  import I = IdMap
  import Runs = IdMapRuns
  import opened PendingQueue
  import R = Rendezvous

  /** The key under which a reply is handed over; a failed lookup is ignored and leaves it empty. */
  function EchoKey(b: I.Bucket, row: string): string {
    match I.RetrieveRowByID(b, row)
    case Ok(id) => id
    case Err(_) => ""
  }

  /** A reply for a row that leads nowhere goes under the empty key. */
  lemma KeyOfReply(b: I.Bucket, row: string)
    ensures EchoKey(b, row) == if "row-" + row in b then b["row-" + row] else ""
  {}

  /** A user is stored, the store goes on being used, and a reply arrives for the row the user was given:
      if meanwhile nobody rebound that row, the reply goes to the waiter registered for this user, who
      can take it at once unless its timeout has fired. */
  lemma ReplyReachesWhoAsked(
      b: I.Bucket, user: string, ops: seq<Runs.Op>, cfg: I.Config, es: seq<R.Event>, content: string)
    requires Runs.Inv(b, cfg) && Runs.Allowed(b, Runs.Store(user), cfg) && I.StoreID(b, user, cfg).0.Ok?
    requires var (r, c) := I.StoreID(b, user, cfg);
             && Runs.ValidRun(c, ops, cfg)
             && forall op :: op in ops && op.Rebind? ==> op.oldRow != r.value
    requires R.ValidRun(R.EMPTY, es) && user in R.Run(R.EMPTY, es).echo
    ensures var (r, c) := I.StoreID(b, user, cfg);
            var key := EchoKey(Runs.Run(c, ops, cfg), Numeral(r.value));
            var s := R.Run(R.EMPTY, es);
            && key == user
            && R.Enabled(s, R.Receive(key, content))
            && var w, t := s.echo[user], R.Next(s, R.Receive(key, content));
               && w in s.waiters && s.waiters[w].key == user
               && R.Holds(t, R.Buffer(w)) == Some(Message(|s.arrived|, user, content))
               && (s.waiters[w].Waiting? ==> R.Enabled(t, R.Take(w)))
  {
    Runs.StoredUser(b, user, cfg);
    var (r, c) := I.StoreID(b, user, cfg);
    Runs.LookupGivesUserBack(c, ops, cfg, user);
    R.ReachesTheWaiter(es, user, content);
  }
}
