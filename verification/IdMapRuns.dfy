/** What the id store keeps over whole runs of its transactions, which all share one bucket. */
module IdMapRuns {
  import opened Strings
  import opened RowKeys
  import opened IdMap
  import opened PairIndex

  datatype Op =
    | Store(id: string)
    | StoreHalf(id: string)
    | Rebind(oldRow: int, newRow: int)
    | StorePair(id: string, subid: string)
    | RebindPair(old1: int, new1: int, old2: int, new2: int)
    | RenameGroup(id: string, newID: string, order: seq<string>)

  /** What a step asks of its caller. Rows are int64. With a counter, a rebind goes to a row that the
      counter has passed, and the counter has not run out. A new pair does not hash to the rows of another.
      A renaming either fails or is to the same id or does not depend on the order of the map and takes no
      name away from a pair that stays. */
  ghost predicate Allowed(b: Bucket, op: Op, cfg: Config) {
    match op
    case Store(id) => ValidId(id) && (cfg.hashed || id in b || Counter(b) < MAX_INT64)
    case StoreHalf(id) => ValidId(id)
    case Rebind(_, newRow) => IsInt64(newRow) && (cfg.hashed || newRow <= Counter(b))
    case StorePair(id, subid) =>
      var (r, _) := StoreIDPro(b, id, subid, cfg);
      Pair(id, subid) !in b && r.Ok? ==>
        var rows := VirtualPair(r.value.0, r.value.1); rows !in b || b[rows] == rows
    case RebindPair(_, new1, _, new2) => IsInt64(new1) && IsInt64(new2)
    case RenameGroup(id, newID, order) =>
      && IsOrderOf(order, Members(b, id))
      && (|| UpdateKeysWithNewID(b, id, newID, order).0.Err?
          || id == newID
          || (CanRename(b, id, newID) && KeepsPairs(b, NewKeys(b, id, newID))))
  }

  ghost function Apply(b: Bucket, op: Op, cfg: Config): Bucket
    requires Allowed(b, op, cfg)
  {
    match op
    case Store(id) => StoreID(b, id, cfg).1
    case StoreHalf(id) => SimplifiedStoreID(b, id, cfg).1
    case Rebind(oldRow, newRow) => UpdateVirtualValue(b, oldRow, newRow).1
    case StorePair(id, subid) => StoreIDPro(b, id, subid, cfg).1
    case RebindPair(old1, new1, old2, new2) => UpdateVirtualValuePro(b, old1, new1, old2, new2).1
    case RenameGroup(id, newID, order) => UpdateKeysWithNewID(b, id, newID, order).1
  }

  ghost predicate ValidRun(b: Bucket, ops: seq<Op>, cfg: Config)
    decreases |ops|
  {
    ops == [] || (Allowed(b, ops[0], cfg) && ValidRun(Apply(b, ops[0], cfg), ops[1..], cfg))
  }

  ghost function Run(b: Bucket, ops: seq<Op>, cfg: Config): Bucket
    requires ValidRun(b, ops, cfg)
    decreases |ops|
  {
    if ops == [] then b else Run(Apply(b, ops[0], cfg), ops[1..], cfg)
  }

  /** Pairs match both ways; every stored id has a row of its own that leads back to it; and with a
      counter no id has a row above it. */
  ghost predicate Inv(b: Bucket, cfg: Config) {
    PairsMatch(b) && RowsAgree(b) && (cfg.hashed || Below(b))
  }

  /** Without half stores, and with a counter, rows and ids are exact inverses. */
  ghost predicate Exact(b: Bucket) {
    Inverse(b) && CounterCovers(b)
  }

  predicate OnRows(op: Op) {
    op.Store? || op.StoreHalf? || op.Rebind?
  }

  lemma RowStep(b: Bucket, op: Op, cfg: Config)
    requires Inv(b, cfg) && Allowed(b, op, cfg) && OnRows(op)
    ensures Inv(Apply(b, op, cfg), cfg) && SamePairs(b, Apply(b, op, cfg))
    ensures cfg.hashed || Counter(b) <= Counter(Apply(b, op, cfg))
  {
    hide RowsAgree, Below, SamePairs, PairsMatch;
    match op {
      case Store(id) =>
        StoreIDAgrees(b, id, cfg);
        if !cfg.hashed { CounterStoreBelow(b, id, cfg); }
      case StoreHalf(id) =>
        SimplifiedStoreIDAgrees(b, id, cfg);
        if !cfg.hashed { SimplifiedStoreBelow(b, id, cfg); }
      case Rebind(oldRow, newRow) =>
        UpdateVirtualValueAgrees(b, oldRow, newRow);
        if !cfg.hashed { RebindBelow(b, oldRow, newRow); }
    }
    SamePairsMatch(b, Apply(b, op, cfg));
  }

  lemma PairStep(b: Bucket, op: Op, cfg: Config)
    requires Inv(b, cfg) && Allowed(b, op, cfg) && !OnRows(op)
    ensures Inv(Apply(b, op, cfg), cfg) && SameRows(b, Apply(b, op, cfg))
    ensures Counter(b) == Counter(Apply(b, op, cfg))
  {
    var c := Apply(b, op, cfg);
    match op {
      case StorePair(id, subid) =>
        StoreIDProRows(b, id, subid, cfg);
        if Pair(id, subid) !in b && StoreIDPro(b, id, subid, cfg).0.Ok? { StoreIDProExact(b, id, subid, cfg); }
      case RebindPair(old1, new1, old2, new2) => UpdateVirtualValueProKeeps(b, old1, new1, old2, new2);
      case RenameGroup(id, newID, order) => RenameGroupStep(b, id, newID, order);
    }
    hide RowsAgree, Below, PairsMatch, Apply;
    SameCounter(b, c);
    SameRowsAgree(b, c);
  }

  lemma SameCounter(b: Bucket, c: Bucket)
    requires SameRows(b, c)
    ensures Counter(b) == Counter(c)
  {
    assert SameAt(b, c, COUNTER_KEY);
  }

  lemma RenameGroupStep(b: Bucket, id: string, newID: string, order: seq<string>)
    requires PairsMatch(b) && IsOrderOf(order, Members(b, id))
    requires || UpdateKeysWithNewID(b, id, newID, order).0.Err?
             || id == newID
             || (CanRename(b, id, newID) && KeepsPairs(b, NewKeys(b, id, newID)))
    ensures var c := UpdateKeysWithNewID(b, id, newID, order).1; PairsMatch(c) && SameRows(b, c)
  {
    if id == newID {
      RenameToItself(b, id, order);
    } else if UpdateKeysWithNewID(b, id, newID, order).0.Ok? {
      RenameKeepsPairsExactly(b, id, newID, order);
    }
  }

  lemma StepInv(b: Bucket, op: Op, cfg: Config)
    requires Inv(b, cfg) && Allowed(b, op, cfg)
    ensures Inv(Apply(b, op, cfg), cfg) && (cfg.hashed || Counter(b) <= Counter(Apply(b, op, cfg)))
  {
    hide Inv, Allowed, Apply, SameRows, SamePairs;
    if OnRows(op) {
      RowStep(b, op, cfg);
    } else {
      PairStep(b, op, cfg);
    }
  }

  /** The invariant holds at the end of every run of the whole interface, in either mode. */
  lemma {:induction false} RunInv(b: Bucket, ops: seq<Op>, cfg: Config)
    requires Inv(b, cfg) && ValidRun(b, ops, cfg)
    ensures Inv(Run(b, ops, cfg), cfg)
    decreases |ops|
  {
    if ops == [] {
    } else {
      StepInv(b, ops[0], cfg);
      RunInv(Apply(b, ops[0], cfg), ops[1..], cfg);
    }
  }

  lemma StepExact(b: Bucket, op: Op, cfg: Config)
    requires Inv(b, cfg) && Exact(b) && Allowed(b, op, cfg) && !cfg.hashed && !op.StoreHalf?
    ensures Exact(Apply(b, op, cfg))
  {
    hide Inverse, CounterCovers;
    match op
    case Store(id) => CounterStoreInverse(b, id, cfg);
    case Rebind(oldRow, newRow) => RebindInverse(b, oldRow, newRow);
    case StorePair(_, _) => PairStepExact(b, op, cfg);
    case RebindPair(_, _, _, _) => PairStepExact(b, op, cfg);
    case RenameGroup(_, _, _) => PairStepExact(b, op, cfg);
  }

  lemma PairStepExact(b: Bucket, op: Op, cfg: Config)
    requires Inv(b, cfg) && Exact(b) && Allowed(b, op, cfg) && !OnRows(op)
    ensures Exact(Apply(b, op, cfg))
  {
    PairStep(b, op, cfg);
    SameRowsAgree(b, Apply(b, op, cfg));
  }

  /** With a counter and without half stores, every run keeps rows and ids exact inverses. */
  lemma {:induction false} RunExact(b: Bucket, ops: seq<Op>, cfg: Config)
    requires Inv(b, cfg) && Exact(b) && ValidRun(b, ops, cfg) && !cfg.hashed
    requires forall op :: op in ops ==> !op.StoreHalf?
    ensures Exact(Run(b, ops, cfg))
    decreases |ops|
  {
    if ops == [] {
    } else {
      assert ops[0] in ops;
      StepInv(b, ops[0], cfg);
      StepExact(b, ops[0], cfg);
      assert forall op :: op in ops[1..] ==> op in ops;
      RunExact(Apply(b, ops[0], cfg), ops[1..], cfg);
    }
  }

  /** From an empty bucket: stored ids never share a row and every row leads back to its id; the pairs
      are an involution; and with a counter and without half stores each row's id has exactly that row, and
      the next row is new. */
  lemma EveryRun(ops: seq<Op>, cfg: Config)
    requires ValidRun(map[], ops, cfg)
    ensures var b := Run(map[], ops, cfg);
            && (forall id :: ValidId(id) && id in b ==>
                  IsInt64(RowOf(b[id])) && RowKey(RowOf(b[id])) in b && b[RowKey(RowOf(b[id]))] == id)
            && (forall x, y :: ValidId(x) && ValidId(y) && x in b && y in b && b[x] == b[y] ==> x == y)
            && (forall k :: k in b && ':' in k ==> b[k] in b && b[b[k]] == k)
            && (!cfg.hashed ==> forall id :: ValidId(id) && id in b ==> RowOf(b[id]) <= Counter(b))
            && (!cfg.hashed && (forall op :: op in ops ==> !op.StoreHalf?) ==>
                  (forall n: int :: RowKey(n) in b ==>
                     n <= Counter(b) && b[RowKey(n)] in b && RowOf(b[b[RowKey(n)]]) == n))
  {
    RunInv(map[], ops, cfg);
    var b := Run(map[], ops, cfg);
    forall id | ValidId(id) && id in b
      ensures IsInt64(RowOf(b[id])) && RowKey(RowOf(b[id])) in b && b[RowKey(RowOf(b[id]))] == id
    {
      assert ForwardAgrees(b, id);
    }
    if !cfg.hashed && forall op :: op in ops ==> !op.StoreHalf? {
      RunExact(map[], ops, cfg);
      forall n: int | RowKey(n) in b ensures RowOf(b[b[RowKey(n)]]) == n {
        RowRoundTrip(n);
      }
    }
  }

  // ---------------------------------------------------------------- looking a row up again

  lemma RowPersistsStep(b: Bucket, op: Op, cfg: Config, n: int)
    requires Inv(b, cfg) && Allowed(b, op, cfg) && RowKey(n) in b && !(op.Rebind? && op.oldRow == n)
    requires cfg.hashed || n <= Counter(b)
    ensures SameAt(b, Apply(b, op, cfg), RowKey(n))
  {
    hide RowKey, Below, PairsMatch;
    RowKeyKinds(n);
    match op
    case Store(id) =>
      if id !in b && NewRow(b, id, cfg).Ok? {
        var m := NewRow(b, id, cfg).value;
        assert !cfg.hashed ==> m == Counter(b) + 1 by { CounterNotNegative(b, cfg); }
        RowKeyKinds(m);
        if RowKey(m) == RowKey(n) {
          RowKeyInjective(m, n);
        }
      }
    case StoreHalf(id) =>
    case Rebind(oldRow, newRow) =>
      if UpdateVirtualValue(b, oldRow, newRow).0.Ok? {
        assert ValidId(b[RowKey(oldRow)]);
        if RowKey(oldRow) == RowKey(n) {
          RowKeyInjective(oldRow, n);
        }
      }
    case StorePair(_, _) => PairStep(b, op, cfg);
    case RebindPair(_, _, _, _) => PairStep(b, op, cfg);
    case RenameGroup(_, _, _) => PairStep(b, op, cfg);
  }

  lemma CounterNotNegative(b: Bucket, cfg: Config)
    requires Inv(b, cfg)
    ensures cfg.hashed || 0 <= Counter(b)
  {}

  /** The row that a user got, printed in decimal and looked up later, gives back that user, as long as
      that row itself is not rebound: the path of a reply back to who asked. */
  lemma {:induction false} LookupGivesUserBack(b: Bucket, ops: seq<Op>, cfg: Config, user: string)
    requires Inv(b, cfg) && ValidRun(b, ops, cfg) && ValidId(user) && user in b
    requires forall op :: op in ops && op.Rebind? ==> op.oldRow != RowOf(b[user])
    ensures RetrieveRowByID(Run(b, ops, cfg), Numeral(RowOf(b[user]))) == Ok(user)
  {
    assert ForwardAgrees(b, user);
    RowPersists(b, ops, cfg, RowOf(b[user]));
  }

  /** Only a rebind of that very row changes what a row leads to. With a counter this is said of the rows
      that it has passed; a row that a half store gave out above it is taken again when it gets there. */
  lemma {:induction false} RowPersists(b: Bucket, ops: seq<Op>, cfg: Config, n: int)
    requires Inv(b, cfg) && ValidRun(b, ops, cfg) && RowKey(n) in b && (cfg.hashed || n <= Counter(b))
    requires forall op :: op in ops && op.Rebind? ==> op.oldRow != n
    ensures SameAt(b, Run(b, ops, cfg), RowKey(n))
    decreases |ops|
  {
    if ops == [] {
    } else {
      var op, c := ops[0], Apply(b, ops[0], cfg);
      assert op in ops;
      RowPersistsStep(b, op, cfg, n);
      StepInv(b, op, cfg);
      assert forall o :: o in ops[1..] ==> o in ops;
      RowPersists(c, ops[1..], cfg, n);
      assert SameAt(c, Run(c, ops[1..], cfg), RowKey(n));
    }
  }

  ghost predicate NeverRebound(ops: seq<Op>, n: int) {
    forall op :: op in ops && op.Rebind? ==> op.oldRow != n
  }

  /** What a row leads to stays the same in every run that does not rebind it. */
  ghost predicate Persists(b: Bucket, cfg: Config, n: int) {
    forall ops :: ValidRun(b, ops, cfg) && NeverRebound(ops, n) ==> SameAt(b, Run(b, ops, cfg), RowKey(n))
  }

  /** An id longer than all of these. */
  ghost function FreshId(ks: set<string>): (id: string)
    ensures ValidId(id) && id !in ks
  {
    var id := seq(1 + Longest(ks), _ => 'a');
    assert id[0] == 'a' && COUNTER_KEY[0] == 'c' && "row-"[0] == 'r';
    id
  }

  ghost function Longest(ks: set<string>): (n: nat)
    ensures forall k :: k in ks ==> |k| <= n
  {
    if ks == {} then 0
    else
      var k :| k in ks;
      var n := Longest(ks - {k});
      if |k| > n then |k| else n
  }

  /** With a counter, storing a new id moves it on by one and writes the row it comes to. */
  lemma StoreFresh(b: Bucket, cfg: Config, id: string, n: int)
    requires Inv(b, cfg) && !cfg.hashed && ValidId(id) && id !in b && Counter(b) < n <= MAX_INT64
    ensures Allowed(b, Store(id), cfg)
    ensures var c := Apply(b, Store(id), cfg);
            && Inv(c, cfg) && Counter(c) == Counter(b) + 1
            && (if n == Counter(b) + 1 then RowKey(n) in c && c[RowKey(n)] == id else SameAt(b, c, RowKey(n)))
  {
    var m := NextRow(b);
    StepInv(b, Store(id), cfg);
    CounterOfRow(b, m);
    RowKeyKinds(m);
    RowKeyKinds(n);
    if RowKey(m) == RowKey(n) {
      RowKeyInjective(m, n);
    }
    hide RowKey, RowBytes, RowOf, Inv;
  }

  /** A row above the counter is taken by the last of as many new ids as it is above it. */
  lemma {:induction false} RowIsTaken(b: Bucket, cfg: Config, n: int, v: string) returns (ops: seq<Op>)
    requires Inv(b, cfg) && !cfg.hashed && Counter(b) < n && RowKey(n) in b && b[RowKey(n)] == v
    ensures ValidRun(b, ops, cfg) && forall op :: op in ops ==> op.Store?
    ensures var c := Run(b, ops, cfg); RowKey(n) in c && c[RowKey(n)] != v
    decreases n - Counter(b)
  {
    var id := FreshId(b.Keys + {v});
    assert IsInt64(n);
    StoreFresh(b, cfg, id, n);
    var c := Apply(b, Store(id), cfg);
    hide Inv, RowKey, Apply, Allowed, Counter;
    if n == Counter(b) + 1 {
      ops := [Store(id)];
      OneOp(b, Store(id), [], cfg);
    } else {
      var rest := RowIsTaken(c, cfg, n, v);
      ops := [Store(id)] + rest;
      OneOp(b, Store(id), rest, cfg);
    }
  }

  lemma OneOp(b: Bucket, op: Op, rest: seq<Op>, cfg: Config)
    requires Allowed(b, op, cfg) && ValidRun(Apply(b, op, cfg), rest, cfg)
    ensures ValidRun(b, [op] + rest, cfg) && Run(b, [op] + rest, cfg) == Run(Apply(b, op, cfg), rest, cfg)
    ensures [op] + [] == [op] && Run(Apply(b, op, cfg), [], cfg) == Apply(b, op, cfg)
  {
    hide Allowed, Apply;
    assert ([op] + rest)[1..] == rest;
  }

  /** What a row leads to outlasts every run that does not rebind it exactly when rows are hashed or the
      counter has passed the row. A row that a half store gave out above the counter is given out again. */
  lemma RowPersistsExactly(b: Bucket, cfg: Config, n: int)
    requires Inv(b, cfg) && RowKey(n) in b
    ensures Persists(b, cfg, n) <==> cfg.hashed || n <= Counter(b)
  {
    if cfg.hashed || n <= Counter(b) {
      forall ops | ValidRun(b, ops, cfg) && NeverRebound(ops, n) ensures SameAt(b, Run(b, ops, cfg), RowKey(n)) {
        RowPersists(b, ops, cfg, n);
      }
    } else {
      var ops := RowIsTaken(b, cfg, n, b[RowKey(n)]);
      assert NeverRebound(ops, n);
      assert !SameAt(b, Run(b, ops, cfg), RowKey(n));
    }
  }

  /** A user that has just been stored can be looked up by the row that storing it returned. */
  lemma StoredUser(b: Bucket, user: string, cfg: Config)
    requires Inv(b, cfg) && Allowed(b, Store(user), cfg) && StoreID(b, user, cfg).0.Ok?
    ensures var (r, c) := StoreID(b, user, cfg);
            && Inv(c, cfg) && user in c && RowOf(c[user]) == r.value
            && StoreID(c, user, cfg) == (r, c)
  {
    StepInv(b, Store(user), cfg);
    var (r, c) := StoreID(b, user, cfg);
    if user !in b {
      RowRoundTrip(r.value);
      RowKeyKinds(r.value);
    }
  }

  /** A user whose row was rebound has the new row, and only the new row leads to the user. */
  lemma ReboundUser(b: Bucket, user: string, cfg: Config, oldRow: int, newRow: int)
    requires Inv(b, cfg) && IsInt64(oldRow) && IsInt64(newRow)
    requires ValidId(user) && user in b && RowOf(b[user]) == oldRow && RowKey(newRow) !in b
    ensures var (r, c) := UpdateVirtualValue(b, oldRow, newRow);
            && r.Ok?
            && user in c && StoreID(c, user, cfg) == (Ok(newRow), c)
            && RetrieveRowByID(c, Numeral(newRow)) == Ok(user)
            && RetrieveRowByID(c, Numeral(oldRow)).Err?
  {
    assert ForwardAgrees(b, user);
    RowRoundTrip(newRow);
    RowKeyKinds(oldRow);
    RowKeyKinds(newRow);
  }

  /** The half store gives out a row that was free and that leads to the id; no other key changes, so the id
      itself gets no row, and storing it half once more gives out another row or fails. How long the row
      leads to the id is the matter of `RowPersistsExactly`. */
  lemma HalfStoredUser(b: Bucket, user: string, cfg: Config)
    requires RowsAgree(b) && ValidId(user) && SimplifiedStoreID(b, user, cfg).0.Ok?
    ensures var (r, c) := SimplifiedStoreID(b, user, cfg);
            && RetrieveRowByID(b, Numeral(r.value)).Err? && RetrieveRowByID(c, Numeral(r.value)) == Ok(user)
            && (forall k :: k != RowKey(r.value) ==> SameAt(b, c, k))
            && (user in c <==> user in b)
            && SimplifiedStoreID(c, user, cfg).0 != r
  {
    RowKeyKinds(SimplifiedStoreID(b, user, cfg).0.value);
  }
}
