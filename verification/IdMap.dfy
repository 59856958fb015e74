/** The id store of `idmap/service.go`: what its transactions do to the one bucket they share, and what
    they keep true of it.

    The bucket holds forward keys (id -> 8-byte row), reverse keys (`row-N` -> id), a counter, and pairs
    (`id:sub` <-> `row:subrow`) in both directions. A transaction that fails leaves the bucket as it was. */
module IdMap {
  import opened Strings
  import opened RowKeys

  type Bucket = map<string, string>

  /** `hashed` is the setting that derives rows from hashes; `md5` is the hash, in hexadecimal. */
  datatype Config = Config(hashed: bool, md5: string -> string)

  function HashRow(id: string, length: nat, cfg: Config): (r: Result<int>)
    ensures r.Ok? ==> IsInt64(r.value)
  {
    GenerateRowID(cfg.md5(id), length)
  }

  // ---------------------------------------------------------------- the transactions

  /** The counter as a row; 0 when there is none. */
  function Counter(b: Bucket): int {
    if COUNTER_KEY in b then RowOf(b[COUNTER_KEY]) else 0
  }

  /** The hashed row of an id: 9 digits, or 10 when those are taken. */
  function FreeHashRow(b: Bucket, id: string, cfg: Config): (r: Result<int>)
    ensures r.Ok? ==> IsInt64(r.value) && RowKey(r.value) !in b
  {
    match HashRow(id, 9, cfg)
    case Err(e) => Err(e)
    case Ok(short) =>
      if RowKey(short) !in b then Ok(short)
      else match HashRow(id, 10, cfg)
        case Err(e) => Err(e)
        case Ok(long) => if RowKey(long) in b then Err("unable to find a unique row ID") else Ok(long)
  }

  /** The row after the counter, in int64. */
  function NextRow(b: Bucket): (n: int)
    ensures IsInt64(n) && (0 <= Counter(b) < MAX_INT64 ==> n == Counter(b) + 1)
  {
    WrapInt64(Counter(b) + 1)
  }

  function NewRow(b: Bucket, id: string, cfg: Config): (r: Result<int>)
    ensures r.Ok? ==> IsInt64(r.value)
  {
    if cfg.hashed then FreeHashRow(b, id, cfg) else Ok(NextRow(b))
  }

  function StoreID(b: Bucket, id: string, cfg: Config): (Result<int>, Bucket) {
    if id in b then (Ok(RowOf(b[id])), b)
    else match NewRow(b, id, cfg)
      case Err(e) => (Err(e), b)
      case Ok(n) =>
        var counted := if cfg.hashed then b else b[COUNTER_KEY := RowBytes(n)];
        (Ok(n), counted[id := RowBytes(n)][RowKey(n) := id])
  }

  /** Only the reverse half is written. */
  function SimplifiedStoreID(b: Bucket, id: string, cfg: Config): (Result<int>, Bucket) {
    match FreeHashRow(b, id, cfg)
    case Err(e) => (Err(e), b)
    case Ok(n) => (Ok(n), b[RowKey(n) := id])
  }

  function UpdateVirtualValue(b: Bucket, oldRow: int, newRow: int): (Result<()>, Bucket)
    requires IsInt64(newRow)
  {
    if RowKey(oldRow) !in b then (Err("no such row"), b)
    else if RowKey(newRow) in b then (Err("row exists"), b)
    else
      var id := b[RowKey(oldRow)];
      (Ok(()), (b[id := RowBytes(newRow)] - {RowKey(oldRow)})[RowKey(newRow) := id])
  }

  function StoreIDPro(b: Bucket, id: string, subid: string, cfg: Config): (Result<(int, int)>, Bucket) {
    var forwardKey := Pair(id, subid);
    if forwardKey in b then (Ok(ScanPair(b[forwardKey])), b)
    else match HashRow(id, 9, cfg)
      case Err(e) => (Err(e), b)
      case Ok(m) =>
        match HashRow(subid, 9, cfg)
        case Err(e) => (Err(e), b)
        case Ok(n) => (Ok((m, n)), b[forwardKey := VirtualPair(m, n)][VirtualPair(m, n) := forwardKey])
  }

  function UpdateVirtualValuePro(b: Bucket, old1: int, new1: int, old2: int, new2: int): (Result<()>, Bucket) {
    var oldKey, newKey := VirtualPair(old1, old2), VirtualPair(new1, new2);
    if oldKey !in b then (Err("no such pair"), b)
    else if newKey in b then (Err("pair exists"), b)
    else
      var value := b[oldKey];
      (Ok(()), (b - {oldKey} - {value})[newKey := value][value := newKey])
  }

  /** `strings.Replace(s, from, to, 1)`. */
  function ReplaceFirst(s: string, from: string, to: string): string {
    var i := Index(s, from);
    if i == -1 then s else s[..i] + to + s[i + |from|..]
  }

  /** The keys of an id's pairs with their values, as `UpdateKeysWithNewID` collects them. */
  function Members(b: Bucket, id: string): map<string, string> {
    map k | k in b && id + ":" <= k :: b[k]
  }

  /** One turn of the renaming loop. */
  function RenameOne(b: Bucket, key: string, reverseKey: string, id: string, newID: string): Option<Bucket> {
    if reverseKey !in b then None
    else
      var reverseValue := b[reverseKey];
      Some((b - {key})[ReplaceFirst(key, id, newID) := reverseKey][reverseKey := ReplaceFirst(reverseValue, id, newID)])
  }

  /** The loop over the collected keys, in the order in which Go happens to range over the map. */
  function RenameLoop(
      b: Bucket, order: seq<string>, todo: map<string, string>, id: string, newID: string): Option<Bucket>
    requires forall k :: k in order ==> k in todo
    decreases |order|
  {
    if order == [] then Some(b)
    else match RenameOne(b, order[0], todo[order[0]], id, newID)
      case None => None
      case Some(c) => RenameLoop(c, order[1..], todo, id, newID)
  }

  ghost predicate IsOrderOf(order: seq<string>, todo: map<string, string>) {
    && (forall k :: k in order <==> k in todo)
    && (forall i, j :: 0 <= i < j < |order| ==> order[i] != order[j])
  }

  function UpdateKeysWithNewID(b: Bucket, id: string, newID: string, order: seq<string>): (Result<()>, Bucket)
    requires IsOrderOf(order, Members(b, id))
  {
    match RenameLoop(b, order, Members(b, id), id, newID)
    case None => (Err("reverse key not found"), b)
    case Some(c) => (Ok(()), c)
  }

  function RetrieveRowByID(b: Bucket, row: string): Result<string> {
    if "row-" + row in b then Ok(b["row-" + row]) else Err("key not found")
  }

  function RetrieveRealValuePro(b: Bucket, m: int, n: int): Result<(string, string)> {
    if VirtualPair(m, n) !in b then Err("no real values found")
    else
      var parts := Split(b[VirtualPair(m, n)]);
      if |parts| != 2 then Err("invalid format") else Ok((parts[0], parts[1]))
  }

  // ---------------------------------------------------------------- what the bucket keeps

  /** An id with a row has that row to itself: the reverse key of its row leads back to it. */
  ghost predicate ForwardAgrees(b: Bucket, id: string)
    requires id in b
  {
    var n := RowOf(b[id]);
    IsInt64(n) && b[id] == RowBytes(n) && RowKey(n) in b && b[RowKey(n)] == id
  }

  ghost predicate RowsAgree(b: Bucket) {
    && (forall id :: ValidId(id) && id in b ==> ForwardAgrees(b, id))
    && (forall n: int :: RowKey(n) in b ==> IsInt64(n) && ValidId(b[RowKey(n)]))
  }

  /** The forward and the reverse keys are inverse to each other. */
  ghost predicate Inverse(b: Bucket) {
    && RowsAgree(b)
    && forall n: int :: RowKey(n) in b ==> b[RowKey(n)] in b && b[b[RowKey(n)]] == RowBytes(n)
  }

  /** No live row is above the counter, so the next one is new. */
  ghost predicate CounterCovers(b: Bucket) {
    0 <= Counter(b) <= MAX_INT64 && forall n: int :: RowKey(n) in b ==> n <= Counter(b)
  }

  /** No id has a row above the counter, so the next one is held by nobody. */
  ghost predicate Below(b: Bucket) {
    0 <= Counter(b) <= MAX_INT64 && forall id :: ValidId(id) && id in b ==> RowOf(b[id]) <= Counter(b)
  }

  /** On pairs the bucket is its own inverse. */
  ghost predicate PairsMatch(b: Bucket) {
    forall k :: k in b && ':' in k ==> ':' in b[k] && b[k] in b && b[b[k]] == k
  }

  ghost predicate SameAt(b: Bucket, c: Bucket, k: string) {
    (k in b <==> k in c) && (k in b ==> b[k] == c[k])
  }

  ghost predicate SamePairs(b: Bucket, c: Bucket) {
    forall k :: ':' in k ==> SameAt(b, c, k)
  }

  ghost predicate SameRows(b: Bucket, c: Bucket) {
    forall k :: ':' !in k ==> SameAt(b, c, k)
  }

  lemma SamePairsMatch(b: Bucket, c: Bucket)
    requires SamePairs(b, c) && PairsMatch(b)
    ensures PairsMatch(c)
  {
    forall k | k in c && ':' in k ensures ':' in c[k] && c[k] in c && c[c[k]] == k {
      assert SameAt(b, c, k);
      assert SameAt(b, c, b[k]);
    }
  }

  /** What is promised about rows depends on the row keys, the forward keys and the counter only. */
  lemma SameRowsAgree(b: Bucket, c: Bucket)
    requires SameRows(b, c)
    ensures RowsAgree(b) ==> RowsAgree(c)
    ensures Inverse(b) ==> Inverse(c)
    ensures CounterCovers(b) ==> CounterCovers(c)
    ensures Below(b) ==> Below(c)
    ensures forall n: int :: SameAt(b, c, RowKey(n))
  {
    forall n: int ensures SameAt(b, c, RowKey(n)) {
      RowKeyKinds(n);
    }
    assert SameAt(b, c, COUNTER_KEY);
    if RowsAgree(b) {
      forall id | ValidId(id) && id in c ensures ForwardAgrees(c, id) {
        assert SameAt(b, c, id);
        assert ForwardAgrees(b, id);
        assert SameAt(b, c, RowKey(RowOf(b[id])));
      }
      forall n: int | RowKey(n) in c ensures IsInt64(n) && ValidId(c[RowKey(n)]) {
        assert SameAt(b, c, RowKey(n));
      }
    }
    if Below(b) {
      forall id | ValidId(id) && id in c ensures RowOf(c[id]) <= Counter(c) {
        assert SameAt(b, c, id);
      }
    }
    if Inverse(b) {
      forall n: int | RowKey(n) in c ensures c[RowKey(n)] in c && c[c[RowKey(n)]] == RowBytes(n) {
        assert SameAt(b, c, RowKey(n));
        assert SameAt(b, c, b[RowKey(n)]);
      }
    }
  }

  // ---------------------------------------------------------------- rows, transaction by transaction

  /** Writing an id under a free row, forward and reverse. */
  function Bind(b: Bucket, id: string, n: int): Bucket
    requires IsInt64(n)
  {
    b[id := RowBytes(n)][RowKey(n) := id]
  }

  /** Some id has this row. */
  ghost predicate RowHeld(b: Bucket, n: int) {
    exists id :: IsHolder(b, id, n)
  }

  ghost predicate IsHolder(b: Bucket, id: string, n: int) {
    ValidId(id) && id in b && RowOf(b[id]) == n
  }

  lemma BindAgrees(b: Bucket, id: string, n: int)
    requires RowsAgree(b) && ValidId(id) && id !in b && IsInt64(n)
    ensures RowsAgree(Bind(b, id, n)) <==> !RowHeld(b, n)
    ensures SamePairs(b, Bind(b, id, n))
  {
    RowKeyKinds(n);
    if RowHeld(b, n) {
      var x :| IsHolder(b, x, n);
      BindBreaks(b, id, n, x);
    } else {
      BindKeeps(b, id, n);
    }
  }

  lemma BindBreaks(b: Bucket, id: string, n: int, x: string)
    requires ValidId(id) && id !in b && IsInt64(n) && IsHolder(b, x, n)
    ensures !RowsAgree(Bind(b, id, n))
  {
    var c := Bind(b, id, n);
    RowKeyKinds(n);
    assert x in c && c[x] == b[x] && c[RowKey(n)] == id;
    assert !ForwardAgrees(c, x);
  }

  lemma BindKeeps(b: Bucket, id: string, n: int)
    requires RowsAgree(b) && ValidId(id) && id !in b && IsInt64(n) && !RowHeld(b, n)
    ensures RowsAgree(Bind(b, id, n))
  {
    var c := Bind(b, id, n);
    RowRoundTrip(n);
    RowKeyKinds(n);
    forall x | ValidId(x) && x in c ensures ForwardAgrees(c, x) {
      if x != id {
        var m := RowOf(b[x]);
        assert ForwardAgrees(b, x);
        assert IsHolder(b, x, m);
        RowKeyKinds(m);
        if RowKey(m) == RowKey(n) {
          RowKeyInjective(m, n);
        }
      }
    }
    forall m: int | RowKey(m) in c ensures IsInt64(m) && ValidId(c[RowKey(m)]) {
      RowKeyKinds(m);
      if RowKey(m) == RowKey(n) {
        RowKeyInjective(m, n);
      }
    }
  }

  lemma CounterIsApart(b: Bucket, v: string)
    requires RowsAgree(b)
    ensures RowsAgree(b[COUNTER_KEY := v]) && SamePairs(b, b[COUNTER_KEY := v])
    ensures forall n: int :: SameAt(b, b[COUNTER_KEY := v], RowKey(n))
  {
    var c := b[COUNTER_KEY := v];
    forall n: int ensures SameAt(b, c, RowKey(n)) {
      RowKeyKinds(n);
    }
    forall x | ValidId(x) && x in c ensures ForwardAgrees(c, x) {
      assert ForwardAgrees(b, x);
      assert SameAt(b, c, RowKey(RowOf(b[x])));
    }
    forall m: int | RowKey(m) in c ensures IsInt64(m) && ValidId(c[RowKey(m)]) {
      assert SameAt(b, c, RowKey(m));
    }
  }

  lemma HolderHasKey(b: Bucket, n: int)
    requires RowsAgree(b) && RowHeld(b, n)
    ensures RowKey(n) in b
  {
    var x :| IsHolder(b, x, n);
    assert ForwardAgrees(b, x);
  }

  /** Storing a new id keeps the agreement exactly when no id has the row it gets; a hashed row is always
      free, the row after the counter need not be. */
  lemma StoreIDAgrees(b: Bucket, id: string, cfg: Config)
    requires RowsAgree(b) && ValidId(id)
    ensures RowsAgree(StoreID(b, id, cfg).1) <==> cfg.hashed || id in b || !RowHeld(b, NextRow(b))
    ensures SamePairs(b, StoreID(b, id, cfg).1)
  {
    if id !in b && NewRow(b, id, cfg).Ok? {
      var n := NewRow(b, id, cfg).value;
      var counted := if cfg.hashed then b else b[COUNTER_KEY := RowBytes(n)];
      CounterIsApart(b, RowBytes(n));
      SameHolders(b, n);
      if cfg.hashed && RowHeld(b, n) {
        HolderHasKey(b, n);
      }
      hide RowsAgree, SamePairs, RowHeld, RowBytes;
      BindAgrees(counted, id, n);
      assert StoreID(b, id, cfg).1 == Bind(counted, id, n);
    }
  }

  /** Writing the counter takes no id's row. */
  lemma SameHolders(b: Bucket, n: int)
    requires IsInt64(n)
    ensures RowHeld(b[COUNTER_KEY := RowBytes(n)], n) <==> RowHeld(b, n)
  {
    var c := b[COUNTER_KEY := RowBytes(n)];
    assert forall x :: IsHolder(c, x, n) <==> IsHolder(b, x, n);
  }

  lemma SimplifiedStoreIDAgrees(b: Bucket, id: string, cfg: Config)
    requires RowsAgree(b) && ValidId(id)
    ensures RowsAgree(SimplifiedStoreID(b, id, cfg).1) && SamePairs(b, SimplifiedStoreID(b, id, cfg).1)
  {
    if FreeHashRow(b, id, cfg).Ok? {
      var n := FreeHashRow(b, id, cfg).value;
      var c := b[RowKey(n) := id];
      RowKeyKinds(n);
      forall x | ValidId(x) && x in c ensures ForwardAgrees(c, x) {
        assert ForwardAgrees(b, x);
      }
      forall m: int | RowKey(m) in c ensures IsInt64(m) && ValidId(c[RowKey(m)]) {
        if RowKey(m) == RowKey(n) {
          RowKeyInjective(m, n);
        }
      }
    }
  }

  lemma UpdateVirtualValueAgrees(b: Bucket, oldRow: int, newRow: int)
    requires RowsAgree(b) && IsInt64(newRow)
    ensures RowsAgree(UpdateVirtualValue(b, oldRow, newRow).1) && SamePairs(b, UpdateVirtualValue(b, oldRow, newRow).1)
  {
    hide RowBytes, RowOf, RowKey;
    if UpdateVirtualValue(b, oldRow, newRow).0.Ok? {
      var id := b[RowKey(oldRow)];
      var c := UpdateVirtualValue(b, oldRow, newRow).1;
      RowRoundTrip(newRow);
      RowKeyKinds(newRow);
      RowKeyKinds(oldRow);
      forall x | ValidId(x) && x in c ensures ForwardAgrees(c, x) {
        if x != id {
          var m := RowOf(b[x]);
          assert ForwardAgrees(b, x);
          RowKeyKinds(m);
        }
      }
      forall m: int | RowKey(m) in c ensures IsInt64(m) && ValidId(c[RowKey(m)]) {
        RowKeyKinds(m);
        if RowKey(m) == RowKey(newRow) {
          RowKeyInjective(m, newRow);
        }
      }
    }
  }

  /** Two stored ids never have the same row. */
  lemma NoSharedRow(b: Bucket, x: string, y: string)
    requires RowsAgree(b) && ValidId(x) && ValidId(y) && x in b && y in b && b[x] == b[y]
    ensures x == y
  {
    assert ForwardAgrees(b, x) && ForwardAgrees(b, y);
  }

  // ---------------------------------------------------------------- counter mode

  lemma CounterOfRow(b: Bucket, n: int)
    requires 0 <= n <= MAX_INT64
    ensures Counter(b[COUNTER_KEY := RowBytes(n)]) == n
  {
    Pow256Of8();
    BigEndianRoundTrip(n, 8);
  }

  /** In counter mode a new id keeps the directions inverse exactly when the row after the counter, in
      int64, is free; if it is not, the id that held that row loses its reverse key. */
  lemma CounterStoreExact(b: Bucket, id: string, cfg: Config)
    requires Inverse(b) && ValidId(id) && id !in b && !cfg.hashed
    ensures Inverse(StoreID(b, id, cfg).1) <==> RowKey(NextRow(b)) !in b
  {
    if RowKey(NextRow(b)) in b {
      CounterStoreBreaks(b, id, cfg);
    } else {
      CounterStoreKeeps(b, id, cfg);
    }
  }

  lemma CounterStoreKeeps(b: Bucket, id: string, cfg: Config)
    requires Inverse(b) && ValidId(id) && id !in b && !cfg.hashed
    requires RowKey(NextRow(b)) !in b
    ensures Inverse(StoreID(b, id, cfg).1)
  {
    hide RowBytes, RowOf, RowKey;
    var n := NextRow(b);
    var c := StoreID(b, id, cfg).1;
    StoreIDAgrees(b, id, cfg);
    RowKeyKinds(n);
    forall m: int | RowKey(m) in c ensures c[RowKey(m)] in c && c[c[RowKey(m)]] == RowBytes(m) {
      RowKeyKinds(m);
      if RowKey(m) == RowKey(n) {
        RowKeyInjective(m, n);
      } else {
        InverseReaches(b, id, m);
      }
    }
  }

  lemma CounterStoreBreaks(b: Bucket, id: string, cfg: Config)
    requires Inverse(b) && ValidId(id) && id !in b && !cfg.hashed
    requires RowKey(NextRow(b)) in b
    ensures !Inverse(StoreID(b, id, cfg).1)
  {
    var n := NextRow(b);
    var c := StoreID(b, id, cfg).1;
    var other := b[RowKey(n)];
    InverseReaches(b, id, n);
    RowKeyKinds(n);
    RowRoundTrip(n);
    assert c[other] == RowBytes(n) && c[RowKey(n)] == id;
    assert !ForwardAgrees(c, other);
  }

  lemma InverseReaches(b: Bucket, id: string, m: int)
    requires Inverse(b) && id !in b && RowKey(m) in b
    ensures b[RowKey(m)] != id && b[RowKey(m)] != COUNTER_KEY && ValidId(b[RowKey(m)])
  {}

  lemma CounterStoreInverse(b: Bucket, id: string, cfg: Config)
    requires Inverse(b) && CounterCovers(b) && ValidId(id) && !cfg.hashed && (id in b || Counter(b) < MAX_INT64)
    ensures var c := StoreID(b, id, cfg).1;
            Inverse(c) && CounterCovers(c) && SamePairs(b, c)
    ensures id !in b ==> RowKey(Counter(b) + 1) !in b
  {
    if id !in b {
      var n := Counter(b) + 1;
      CounterStoreExact(b, id, cfg);
      StoreIDAgrees(b, id, cfg);
      CounterOfRow(b, n);
      RowKeyKinds(n);
      var c := StoreID(b, id, cfg).1;
      assert Counter(c) == n;
      forall m: int | RowKey(m) in c ensures m <= n {
        RowKeyKinds(m);
        if RowKey(m) == RowKey(n) {
          RowKeyInjective(m, n);
        }
      }
    }
  }

  lemma RebindInverse(b: Bucket, oldRow: int, newRow: int)
    requires Inverse(b) && IsInt64(newRow)
    ensures var c := UpdateVirtualValue(b, oldRow, newRow).1;
            && Inverse(c)
            && (CounterCovers(b) && newRow <= Counter(b) ==> CounterCovers(c))
  {
    hide RowBytes, RowOf, RowKey;
    var (r, c) := UpdateVirtualValue(b, oldRow, newRow);
    UpdateVirtualValueAgrees(b, oldRow, newRow);
    if r.Ok? {
      var id := b[RowKey(oldRow)];
      RowKeyKinds(oldRow);
      RowKeyKinds(newRow);
      forall m: int | RowKey(m) in c ensures c[RowKey(m)] in c && c[c[RowKey(m)]] == RowBytes(m)
        && (RowKey(m) != RowKey(newRow) ==> RowKey(m) in b)
      {
        if RowKey(m) == RowKey(newRow) {
          RowKeyInjective(m, newRow);
        } else if b[RowKey(m)] == id {
          RowRoundTrip(m);
          RowRoundTrip(oldRow);
        } else {
          RowKeyKinds(m);
        }
      }
      if CounterCovers(b) && newRow <= Counter(b) {
        forall m: int | RowKey(m) in c ensures m <= Counter(c) {
          if RowKey(m) == RowKey(newRow) { RowKeyInjective(m, newRow); }
        }
      }
    }
  }

  /** With a counter, storing always finds a row that nobody holds, also when half stores have taken the
      reverse key of that row. */
  lemma CounterStoreBelow(b: Bucket, id: string, cfg: Config)
    requires RowsAgree(b) && Below(b) && ValidId(id) && !cfg.hashed && (id in b || Counter(b) < MAX_INT64)
    ensures var c := StoreID(b, id, cfg).1;
            RowsAgree(c) && Below(c) && SamePairs(b, c) && Counter(b) <= Counter(c)
  {
    StoreIDAgrees(b, id, cfg);
    if id !in b {
      var n := NextRow(b);
      assert !RowHeld(b, n);
      CounterOfRow(b, n);
      RowKeyKinds(n);
      RowRoundTrip(n);
    }
  }

  lemma SimplifiedStoreBelow(b: Bucket, id: string, cfg: Config)
    requires Below(b)
    ensures var c := SimplifiedStoreID(b, id, cfg).1;
            Below(c) && Counter(b) == Counter(c)
  {
    if FreeHashRow(b, id, cfg).Ok? {
      RowKeyKinds(FreeHashRow(b, id, cfg).value);
    }
  }

  lemma RebindBelow(b: Bucket, oldRow: int, newRow: int)
    requires RowsAgree(b) && Below(b) && IsInt64(newRow) && newRow <= Counter(b)
    ensures var c := UpdateVirtualValue(b, oldRow, newRow).1;
            Below(c) && Counter(b) == Counter(c)
  {
    RowKeyKinds(oldRow);
    RowKeyKinds(newRow);
    RowRoundTrip(newRow);
  }
}
