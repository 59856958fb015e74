/** Runs of the id store, from the empty bucket, that break what it otherwise keeps: the failing sides of the
    exact conditions, at inputs that the code can reach. */
module IdMapLimits {
  import opened Strings
  import opened RowKeys
  import opened IdMap
  import opened PairIndex
  import opened RenameOrders
  import opened IdMapRuns

  /** A hash that sends `g` to one row and every other id to another one. */
  function TwoRows(id: string): (hash: string)
    ensures Digits(hash)
  {
    if id == "g" then "000000001" else "000000002"
  }

  const TWO_ROWS := Config(true, TwoRows)

  lemma TwoRowsHash(id: string)
    ensures HashRow(id, 9, TWO_ROWS) == Ok(NatValue(TwoRows(id))) && IsInt64(NatValue(TwoRows(id)))
  {
    NineDigits(TwoRows(id));
  }

  lemma TwoRowsDiffer()
    ensures NatValue(TwoRows("g")) != NatValue(TwoRows("h"))
  {
    assert "000000001"[..8] == "000000002"[..8];
  }

  /** No pair of rows looks like a pair of an id that starts with a letter. */
  lemma RowsAreNoNames(m: int, n: int, id: string)
    requires id != "" && id[0] >= 'a'
    ensures !(id + ":" <= VirtualPair(m, n))
  {
    assert VirtualPair(m, n)[0] == Numeral(m)[0];
    assert (id + ":")[0] == id[0];
  }

  /** What storing a new pair writes. */
  lemma StoredPair(b: Bucket, id: string, subid: string)
    requires Pair(id, subid) !in b
    ensures var (m, n) := (NatValue(TwoRows(id)), NatValue(TwoRows(subid)));
            StoreIDPro(b, id, subid, TWO_ROWS)
            == (Ok((m, n)), b[Pair(id, subid) := VirtualPair(m, n)][VirtualPair(m, n) := Pair(id, subid)])
  {
    TwoRowsHash(id);
    TwoRowsHash(subid);
  }

  lemma NotTheRows(id: string, subid: string, m: int, n: int)
    requires id != "" && id[0] >= 'a'
    ensures Pair(id, subid) != VirtualPair(m, n)
  {
    RowsAreNoNames(m, n, id);
    assert id + ":" <= Pair(id, subid);
  }

  lemma SharedRowsBreak(k: string, l: string, rows: string)
    requires ':' in k && ':' in l && ':' in rows && k != rows && l != rows && k != l
    ensures var b := map[][k := rows][rows := k];
            && PairsMatch(b) && l !in b
            && var c := b[l := rows][rows := l];
               !PairsMatch(c) && k in c && c[k] == rows && c[rows] == l
  {}

  lemma FoundPair(b: Bucket, id: string, subid: string, m: int, n: int)
    requires Pair(id, subid) in b && b[Pair(id, subid)] == VirtualPair(m, n) && IsInt64(m) && IsInt64(n)
    ensures StoreIDPro(b, id, subid, TWO_ROWS) == (Ok((m, n)), b)
  {
    ScanVirtualPair(m, n);
  }

  /** Two pairs whose halves hash alike: the second takes the rows of the first, which still names them. */
  lemma SharedRows()
    ensures var b1 := StoreIDPro(map[], "x", "u", TWO_ROWS).1;
            var (r, b2) := StoreIDPro(b1, "y", "v", TWO_ROWS);
            && PairsMatch(b1) && r.Ok? && !PairsMatch(b2)
            && StoreIDPro(b2, "x", "u", TWO_ROWS).0 == r
            && RetrieveRealValuePro(b2, r.value.0, r.value.1) == Ok(("y", "v"))
  {
    hide *;
    var n := NatValue(TwoRows("x"));
    var k, l, rows := Pair("x", "u"), Pair("y", "v"), VirtualPair(n, n);
    TwoRowsAgree();
    TwoRowsHash("x");
    DifferentPairs();
    NotTheRows("x", "u", n, n);
    NotTheRows("y", "v", n, n);
    SharedRowsBreak(k, l, rows);
    var b1 := StoreIDPro(map[], "x", "u", TWO_ROWS).1;
    StoredPair(map[], "x", "u");
    StoredPair(b1, "y", "v");
    RowsLeadBack(b1, "y", "v", TWO_ROWS);
    FoundPair(StoreIDPro(b1, "y", "v", TWO_ROWS).1, "x", "u", n, n);
  }

  lemma DifferentPairs()
    ensures Pair("x", "u") != Pair("y", "v") && Pair("g", "u") != Pair("h", "u")
  {
    assert Pair("x", "u")[0] == 'x' && Pair("y", "v")[0] == 'y';
    assert Pair("g", "u")[0] == 'g' && Pair("h", "u")[0] == 'h';
  }

  lemma TwoRowsAgree()
    ensures TwoRows("x") == TwoRows("u") == TwoRows("y") == TwoRows("v") == TwoRows("h")
  {}

  /** The bucket of two pairs in two groups with a member of the same name. */
  function TwoGroups(k: string, rows1: string, l: string, rows2: string): Bucket {
    map[k := rows1, rows1 := k, l := rows2, rows2 := l]
  }

  lemma RenameOntoTaken(id: string, newID: string, sub: string, rows1: string, rows2: string)
    requires ':' !in id && ':' !in newID && id != newID
    requires ':' in rows1 && ':' in rows2 && rows1 != rows2
    requires !(id + ":" <= rows1) && !(id + ":" <= rows2) && !(newID + ":" <= rows1) && !(newID + ":" <= rows2)
    ensures var b := TwoGroups(Pair(id, sub), rows1, Pair(newID, sub), rows2);
            && PairsMatch(b) && CanRename(b, id, newID) && IsOrderOf([Pair(id, sub)], Members(b, id))
            && var (r, c) := UpdateKeysWithNewID(b, id, newID, [Pair(id, sub)]);
               r.Ok? && !PairsMatch(c)
  {
    var k, l := Pair(id, sub), Pair(newID, sub);
    var b := TwoGroups(k, rows1, l, rows2);
    assert id + ":" <= k && newID + ":" <= l;
    DifferentGroups(l, id, newID);
    assert NewKey(k, id, newID) == l;
    assert forall x :: x in Members(b, id) <==> x == k;
    OneMember(b, id, newID, k, rows1, l, rows2);
  }

  lemma OneMember(b: Bucket, id: string, newID: string, k: string, rows1: string, l: string, rows2: string)
    requires ':' in k && ':' in l && ':' in rows1 && ':' in rows2 && rows1 != rows2
    requires k != rows1 && k != rows2 && l != rows1 && l != rows2 && k != l && b == TwoGroups(k, rows1, l, rows2)
    requires id + ":" <= k && NewKey(k, id, newID) == l && forall x :: x in Members(b, id) <==> x == k
    ensures PairsMatch(b) && CanRename(b, id, newID) && IsOrderOf([k], Members(b, id))
    ensures var (r, c) := UpdateKeysWithNewID(b, id, newID, [k]);
            r.Ok? && !PairsMatch(c)
  {
    hide NewKey, Members, UpdateKeysWithNewID;
    var nu := NewKeys(b, id, newID);
    assert k in nu && nu[k] == l && nu.Values == {l};
    assert b[l] !in nu.Values && b[l] !in nu;
    RenameKeepsPairsExactly(b, id, newID, [k]);
  }

  /** Storing a pair in each of two groups and then renaming one group to the other: it succeeds, takes the
      name away from the pair that had it, and leaves the rows of that pair dangling. */
  lemma RenameOntoTakenName()
    ensures var b := StoreIDPro(StoreIDPro(map[], "g", "u", TWO_ROWS).1, "h", "u", TWO_ROWS).1;
            && PairsMatch(b) && CanRename(b, "g", "h") && IsOrderOf([Pair("g", "u")], Members(b, "g"))
            && var (r, c) := UpdateKeysWithNewID(b, "g", "h", [Pair("g", "u")]);
               r.Ok? && !PairsMatch(c)
  {
    hide *;
    var m, n := NatValue(TwoRows("g")), NatValue(TwoRows("h"));
    var k, l, rows1, rows2 := Pair("g", "u"), Pair("h", "u"), VirtualPair(m, n), VirtualPair(n, n);
    TwoRowsDiffer();
    TwoRowsAgree();
    if rows1 == rows2 {
      VirtualPairInjective(m, n, n, n);
    }
    RowsAreNoNames(m, n, "g");
    RowsAreNoNames(n, n, "g");
    RowsAreNoNames(m, n, "h");
    RowsAreNoNames(n, n, "h");
    RenameOntoTaken("g", "h", "u", rows1, rows2);
    NotTheRows("h", "u", m, n);
    DifferentPairs();
    var b1 := StoreIDPro(map[], "g", "u", TWO_ROWS).1;
    StoredPair(map[], "g", "u");
    StoredPair(b1, "h", "u");
    assert b1 == map[][k := rows1][rows1 := k];
    TwoStored(k, rows1, l, rows2);
  }

  lemma TwoStored(k: string, rows1: string, l: string, rows2: string)
    ensures (map[][k := rows1][rows1 := k])[l := rows2][rows2 := l] == TwoGroups(k, rows1, l, rows2)
  {}

  // ---------------------------------------------------------------- a renaming that depends on the order

  /** A hash that sends `3` to row 1, `u` to row 2 and every other id to row 3. */
  function ThreeRows(id: string): (hash: string)
    ensures Digits(hash)
  {
    if id == "3" then "000000001" else if id == "u" then "000000002" else "000000003"
  }

  const THREE_ROWS := Config(true, ThreeRows)

  lemma {:induction false} ZerosAreZero(s: string)
    requires forall i :: 0 <= i < |s| ==> s[i] == '0'
    ensures Digits(s) && NatValue(s) == 0
  {
    if s == "" {
    } else {
      ZerosAreZero(s[..|s| - 1]);
    }
  }

  lemma ThreeRowsHash(id: string, hashed: bool)
    ensures HashRow(id, 9, Config(hashed, ThreeRows)) == Ok(if id == "3" then 1 else if id == "u" then 2 else 3)
  {
    var hash := ThreeRows(id);
    NineDigits(hash);
    ZerosAreZero("00000000");
    assert hash[..8] == "00000000";
  }

  lemma SmallPairs()
    ensures VirtualPair(1, 2) == "1:2" && VirtualPair(1, 3) == "1:3"
    ensures Pair("3", "u") == "3:u" && Pair("3", "2") == "3:2"
  {
    assert Numeral(1) == "1" && Numeral(2) == "2" && Numeral(3) == "3";
  }

  lemma TwoMembers(b: Bucket, id: string, newID: string, k: string, l: string, rows: string, other: string)
    requires ':' in k && ':' in l && ':' in rows && ':' in other
    requires k != l && k != rows && k != other && l != rows && l != other && rows != other
    requires b == map[k := rows, rows := k, l := other, other := l]
    requires id + ":" <= k && id + ":" <= l && !(id + ":" <= rows) && !(id + ":" <= other)
    requires !(id + ":" <= NewKey(k, id, newID)) && NewKey(l, id, newID) == rows && Index(other, id) != -1
    ensures PairsMatch(b) && NewNames(b, id, newID) && RowsApart(b, id) && Mixed(b, id, newID, k, l)
  {
    hide NewKey, Index;
    TwoPairsMatch(b, k, l, rows, other);
    hide PairsMatch;
    assert b[k] == rows && b[l] == other;
    assert forall x :: x in Members(b, id) <==> x == k || x == l;
    hide Members;
  }

  lemma TwoPairsMatch(b: Bucket, k: string, l: string, rows: string, other: string)
    requires ':' in k && ':' in l && ':' in rows && ':' in other
    requires k != l && k != rows && k != other && l != rows && l != other && rows != other
    requires b == map[k := rows, rows := k, l := other, other := l]
    ensures PairsMatch(b)
  {
    assert b[k] == rows && b[rows] == k && b[l] == other && b[other] == l;
    forall x | x in b && ':' in x ensures ':' in b[x] && b[x] in b && b[b[x]] == x {
      assert x == k || x == rows || x == l || x == other;
    }
  }

  lemma TheseTwo()
    ensures "3" + ":" <= "3:u" && "3" + ":" <= "3:2" && !("3" + ":" <= "1:2") && !("3" + ":" <= "1:3")
    ensures NewKey("3:u", "3", "1") == "1:u" && !("3" + ":" <= "1:u")
    ensures NewKey("3:2", "3", "1") == "1:2" && Index("1:3", "3") != -1
  {
    assert "3" + ":" == "3:" && "3:"[0] == '3' && "1:2"[0] == '1' && "1:3"[0] == '1' && "1:u"[0] == '1';
    assert "3:" <= "3:u" && "3:" <= "3:2";
    assert "1" + ":u" == "1:u" && "1" + ":2" == "1:2";
    assert "3" <= "1:3"[2..];
  }

  /** From the empty bucket: two pairs are stored in the group of `3`, which is then renamed to `1`. The rows
      of the first pair are the new name of the second, so the order in which Go ranges over the two keys
      decides what that name leads to. */
  lemma RenameInTwoWays()
    ensures var b := StoreIDPro(StoreIDPro(map[], "3", "u", THREE_ROWS).1, "3", "2", THREE_ROWS).1;
            && b == map["3:u" := "1:2", "1:2" := "3:u", "3:2" := "1:3", "1:3" := "3:2"]
            && PairsMatch(b) && !SameInEveryOrder(b, "3", "1")
  {
    var b := map["3:u" := "1:2", "1:2" := "3:u", "3:2" := "1:3", "1:3" := "3:2"];
    StoredThree();
    TheseTwo();
    hide *;
    TwoMembers(b, "3", "1", "3:u", "3:2", "1:2", "1:3");
    MixedMatters(b, "3", "1", "3:u", "3:2");
  }

  lemma StoredThree()
    ensures StoreIDPro(StoreIDPro(map[], "3", "u", THREE_ROWS).1, "3", "2", THREE_ROWS).1
         == map["3:u" := "1:2", "1:2" := "3:u", "3:2" := "1:3", "1:3" := "3:2"]
  {
    SmallPairs();
    ThreeRowsHash("3", true);
    ThreeRowsHash("u", true);
    ThreeRowsHash("2", true);
    hide Pair, VirtualPair, HashRow;
    assert StoreIDPro(map[], "3", "u", THREE_ROWS).1 == map["3:u" := "1:2", "1:2" := "3:u"];
  }

  // ---------------------------------------------------------------- rows

  function NoHash(id: string): string {
    ""
  }

  const COUNTING := Config(false, NoHash)

  /** What storing a new id under the next row writes. */
  lemma CountedUp(b: Bucket, id: string)
    requires id !in b && id != COUNTER_KEY && id != RowKey(NextRow(b))
    ensures var (r, c) := StoreID(b, id, COUNTING);
            var n := NextRow(b);
            && r == Ok(n) && id in c && c[id] == RowBytes(n) && RowKey(n) in c && c[RowKey(n)] == id
            && (COUNTER_KEY != RowKey(n) ==> COUNTER_KEY in c && c[COUNTER_KEY] == RowBytes(n))
  {}

  /** With a counter: a user is stored, the user's row is rebound to the row after the counter, and the
      next user is stored there as well. Both have the row, which leads to the second user only. */
  lemma CounterRunsIntoRebound(u: string, v: string)
    requires ValidId(u) && ValidId(v) && u != v
    ensures var b1 := StoreID(map[], u, COUNTING).1;
            var (r2, b2) := UpdateVirtualValue(b1, 1, 2);
            var (r3, b3) := StoreID(b2, v, COUNTING);
            && Inverse(b2) && r2.Ok? && r3 == Ok(2)
            && !RowsAgree(b3) && StoreID(b3, u, COUNTING).0 == StoreID(b3, v, COUNTING).0 == Ok(2)
            && RetrieveRowByID(b3, Numeral(2)) == Ok(v)
  {
    var b1 := StoreID(map[], u, COUNTING).1;
    FirstUser(u);
    Rebound(u, b1);
    var b2 := UpdateVirtualValue(b1, 1, 2).1;
    RowRoundTrip(2);
    RowKeyKinds(2);
    hide RowBytes, RowOf, RowKey, Numeral, UpdateVirtualValue, Inverse;
    assert IsHolder(b2, u, 2);
    StoreIDAgrees(b2, v, COUNTING);
    CountedUp(b2, v);
    LookedUp(StoreID(b2, v, COUNTING).1, 2);
  }

  lemma LookedUp(b: Bucket, n: int)
    requires RowKey(n) in b
    ensures RetrieveRowByID(b, Numeral(n)) == Ok(b[RowKey(n)])
  {}

  lemma Rebound(u: string, b1: Bucket)
    requires ValidId(u) && Inverse(b1)
    requires b1 == map[COUNTER_KEY := RowBytes(1), u := RowBytes(1), RowKey(1) := u]
    ensures var (r, b2) := UpdateVirtualValue(b1, 1, 2);
            && r.Ok? && Inverse(b2) && RowsAgree(b2) && NextRow(b2) == 2
            && b2.Keys == {COUNTER_KEY, u, RowKey(2)} && b2[u] == RowBytes(2)
  {
    RebindInverse(b1, 1, 2);
    RowRoundTrip(1);
    RowKeyKinds(1);
    RowKeyKinds(2);
    if RowKey(1) == RowKey(2) {
      RowKeyInjective(1, 2);
    }
    hide RowBytes, RowOf, RowKey, Inverse, RowsAgree;
    ReboundMap(u, RowBytes(1), RowBytes(2), b1);
  }

  lemma ReboundMap(u: string, one: string, two: string, b1: Bucket)
    requires ValidId(u) && RowKey(1) != RowKey(2) && !ValidId(RowKey(1)) && !ValidId(RowKey(2))
    requires RowKey(1) != COUNTER_KEY && RowKey(2) != COUNTER_KEY && two == RowBytes(2) && RowOf(one) == 1
    requires b1 == map[COUNTER_KEY := one, u := one, RowKey(1) := u]
    ensures var (r, b2) := UpdateVirtualValue(b1, 1, 2);
            && r.Ok? && b2 == map[COUNTER_KEY := one, u := two, RowKey(2) := u] && NextRow(b2) == 2
  {
    hide RowBytes, RowOf, RowKey;
  }

  lemma FirstUser(u: string)
    requires ValidId(u)
    ensures var b := StoreID(map[], u, COUNTING).1;
            && Inverse(b) && b == map[COUNTER_KEY := RowBytes(1), u := RowBytes(1), RowKey(1) := u]
  {
    RowKeyKinds(1);
    CounterStoreInverse(map[], u, COUNTING);
  }

  // ---------------------------------------------------------------- ids that no caller should use

  /** The counter's own key, used as an id, has the row of whoever was stored last. */
  lemma CounterKeyAsId(b: Bucket, id: string)
    requires ValidId(id) && id !in b
    ensures var (r, c) := StoreID(b, id, COUNTING);
            StoreID(c, COUNTER_KEY, COUNTING) == (r, c)
  {
    RowKeyKinds(NextRow(b));
    RowRoundTrip(NextRow(b));
    hide RowBytes, RowOf, RowKey;
    CountedUp(b, id);
  }

  /** An id with a colon stored on its own is a pair without rows. */
  lemma ColonInId(id: string)
    requires ':' in id
    ensures !PairsMatch(StoreID(map[], id, COUNTING).1)
  {
    var c := StoreID(map[], id, COUNTING).1;
    RowKeyKinds(1);
    SmallBytes(1, 8);
    assert |RowKey(1)| == 5;
    assert c == map[COUNTER_KEY := RowBytes(1), id := RowBytes(1), RowKey(1) := id];
  }

  lemma {:induction false} SmallBytes(n: nat, k: nat)
    requires n < 50
    ensures ':' !in BigEndian(n, k)
  {
    if k == 0 {
    } else {
      SmallBytes(n / 256, k - 1);
    }
  }

  /** An id that looks like a reverse key is overwritten when its row comes up. */
  lemma RowKeyAsId(id: string)
    requires ValidId(id)
    ensures var b1 := StoreID(map[], RowKey(2), COUNTING).1;
            var b2 := StoreID(b1, id, COUNTING).1;
            RowKey(2) in b2 && b2[RowKey(2)] == id
  {
    RowKeyKinds(1);
    RowKeyKinds(2);
    if RowKey(1) == RowKey(2) {
      RowKeyInjective(1, 2);
    }
    RowRoundTrip(1);
    hide RowBytes, RowOf, RowKey, Numeral;
    CountedUp(map[], RowKey(2));
    var b1 := StoreID(map[], RowKey(2), COUNTING).1;
    assert NextRow(b1) == 2;
    assert id !in b1;
    CountedUp(b1, id);
  }

  // ---------------------------------------------------------------- half stores

  /** A row that a half store gave out is given out again once it has been rebound. */
  lemma HalfStoredTwice(id: string, cfg: Config, n: int, other: int)
    requires ValidId(id) && HashRow(id, 9, cfg) == Ok(n) && IsInt64(other) && other != n
    ensures var (r1, b1) := SimplifiedStoreID(map[], id, cfg);
            var (r2, b2) := UpdateVirtualValue(b1, n, other);
            r1 == Ok(n) && r2.Ok? && SimplifiedStoreID(b2, id, cfg).0 == Ok(n)
  {
    RowKeyKinds(n);
    if RowKey(n) == RowKey(other) {
      RowKeyInjective(n, other);
    }
  }

  lemma HalfStoredSecond(cfg: Config)
    requires cfg == Config(false, ThreeRows)
    ensures SimplifiedStoreID(map[], "u", cfg) == (Ok(2), map[RowKey(2) := "u"])
    ensures Counter(map[RowKey(2) := "u"]) == 0
  {
    ThreeRowsHash("u", false);
    RowKeyKinds(2);
    hide RowKey;
  }

  lemma StoredKeys(b: Bucket, id: string, cfg: Config)
    requires !cfg.hashed && id !in b
    ensures StoreID(b, id, cfg).1.Keys == b.Keys + {COUNTER_KEY, id, RowKey(NextRow(b))}
  {
    hide RowKey, RowBytes;
  }

  /** With a counter: a half store gives out row 2, which leads to its id until the second user is stored;
      nobody has rebound it. */
  lemma HalfStoredRowIsTaken(v: string, w: string)
    requires ValidId(v) && ValidId(w) && v != w
    ensures var cfg := Config(false, ThreeRows);
            var ops := [StoreHalf("u"), Store(v), Store(w)];
            && ValidRun(map[], ops, cfg) && NeverRebound(ops, 2)
            && var b := Apply(map[], StoreHalf("u"), cfg);
               && RetrieveRowByID(b, Numeral(2)) == Ok("u")
               && RetrieveRowByID(Run(map[], ops, cfg), Numeral(2)) == Ok(w)
  {
    var cfg := Config(false, ThreeRows);
    var b1 := Apply(map[], StoreHalf("u"), cfg);
    HalfStoredSecond(cfg);
    StepInv(map[], StoreHalf("u"), cfg);
    assert ValidId("u") && NeverRebound([StoreHalf("u"), Store(v), Store(w)], 2);
    hide *;
    TwoUsersMore(b1, cfg, v, w);
    var b2 := Apply(b1, Store(v), cfg);
    OneOp(b2, Store(w), [], cfg);
    OneOp(b1, Store(v), [Store(w)], cfg);
    OneOp(map[], StoreHalf("u"), [Store(v), Store(w)], cfg);
    LookedUp(b1, 2);
    LookedUp(Apply(b2, Store(w), cfg), 2);
  }

  lemma TwoUsersMore(b: Bucket, cfg: Config, v: string, w: string)
    requires Inv(b, cfg) && !cfg.hashed && b == map[RowKey(2) := "u"] && Counter(b) == 0
    requires ValidId(v) && ValidId(w) && v != w
    ensures Allowed(b, Store(v), cfg) && Allowed(Apply(b, Store(v), cfg), Store(w), cfg)
    ensures var c := Apply(Apply(b, Store(v), cfg), Store(w), cfg); RowKey(2) in c && c[RowKey(2)] == w
  {
    RowKeyKinds(1);
    RowKeyKinds(2);
    StoredKeys(b, v, cfg);
    StoreFresh(b, cfg, v, 2);
    hide RowKey, Inv, Counter;
    StoreFresh(Apply(b, Store(v), cfg), cfg, w, 2);
  }
}
