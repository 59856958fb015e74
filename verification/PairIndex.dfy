/** The paired keys of the id store: what the pair transactions keep, the renaming of a whole group, and
    the listing of a group's members (`idmap/service.go`). */
module PairIndex {
  import opened Strings
  import opened RowKeys
  import opened IdMap

  // ---------------------------------------------------------------- storing and rebinding a pair

  /** A new pair keeps the index its own inverse exactly when its hashed rows are not yet the rows of
      another pair (a pair that is its own pair of rows can be overwritten without harm). */
  lemma StoreIDProExact(b: Bucket, id: string, subid: string, cfg: Config)
    requires PairsMatch(b) && Pair(id, subid) !in b && StoreIDPro(b, id, subid, cfg).0.Ok?
    ensures var (r, c) := StoreIDPro(b, id, subid, cfg);
            var rows := VirtualPair(r.value.0, r.value.1);
            PairsMatch(c) <==> rows !in b || b[rows] == rows
  {
    hide Pair, VirtualPair;
    var (r, c) := StoreIDPro(b, id, subid, cfg);
    var forward, rows := Pair(id, subid), VirtualPair(r.value.0, r.value.1);
    if rows in b && b[rows] != rows {
      var other := b[rows];
      assert other in c && c[other] == rows && c[rows] == forward;
    }
  }

  lemma StoreIDProRows(b: Bucket, id: string, subid: string, cfg: Config)
    ensures SameRows(b, StoreIDPro(b, id, subid, cfg).1)
  {
    hide Pair, VirtualPair;
  }

  lemma UpdateVirtualValueProKeeps(b: Bucket, old1: int, new1: int, old2: int, new2: int)
    requires PairsMatch(b)
    ensures var c := UpdateVirtualValuePro(b, old1, new1, old2, new2).1;
            PairsMatch(c) && SameRows(b, c)
  {
    hide VirtualPair;
  }

  /** The rows of a new pair lead back to it, each row to its own half. */
  lemma RowsLeadBack(b: Bucket, id: string, subid: string, cfg: Config)
    requires Pair(id, subid) !in b && StoreIDPro(b, id, subid, cfg).0.Ok? && ':' !in id && ':' !in subid
    ensures var (r, c) := StoreIDPro(b, id, subid, cfg);
            && HashRow(id, 9, cfg) == Ok(r.value.0) && HashRow(subid, 9, cfg) == Ok(r.value.1)
            && RetrieveRealValuePro(c, r.value.0, r.value.1) == Ok((id, subid))
  {
    SplitAtColon(id, subid);
  }

  /** A stored pair is found again with the same rows and without another write. */
  lemma StoreIDProFindsAgain(b: Bucket, id: string, subid: string, cfg: Config)
    requires PairsMatch(b) && StoreIDPro(b, id, subid, cfg).0.Ok? && Pair(id, subid) !in b
    ensures var (r, c) := StoreIDPro(b, id, subid, cfg);
            StoreIDPro(c, id, subid, cfg) == (r, c)
  {
    var (r, c) := StoreIDPro(b, id, subid, cfg);
    ScanVirtualPair(r.value.0, r.value.1);
    if VirtualPair(r.value.0, r.value.1) == Pair(id, subid) {
      assert c[Pair(id, subid)] == VirtualPair(r.value.0, r.value.1);
    }
  }

  /** A pair whose rows were rebound is found with the new ones. */
  lemma ReboundPairIsFound(
      b: Bucket, id: string, subid: string, cfg: Config, old1: int, new1: int, old2: int, new2: int)
    requires PairsMatch(b) && Pair(id, subid) in b && b[Pair(id, subid)] == VirtualPair(old1, old2)
    requires IsInt64(new1) && IsInt64(new2) && VirtualPair(new1, new2) !in b
    ensures var (r, c) := UpdateVirtualValuePro(b, old1, new1, old2, new2);
            && r.Ok?
            && StoreIDPro(c, id, subid, cfg) == (Ok((new1, new2)), c)
  {
    hide Pair, VirtualPair;
    assert b[VirtualPair(old1, old2)] == Pair(id, subid);
    ScanVirtualPair(new1, new2);
  }

  // ---------------------------------------------------------------- renaming a group

  function NewKey(k: string, id: string, newID: string): (r: string)
    requires id + ":" <= k
    ensures newID + ":" <= r
  {
    assert k == id + ":" + k[|id| + 1..];
    newID + k[|id|..]
  }

  lemma NewKeyInjective(k: string, l: string, id: string, newID: string)
    requires id + ":" <= k && id + ":" <= l && NewKey(k, id, newID) == NewKey(l, id, newID)
    ensures k == l
  {
    assert NewKey(k, id, newID)[|newID|..] == k[|id|..];
    assert NewKey(l, id, newID)[|newID|..] == l[|id|..];
    assert k == id + k[|id|..] && l == id + l[|id|..];
  }

  lemma ReplaceIsNewKey(k: string, id: string, newID: string)
    requires id + ":" <= k
    ensures ReplaceFirst(k, id, newID) == NewKey(k, id, newID)
  {
    assert id <= k;
  }

  /** The new key of every key of the group. */
  function NewKeys(b: Bucket, id: string, newID: string): (nu: map<string, string>)
    ensures nu.Keys == Members(b, id).Keys && nu.Keys <= b.Keys
  {
    map k | k in Members(b, id) :: NewKey(k, id, newID)
  }

  /** No new name is taken. */
  ghost predicate NoClash(b: Bucket, id: string, newID: string) {
    forall k :: k in Members(b, id) ==> NewKey(k, id, newID) !in b
  }

  /** Every new name is another one, and if it is the name of a member, that member is its own rows. */
  ghost predicate NewNames(b: Bucket, id: string, newID: string) {
    forall k :: k in Members(b, id) ==>
      var name := NewKey(k, id, newID);
      name != k && (name in Members(b, id) ==> b[name] == name)
  }

  /** No member's rows are the name of another member. */
  ghost predicate RowsApart(b: Bucket, id: string) {
    forall k :: k in Members(b, id) && b[k] in Members(b, id) ==> b[k] == k
  }

  /** The rows of `k` are the new name of `l`, whose own rows mention the old id. Both turns write under that
      name: the one the rows of `l`, the other what it reads there with the id replaced. */
  ghost predicate Mixed(b: Bucket, id: string, newID: string, k: string, l: string) {
    && k in Members(b, id) && l in Members(b, id) && k != l
    && b[k] == NewKey(l, id, newID) && Index(b[l], id) != -1
  }

  ghost predicate Unmixed(b: Bucket, id: string, newID: string) {
    forall k, l :: !Mixed(b, id, newID, k, l)
  }

  /** What a renaming `nu` of some keys needs: distinct names, other than the old ones, and neither names nor
      partners that are renamed, unless such a key is its own partner. */
  ghost predicate Renaming(b: Bucket, nu: map<string, string>) {
    && (forall k :: k in nu ==>
          && k in b && ':' in k && b[k] in b && b[b[k]] == k
          && ':' in nu[k] && nu[k] != k
          && (nu[k] in nu ==> nu[k] in b && b[nu[k]] == nu[k]) && (b[k] in nu ==> b[k] == k))
    && (forall k, l :: k in nu && l in nu && nu[k] == nu[l] ==> k == l)
  }

  ghost predicate CanRename(b: Bucket, id: string, newID: string) {
    NewNames(b, id, newID) && RowsApart(b, id) && Unmixed(b, id, newID)
  }

  lemma NewKeysRename(b: Bucket, id: string, newID: string)
    requires PairsMatch(b) && NewNames(b, id, newID) && RowsApart(b, id)
    ensures Renaming(b, NewKeys(b, id, newID))
  {
    var nu := NewKeys(b, id, newID);
    forall k | k in nu ensures ':' in k && ':' in nu[k] {
      assert k[|id|] == ':' && nu[k][|newID|] == ':';
    }
    forall k, l | k in nu && l in nu && nu[k] == nu[l] ensures k == l {
      NewKeyInjective(k, l, id, newID);
    }
  }

  /** Two ids without a colon give different names, and rows of other groups are none of them. */
  lemma OrdinaryIds(b: Bucket, id: string, newID: string)
    requires ':' !in id && ':' !in newID && id != newID
    ensures NewNames(b, id, newID)
    ensures (forall k :: k in Members(b, id) ==> !(newID + ":" <= b[k])) ==> Unmixed(b, id, newID)
  {
    forall k | k in Members(b, id) ensures !(id + ":" <= NewKey(k, id, newID)) {
      DifferentGroups(NewKey(k, id, newID), id, newID);
    }
  }

  lemma DifferentGroups(k: string, id: string, newID: string)
    requires ':' !in id && ':' !in newID && id != newID && newID + ":" <= k
    ensures !(id + ":" <= k)
  {
    GroupOf(k, newID);
    if id + ":" <= k {
      GroupOf(k, id);
    }
  }

  lemma GroupOf(k: string, id: string)
    requires ':' !in id && id + ":" <= k
    ensures Split(k)[0] == id
  {
    SplitAtColon(id, k[|id| + 1..]);
    assert k == id + ":" + k[|id| + 1..];
  }

  /** Free names are no rows of anybody, and none is taken. */
  lemma FreeNames(b: Bucket, id: string, newID: string)
    requires PairsMatch(b) && NoClash(b, id, newID)
    ensures NewNames(b, id, newID) && Unmixed(b, id, newID)
    ensures KeepsPairs(b, NewKeys(b, id, newID))
  {
    forall k | k in Members(b, id) ensures b[k] in b {
      assert k[|id|] == ':';
    }
  }

  // ---------------------------------------------------------------- the renamed bucket

  ghost function Image(nu: map<string, string>, d: set<string>): set<string>
    requires d <= nu.Keys
  {
    set k | k in d :: nu[k]
  }

  /** The keys that go when those in `d` are renamed: a key that is its own partner is put back. */
  ghost function Gone(b: Bucket, d: set<string>): set<string>
    requires d <= b.Keys
  {
    set k | k in d && b[k] != k
  }

  ghost predicate KeysRenamed(b: Bucket, c: Bucket, d: set<string>, nu: map<string, string>)
    requires d <= nu.Keys && d <= b.Keys
  {
    c.Keys == (b.Keys - Gone(b, d)) + Image(nu, d)
  }

  ghost predicate NamesLead(b: Bucket, c: Bucket, d: set<string>, nu: map<string, string>)
    requires d <= nu.Keys && d <= b.Keys
  {
    forall k :: k in d ==> nu[k] in c && c[nu[k]] == b[k]
  }

  ghost predicate OthersFollow(b: Bucket, c: Bucket, d: set<string>, nu: map<string, string>)
    requires d <= nu.Keys && d <= b.Keys
  {
    forall k :: k in b && k !in Gone(b, d) && k !in Image(nu, d) ==>
      k in c && c[k] == if ':' in k && b[k] in d then nu[b[k]] else b[k]
  }

  /** `c` is `b` with the keys in `d` renamed, both as keys and as the values of their partners. */
  ghost predicate IsRenamed(b: Bucket, c: Bucket, d: set<string>, nu: map<string, string>)
    requires d <= nu.Keys
  {
    d <= b.Keys && KeysRenamed(b, c, d, nu) && NamesLead(b, c, d, nu) && OthersFollow(b, c, d, nu)
  }

  lemma RenamedUnique(b: Bucket, c1: Bucket, c2: Bucket, d: set<string>, nu: map<string, string>)
    requires d <= nu.Keys && IsRenamed(b, c1, d, nu) && IsRenamed(b, c2, d, nu)
    ensures c1 == c2
  {
    forall x | x in c1 ensures c1[x] == c2[x] {
      if x in Image(nu, d) {
        var k :| k in d && nu[k] == x;
      }
    }
  }

  /** What one turn writes. */
  function Turn(c: Bucket, key: string, name: string, rows: string, back: string): Bucket {
    (c - {key})[name := rows][rows := back]
  }

  lemma MoveKeys(b: Bucket, c: Bucket, d: set<string>, nu: map<string, string>, x: string, back: string)
    requires Renaming(b, nu) && d <= nu.Keys && d <= b.Keys && x in nu && x !in d
    requires KeysRenamed(b, c, d, nu)
    ensures Image(nu, d + {x}) == Image(nu, d) + {nu[x]}
    ensures Gone(b, d + {x}) == if b[x] == x then Gone(b, d) else Gone(b, d) + {x}
    ensures nu[x] !in Image(nu, d) && b[x] in c
    ensures KeysRenamed(b, Turn(c, x, nu[x], b[x], back), d + {x}, nu)
  {
    assert Image(nu, d + {x}) == Image(nu, d) + {nu[x]};
    assert Gone(b, d + {x}) == if b[x] == x then Gone(b, d) else Gone(b, d) + {x};
    assert nu[x] !in Gone(b, d + {x});
    assert b[x] in b && b[x] !in Gone(b, d + {x});
  }

  /** What the turn of `x` writes back under its rows: the new name, except that it leaves alone what an
      earlier turn has put there as a name. */
  ghost predicate WritesBack(
      b: Bucket, c: Bucket, d: set<string>, nu: map<string, string>, x: string, back: string)
    requires d <= nu.Keys && x in nu && x in b
  {
    b[x] in c && back == if b[x] in Image(nu, d) then c[b[x]] else nu[x]
  }

  lemma MoveNames(b: Bucket, c: Bucket, d: set<string>, nu: map<string, string>, x: string, back: string)
    requires Renaming(b, nu) && d <= nu.Keys && d <= b.Keys && x in nu && x !in d
    requires NamesLead(b, c, d, nu) && WritesBack(b, c, d, nu, x, back)
    ensures NamesLead(b, Turn(c, x, nu[x], b[x], back), d + {x}, nu)
  {
    var c' := Turn(c, x, nu[x], b[x], back);
    forall k | k in d + {x} ensures nu[k] in c' && c'[nu[k]] == b[k] {
      if k == x {
        assert nu[x] !in Image(nu, d);
      } else {
        assert nu[k] in Image(nu, d) && (nu[k] == x ==> b[x] == x);
      }
    }
  }

  lemma MoveOther(
      b: Bucket, c: Bucket, d: set<string>, nu: map<string, string>, x: string, back: string, k: string)
    requires PairsMatch(b) && x in nu && x in b && ':' in x && d <= nu.Keys
    requires k in b && (k == x ==> b[x] == x) && k != nu[x] && (k == b[x] ==> back == nu[x])
    requires k in c && c[k] == if ':' in k && b[k] in d then nu[b[k]] else b[k]
    ensures k in Turn(c, x, nu[x], b[x], back)
    ensures Turn(c, x, nu[x], b[x], back)[k] == if ':' in k && b[k] in d + {x} then nu[b[k]] else b[k]
  {
    assert ':' in k ==> b[b[k]] == k;
    assert b[b[x]] == x;
  }

  lemma MoveOthers(b: Bucket, c: Bucket, d: set<string>, nu: map<string, string>, x: string, back: string)
    requires PairsMatch(b) && Renaming(b, nu) && d <= nu.Keys && d <= b.Keys && x in nu && x !in d
    requires Image(nu, d + {x}) == Image(nu, d) + {nu[x]}
    requires Gone(b, d + {x}) == if b[x] == x then Gone(b, d) else Gone(b, d) + {x}
    requires OthersFollow(b, c, d, nu) && WritesBack(b, c, d, nu, x, back)
    ensures OthersFollow(b, Turn(c, x, nu[x], b[x], back), d + {x}, nu)
  {
    assert x in b && ':' in x;
    var c' := Turn(c, x, nu[x], b[x], back);
    hide Renaming, Image, Gone, PairsMatch, Turn;
    forall k | k in b && k !in Gone(b, d + {x}) && k !in Image(nu, d + {x})
      ensures k in c' && c'[k] == if ':' in k && b[k] in d + {x} then nu[b[k]] else b[k]
    {
      MoveOther(b, c, d, nu, x, back, k);
    }
  }

  /** Moving one more key keeps the picture. */
  lemma MoveOne(b: Bucket, c: Bucket, d: set<string>, nu: map<string, string>, x: string, back: string)
    requires PairsMatch(b) && Renaming(b, nu) && d <= nu.Keys && IsRenamed(b, c, d, nu)
    requires x in nu && x !in d && x in b && WritesBack(b, c, d, nu, x, back)
    ensures IsRenamed(b, Turn(c, x, nu[x], b[x], back), d + {x}, nu)
  {
    MoveKeys(b, c, d, nu, x, back);
    hide Renaming, Image, Gone, PairsMatch, Turn, KeysRenamed, NamesLead, WritesBack;
    MoveNames(b, c, d, nu, x, back);
    MoveOthers(b, c, d, nu, x, back);
  }

  lemma ReplaceNothing(s: string, id: string, newID: string)
    ensures Index(s, id) == -1 ==> ReplaceFirst(s, id, newID) == s
    ensures Index(s, id) != -1 && id != newID ==> ReplaceFirst(s, id, newID) != s
  {
    var i := Index(s, id);
    if i != -1 && ReplaceFirst(s, id, newID) == s {
      var t := s[..i] + newID + s[i + |id|..];
      assert |newID| == |id| && t[i..i + |id|] == newID;
      assert s[i..][..|id|] == s[i..i + |id|] == id;
    }
  }

  /** What the turn of `x` finds under its rows: still `x`, or the rows of the member whose name they are. */
  lemma TurnWritesBack(b: Bucket, c: Bucket, d: set<string>, x: string, id: string, newID: string)
    requires PairsMatch(b) && CanRename(b, id, newID)
    requires x in Members(b, id) && x !in d && d <= Members(b, id).Keys
    requires IsRenamed(b, c, d, NewKeys(b, id, newID))
    ensures x in b && b[x] in c
    ensures WritesBack(b, c, d, NewKeys(b, id, newID), x, ReplaceFirst(c[b[x]], id, newID))
  {
    var nu := NewKeys(b, id, newID);
    NewKeysRename(b, id, newID);
    assert b[x] in b && b[b[x]] == x && b[x] !in Gone(b, d);
    hide PairsMatch, Renaming;
    if b[x] in Image(nu, d) {
      var l :| l in d && nu[l] == b[x];
      assert NewKey(l, id, newID) == b[x] && l != x && !Mixed(b, id, newID, x, l);
      ReplaceNothing(b[l], id, newID);
    } else {
      ReplaceIsNewKey(x, id, newID);
    }
  }

  lemma RenameStep(b: Bucket, c: Bucket, d: set<string>, x: string, id: string, newID: string)
    requires PairsMatch(b) && CanRename(b, id, newID)
    requires x in Members(b, id) && x !in d && d <= Members(b, id).Keys
    requires IsRenamed(b, c, d, NewKeys(b, id, newID))
    ensures var r := RenameOne(c, x, b[x], id, newID);
            r.Some? && IsRenamed(b, r.value, d + {x}, NewKeys(b, id, newID))
  {
    TurnWritesBack(b, c, d, x, id, newID);
    NewKeysRename(b, id, newID);
    ReplaceIsNewKey(x, id, newID);
    hide CanRename, IsRenamed, Renaming, PairsMatch, WritesBack, ReplaceFirst;
    MoveOne(b, c, d, NewKeys(b, id, newID), x, ReplaceFirst(c[b[x]], id, newID));
  }

  lemma {:induction false} LoopRenames(
      b: Bucket, c: Bucket, d: set<string>, order: seq<string>, id: string, newID: string)
    requires PairsMatch(b) && CanRename(b, id, newID)
    requires d <= Members(b, id).Keys && IsRenamed(b, c, d, NewKeys(b, id, newID))
    requires forall k :: k in order ==> k in Members(b, id) && k !in d
    requires forall i, j :: 0 <= i < j < |order| ==> order[i] != order[j]
    ensures var r := RenameLoop(c, order, Members(b, id), id, newID);
            r.Some? && IsRenamed(b, r.value, d + Elems(order), NewKeys(b, id, newID))
    decreases |order|
  {
    hide *;
    var todo := Members(b, id);
    if order == [] {
      NoTurn(c, d, todo, id, newID);
    } else {
      var x := order[0];
      LoopTurn(c, order, todo, id, newID);
      MemberValue(b, id, x);
      OrderTail(order, d);
      RenameStep(b, c, d, x, id, newID);
      LoopRenames(b, RenameOne(c, x, todo[x], id, newID).value, d + {x}, order[1..], id, newID);
    }
  }

  lemma MemberValue(b: Bucket, id: string, k: string)
    requires k in Members(b, id)
    ensures k in b && Members(b, id)[k] == b[k]
  {}

  lemma NoTurn(c: Bucket, d: set<string>, todo: map<string, string>, id: string, newID: string)
    ensures RenameLoop(c, [], todo, id, newID) == Some(c) && d + Elems([]) == d
  {}

  lemma LoopTurn(c: Bucket, order: seq<string>, todo: map<string, string>, id: string, newID: string)
    requires order != [] && forall k :: k in order ==> k in todo
    ensures order[0] in todo && forall k :: k in order[1..] ==> k in todo
    ensures var r := RenameOne(c, order[0], todo[order[0]], id, newID);
            r.Some? ==> RenameLoop(c, order, todo, id, newID) == RenameLoop(r.value, order[1..], todo, id, newID)
  {
    assert order[0] in order;
  }

  lemma {:induction false} LoopExtends(
      b: Bucket, order: seq<string>, key: string, todo: map<string, string>, id: string, newID: string)
    requires key in todo && forall k :: k in order ==> k in todo
    requires RenameLoop(b, order, todo, id, newID).Some?
    ensures var tx := RenameLoop(b, order, todo, id, newID).value;
            RenameLoop(b, order + [key], todo, id, newID) == RenameOne(tx, key, todo[key], id, newID)
    decreases |order|
  {
    if order == [] {
      assert ([] + [key])[1..] == [];
    } else {
      assert order[0] in order;
      var c := RenameOne(b, order[0], todo[order[0]], id, newID).value;
      assert (order + [key])[1..] == order[1..] + [key];
      LoopExtends(c, order[1..], key, todo, id, newID);
    }
  }

  /** Some order of a set of keys. */
  ghost function AnyOrder(ks: set<string>): (s: seq<string>)
    ensures forall k :: k in s <==> k in ks
    ensures forall i, j :: 0 <= i < j < |s| ==> s[i] != s[j]
  {
    if ks == {} then []
    else
      var k :| k in ks;
      [k] + AnyOrder(ks - {k})
  }

  lemma OrderTail(order: seq<string>, d: set<string>)
    requires order != [] && (forall k :: k in order ==> k !in d)
    requires forall i, j :: 0 <= i < j < |order| ==> order[i] != order[j]
    ensures forall k :: k in order[1..] ==> k in order && k !in d + {order[0]}
    ensures d + {order[0]} + Elems(order[1..]) == d + Elems(order)
  {
    assert order == [order[0]] + order[1..];
  }

  lemma RenameInOrder(b: Bucket, id: string, newID: string, order: seq<string>)
    requires PairsMatch(b) && CanRename(b, id, newID) && IsOrderOf(order, Members(b, id))
    ensures var (r, c) := UpdateKeysWithNewID(b, id, newID, order);
            r == Ok(()) && IsRenamed(b, c, Members(b, id).Keys, NewKeys(b, id, newID))
  {
    NothingRenamed(b, NewKeys(b, id, newID));
    hide IsRenamed, CanRename, PairsMatch;
    LoopRenames(b, b, {}, order, id, newID);
    assert {} + Elems(order) == Members(b, id).Keys;
  }

  lemma NothingRenamed(b: Bucket, nu: map<string, string>)
    ensures IsRenamed(b, b, {}, nu) && KeysRenamed(b, b, {}, nu)
  {
    assert Image(nu, {}) == {} && Gone(b, {}) == {};
  }

  /** Under these conditions the renaming succeeds, and gives the same bucket in every order in which Go
      may range over the collected keys: the group's keys renamed, in both directions. */
  lemma RenameAnyOrder(b: Bucket, id: string, newID: string, order: seq<string>)
    requires PairsMatch(b) && CanRename(b, id, newID) && IsOrderOf(order, Members(b, id))
    ensures var (r, c) := UpdateKeysWithNewID(b, id, newID, order);
            && r.Ok?
            && IsRenamed(b, c, Members(b, id).Keys, NewKeys(b, id, newID))
            && forall other :: IsOrderOf(other, Members(b, id)) ==> UpdateKeysWithNewID(b, id, newID, other) == (r, c)
  {
    RenameInOrder(b, id, newID, order);
    var (r, c) := UpdateKeysWithNewID(b, id, newID, order);
    forall other | IsOrderOf(other, Members(b, id)) ensures UpdateKeysWithNewID(b, id, newID, other) == (r, c) {
      RenameInOrder(b, id, newID, other);
      RenamedUnique(b, c, UpdateKeysWithNewID(b, id, newID, other).1, Members(b, id).Keys, NewKeys(b, id, newID));
    }
  }

  // ---------------------------------------------------------------- what a renaming breaks

  /** A new name that is taken is taken by a pair whose other half is overwritten or renamed as well, and
      rows that are a new name are paired with it crosswise. */
  ghost predicate KeepsPairs(b: Bucket, nu: map<string, string>)
    requires nu.Keys <= b.Keys
  {
    && (forall k :: k in nu && nu[k] in b ==> b[nu[k]] in nu.Values || b[nu[k]] in nu)
    && (forall k, l :: k in nu && l in nu && b[k] == nu[l] ==> b[l] == nu[k])
  }

  lemma RenamedRowsStay(b: Bucket, c: Bucket, nu: map<string, string>)
    requires PairsMatch(b) && Renaming(b, nu) && IsRenamed(b, c, nu.Keys, nu)
    ensures SameRows(b, c)
  {
    forall z | ':' !in z ensures SameAt(b, c, z) {
      assert z !in Image(nu, nu.Keys) && z !in Gone(b, nu.Keys);
    }
  }

  lemma KeptPairs(b: Bucket, c: Bucket, nu: map<string, string>)
    requires PairsMatch(b) && Renaming(b, nu) && IsRenamed(b, c, nu.Keys, nu) && KeepsPairs(b, nu)
    ensures PairsMatch(c)
  {
    forall z | z in c && ':' in z ensures ':' in c[z] && c[z] in c && c[c[z]] == z {
      KeptPair(b, c, nu, z);
    }
  }

  lemma KeptPair(b: Bucket, c: Bucket, nu: map<string, string>, z: string)
    requires PairsMatch(b) && Renaming(b, nu) && IsRenamed(b, c, nu.Keys, nu) && KeepsPairs(b, nu)
    requires z in c && ':' in z
    ensures ':' in c[z] && c[z] in c && c[c[z]] == z
  {
    if z in Image(nu, nu.Keys) {
      var k :| k in nu && nu[k] == z;
      assert c[z] == b[k] && b[b[k]] == k && b[k] !in Gone(b, nu.Keys);
      if b[k] in Image(nu, nu.Keys) {
        var l :| l in nu && nu[l] == b[k];
      }
    } else if b[z] in nu {
      assert b[b[z]] == z && nu[b[z]] in Image(nu, nu.Keys);
    } else {
      assert b[b[z]] == z && c[z] == b[z] && z !in nu;
      assert b[z] !in Image(nu, nu.Keys) && b[z] !in Gone(b, nu.Keys);
    }
  }

  lemma TakenAloneBreaks(b: Bucket, c: Bucket, nu: map<string, string>, k: string)
    requires PairsMatch(b) && Renaming(b, nu) && IsRenamed(b, c, nu.Keys, nu)
    requires k in nu && nu[k] in b && b[nu[k]] !in nu.Values && b[nu[k]] !in nu
    ensures !PairsMatch(c)
  {
    var name := nu[k];
    var other := b[name];
    assert ':' in name && ':' in other && b[other] == name;
    assert other !in Gone(b, nu.Keys) && other !in Image(nu, nu.Keys);
    assert other in c && c[other] == name && c[name] == b[k];
    assert b[k] != other;
  }

  lemma UncrossedBreaks(b: Bucket, c: Bucket, nu: map<string, string>, k: string, l: string)
    requires PairsMatch(b) && Renaming(b, nu) && IsRenamed(b, c, nu.Keys, nu)
    requires k in nu && l in nu && b[k] == nu[l] && b[l] != nu[k]
    ensures !PairsMatch(c)
  {
    assert ':' in nu[k] && nu[k] in c && c[nu[k]] == nu[l] && c[nu[l]] == b[l];
  }

  lemma RenamedPairsExactly(b: Bucket, c: Bucket, nu: map<string, string>)
    requires PairsMatch(b) && Renaming(b, nu) && IsRenamed(b, c, nu.Keys, nu)
    ensures SameRows(b, c) && (PairsMatch(c) <==> KeepsPairs(b, nu))
  {
    RenamedRowsStay(b, c, nu);
    hide PairsMatch, Renaming, IsRenamed;
    if KeepsPairs(b, nu) {
      KeptPairs(b, c, nu);
    } else if k :| k in nu && nu[k] in b && b[nu[k]] !in nu.Values && b[nu[k]] !in nu {
      TakenAloneBreaks(b, c, nu, k);
    } else {
      var k, l :| k in nu && l in nu && b[k] == nu[l] && b[l] != nu[k];
      UncrossedBreaks(b, c, nu, k, l);
    }
  }

  /** A renaming keeps the pair index its own inverse exactly when no new name is taken away from a pair
      that stays; ids and rows are untouched in any case. */
  lemma RenameKeepsPairsExactly(b: Bucket, id: string, newID: string, order: seq<string>)
    requires PairsMatch(b) && CanRename(b, id, newID) && IsOrderOf(order, Members(b, id))
    ensures var (r, c) := UpdateKeysWithNewID(b, id, newID, order);
            && r.Ok? && SameRows(b, c)
            && (PairsMatch(c) <==> KeepsPairs(b, NewKeys(b, id, newID)))
  {
    var c := UpdateKeysWithNewID(b, id, newID, order).1;
    RenameInOrder(b, id, newID, order);
    NewKeysRename(b, id, newID);
    hide *;
    RenamedPairsExactly(b, c, NewKeys(b, id, newID));
  }

  // ---------------------------------------------------------------- when a renaming succeeds

  /** A key that is gone and that no remaining turn puts back makes the turn of its partner fail. */
  lemma {:induction false} MissingPartnerFails(
      b: Bucket, c: Bucket, order: seq<string>, p: string, q: string, id: string, newID: string)
    requires PairsMatch(b) && NewNames(b, id, newID)
    requires forall k :: k in order ==> k in Members(b, id)
    requires q in order && p in Members(b, id) && b[q] == p && p != q && p !in c
    ensures RenameLoop(c, order, Members(b, id), id, newID).None?
    decreases |order|
  {
    var r := order[0];
    assert r in order;
    if r != q && RenameOne(c, r, b[r], id, newID).Some? {
      var next := RenameOne(c, r, b[r], id, newID).value;
      OtherTurnKeepsMissing(b, c, r, p, q, id, newID);
      assert order == [r] + order[1..];
      hide PairsMatch, NewNames, RenameOne;
      MissingPartnerFails(b, next, order[1..], p, q, id, newID);
    }
  }

  lemma OtherTurnKeepsMissing(b: Bucket, c: Bucket, r: string, p: string, q: string, id: string, newID: string)
    requires PairsMatch(b) && NewNames(b, id, newID)
    requires r in Members(b, id) && q in Members(b, id) && r != q
    requires p in Members(b, id) && b[q] == p && p != q && p !in c && RenameOne(c, r, b[r], id, newID).Some?
    ensures p !in RenameOne(c, r, b[r], id, newID).value
  {
    assert ':' in r && ':' in q by { assert r[|id|] == ':' && q[|id|] == ':'; }
    ReplaceIsNewKey(r, id, newID);
    assert b[b[r]] == r && b[b[q]] == q;
  }

  lemma {:induction false} MemberPartnerFails(
      b: Bucket, c: Bucket, order: seq<string>, x: string, id: string, newID: string)
    requires PairsMatch(b) && NewNames(b, id, newID)
    requires forall k :: k in order ==> k in Members(b, id)
    requires x in order && x in b && b[x] in order && b[x] != x
    ensures RenameLoop(c, order, Members(b, id), id, newID).None?
    decreases |order|
  {
    var r, y := order[0], b[x];
    assert r in order;
    assert order == [r] + order[1..];
    assert b[y] == x by { assert x[|id|] == ':'; }
    if RenameOne(c, r, b[r], id, newID).Some? {
      var next := RenameOne(c, r, b[r], id, newID).value;
      ReplaceIsNewKey(r, id, newID);
      if r == x || r == y {
        MissingPartnerFails(b, next, order[1..], r, b[r], id, newID);
      } else {
        MemberPartnerFails(b, next, order[1..], x, id, newID);
      }
    }
  }

  lemma KeysStep(b: Bucket, c: Bucket, d: set<string>, x: string, id: string, newID: string)
    requires PairsMatch(b) && NewNames(b, id, newID) && RowsApart(b, id)
    requires x in Members(b, id) && x !in d && d <= Members(b, id).Keys
    requires KeysRenamed(b, c, d, NewKeys(b, id, newID))
    ensures var r := RenameOne(c, x, b[x], id, newID);
            r.Some? && KeysRenamed(b, r.value, d + {x}, NewKeys(b, id, newID))
  {
    NewKeysRename(b, id, newID);
    ReplaceIsNewKey(x, id, newID);
    var nu := NewKeys(b, id, newID);
    assert nu[x] == NewKey(x, id, newID);
    hide Renaming, PairsMatch, KeysRenamed, ReplaceFirst;
    MoveKeys(b, c, d, nu, x, "");
    MoveKeys(b, c, d, nu, x, ReplaceFirst(c[b[x]], id, newID));
  }

  /** Whatever the values, every turn finds its rows, and the keys are those of the renamed group. */
  lemma {:induction false} LoopKeys(
      b: Bucket, c: Bucket, d: set<string>, order: seq<string>, id: string, newID: string)
    requires PairsMatch(b) && NewNames(b, id, newID) && RowsApart(b, id)
    requires d <= Members(b, id).Keys && KeysRenamed(b, c, d, NewKeys(b, id, newID))
    requires forall k :: k in order ==> k in Members(b, id) && k !in d
    requires forall i, j :: 0 <= i < j < |order| ==> order[i] != order[j]
    ensures d + Elems(order) <= Members(b, id).Keys
    ensures var r := RenameLoop(c, order, Members(b, id), id, newID);
            r.Some? && KeysRenamed(b, r.value, d + Elems(order), NewKeys(b, id, newID))
    decreases |order|
  {
    OrderWithin(order, d, Members(b, id).Keys);
    hide *;
    var todo := Members(b, id);
    if order == [] {
      NoTurn(c, d, todo, id, newID);
    } else {
      var x := order[0];
      LoopTurn(c, order, todo, id, newID);
      MemberValue(b, id, x);
      OrderTail(order, d);
      KeysStep(b, c, d, x, id, newID);
      LoopKeys(b, RenameOne(c, x, todo[x], id, newID).value, d + {x}, order[1..], id, newID);
    }
  }

  lemma OrderWithin(order: seq<string>, d: set<string>, ks: set<string>)
    requires d <= ks && forall k :: k in order ==> k in ks
    ensures d + Elems(order) <= ks
  {}

  /** Renaming to new names succeeds and renames exactly the group's keys, in every order. */
  lemma RenamedKeys(b: Bucket, id: string, newID: string, order: seq<string>)
    requires PairsMatch(b) && NewNames(b, id, newID) && RowsApart(b, id) && IsOrderOf(order, Members(b, id))
    ensures var (r, c) := UpdateKeysWithNewID(b, id, newID, order);
            r == Ok(()) && KeysRenamed(b, c, Members(b, id).Keys, NewKeys(b, id, newID))
  {
    NothingRenamed(b, NewKeys(b, id, newID));
    assert {} + Elems(order) == Members(b, id).Keys;
    hide KeysRenamed, NewNames, RowsApart, PairsMatch;
    LoopKeys(b, b, {}, order, id, newID);
  }

  /** Given names that are new to the group, taken or not, the renaming succeeds exactly when no member's
      rows are another member, whatever the order; when it fails, part way through the loop, the bucket is
      as it was. */
  lemma RenameSucceedsExactly(b: Bucket, id: string, newID: string, order: seq<string>)
    requires PairsMatch(b) && NewNames(b, id, newID) && IsOrderOf(order, Members(b, id))
    ensures UpdateKeysWithNewID(b, id, newID, order).0.Ok? <==> RowsApart(b, id)
    ensures UpdateKeysWithNewID(b, id, newID, order).0.Err? ==> UpdateKeysWithNewID(b, id, newID, order).1 == b
  {
    if RowsApart(b, id) {
      RenamedKeys(b, id, newID, order);
    } else {
      var x :| x in Members(b, id) && b[x] in Members(b, id) && b[x] != x;
      MemberPartnerFails(b, b, order, x, id, newID);
    }
  }

  /** Renaming a group to itself changes nothing. */
  lemma RenameToItself(b: Bucket, id: string, order: seq<string>)
    requires PairsMatch(b) && IsOrderOf(order, Members(b, id))
    ensures UpdateKeysWithNewID(b, id, id, order) == (Ok(()), b)
  {
    LoopStays(b, order, id);
  }

  lemma {:induction false} LoopStays(b: Bucket, order: seq<string>, id: string)
    requires PairsMatch(b) && forall k :: k in order ==> k in Members(b, id)
    ensures RenameLoop(b, order, Members(b, id), id, id) == Some(b)
    decreases |order|
  {
    if order == [] {
    } else {
      var x := order[0];
      assert x in order;
      assert b[x] in b && b[b[x]] == x by { assert x[|id|] == ':'; }
      ReplaceIsNewKey(x, id, id);
      assert NewKey(x, id, id) == x;
      assert (b - {x})[x := b[x]][b[x] := x] == b;
      LoopTurn(b, order, Members(b, id), id, id);
      hide PairsMatch, NewKey, ReplaceFirst, RenameLoop;
      LoopStays(b, order[1..], id);
    }
  }

  // ---------------------------------------------------------------- listing a group

  /** What filtering all keys, in their order, leaves of a group's members. */
  function SubKeys(keys: seq<string>, id: string): seq<string> {
    if keys == [] then []
    else (if id + ":" <= keys[0] && |Split(keys[0])| == 2 then [Split(keys[0])[1]] else []) + SubKeys(keys[1..], id)
  }

  /** `FindSubKeysById` when the bucket's keys come in this order. */
  ghost function Listing(b: Bucket, id: string): seq<string> {
    SubKeys(Sorted(b.Keys), id)
  }

  ghost predicate IsMember(keys: set<string>, id: string, s: string) {
    ':' !in s && Pair(id, s) in keys
  }

  lemma MemberSplit(id: string, k: string)
    requires ':' !in id && id + ":" <= k
    ensures var s := k[|id| + 1..];
            k == Pair(id, s) && (|Split(k)| == 2 <==> ':' !in s) && (|Split(k)| == 2 ==> Split(k)[1] == s)
  {
    SplitAtColon(id, k[|id| + 1..]);
    assert k == id + ":" + k[|id| + 1..];
  }

  /** A listing has exactly the members, each once, in order. */
  lemma {:induction false} SubKeysExact(keys: seq<string>, id: string)
    requires StrictlySorted(keys) && ':' !in id
    ensures StrictlySorted(SubKeys(keys, id))
    ensures forall s :: s in SubKeys(keys, id) <==> IsMember(Elems(keys), id, s)
  {
    if keys == [] {
    } else {
      var k, rest := keys[0], SubKeys(keys[1..], id);
      TailElems(keys);
      SubKeysExact(keys[1..], id);
      forall s ensures s in SubKeys(keys, id) <==> IsMember(Elems(keys), id, s) {
        assert Pair(id, s)[|id| + 1..] == s;
        if id + ":" <= k {
          MemberSplit(id, k);
        }
      }
      if id + ":" <= k && |Split(k)| == 2 {
        MemberSplit(id, k);
        var s := Split(k)[1];
        forall j | 0 <= j < |rest| ensures Less(s, rest[j]) {
          assert rest[j] in rest;
          assert Pair(id, rest[j]) in Elems(keys[1..]);
          var i :| 1 <= i < |keys| && keys[i] == Pair(id, rest[j]);
          LessUnderPrefix(id + ":", s, rest[j]);
        }
      }
    }
  }

  /** The members of the new group after a renaming are those of both groups before it. */
  lemma RenameMergesMembers(b: Bucket, c: Bucket, id: string, newID: string, s: string)
    requires KeysRenamed(b, c, Members(b, id).Keys, NewKeys(b, id, newID))
    requires ':' !in id && ':' !in newID && id != newID
    ensures IsMember(c.Keys, newID, s) <==> IsMember(b.Keys, id, s) || IsMember(b.Keys, newID, s)
  {
    var nu := NewKeys(b, id, newID);
    var k, l := Pair(id, s), Pair(newID, s);
    assert id + ":" <= k && newID + ":" <= l && NewKey(k, id, newID) == l;
    DifferentGroups(l, id, newID);
    if l in Image(nu, nu.Keys) {
      var m :| m in nu && nu[m] == l;
      NewKeyInjective(m, k, id, newID);
    }
    assert k in b ==> nu[k] == l;
  }

  /** After a renaming the new group lists what both groups listed, in order. */
  lemma RenameMergesListings(b: Bucket, id: string, newID: string, order: seq<string>)
    requires PairsMatch(b) && RowsApart(b, id) && ':' !in id && ':' !in newID
    requires IsOrderOf(order, Members(b, id))
    ensures Listing(UpdateKeysWithNewID(b, id, newID, order).1, newID)
         == Sorted(Elems(Listing(b, id)) + Elems(Listing(b, newID)))
  {
    hide *;
    var c := UpdateKeysWithNewID(b, id, newID, order).1;
    ListedExactly(b, id);
    ListedExactly(b, newID);
    ListedExactly(c, newID);
    if id == newID {
      RenameToItself(b, id, order);
    } else {
      OrdinaryIds(b, id, newID);
      RenamedKeys(b, id, newID, order);
      forall s ensures IsMember(c.Keys, newID, s) <==> IsMember(b.Keys, id, s) || IsMember(b.Keys, newID, s) {
        RenameMergesMembers(b, c, id, newID, s);
      }
    }
    var both := Elems(Listing(b, id)) + Elems(Listing(b, newID));
    assert Elems(Listing(c, newID)) == both;
    SortedUnique(Listing(c, newID), Sorted(both));
  }

  lemma ListedExactly(b: Bucket, id: string)
    requires ':' !in id
    ensures StrictlySorted(Listing(b, id))
    ensures forall s :: s in Elems(Listing(b, id)) <==> IsMember(b.Keys, id, s)
  {
    SubKeysExact(Sorted(b.Keys), id);
  }

  /** A listing is in byte-wise order: earlier entries are prefixes of later ones or lower where they differ. */
  lemma ListedInOrder(b: Bucket, id: string, i: nat, j: nat)
    requires ':' !in id && i < j < |Listing(b, id)|
    ensures exists k: nat :: FirstLower(Listing(b, id)[i], Listing(b, id)[j], k)
  {
    ListedExactly(b, id);
    LessExactly(Listing(b, id)[i], Listing(b, id)[j]);
  }

  /** In particular, a new group that was empty lists exactly as the old one did. */
  lemma RenameKeepsListing(b: Bucket, id: string, newID: string, order: seq<string>)
    requires PairsMatch(b) && RowsApart(b, id) && ':' !in id && ':' !in newID
    requires IsOrderOf(order, Members(b, id)) && Listing(b, newID) == []
    ensures Listing(UpdateKeysWithNewID(b, id, newID, order).1, newID) == Listing(b, id)
  {
    RenameMergesListings(b, id, newID, order);
    ListedExactly(b, id);
    assert Elems(Listing(b, id)) + Elems([]) == Elems(Listing(b, id));
    SortedUnique(Listing(b, id), Sorted(Elems(Listing(b, id))));
  }
}
