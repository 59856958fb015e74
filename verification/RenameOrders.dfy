/** When the bulk renaming of `idmap/service.go` depends on the order in which Go ranges over the collected
    keys, and when it keeps the pair index whatever that order is. */
module RenameOrders {
  import opened Strings
  import opened RowKeys
  import opened IdMap
  import opened PairIndex

  ghost predicate SameInEveryOrder(b: Bucket, id: string, newID: string) {
    forall one, other :: IsOrderOf(one, Members(b, id)) && IsOrderOf(other, Members(b, id)) ==>
      UpdateKeysWithNewID(b, id, newID, one) == UpdateKeysWithNewID(b, id, newID, other)
  }

  ghost predicate KeepsPairsInEveryOrder(b: Bucket, id: string, newID: string) {
    forall order :: IsOrderOf(order, Members(b, id)) ==> PairsMatch(UpdateKeysWithNewID(b, id, newID, order).1)
  }

  ghost predicate SucceedsInEveryOrder(b: Bucket, id: string, newID: string) {
    forall order :: IsOrderOf(order, Members(b, id)) ==> UpdateKeysWithNewID(b, id, newID, order).0.Ok?
  }

  // ---------------------------------------------------------------- success

  /** As long as every turn finds its rows, the loop goes through; only members other than their own rows
      ever leave the bucket. */
  lemma {:induction false} LoopSucceeds(
      b: Bucket, c: Bucket, order: seq<string>, id: string, newID: string)
    requires PairsMatch(b) && RowsApart(b, id)
    requires forall k :: k in order ==> k in Members(b, id)
    requires forall i, j :: 0 <= i < j < |order| ==> order[i] != order[j]
    requires forall k :: k in b && (k !in Members(b, id) || b[k] == k) ==> k in c
    ensures RenameLoop(c, order, Members(b, id), id, newID).Some?
    decreases |order|
  {
    if order == [] {
    } else {
      var x := order[0];
      assert x in order;
      assert b[x] in b && b[b[x]] == x by { assert x[|id|] == ':'; }
      var next := RenameOne(c, x, b[x], id, newID).value;
      assert order == [x] + order[1..];
      hide ReplaceFirst, PairsMatch;
      LoopSucceeds(b, next, order[1..], id, newID);
    }
  }

  lemma ApartSucceeds(b: Bucket, id: string, newID: string, order: seq<string>)
    requires PairsMatch(b) && RowsApart(b, id) && IsOrderOf(order, Members(b, id))
    ensures UpdateKeysWithNewID(b, id, newID, order).0 == Ok(())
  {
    LoopSucceeds(b, b, order, id, newID);
  }

  // ---------------------------------------------------------------- the last two turns

  /** The members other than two, in some order. */
  ghost function Rest(b: Bucket, id: string, k: string, l: string): (rest: seq<string>)
    requires k in Members(b, id) && l in Members(b, id) && k != l
    ensures IsOrderOf(rest + [k, l], Members(b, id)) && IsOrderOf(rest + [l, k], Members(b, id))
  {
    var rest := AnyOrder(Members(b, id).Keys - {k, l});
    LastTwo(Members(b, id), k, l, rest);
    LastTwo(Members(b, id), l, k, rest);
    rest
  }

  lemma LastTwo(ks: map<string, string>, x: string, y: string, rest: seq<string>)
    requires x in ks && y in ks && x != y
    requires forall m :: m in rest <==> m in ks && m != x && m != y
    requires forall i, j :: 0 <= i < j < |rest| ==> rest[i] != rest[j]
    ensures IsOrderOf(rest + [x, y], ks)
  {
    var order := rest + [x, y];
    forall i, j | 0 <= i < j < |order| ensures order[i] != order[j] {
      assert i < |rest| ==> order[i] in rest;
    }
  }

  /** What the turns of `rest` leave. */
  ghost function After(b: Bucket, id: string, newID: string, rest: seq<string>): Bucket
    requires forall k :: k in rest ==> k in Members(b, id)
  {
    var r := RenameLoop(b, rest, Members(b, id), id, newID);
    if r.Some? then r.value else b
  }

  /** A renaming is what its last two turns make of the bucket that the others left. */
  lemma TwoMoreTurns(b: Bucket, id: string, newID: string, rest: seq<string>, x: string, y: string)
    requires PairsMatch(b) && RowsApart(b, id) && IsOrderOf(rest + [x, y], Members(b, id))
    ensures x in b && y in b && forall k :: k in rest ==> k in Members(b, id)
    ensures var r := RenameOne(After(b, id, newID, rest), x, b[x], id, newID);
            && r.Some?
            && RenameOne(r.value, y, b[y], id, newID)
               == Some(UpdateKeysWithNewID(b, id, newID, rest + [x, y]).1)
  {
    var todo := Members(b, id);
    ApartSucceeds(b, id, newID, rest + [x, y]);
    assert forall k :: k in rest + [x, y] <==> k in rest || k == x || k == y;
    PrefixSucceeds(b, todo, rest, [x, y], id, newID);
    assert rest + [x, y] == (rest + [x]) + [y];
    PrefixSucceeds(b, todo, rest + [x], [y], id, newID);
    LoopExtends(b, rest, x, todo, id, newID);
    LoopExtends(b, rest + [x], y, todo, id, newID);
  }

  lemma {:induction false} PrefixSucceeds(
      b: Bucket, todo: map<string, string>, order: seq<string>, rest: seq<string>, id: string, newID: string)
    requires (forall k :: k in order + rest ==> k in todo) && (forall k :: k in order ==> k in todo)
    requires RenameLoop(b, order + rest, todo, id, newID).Some?
    ensures RenameLoop(b, order, todo, id, newID).Some?
    decreases |order|
  {
    if order == [] {
    } else {
      assert order[0] in order;
      assert (order + rest)[1..] == order[1..] + rest;
      var c := RenameOne(b, order[0], todo[order[0]], id, newID).value;
      PrefixSucceeds(c, todo, order[1..], rest, id, newID);
    }
  }

  lemma MixedNames(b: Bucket, id: string, newID: string, k: string, l: string)
    requires PairsMatch(b) && NewNames(b, id, newID) && RowsApart(b, id) && Mixed(b, id, newID, k, l)
    ensures k in b && l in b && b[k] != b[l] && b[k] != l && id + ":" <= k
    ensures var name := NewKey(k, id, newID);
            ':' in name && name != b[k] && (name == l ==> b[l] == name) && ReplaceFirst(k, id, newID) == name
    ensures ReplaceFirst(l, id, newID) == b[k] && ReplaceFirst(b[l], id, newID) != b[l]
  {
    assert k[|id|] == ':' && l[|id|] == ':' && NewKey(k, id, newID)[|newID|] == ':';
    assert b[b[k]] == k && b[b[l]] == l;
    ReplaceIsNewKey(k, id, newID);
    ReplaceIsNewKey(l, id, newID);
    if NewKey(k, id, newID) == NewKey(l, id, newID) {
      NewKeyInjective(k, l, id, newID);
    }
    ReplaceNothing(b[l], id, newID);
    SameName(k, id);
  }

  lemma SameName(k: string, id: string)
    requires id + ":" <= k
    ensures NewKey(k, id, id) == k
  {}

  lemma OneTurn(c: Bucket, key: string, rows: string, id: string, newID: string)
    requires RenameOne(c, key, rows, id, newID).Some?
    ensures rows in c
    ensures RenameOne(c, key, rows, id, newID).value
         == Turn(c, key, ReplaceFirst(key, id, newID), rows, ReplaceFirst(c[rows], id, newID))
  {}

  /** Two turns that meet under the name `z`: `z` is the rows of the one and the new name of the other. */
  lemma MeetingTurns(c: Bucket, key: string, name: string, z: string, back: string)
    ensures z in Turn(c, key, name, z, back) && Turn(c, key, name, z, back)[z] == back
    ensures name != z ==> name in Turn(c, key, name, z, back) && Turn(c, key, name, z, back)[name] == z
  {}

  lemma LaterTurn(c: Bucket, key: string, name: string, rows: string, back: string, x: string)
    requires x in c && x != key && x != name && x != rows
    ensures x in Turn(c, key, name, rows, back) && Turn(c, key, name, rows, back)[x] == c[x]
  {}

  /** The turn of `k` and then that of `l`: what is under the name on which they meet, the rows of `k`, and
      under the new name of `k`. */
  lemma LeadsToRows(b: Bucket, id: string, newID: string, k: string, l: string, rest: seq<string>)
    requires PairsMatch(b) && NewNames(b, id, newID) && RowsApart(b, id) && Mixed(b, id, newID, k, l)
    requires IsOrderOf(rest + [k, l], Members(b, id))
    ensures k in b && l in b
    ensures var d, name := UpdateKeysWithNewID(b, id, newID, rest + [k, l]).1, NewKey(k, id, newID);
            b[k] in d && d[b[k]] == b[l] && (b[l] != name ==> name in d && d[name] == b[k])
  {
    hide *;
    MixedNames(b, id, newID, k, l);
    var name, z, y := NewKey(k, id, newID), b[k], b[l];
    TwoMoreTurns(b, id, newID, rest, k, l);
    var c := After(b, id, newID, rest);
    OneTurn(c, k, z, id, newID);
    MeetingTurns(c, k, name, z, ReplaceFirst(c[z], id, newID));
    var c1 := RenameOne(c, k, z, id, newID).value;
    OneTurn(c1, l, y, id, newID);
    MeetingTurns(c1, l, z, y, ReplaceFirst(c1[y], id, newID));
    if y != name {
      LaterTurn(c1, l, z, y, ReplaceFirst(c1[y], id, newID), name);
    }
  }

  /** The turn of `l` and then that of `k`. */
  lemma LeadsToReplaced(b: Bucket, id: string, newID: string, k: string, l: string, rest: seq<string>)
    requires PairsMatch(b) && NewNames(b, id, newID) && RowsApart(b, id) && Mixed(b, id, newID, k, l)
    requires IsOrderOf(rest + [l, k], Members(b, id))
    ensures k in b && l in b
    ensures var d, name := UpdateKeysWithNewID(b, id, newID, rest + [l, k]).1, NewKey(k, id, newID);
            b[k] in d && d[b[k]] == ReplaceFirst(b[l], id, newID) && name in d && d[name] == b[k]
  {
    hide *;
    MixedNames(b, id, newID, k, l);
    var name, z, y := NewKey(k, id, newID), b[k], b[l];
    TwoMoreTurns(b, id, newID, rest, l, k);
    var c := After(b, id, newID, rest);
    OneTurn(c, l, y, id, newID);
    MeetingTurns(c, l, z, y, ReplaceFirst(c[y], id, newID));
    var c1 := RenameOne(c, l, y, id, newID).value;
    assert c1[z] == y;
    OneTurn(c1, k, z, id, newID);
    MeetingTurns(c1, k, name, z, ReplaceFirst(y, id, newID));
  }

  lemma Broken(d: Bucket, name: string)
    requires ':' in name && name in d && d[name] in d && d[d[name]] != name
    ensures !PairsMatch(d)
  {}

  lemma OrdersDiffer(b: Bucket, id: string, newID: string, one: seq<string>, other: seq<string>)
    requires IsOrderOf(one, Members(b, id)) && IsOrderOf(other, Members(b, id))
    ensures SameInEveryOrder(b, id, newID) ==>
              UpdateKeysWithNewID(b, id, newID, one) == UpdateKeysWithNewID(b, id, newID, other)
    ensures KeepsPairsInEveryOrder(b, id, newID) ==>
              && PairsMatch(UpdateKeysWithNewID(b, id, newID, one).1)
              && PairsMatch(UpdateKeysWithNewID(b, id, newID, other).1)
  {}

  /** Whichever of the two turns comes last decides; and in one of the two orders the index is broken. */
  lemma MixedMatters(b: Bucket, id: string, newID: string, k: string, l: string)
    requires PairsMatch(b) && NewNames(b, id, newID) && RowsApart(b, id) && Mixed(b, id, newID, k, l)
    ensures !SameInEveryOrder(b, id, newID) && !KeepsPairsInEveryOrder(b, id, newID)
  {
    assert k in Members(b, id) && l in Members(b, id) && k != l;
    hide *;
    MixedNames(b, id, newID, k, l);
    var rest := Rest(b, id, k, l);
    LeadsToRows(b, id, newID, k, l, rest);
    LeadsToReplaced(b, id, newID, k, l, rest);
    OrdersDiffer(b, id, newID, rest + [k, l], rest + [l, k]);
    var d1 := UpdateKeysWithNewID(b, id, newID, rest + [k, l]).1;
    var d2 := UpdateKeysWithNewID(b, id, newID, rest + [l, k]).1;
    var name := NewKey(k, id, newID);
    if b[l] != name {
      Broken(d1, name);
    } else {
      Broken(d2, name);
    }
  }

  // ---------------------------------------------------------------- a new name that is a member

  lemma OtherName(k: string, id: string, newID: string)
    requires id + ":" <= k
    ensures NewKey(k, id, newID) == k <==> id == newID
  {
    SameName(k, id);
    assert k == id + k[|id|..];
    if NewKey(k, id, newID) == k {
      assert |newID| == |id| && k[..|id|] == id && NewKey(k, id, newID)[..|newID|] == newID;
    }
  }

  /** The turns of `k` and of the member `l` that has the new name of `k`, in either order: `y` and `z` are
      the rows of `k` and `l`, `name` is the new name of `l`, and the rest is what the turns read. */
  lemma ClashTurns(
      c: Bucket, k: string, l: string, y: string, name: string, z: string,
      first: string, second: string, early: string, late: string)
    requires k != l && y != l && y != z && z != l && z != k && name != l
    ensures var d1 := Turn(Turn(c, k, l, y, first), l, name, z, second);
            && l !in d1 && z in d1 && d1[z] == second
            && y in d1 && d1[y] == if name == y then z else first
    ensures var d2 := Turn(Turn(c, l, name, z, early), k, l, y, late);
            && l in d2 && d2[l] == y && y in d2 && d2[y] == late && z in d2 && d2[z] == early
  {}

  ghost predicate Clash(b: Bucket, id: string, newID: string, k: string, l: string) {
    && id != newID && k in Members(b, id) && l in Members(b, id)
    && NewKey(k, id, newID) == l && b[l] != l
  }

  lemma ClashNames(b: Bucket, id: string, newID: string, k: string, l: string)
    requires PairsMatch(b) && RowsApart(b, id) && Clash(b, id, newID, k, l)
    ensures k in b && l in b && k != l && b[k] != l && b[k] != b[l] && b[l] != l && b[l] != k
    ensures ':' in l && ':' in b[k] && ':' in b[l]
    ensures id + ":" <= l && NewKey(l, id, newID) != l
    ensures ReplaceFirst(k, id, newID) == l && ReplaceFirst(l, id, newID) == NewKey(l, id, newID)
  {
    assert k[|id|] == ':' && l[|id|] == ':';
    assert b[b[k]] == k && b[b[l]] == l;
    OtherName(k, id, newID);
    OtherName(l, id, newID);
    ReplaceIsNewKey(k, id, newID);
    ReplaceIsNewKey(l, id, newID);
  }

  /** What the two orders leave of the two pairs, `x` being what `y` led to and `x'` what `z` led to before. */
  lemma ClashEnds(b: Bucket, id: string, newID: string, k: string, l: string, rest: seq<string>)
    returns (w: string, back: string, late: string)
    requires PairsMatch(b) && RowsApart(b, id) && Clash(b, id, newID, k, l)
    requires IsOrderOf(rest + [k, l], Members(b, id)) && IsOrderOf(rest + [l, k], Members(b, id))
    ensures k in b && l in b
    ensures var d1, y, z := UpdateKeysWithNewID(b, id, newID, rest + [k, l]).1, b[k], b[l];
            && l !in d1 && z in d1 && d1[z] == back
            && y in d1 && d1[y] == if NewKey(l, id, newID) == y then z else w
    ensures var d2, y, z := UpdateKeysWithNewID(b, id, newID, rest + [l, k]).1, b[k], b[l];
            && l in d2 && d2[l] == y && y in d2 && d2[y] == late && z in d2 && d2[z] == back
    ensures NewKey(l, id, newID) != b[k] ==> late == w
  {
    hide *;
    ClashNames(b, id, newID, k, l);
    var y, z, name := b[k], b[l], NewKey(l, id, newID);
    TwoMoreTurns(b, id, newID, rest, k, l);
    TwoMoreTurns(b, id, newID, rest, l, k);
    var c := After(b, id, newID, rest);
    OneTurn(c, k, y, id, newID);
    var c1 := RenameOne(c, k, y, id, newID).value;
    OneTurn(c1, l, z, id, newID);
    OneTurn(c, l, z, id, newID);
    var c2 := RenameOne(c, l, z, id, newID).value;
    OneTurn(c2, k, y, id, newID);
    w, back, late := ReplaceFirst(c[y], id, newID), ReplaceFirst(c[z], id, newID), ReplaceFirst(c2[y], id, newID);
    LaterTurn(c, k, l, y, w, z);
    assert c1[z] == c[z];
    if name != y {
      LaterTurn(c, l, name, z, back, y);
    }
    ClashTurns(c, k, l, y, name, z, w, back, back, late);
  }

  lemma ClashMatters(b: Bucket, id: string, newID: string, k: string, l: string)
    requires PairsMatch(b) && RowsApart(b, id) && Clash(b, id, newID, k, l)
    ensures !SameInEveryOrder(b, id, newID) && !KeepsPairsInEveryOrder(b, id, newID)
  {
    assert k in Members(b, id) && l in Members(b, id);
    hide *;
    ClashNames(b, id, newID, k, l);
    var rest := Rest(b, id, k, l);
    var w, back, late := ClashEnds(b, id, newID, k, l, rest);
    OrdersDiffer(b, id, newID, rest + [k, l], rest + [l, k]);
    var d1 := UpdateKeysWithNewID(b, id, newID, rest + [k, l]).1;
    var d2 := UpdateKeysWithNewID(b, id, newID, rest + [l, k]).1;
    OneIsBroken(d1, d2, l, b[k], b[l], NewKey(l, id, newID) == b[k], w, back, late);
  }

  /** Either `y` leads to `l`, which the first order has lost, or the second order has two keys for `y`. */
  lemma OneIsBroken(
      d1: Bucket, d2: Bucket, l: string, y: string, z: string, meet: bool, w: string, back: string, late: string)
    requires ':' in l && ':' in y && ':' in z && l != z && y != l
    requires l !in d1 && z in d1 && d1[z] == back && y in d1 && d1[y] == if meet then z else w
    requires l in d2 && d2[l] == y && y in d2 && d2[y] == late && z in d2 && d2[z] == back
    requires !meet ==> late == w
    ensures !(PairsMatch(d1) && PairsMatch(d2))
  {
    PairAt(d2, l);
    PairAt(d2, y);
    PairAt(d2, z);
    PairAt(d1, y);
    PairAt(d1, z);
    hide PairsMatch;
  }

  lemma PairAt(d: Bucket, k: string)
    requires ':' in k && k in d
    ensures PairsMatch(d) ==> d[k] in d && d[d[k]] == k
  {}

  /** A new name that is a member's, other than its own rows, is a clash. */
  lemma FindClash(b: Bucket, id: string, newID: string) returns (k: string, l: string)
    requires id != newID && !NewNames(b, id, newID)
    ensures Clash(b, id, newID, k, l)
  {
    k :| k in Members(b, id) && var name := NewKey(k, id, newID);
                                name == k || (name in Members(b, id) && b[name] != name);
    OtherName(k, id, newID);
    l := NewKey(k, id, newID);
  }

  // ---------------------------------------------------------------- the exact conditions

  /** When no member is another one's rows, the renaming gives one bucket in every order exactly when it is to
      the same id, or every new name is new to the group (or the name of a member that is its own rows) and no
      member's rows are the new name of another member whose rows mention the old id. */
  lemma OrderMattersExactly(b: Bucket, id: string, newID: string)
    requires PairsMatch(b) && RowsApart(b, id)
    ensures SameInEveryOrder(b, id, newID)
            <==> id == newID || (NewNames(b, id, newID) && Unmixed(b, id, newID))
  {
    if id == newID {
      SameIdIsSafe(b, id);
    } else if !NewNames(b, id, newID) {
      var k, l := FindClash(b, id, newID);
      ClashMatters(b, id, newID, k, l);
    } else if Unmixed(b, id, newID) {
      forall one, other | IsOrderOf(one, Members(b, id)) && IsOrderOf(other, Members(b, id))
        ensures UpdateKeysWithNewID(b, id, newID, one) == UpdateKeysWithNewID(b, id, newID, other)
      {
        RenameAnyOrder(b, id, newID, one);
      }
    } else {
      var k, l :| Mixed(b, id, newID, k, l);
      MixedMatters(b, id, newID, k, l);
    }
  }

  lemma SameIdIsSafe(b: Bucket, id: string)
    requires PairsMatch(b)
    ensures SameInEveryOrder(b, id, id) && KeepsPairsInEveryOrder(b, id, id) && SucceedsInEveryOrder(b, id, id)
  {
    forall order | IsOrderOf(order, Members(b, id)) ensures UpdateKeysWithNewID(b, id, id, order) == (Ok(()), b) {
      RenameToItself(b, id, order);
    }
  }

  /** And it keeps the pair index its own inverse, whatever the order, exactly when besides it takes no name
      away from a pair that stays. */
  lemma KeepsPairsExactly(b: Bucket, id: string, newID: string)
    requires PairsMatch(b) && RowsApart(b, id)
    ensures KeepsPairsInEveryOrder(b, id, newID)
            <==> id == newID
                 || (NewNames(b, id, newID) && Unmixed(b, id, newID) && KeepsPairs(b, NewKeys(b, id, newID)))
  {
    if id == newID {
      SameIdIsSafe(b, id);
    } else if !NewNames(b, id, newID) {
      var k, l := FindClash(b, id, newID);
      ClashMatters(b, id, newID, k, l);
    } else if Unmixed(b, id, newID) {
      forall order | IsOrderOf(order, Members(b, id))
        ensures PairsMatch(UpdateKeysWithNewID(b, id, newID, order).1) <==> KeepsPairs(b, NewKeys(b, id, newID))
      {
        RenameKeepsPairsExactly(b, id, newID, order);
      }
      assert IsOrderOf(AnyOrder(Members(b, id).Keys), Members(b, id));
    } else {
      var k, l :| Mixed(b, id, newID, k, l);
      MixedMatters(b, id, newID, k, l);
    }
  }

  /** It succeeds, whatever the order, exactly when it is to the same id or no member is another one's rows. */
  lemma SucceedsExactly(b: Bucket, id: string, newID: string)
    requires PairsMatch(b)
    ensures SucceedsInEveryOrder(b, id, newID) <==> id == newID || RowsApart(b, id)
  {
    if id == newID {
      SameIdIsSafe(b, id);
    } else if RowsApart(b, id) {
      forall order | IsOrderOf(order, Members(b, id)) ensures UpdateKeysWithNewID(b, id, newID, order).0.Ok? {
        ApartSucceeds(b, id, newID, order);
      }
    } else {
      var x :| x in Members(b, id) && b[x] in Members(b, id) && b[x] != x;
      PartnerFails(b, id, newID, x);
    }
  }

  /** The turn of a member right after that of its partner finds it gone. */
  lemma PartnerFails(b: Bucket, id: string, newID: string, x: string)
    requires PairsMatch(b) && id != newID
    requires x in Members(b, id) && b[x] in Members(b, id) && b[x] != x
    ensures !SucceedsInEveryOrder(b, id, newID)
  {
    assert x[|id|] == ':' && b[b[x]] == x;
    var todo, y := Members(b, id), b[x];
    var rest := Rest(b, id, x, y);
    assert todo[x] == y && todo[y] == x && id + ":" <= x;
    hide *;
    LastTwoFail(b, todo, rest, x, y, id, newID);
    OrderFails(b, id, newID, rest + [x, y]);
  }

  lemma OrderFails(b: Bucket, id: string, newID: string, order: seq<string>)
    requires IsOrderOf(order, Members(b, id)) && RenameLoop(b, order, Members(b, id), id, newID).None?
    ensures !SucceedsInEveryOrder(b, id, newID)
  {
    hide IsOrderOf, RenameLoop, Members;
    assert UpdateKeysWithNewID(b, id, newID, order).0.Err?;
  }

  lemma LastTwoFail(
      b: Bucket, todo: map<string, string>, rest: seq<string>, x: string, y: string, id: string, newID: string)
    requires x in todo && y in todo && todo[x] == y && todo[y] == x && x != y && id != newID && id + ":" <= x
    requires IsOrderOf(rest + [x, y], todo)
    ensures (forall k :: k in rest + [x, y] ==> k in todo) && RenameLoop(b, rest + [x, y], todo, id, newID).None?
  {
    assert forall k :: k in rest + [x, y] <==> k in rest || k == x || k == y;
    assert rest + [x, y] == (rest + [x]) + [y];
    hide IsOrderOf, RenameLoop, RenameOne;
    if RenameLoop(b, rest + [x, y], todo, id, newID).Some? {
      PrefixSucceeds(b, todo, rest, [x, y], id, newID);
      PrefixSucceeds(b, todo, rest + [x], [y], id, newID);
      LoopExtends(b, rest, x, todo, id, newID);
      LoopExtends(b, rest + [x], y, todo, id, newID);
      PartnerGone(RenameLoop(b, rest, todo, id, newID).value, x, y, id, newID);
    }
  }

  lemma PartnerGone(c: Bucket, x: string, y: string, id: string, newID: string)
    requires id != newID && id + ":" <= x && x != y
    ensures var r := RenameOne(c, x, y, id, newID);
            r.Some? ==> RenameOne(r.value, y, x, id, newID).None?
  {
    OtherName(x, id, newID);
    ReplaceIsNewKey(x, id, newID);
    hide ReplaceFirst, NewKey;
  }
}
