/** The transactions of `idmap/service.go` as they run: reads and writes on the bucket one after the
    other, committed at the end or given up on an error. */
module IdMapStore {
  import opened Strings
  import opened RowKeys
  import opened IdMap
  import opened PairIndex

  class Store {
    var bucket: Bucket
    const cfg: Config

    constructor (cfg: Config)
      ensures bucket == map[] && this.cfg == cfg
    {
      bucket := map[];
      this.cfg := cfg;
    }

    method StoreID(id: string) returns (r: Result<int>)
      modifies this
      ensures (r, bucket) == IdMap.StoreID(old(bucket), id, cfg)
    {
      if id in bucket {
        return Ok(RowOf(bucket[id]));
      }
      var newRow;
      if !cfg.hashed {
        if COUNTER_KEY !in bucket {
          newRow := 1;
        } else {
          newRow := WrapInt64(RowOf(bucket[COUNTER_KEY]) + 1);
        }
      } else {
        var free := this.FindFreeRow(id);
        if free.Err? {
          return free;
        }
        newRow := free.value;
      }
      if !cfg.hashed {
        bucket := bucket[COUNTER_KEY := RowBytes(newRow)];
      }
      bucket := bucket[id := RowBytes(newRow)];
      bucket := bucket[RowKey(newRow) := id];
      r := Ok(newRow);
    }

    /** 9 digits of the hash, or 10 when that row is taken. */
    method FindFreeRow(id: string) returns (r: Result<int>)
      ensures r == FreeHashRow(bucket, id, cfg)
    {
      r := HashRow(id, 9, cfg);
      if r.Ok? && RowKey(r.value) in bucket {
        r := HashRow(id, 10, cfg);
        if r.Ok? && RowKey(r.value) in bucket {
          r := Err("unable to find a unique row ID");
        }
      }
    }

    method SimplifiedStoreID(id: string) returns (r: Result<int>)
      modifies this
      ensures (r, bucket) == IdMap.SimplifiedStoreID(old(bucket), id, cfg)
    {
      r := this.FindFreeRow(id);
      if r.Ok? {
        bucket := bucket[RowKey(r.value) := id];
      }
    }

    method UpdateVirtualValue(oldRow: int, newRow: int) returns (r: Result<()>)
      requires IsInt64(newRow)
      modifies this
      ensures (r, bucket) == IdMap.UpdateVirtualValue(old(bucket), oldRow, newRow)
    {
      if RowKey(oldRow) !in bucket {
        return Err("no such row");
      }
      var id := bucket[RowKey(oldRow)];
      if RowKey(newRow) in bucket {
        return Err("row exists");
      }
      bucket := bucket[id := RowBytes(newRow)];
      bucket := bucket - {RowKey(oldRow)};
      bucket := bucket[RowKey(newRow) := id];
      r := Ok(());
    }

    method StoreIDPro(id: string, subid: string) returns (r: Result<(int, int)>)
      modifies this
      ensures (r, bucket) == IdMap.StoreIDPro(old(bucket), id, subid, cfg)
    {
      var forwardKey := Pair(id, subid);
      if forwardKey in bucket {
        return Ok(ScanPair(bucket[forwardKey]));
      }
      var newRow := HashRow(id, 9, cfg);
      if newRow.Err? {
        return Err(newRow.message);
      }
      var newSubRow := HashRow(subid, 9, cfg);
      if newSubRow.Err? {
        return Err(newSubRow.message);
      }
      var reverseKey := VirtualPair(newRow.value, newSubRow.value);
      bucket := bucket[forwardKey := reverseKey];
      bucket := bucket[reverseKey := forwardKey];
      r := Ok((newRow.value, newSubRow.value));
    }

    method UpdateVirtualValuePro(old1: int, new1: int, old2: int, new2: int) returns (r: Result<()>)
      modifies this
      ensures (r, bucket) == IdMap.UpdateVirtualValuePro(old(bucket), old1, new1, old2, new2)
    {
      var oldKey, newKey := VirtualPair(old1, old2), VirtualPair(new1, new2);
      if oldKey !in bucket {
        return Err("no such pair");
      }
      var value := bucket[oldKey];
      if newKey in bucket {
        return Err("pair exists");
      }
      bucket := bucket - {oldKey};
      bucket := bucket - {value};
      bucket := bucket[newKey := value];
      bucket := bucket[value := newKey];
      r := Ok(());
    }

    /** The keys are collected first and then rewritten one by one in whatever order the collecting map
        yields them; the writes reach the bucket only if none of them fails. */
    method UpdateKeysWithNewID(id: string, newID: string) returns (r: Result<()>, ghost order: seq<string>)
      modifies this
      ensures IsOrderOf(order, Members(old(bucket), id))
      ensures (r, bucket) == IdMap.UpdateKeysWithNewID(old(bucket), id, newID, order)
    {
      var keysToUpdate := Members(bucket, id);
      var tx, todo := bucket, keysToUpdate.Keys;
      order := [];
      while todo != {}
        invariant todo <= keysToUpdate.Keys && bucket == old(bucket)
        invariant forall k :: k in order <==> k in keysToUpdate && k !in todo
        invariant forall i, j :: 0 <= i < j < |order| ==> order[i] != order[j]
        invariant RenameLoop(bucket, order, keysToUpdate, id, newID) == Some(tx)
        decreases todo
      {
        var key :| key in todo;
        var reverseKey := keysToUpdate[key];
        LoopExtends(bucket, order, key, keysToUpdate, id, newID);
        if reverseKey !in tx {
          order := FailedOrder(bucket, order + [key], todo - {key}, keysToUpdate, id, newID);
          return Err("reverse key not found"), order;
        }
        var reverseValue := tx[reverseKey];
        tx := tx - {key};
        tx := tx[ReplaceFirst(key, id, newID) := reverseKey];
        tx := tx[reverseKey := ReplaceFirst(reverseValue, id, newID)];
        todo, order := todo - {key}, order + [key];
      }
      bucket := tx;
      r := Ok(());
    }

    /** The bucket's keys as a cursor walks them. */
    method SortedKeys() returns (keys: seq<string>)
      ensures keys == Sorted(bucket.Keys)
    {
      keys := [];
      var todo := bucket.Keys;
      while todo != {}
        invariant todo <= bucket.Keys && StrictlySorted(keys) && Elems(keys) == bucket.Keys - todo
        decreases todo
      {
        var k :| k in todo;
        assert k !in Elems(keys);
        InsertSorted(keys, k);
        keys := Insert(keys, k);
        todo := todo - {k};
      }
      SortedUnique(keys, Sorted(bucket.Keys));
    }

    /** The cursor's `Seek`: the first key that is not below the prefix. */
    static method Seek(keys: seq<string>, prefix: string) returns (i: nat)
      ensures i <= |keys| && (i < |keys| ==> !Less(keys[i], prefix))
      ensures forall j :: 0 <= j < i ==> Less(keys[j], prefix)
    {
      i := 0;
      while i < |keys| && Less(keys[i], prefix)
        invariant i <= |keys|
        invariant forall j :: 0 <= j < i ==> Less(keys[j], prefix)
      {
        i := i + 1;
      }
    }

    /** Seek to the prefix, then on while the prefix lasts: what comes out is what filtering the whole
        bucket would give. */
    method FindSubKeysById(id: string) returns (subKeys: seq<string>)
      ensures subKeys == Listing(bucket, id)
    {
      hide SubKeys, Less, Split, Sorted, StrictlySorted;
      var keys := SortedKeys();
      var prefix := id + ":";
      var i := Seek(keys, prefix);
      BeforeTheGroup(keys, i, id);
      subKeys := [];
      while i < |keys| && prefix <= keys[i]
        invariant 0 <= i <= |keys|
        invariant i < |keys| ==> !Less(keys[i], prefix)
        invariant SubKeys(keys, id) == subKeys + SubKeys(keys[i..], id)
      {
        var keyParts := Split(keys[i]);
        InTheGroup(keys, i, id);
        if |keyParts| == 2 {
          subKeys := subKeys + [keyParts[1]];
        }
        i := i + 1;
      }
      SuffixSorted(keys, i);
      PastTheGroup(keys[i..], id);
    }
  }

  lemma SuffixSorted(keys: seq<string>, i: nat)
    requires StrictlySorted(keys) && i <= |keys|
    ensures StrictlySorted(keys[i..])
  {}

  lemma {:induction false} BeforeTheGroup(keys: seq<string>, i: nat, id: string)
    requires i <= |keys| && forall j :: 0 <= j < i ==> Less(keys[j], id + ":")
    ensures SubKeys(keys, id) == SubKeys(keys[i..], id)
  {
    if i > 0 {
      if id + ":" <= keys[0] { NotBelowPrefix(id + ":", keys[0]); }
      BeforeTheGroup(keys[1..], i - 1, id);
      assert keys[1..][i - 1..] == keys[i..];
    } else {
      assert keys[i..] == keys;
    }
  }

  lemma InTheGroup(keys: seq<string>, i: nat, id: string)
    requires i < |keys| && StrictlySorted(keys) && !Less(keys[i], id + ":") && id + ":" <= keys[i]
    ensures i + 1 < |keys| ==> !Less(keys[i + 1], id + ":")
    ensures SubKeys(keys[i..], id)
            == (if |Split(keys[i])| == 2 then [Split(keys[i])[1]] else []) + SubKeys(keys[i + 1..], id)
  {
    assert keys[i..][1..] == keys[i + 1..];
    if i + 1 < |keys| && Less(keys[i + 1], id + ":") {
      LessTransitive(keys[i], keys[i + 1], id + ":");
    }
  }

  /** A loop that has failed at the last key of `done` fails however it would have gone on; `order` is one
      way in which it would have gone through all keys. */
  lemma FailedOrder(
      b: Bucket, done: seq<string>, rest: set<string>, keys: map<string, string>, id: string, newID: string)
    returns (order: seq<string>)
    requires forall k :: k in done <==> k in keys && k !in rest
    requires rest <= keys.Keys && forall i, j :: 0 <= i < j < |done| ==> done[i] != done[j]
    requires RenameLoop(b, done, keys, id, newID).None?
    ensures done <= order && IsOrderOf(order, keys)
    ensures forall more :: (forall k :: k in done + more ==> k in keys) ==>
              RenameLoop(b, done + more, keys, id, newID).None?
    ensures RenameLoop(b, order, keys, id, newID).None?
  {
    var more := AnyOrder(rest);
    order := done + more;
    forall i, j | 0 <= i < j < |order| ensures order[i] != order[j] {
      if i < |done| <= j {
        assert order[i] in done && more[j - |done|] in more;
      }
    }
    forall rest | forall k :: k in done + rest ==> k in keys
      ensures RenameLoop(b, done + rest, keys, id, newID).None?
    {
      LoopFails(b, done, rest, keys, id, newID);
    }
  }

  lemma {:induction false} LoopFails(
      b: Bucket, order: seq<string>, rest: seq<string>, todo: map<string, string>, id: string, newID: string)
    requires forall k :: k in order + rest ==> k in todo
    requires forall k :: k in order ==> k in todo
    requires RenameLoop(b, order, todo, id, newID).None?
    ensures RenameLoop(b, order + rest, todo, id, newID).None?
    decreases |order|
  {
    assert order[0] in order;
    var c := RenameOne(b, order[0], todo[order[0]], id, newID);
    assert (order + rest)[1..] == order[1..] + rest;
    if c.Some? {
      LoopFails(c.value, order[1..], rest, todo, id, newID);
    }
  }

  /** After the first key without the prefix, no key has it. */
  lemma {:induction false} PastTheGroup(keys: seq<string>, id: string)
    requires StrictlySorted(keys)
    requires keys != [] ==> !Less(keys[0], id + ":") && !(id + ":" <= keys[0])
    ensures SubKeys(keys, id) == []
  {
    if |keys| <= 1 {
    } else {
      PastPrefix(id + ":", keys[0], keys[1]);
      if Less(keys[1], id + ":") {
        LessTransitive(keys[0], keys[1], id + ":");
      }
      PastTheGroup(keys[1..], id);
    }
  }
}
