/** What each transaction of the id store answers and writes, in terms of the keys and bytes in the bucket. */
module IdMapAnswers {
  import opened Strings
  import opened RowKeys
  import opened IdMap
  import opened PairIndex

  /** The row that the first digits of an id's hash give. */
  ghost predicate HashedRow(id: string, length: nat, cfg: Config, n: int) {
    IsRowOfHash(cfg.md5(id), length, n)
  }

  /** A hashed row is the one of 9 digits, or the one of 10 if that is taken, and it is free. */
  ghost predicate FreeRow(b: Bucket, id: string, cfg: Config, n: int) {
    && "row-" + Numeral(n) !in b
    && (HashedRow(id, 9, cfg, n)
        || (HashedRow(id, 10, cfg, n) && exists m :: HashedRow(id, 9, cfg, m) && "row-" + Numeral(m) in b))
  }

  lemma HashRowExactly(id: string, length: nat, cfg: Config, n: int)
    requires length == 9 || length == 10
    ensures HashRow(id, length, cfg) == Ok(n) <==> HashedRow(id, length, cfg, n)
  {
    RowOfHashExactly(cfg.md5(id), length, n);
  }

  lemma FreeHashRowExactly(b: Bucket, id: string, cfg: Config, n: int)
    ensures FreeHashRow(b, id, cfg) == Ok(n) <==> FreeRow(b, id, cfg, n)
  {
    forall m, length | length == 9 || length == 10
      ensures HashRow(id, length, cfg) == Ok(m) <==> HashedRow(id, length, cfg, m)
    {
      HashRowExactly(id, length, cfg, m);
    }
    hide HashRow, HashedRow, Numeral;
    assert forall m :: HashedRow(id, 9, cfg, m) <==> HashRow(id, 9, cfg) == Ok(m);
  }

  // ---------------------------------------------------------------- ids

  /** A known id is answered with the row in its 8 bytes, and nothing is written. */
  lemma StoreKnown(b: Bucket, id: string, cfg: Config)
    requires id in b && |b[id]| == 8
    ensures StoreID(b, id, cfg).1 == b
    ensures forall n: int :: IsInt64(n) && b[id] == RowBytes(n) ==> StoreID(b, id, cfg).0 == Ok(n)
  {
    forall n: int | IsInt64(n) && b[id] == RowBytes(n) ensures StoreID(b, id, cfg).0 == Ok(n) {
      RowRoundTrip(n);
    }
  }

  /** With a counter a new id gets row 1, or the row after the counter's, which wraps around at the end. */
  lemma StoreCounted(b: Bucket, id: string, cfg: Config, last: int)
    requires id !in b && !cfg.hashed && IsInt64(last)
    requires if "currentRow" in b then b["currentRow"] == RowBytes(last) else last == 0
    ensures var n := if last == 9223372036854775807 then -9223372036854775808 else last + 1;
            StoreID(b, id, cfg)
            == (Ok(n), b["currentRow" := RowBytes(n)][id := RowBytes(n)]["row-" + Numeral(n) := id])
  {
    RowRoundTrip(last);
    WrapsAround(last);
    hide RowBytes, RowOf, Numeral, WrapInt64;
  }

  lemma WrapsAround(last: int)
    requires IsInt64(last)
    ensures WrapInt64(last + 1) == if last == 9223372036854775807 then -9223372036854775808 else last + 1
  {}

  /** Without one it gets a free hashed row, forward and reverse, and fails if there is none. */
  lemma StoreHashed(b: Bucket, id: string, cfg: Config)
    requires id !in b && cfg.hashed
    ensures forall n :: FreeRow(b, id, cfg, n) ==>
              IsInt64(n) && StoreID(b, id, cfg) == (Ok(n), b[id := RowBytes(n)]["row-" + Numeral(n) := id])
    ensures StoreID(b, id, cfg).0.Err? <==> forall n :: !FreeRow(b, id, cfg, n)
    ensures StoreID(b, id, cfg).0.Err? ==> StoreID(b, id, cfg).1 == b
  {
    forall n ensures FreeHashRow(b, id, cfg) == Ok(n) <==> FreeRow(b, id, cfg, n) {
      FreeHashRowExactly(b, id, cfg, n);
    }
    hide FreeHashRow, FreeRow, Numeral, RowBytes;
    if FreeHashRow(b, id, cfg).Ok? {
      assert FreeRow(b, id, cfg, FreeHashRow(b, id, cfg).value);
    }
  }

  /** The half store always takes a free hashed row, and writes the reverse key only. */
  lemma StoreHalfHashed(b: Bucket, id: string, cfg: Config)
    ensures forall n :: FreeRow(b, id, cfg, n) ==>
              SimplifiedStoreID(b, id, cfg) == (Ok(n), b["row-" + Numeral(n) := id])
    ensures SimplifiedStoreID(b, id, cfg).0.Err? <==> forall n :: !FreeRow(b, id, cfg, n)
    ensures SimplifiedStoreID(b, id, cfg).0.Err? ==> SimplifiedStoreID(b, id, cfg).1 == b
  {
    forall n ensures FreeHashRow(b, id, cfg) == Ok(n) <==> FreeRow(b, id, cfg, n) {
      FreeHashRowExactly(b, id, cfg, n);
    }
    hide FreeHashRow, FreeRow, Numeral;
    if FreeHashRow(b, id, cfg).Ok? {
      assert FreeRow(b, id, cfg, FreeHashRow(b, id, cfg).value);
    }
  }

  /** A rebind moves the reverse key and rewrites the id's row, and fails exactly when the old row is unknown
      or the new one taken. */
  lemma Rebound(b: Bucket, oldRow: int, newRow: int)
    requires IsInt64(newRow)
    ensures var (r, c) := UpdateVirtualValue(b, oldRow, newRow);
            var oldKey, newKey := "row-" + Numeral(oldRow), "row-" + Numeral(newRow);
            && (r.Ok? <==> oldKey in b && newKey !in b)
            && (r.Err? ==> c == b)
            && (r.Ok? ==>
                  && newKey in c && c[newKey] == b[oldKey] && (b[oldKey] != oldKey ==> oldKey !in c)
                  && (b[oldKey] != newKey && b[oldKey] != oldKey ==> b[oldKey] in c && c[b[oldKey]] == RowBytes(newRow))
                  && forall k :: k != oldKey && k != newKey && k != b[oldKey] ==> SameAt(b, c, k))
  {
    hide Numeral, RowBytes;
  }

  // ---------------------------------------------------------------- pairs

  /** A new pair gets the rows of 9 digits of both halves, forward and reverse, and fails exactly when a hash
      has too few digits; a known one is answered with the rows it holds. */
  lemma StorePairAnswers(b: Bucket, id: string, subid: string, cfg: Config)
    ensures var (r, c) := StoreIDPro(b, id, subid, cfg);
            var key := id + ":" + subid;
            if key in b then
              && c == b
              && forall m: int, n: int :: IsInt64(m) && IsInt64(n) && b[key] == VirtualPair(m, n) ==> r == Ok((m, n))
            else
              && (r.Err? ==> c == b)
              && (r.Ok? ==>
                    var rows := Numeral(r.value.0) + ":" + Numeral(r.value.1);
                    c == b[key := rows][rows := key])
              && forall m, n :: r == Ok((m, n)) <==> HashedRow(id, 9, cfg, m) && HashedRow(subid, 9, cfg, n)
  {
    forall m, x ensures HashRow(x, 9, cfg) == Ok(m) <==> HashedRow(x, 9, cfg, m) {
      HashRowExactly(x, 9, cfg, m);
    }
    forall m: int, n: int | IsInt64(m) && IsInt64(n) ensures ScanPair(VirtualPair(m, n)) == (m, n) {
      ScanVirtualPair(m, n);
    }
    assert Pair(id, subid) == id + ":" + subid;
    hide HashRow, HashedRow, Numeral, ScanPair;
  }

  /** A rebind of a pair fails exactly when the old rows are unknown or the new ones taken; otherwise the pair
      leads to the new rows and back, and the old ones are gone. */
  lemma ReboundPair(b: Bucket, old1: int, new1: int, old2: int, new2: int)
    ensures var (r, c) := UpdateVirtualValuePro(b, old1, new1, old2, new2);
            var oldKey, newKey := Numeral(old1) + ":" + Numeral(old2), Numeral(new1) + ":" + Numeral(new2);
            && (r.Ok? <==> oldKey in b && newKey !in b)
            && (r.Err? ==> c == b)
            && (r.Ok? ==>
                  var pair := b[oldKey];
                  && pair in c && c[pair] == newKey && (pair != newKey ==> newKey in c && c[newKey] == pair)
                  && (pair != oldKey ==> oldKey !in c)
                  && forall k :: k != oldKey && k != newKey && k != pair ==> SameAt(b, c, k))
  {
    assert VirtualPair(old1, old2) == Numeral(old1) + ":" + Numeral(old2);
    assert VirtualPair(new1, new2) == Numeral(new1) + ":" + Numeral(new2);
    hide Numeral;
    if VirtualPair(old1, old2) in b && VirtualPair(new1, new2) !in b {
      PairMoved(b, VirtualPair(old1, old2), VirtualPair(new1, new2));
    }
    hide VirtualPair;
  }

  lemma PairMoved(b: Bucket, oldKey: string, newKey: string)
    requires oldKey in b && newKey !in b
    ensures var pair := b[oldKey];
            var c := (b - {oldKey} - {pair})[newKey := pair][pair := newKey];
            && pair in c && c[pair] == newKey && (pair != newKey ==> newKey in c && c[newKey] == pair)
            && (pair != oldKey ==> oldKey !in c)
            && forall k :: k != oldKey && k != newKey && k != pair ==> SameAt(b, c, k)
  {}

  /** The keys of a group are all that begin with its id and a colon, with their values. */
  lemma MembersExactly(b: Bucket, id: string, k: string)
    ensures k in Members(b, id) <==> k in b && |id| < |k| && k[..|id|] == id && k[|id|] == ':'
    ensures k in Members(b, id) ==> Members(b, id)[k] == b[k]
  {
    var p := id + ":";
    assert p <= k ==> k[|id|] == p[|id|] && k[..|id|] == p[..|id|];
    if |id| < |k| && k[..|id|] == id && k[|id|] == ':' {
      assert k[..|id| + 1] == p;
    }
  }

  /** A renaming that fails writes nothing; one that goes through is its turns, one for each key of the group:
      the key goes, its new name leads to its rows, and its rows to what they led to with the id replaced. */
  lemma OneRenamed(b: Bucket, key: string, rows: string, id: string, newID: string)
    requires id + ":" <= key
    ensures var r, name := RenameOne(b, key, rows, id, newID), newID + key[|id|..];
            && (r.None? <==> rows !in b)
            && (r.Some? ==>
                  var c := r.value;
                  && rows in c && c[rows] == ReplaceFirst(b[rows], id, newID)
                  && (name != rows ==> name in c && c[name] == rows)
                  && (key != name && key != rows ==> key !in c)
                  && forall k :: k != key && k != name && k != rows ==> SameAt(b, c, k))
  {
    ReplaceIsNewKey(key, id, newID);
    hide ReplaceFirst;
  }

  /** The first occurrence is replaced, and none if there is none. */
  lemma Replaced(before: string, from: string, after: string, to: string)
    requires Index(before + (from + after), from) == |before|
    ensures ReplaceFirst(before + (from + after), from, to) == before + to + after
  {
    var s := before + (from + after);
    assert s[..|before|] == before && s[|before| + |from|..] == after;
  }

  // ---------------------------------------------------------------- lookups

  lemma RowLookedUp(b: Bucket, row: string)
    ensures if "row-" + row in b then RetrieveRowByID(b, row) == Ok(b["row-" + row]) else RetrieveRowByID(b, row).Err?
  {}

  /** The two rows lead to the two halves of a pair; anything but exactly two halves is refused. */
  lemma PairLookedUp(b: Bucket, m: int, n: int, id: string, subid: string)
    ensures var key := Numeral(m) + ":" + Numeral(n);
            RetrieveRealValuePro(b, m, n) == Ok((id, subid))
            <==> key in b && b[key] == id + ":" + subid && ':' !in id && ':' !in subid
  {
    var key := Numeral(m) + ":" + Numeral(n);
    assert VirtualPair(m, n) == key;
    hide VirtualPair, Numeral;
    if key in b {
      TwoHalves(b[key], id, subid);
    }
  }

  lemma TwoHalves(s: string, id: string, subid: string)
    ensures Split(s) == [id, subid] <==> s == id + ":" + subid && ':' !in id && ':' !in subid
  {
    SplitExactly(s);
    if s == id + ":" + subid && ':' !in id && ':' !in subid {
      SplitAtColon(id, subid);
    }
    if Split(s) == [id, subid] {
      assert Split(s)[0] == id && Split(s)[1] == subid;
      assert Joined([id, subid]) == id + ":" + Joined([subid]);
      assert [id, subid][1..] == [subid];
    }
  }
}
