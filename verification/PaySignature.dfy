/** The signature of payment messages (`wechat/mch/core/sign.go`): which string is hashed, and what that
    string determines. The hashes are arbitrary functions. */
module PaySignature {
  import opened Strings

  type Params = map<string, string>

  /** `params[k]` in Go: an absent key reads as the empty string. */
  function Get(params: Params, k: string): string {
    if k in params then params[k] else ""
  }

  /** What one parameter adds to the hashed string: nothing if it has no value. */
  function Part(k: string, v: string): string {
    if v == "" then "" else k + "=" + v + "&"
  }

  /** What the parameters of these keys add, in this order. */
  function Written(keys: seq<string>, params: Params): string {
    if keys == [] then "" else Part(keys[0], Get(params, keys[0])) + Written(keys[1..], params)
  }

  /** The string that is hashed. */
  ghost function Canonical(params: Params, apiKey: string): string {
    Written(Sorted(params.Keys - {"sign"}), params) + ("key=" + apiKey)
  }

  /** The parameters that a signature is about. */
  function Signed(params: Params): Params {
    map k | k in params && k != "sign" && params[k] != "" :: params[k]
  }

  // ---------------------------------------------------------------- the code

  method SortStrings(keys: seq<string>) returns (sorted: seq<string>)
    requires forall i, j :: 0 <= i < j < |keys| ==> keys[i] != keys[j]
    ensures StrictlySorted(sorted) && Elems(sorted) == Elems(keys)
  {
    sorted := [];
    var i := 0;
    while i < |keys|
      invariant 0 <= i <= |keys|
      invariant StrictlySorted(sorted) && Elems(sorted) == Elems(keys[..i])
    {
      assert keys[i] !in Elems(keys[..i]);
      assert keys[i] !in sorted by { assert keys[i] !in Elems(sorted); }
      InsertSorted(sorted, keys[i]);
      sorted := Insert(sorted, keys[i]);
      assert keys[..i + 1] == keys[..i] + [keys[i]];
      i := i + 1;
    }
    assert keys[..i] == keys;
  }

  method CollectKeys(params: Params) returns (keys: seq<string>)
    ensures Elems(keys) == params.Keys - {"sign"}
    ensures forall i, j :: 0 <= i < j < |keys| ==> keys[i] != keys[j]
  {
    keys := [];
    var todo := params.Keys;
    while todo != {}
      invariant todo <= params.Keys
      invariant Elems(keys) == params.Keys - todo - {"sign"}
      invariant forall i, j :: 0 <= i < j < |keys| ==> keys[i] != keys[j]
      decreases todo
    {
      var k :| k in todo;
      todo := todo - {k};
      if k == "sign" {
        continue;
      }
      assert k !in keys by { assert k !in Elems(keys); }
      assert Elems(keys + [k]) == Elems(keys) + {k};
      keys := keys + [k];
    }
  }

  lemma WrittenMore(before: string, keys: seq<string>, i: nat, params: Params)
    requires i < |keys|
    ensures before + Written(keys[i..], params)
         == before + Part(keys[i], Get(params, keys[i])) + Written(keys[i + 1..], params)
  {
    assert keys[i..][1..] == keys[i + 1..];
    hide Part, Get;
  }

  method WriteParams(keys: seq<string>, params: Params) returns (written: string)
    ensures written == Written(keys, params)
  {
    hide Written, Part, Get;
    written := "";
    var i := 0;
    assert keys[0..] == keys;
    while i < |keys|
      invariant 0 <= i <= |keys|
      invariant written + Written(keys[i..], params) == Written(keys, params)
    {
      WrittenMore(written, keys, i, params);
      var k := keys[i];
      var v := Get(params, k);
      ghost var before := written;
      if v != "" {
        written := written + (k + "=" + v + "&");
      }
      AddedPart(before, k, v, written);
      i := i + 1;
    }
    WrittenNothing(keys, params);
  }

  lemma AddedPart(before: string, k: string, v: string, after: string)
    requires after == if v == "" then before else before + (k + "=" + v + "&")
    ensures after == before + Part(k, v)
  {}

  lemma WrittenNothing(keys: seq<string>, params: Params)
    ensures Written(keys[|keys|..], params) == ""
  {}

  /** The keys are collected in whatever order the map yields them, so the result does not depend on it. */
  method Sign2(params: Params, apiKey: string, hash: string -> string) returns (signature: string)
    ensures signature == hash(Canonical(params, apiKey))
  {
    var keys := CollectKeys(params);
    keys := SortStrings(keys);
    SortedUnique(keys, Sorted(params.Keys - {"sign"}));
    var written := WriteParams(keys, params);
    signature := hash(written + ("key=" + apiKey));
  }

  // ---------------------------------------------------------------- what the string depends on

  function NonEmptyKeys(keys: seq<string>, params: Params): seq<string> {
    if keys == [] then []
    else (if Get(params, keys[0]) == "" then [] else [keys[0]]) + NonEmptyKeys(keys[1..], params)
  }

  lemma {:induction false} EmptyValuesDropOut(keys: seq<string>, params: Params)
    requires StrictlySorted(keys)
    ensures var kept := NonEmptyKeys(keys, params);
            && Written(kept, params) == Written(keys, params)
            && StrictlySorted(kept)
            && (forall k :: k in kept <==> k in keys && Get(params, k) != "")
  {
    if keys == [] {
    } else {
      var k, kept := keys[0], NonEmptyKeys(keys[1..], params);
      EmptyValuesDropOut(keys[1..], params);
      KeepOrDrop(keys, params);
      assert forall x :: x in keys <==> x == k || x in keys[1..];
      SmallestFirst(keys, kept);
      hide *;
    }
  }

  lemma SmallestFirst(keys: seq<string>, kept: seq<string>)
    requires StrictlySorted(keys) && keys != [] && StrictlySorted(kept) && forall x :: x in kept ==> x in keys[1..]
    ensures StrictlySorted([keys[0]] + kept)
  {
    hide Less;
    forall j | 0 <= j < |kept| ensures Less(keys[0], kept[j]) {
      assert kept[j] in kept;
      var i :| 1 <= i < |keys| && keys[i] == kept[j];
    }
  }

  lemma KeepOrDrop(keys: seq<string>, params: Params)
    requires keys != []
    ensures var k, kept := keys[0], NonEmptyKeys(keys[1..], params);
            NonEmptyKeys(keys, params) == (if Get(params, k) == "" then kept else [k] + kept)
    ensures var k, kept := keys[0], NonEmptyKeys(keys[1..], params);
            && Written([k] + kept, params) == Part(k, Get(params, k)) + Written(kept, params)
            && Written(keys, params) == Part(k, Get(params, k)) + Written(keys[1..], params)
    ensures Get(params, keys[0]) == "" ==> Written(keys, params) == Written(keys[1..], params)
  {
    var k, kept := keys[0], NonEmptyKeys(keys[1..], params);
    assert ([k] + kept)[1..] == kept;
    hide Get;
    assert "" + Written(keys[1..], params) == Written(keys[1..], params);
    assert [] + kept == kept;
  }

  lemma {:induction false} WrittenReads(keys: seq<string>, p: Params, q: Params)
    requires forall k :: k in keys ==> Get(p, k) == Get(q, k)
    ensures Written(keys, p) == Written(keys, q)
  {
    if keys == [] {
    } else {
      assert keys[0] in keys;
      assert forall k :: k in keys[1..] ==> k in keys;
      WrittenReads(keys[1..], p, q);
    }
  }

  /** The string depends on the signed parameters only: not on `sign`, not on parameters without a value,
      not on the order in which the map is walked. */
  lemma CanonicalOfSigned(params: Params, apiKey: string)
    ensures Canonical(params, apiKey) == Written(Sorted(Signed(params).Keys), Signed(params)) + ("key=" + apiKey)
  {
    var keys := Sorted(params.Keys - {"sign"});
    EmptyValuesDropOut(keys, params);
    var kept := NonEmptyKeys(keys, params);
    assert forall k :: k in keys <==> k in Elems(keys);
    assert Elems(kept) == Signed(params).Keys;
    SortedUnique(kept, Sorted(Signed(params).Keys));
    WrittenReads(kept, params, Signed(params));
  }

  // ---------------------------------------------------------------- what the string determines

  /** Reading the parameters and the key back. */
  function Read(s: string): (Params, string) {
    var e := Index(s, "=");
    if e == -1 then (map[], "")
    else
      var name, after := s[..e], s[e + 1..];
      var i := Index(after, "&");
      if i == -1 then (map[], after)
      else
        var (rest, apiKey) := Read(after[i + 1..]);
        (rest[name := after[..i]], apiKey)
  }

  /** No separator where it would be taken for one. A name may hold `&`. */
  predicate Plain(params: Params) {
    forall k :: k in params ==> '=' !in k && '&' !in params[k]
  }

  lemma FindsFirst(a: string, c: char, b: string)
    requires c !in a
    ensures Index(a + [c] + b, [c]) == |a|
  {
    var rest := [c] + b;
    assert a + [c] + b == a + rest;
    forall j | 0 <= j < |a| ensures !([c] <= (a + rest)[j..]) {
      assert (a + rest)[j..][0] == a[j];
    }
    IndexSkips(a, rest, [c]);
    assert [c] <= rest;
  }

  lemma FindsNothing(a: string, c: char)
    requires c !in a
    ensures Index(a, [c]) == -1
  {
    assert a + "" == a;
    forall j | 0 <= j < |a| ensures !([c] <= (a + "")[j..]) {
      assert (a + "")[j..][0] == a[j];
    }
    IndexSkips(a, "", [c]);
  }

  lemma ReadPart(k: string, v: string, rest: string)
    requires '=' !in k && '&' !in v
    ensures var (params, apiKey) := Read(rest);
            Read(k + "=" + v + "&" + rest) == (params[k := v], apiKey)
  {
    var after := v + "&" + rest;
    FindsFirst(k, '=', after);
    FindsFirst(v, '&', rest);
    Around(k, '=', after);
    Around(v, '&', rest);
    Regroup(k, v, rest);
    hide Index;
  }

  lemma Around(a: string, c: char, b: string)
    ensures (a + [c] + b)[..|a|] == a && (a + [c] + b)[|a| + 1..] == b
  {}

  lemma Regroup(k: string, v: string, rest: string)
    ensures k + "=" + v + "&" + rest == k + "=" + (v + "&" + rest)
  {}

  lemma ReadTail(apiKey: string)
    requires '&' !in apiKey
    ensures Read("key=" + apiKey) == (map[], apiKey)
  {
    var tail := "key" + "=" + apiKey;
    assert "key=" + apiKey == tail;
    FindsFirst("key", '=', apiKey);
    assert tail[4..] == apiKey;
    FindsNothing(apiKey, '&');
  }

  lemma {:induction false} ReadWritten(keys: seq<string>, params: Params, apiKey: string)
    requires StrictlySorted(keys) && Plain(params) && '&' !in apiKey
    requires forall k :: k in keys ==> k in params && params[k] != ""
    ensures Read(Written(keys, params) + ("key=" + apiKey)) == (map k | k in keys :: params[k], apiKey)
  {
    var tail := "key=" + apiKey;
    if keys == [] {
      assert "" + tail == tail;
      ReadTail(apiKey);
    } else {
      var k := keys[0];
      assert k in keys && forall x :: x in keys[1..] ==> x in keys;
      WrittenFirst(keys, params, tail);
      ReadPart(k, params[k], Written(keys[1..], params) + tail);
      FirstAndRest(keys, params);
      hide Read, Written, Plain;
      ReadWritten(keys[1..], params, apiKey);
    }
  }

  lemma WrittenFirst(keys: seq<string>, params: Params, tail: string)
    requires keys != [] && keys[0] in params && params[keys[0]] != ""
    ensures Written(keys, params) + tail
         == keys[0] + "=" + params[keys[0]] + "&" + (Written(keys[1..], params) + tail)
  {}

  lemma FirstAndRest(keys: seq<string>, params: Params)
    requires keys != [] && forall k :: k in keys ==> k in params
    ensures var rest := map x | x in keys[1..] :: params[x];
            (map x | x in keys :: params[x]) == rest[keys[0] := params[keys[0]]]
  {
    assert forall x :: x in keys <==> x == keys[0] || x in keys[1..];
  }

  /** When names have no `=`, and values and the api key no `&`, the string can be read back. */
  lemma ReadCanonical(params: Params, apiKey: string)
    requires Plain(Signed(params)) && '&' !in apiKey
    ensures Read(Canonical(params, apiKey)) == (Signed(params), apiKey)
  {
    CanonicalOfSigned(params, apiKey);
    var signed := Signed(params);
    var keys := Sorted(signed.Keys);
    assert forall k :: k in keys <==> k in Elems(keys);
    ReadWritten(keys, signed, apiKey);
    assert (map k | k in keys :: signed[k]) == signed;
  }

  /** Two messages hash the same string exactly when they agree in every parameter that has a value,
      other than `sign`, and in the api key. */
  lemma StringDeterminesParams(p: Params, q: Params, a: string, b: string)
    requires Plain(Signed(p)) && Plain(Signed(q)) && '&' !in a && '&' !in b
    ensures Canonical(p, a) == Canonical(q, b) <==> Signed(p) == Signed(q) && a == b
  {
    ReadCanonical(p, a);
    ReadCanonical(q, b);
    CanonicalOfSigned(p, a);
    CanonicalOfSigned(q, b);
  }

  lemma OneParam(k: string, v: string, apiKey: string)
    requires k != "sign" && v != ""
    ensures Canonical(map[k := v], apiKey) == k + "=" + v + "&" + ("key=" + apiKey)
  {
    var params: Params := map[k := v];
    assert Elems([k]) == {k} == params.Keys - {"sign"};
    assert StrictlySorted([k]);
    SortedUnique([k], Sorted(params.Keys - {"sign"}));
    assert [k][1..] == [];
    assert Written([k], params) == Part(k, v) + "";
  }

  /** Names in byte-wise order, each with its value, and the key at the end. */
  lemma StringOfTwo(k: string, v: string, l: string, w: string, apiKey: string)
    requires Less(k, l) && k != "sign" && l != "sign" && v != "" && w != ""
    ensures Canonical(map[l := w, k := v], apiKey) == k + "=" + v + "&" + (l + "=" + w + "&") + ("key=" + apiKey)
  {
    LessAsymmetric(k, l);
    var params: Params := map[l := w, k := v];
    ElemsOfTwo(k, l);
    assert StrictlySorted([k, l]);
    SortedUnique([k, l], Sorted(params.Keys - {"sign"}));
    hide Less, Sorted;
    assert [k, l][1..] == [l] && [l][1..] == [];
    assert Written([l], params) == Part(l, w) + "";
    assert Written([k, l], params) == Part(k, v) + (l + "=" + w + "&");
  }

  /** A separator inside a value can hide another parameter. */
  lemma SeparatorInValue(apiKey: string)
    ensures var p: Params := map["a" := "1&b=2"];
            var q: Params := map["a" := "1", "b" := "2"];
            Signed(p) != Signed(q) && Canonical(p, apiKey) == Canonical(q, apiKey)
  {
    hide Sorted, Elems;
    var p: Params := map["a" := "1&b=2"];
    var q: Params := map["a" := "1", "b" := "2"];
    assert "b" in Signed(q) && "b" !in Signed(p);
    OneParam("a", "1&b=2", apiKey);
    assert StrictlySorted(["a", "b"]);
    ElemsOfTwo("a", "b");
    SortedUnique(["a", "b"], Sorted(q.Keys - {"sign"}));
    assert ["a", "b"][1..] == ["b"] && ["b"][1..] == [];
    assert Written(["b"], q) == "b=2&";
    assert Written(["a", "b"], q) == "a=1&" + "b=2&";
  }

  lemma ElemsOfTwo(a: string, b: string)
    ensures Elems([a, b]) == {a, b}
  {}

  /** One inside a name can move what belongs to the value into the name. */
  lemma SeparatorInName(apiKey: string)
    ensures var p: Params := map["a=b" := "c"];
            var q: Params := map["a" := "b=c"];
            Signed(p) != Signed(q) && Canonical(p, apiKey) == Canonical(q, apiKey)
  {
    assert "a=b" in Signed(map["a=b" := "c"]) && "a=b" !in Signed(map["a" := "b=c"]);
    OneParam("a=b", "c", apiKey);
    OneParam("a", "b=c", apiKey);
    assert "a=b" + "=" + "c" + "&" == "a" + "=" + "b=c" + "&";
  }

  /** One inside the api key can make a parameter of a part of it. */
  lemma SeparatorInApiKey()
    ensures var p: Params, q: Params := map[], map["key" := "x"];
            Signed(p) != Signed(q) && Canonical(p, "x&key=y") == Canonical(q, "y")
  {
    var p: Params, q: Params := map[], map["key" := "x"];
    assert "key" in Signed(q) && "key" !in Signed(p);
    OneParam("key", "x", "y");
    ElemsEmpty(Sorted(p.Keys - {"sign"}));
    assert Written([], p) == "" && "" + ("key=" + "x&key=y") == "key=x&key=y";
    assert "key" + "=" + "x" + "&" + ("key=" + "y") == "key=x&key=y";
  }

  predicate EndsWithSeparator(w: string) {
    w != "" && w[|w| - 1] == '&'
  }

  lemma {:induction false} WrittenEnds(keys: seq<string>, params: Params)
    requires keys != [] && forall k :: k in keys ==> Get(params, k) != ""
    ensures EndsWithSeparator(Written(keys, params))
    decreases |keys|
  {
    assert keys[0] in keys && forall k :: k in keys[1..] ==> k in keys;
    if keys[1..] == [] {
    } else {
      WrittenEnds(keys[1..], params);
    }
    LastOfWritten(keys, params);
  }

  lemma LastOfWritten(keys: seq<string>, params: Params)
    requires keys != [] && Get(params, keys[0]) != ""
    requires keys[1..] != [] ==> Written(keys[1..], params) != "" && EndsWithSeparator(Written(keys[1..], params))
    ensures EndsWithSeparator(Written(keys, params))
  {
    assert keys[1..] == [] ==> Written(keys[1..], params) == "";
    hide Get;
  }

  /** The one parameter whose value is all that follows the first name. */
  ghost function Twin(params: Params): Params
    requires Signed(params) != map[]
  {
    var keys := Sorted(Signed(params).Keys);
    ElemsEmpty(keys);
    var w := Written(keys, Signed(params));
    WrittenIsLong(params);
    map[keys[0] := w[|keys[0]| + 1..|w| - 1]]
  }

  lemma WrittenIsLong(params: Params)
    requires Signed(params) != map[]
    ensures var keys := Sorted(Signed(params).Keys);
            && keys != [] && keys[0] in Signed(params)
            && var k, w := keys[0], Written(keys, Signed(params));
               && |w| > |k| + 2 && w[..|k|] == k && w[|k|] == '=' && w[|w| - 1] == '&'
  {
    var signed := Signed(params);
    var keys := Sorted(signed.Keys);
    ElemsEmpty(keys);
    assert forall k :: k in keys <==> k in Elems(keys);
    assert keys[0] in keys;
    WrittenEnds(keys, signed);
    StartsWithName(keys[0], signed[keys[0]], Written(keys[1..], signed));
  }

  lemma StartsWithName(k: string, v: string, rest: string)
    requires v != ""
    ensures var w := Part(k, v) + rest; |w| > |k| + 2 && w[..|k|] == k && w[|k|] == '='
  {}

  /** Among arbitrary messages no message with two valued parameters or more is determined by its string: its
      twin hashes the same one. So both messages have to be without separators. */
  lemma TwinHashesTheSame(params: Params, apiKey: string)
    requires Signed(params) != map[]
    ensures Canonical(Twin(params), apiKey) == Canonical(params, apiKey)
    ensures |Signed(params)| >= 2 ==> Signed(Twin(params)) != Signed(params)
  {
    var keys := Sorted(Signed(params).Keys);
    var w := Written(keys, Signed(params));
    CanonicalOfSigned(params, apiKey);
    WrittenIsLong(params);
    hide Written, Sorted, Canonical;
    var k, v := keys[0], w[|keys[0]| + 1..|w| - 1];
    TakenApart(w, k);
    hide Signed;
    OneParam(k, v, apiKey);
    SignedOne(params, k, v);
  }

  lemma TakenApart(w: string, k: string)
    requires |w| > |k| + 2 && w[..|k|] == k && w[|k|] == '=' && w[|w| - 1] == '&'
    ensures w == k + "=" + w[|k| + 1..|w| - 1] + "&"
  {}

  lemma SignedOne(params: Params, k: string, v: string)
    ensures |Signed(params)| >= 2 ==> Signed(map[k := v]) != Signed(params)
  {
    var one := Signed(map[k := v]);
    assert one.Keys == {} || one.Keys == {k};
    assert |one| == |one.Keys| <= 1;
  }

  // ---------------------------------------------------------------- client and server

  /** The hashes of the two signature types; `hmac` takes the api key first. */
  datatype Hashes = Hashes(md5: string -> string, hmac: (string, string) -> string)

  function HashFor(params: Params, apiKey: string, h: Hashes): Option<string -> string> {
    var signType := Get(params, "sign_type");
    if signType == "" || signType == "MD5" then Some(h.md5)
    else if signType == "HMAC-SHA256" then Some(s => h.hmac(apiKey, s))
    else None
  }

  /** What `PostXML` sends: it fails on an unknown type and adds the signature if there is none. */
  ghost function Completed(req: Params, apiKey: string, h: Hashes): Option<Params> {
    match HashFor(req, apiKey, h)
    case None => None
    case Some(hash) => Some(if Get(req, "sign") == "" then req["sign" := hash(Canonical(req, apiKey))] else req)
  }

  /** Whether the server's signature check lets a message through. */
  ghost predicate Accepts(msg: Params, apiKey: string, h: Hashes) {
    if Get(msg, "sign") != "" then
      HashFor(msg, apiKey, h).Some? && Get(msg, "sign") == HashFor(msg, apiKey, h).value(Canonical(msg, apiKey))
    else "req_info" in msg
  }

  /** The value of `sign_type` chooses the hash: MD5 if it has none or is `MD5`, the HMAC under the api key for
      `HMAC-SHA256`, and no other is known. */
  lemma HashesByType(params: Params, apiKey: string, h: Hashes, s: string)
    ensures var t := if "sign_type" in params then params["sign_type"] else "";
            && (t == "" || t == "MD5" ==>
                  HashFor(params, apiKey, h).Some? && HashFor(params, apiKey, h).value(s) == h.md5(s))
            && (t == "HMAC-SHA256" ==>
                  HashFor(params, apiKey, h).Some? && HashFor(params, apiKey, h).value(s) == h.hmac(apiKey, s))
            && (t != "" && t != "MD5" && t != "HMAC-SHA256" ==> HashFor(params, apiKey, h).None?)
  {}

  /** The server lets a message through exactly when it has no `sign` but `req_info`, or its `sign` is the MD5
      or the HMAC, by its `sign_type`, of its string. */
  lemma AcceptsExactly(msg: Params, apiKey: string, h: Hashes)
    ensures var sign := if "sign" in msg then msg["sign"] else "";
            var t := if "sign_type" in msg then msg["sign_type"] else "";
            Accepts(msg, apiKey, h) <==>
              || (sign == "" && "req_info" in msg)
              || (sign != "" && (t == "" || t == "MD5") && sign == h.md5(Canonical(msg, apiKey)))
              || (sign != "" && t == "HMAC-SHA256" && sign == h.hmac(apiKey, Canonical(msg, apiKey)))
  {}

  /** What the client sends: nothing under an unknown type; else the request as it is if it has a `sign`, and
      with its hash as `sign` if it has none. */
  lemma CompletedExactly(req: Params, apiKey: string, h: Hashes)
    ensures var sign := if "sign" in req then req["sign"] else "";
            var t := if "sign_type" in req then req["sign_type"] else "";
            Completed(req, apiKey, h) ==
              if t != "" && t != "MD5" && t != "HMAC-SHA256" then None
              else if sign != "" then Some(req)
              else if t == "HMAC-SHA256" then Some(req["sign" := h.hmac(apiKey, Canonical(req, apiKey))])
              else Some(req["sign" := h.md5(Canonical(req, apiKey))])
  {}

  /** The server's check of a notification. */
  method CheckSignature(msg: Params, apiKey: string, h: Hashes) returns (accepted: bool)
    ensures accepted <==> Accepts(msg, apiKey, h)
  {
    var haveSignature := Get(msg, "sign");
    if haveSignature != "" {
      var signType := Get(msg, "sign_type");
      var wantSignature;
      if signType == "" || signType == "MD5" {
        wantSignature := Sign2(msg, apiKey, h.md5);
      } else if signType == "HMAC-SHA256" {
        wantSignature := Sign2(msg, apiKey, s => h.hmac(apiKey, s));
      } else {
        return false;
      }
      return haveSignature == wantSignature;
    }
    accepted := "req_info" in msg;
  }

  /** The part of `PostXML` that completes the request. */
  method Complete(req: Params, apiKey: string, h: Hashes) returns (sent: Option<Params>)
    ensures sent == Completed(req, apiKey, h)
  {
    var signType := Get(req, "sign_type");
    if signType != "" && signType != "MD5" && signType != "HMAC-SHA256" {
      return None;
    }
    if Get(req, "sign") == "" {
      var signature;
      if signType == "HMAC-SHA256" {
        signature := Sign2(req, apiKey, s => h.hmac(apiKey, s));
      } else {
        signature := Sign2(req, apiKey, h.md5);
      }
      return Some(req["sign" := signature]);
    }
    sent := Some(req);
  }

  /** What the client signs the server accepts under the same key, also when parameters without a value
      were added or dropped on the way. */
  lemma ServerAcceptsClient(req: Params, msg: Params, apiKey: string, h: Hashes)
    requires Get(req, "sign") == "" && Completed(req, apiKey, h).Some?
    requires forall s :: h.md5(s) != "" && h.hmac(apiKey, s) != ""
    requires var sent := Completed(req, apiKey, h).value;
             Signed(msg) == Signed(sent) && Get(msg, "sign") == Get(sent, "sign")
    ensures Accepts(msg, apiKey, h)
  {
    var sent := Completed(req, apiKey, h).value;
    assert Signed(sent) == Signed(req);
    CanonicalOfSigned(req, apiKey);
    CanonicalOfSigned(msg, apiKey);
    assert Get(msg, "sign_type") == Get(Signed(msg), "sign_type");
    assert Get(req, "sign_type") == Get(Signed(req), "sign_type");
  }

  /** A message accepted with the client's signature is the one the client signed, apart from parameters
      without a value, unless two different strings have the same hash: under the one `sign_type`, if it was
      left alone, or under the two. */
  lemma AcceptedIsUnchanged(req: Params, msg: Params, apiKey: string, h: Hashes)
    requires Get(req, "sign") == "" && Completed(req, apiKey, h).Some?
    requires var sent := Completed(req, apiKey, h).value;
             Get(msg, "sign") == Get(sent, "sign") != "" && Accepts(msg, apiKey, h)
    requires Plain(Signed(req)) && Plain(Signed(msg)) && '&' !in apiKey
    ensures HashFor(msg, apiKey, h).Some?
    ensures var s, t := Canonical(req, apiKey), Canonical(msg, apiKey);
            && HashFor(req, apiKey, h).value(s) == HashFor(msg, apiKey, h).value(t)
            && (Signed(msg) == Signed(req) <==> s == t)
            && (Get(msg, "sign_type") == Get(req, "sign_type") ==>
                  HashFor(req, apiKey, h).value(s) == HashFor(req, apiKey, h).value(t))
  {
    StringDeterminesParams(req, msg, apiKey, apiKey);
  }
}
