/** The three kinds of keys that share one bolt bucket in `idmap/service.go`, and how rows are written
    into keys and values: forward keys (an id), reverse keys (`row-N`) and pairs (`a:b`). */
module RowKeys {
  import opened Strings

  const TWO_64 := 0x1_0000_0000_0000_0000
  const COUNTER_KEY := "currentRow"

  /** What int64 arithmetic makes of a result. */
  function WrapInt64(n: int): (r: int)
    ensures IsInt64(r) && (IsInt64(n) ==> r == n)
  {
    (n + MAX_INT64 + 1) % TWO_64 - MAX_INT64 - 1
  }

  /** What the callers of this store use as an id. */
  predicate ValidId(id: string) {
    id != "" && ':' !in id && !("row-" <= id) && id != COUNTER_KEY
  }

  function RowKey(n: int): string {
    "row-" + Numeral(n)
  }

  /** Reverse keys tell rows apart, and are neither ids, nor pairs, nor the counter. */
  lemma RowKeyKinds(n: int)
    ensures ':' !in RowKey(n) && !ValidId(RowKey(n)) && RowKey(n) != COUNTER_KEY
  {
    assert RowKey(n)[0] == 'r' && COUNTER_KEY[0] == 'c';
  }

  lemma RowKeyInjective(m: int, n: int)
    requires RowKey(m) == RowKey(n)
    ensures m == n
  {
    assert Numeral(m) == RowKey(m)[4..] == RowKey(n)[4..] == Numeral(n);
    NumeralInjective(m, n);
  }

  // ---------------------------------------------------------------- rows as 8 bytes

  function Pow256(k: nat): nat {
    if k == 0 then 1 else 256 * Pow256(k - 1)
  }

  function BigEndian(n: nat, k: nat): (s: string)
    ensures |s| == k
  {
    if k == 0 then "" else BigEndian(n / 256, k - 1) + [(n % 256) as char]
  }

  function FromBigEndian(s: string): nat {
    if s == "" then 0 else 256 * FromBigEndian(s[..|s| - 1]) + s[|s| - 1] as int
  }

  lemma {:induction false} BigEndianRoundTrip(n: nat, k: nat)
    requires n < Pow256(k)
    ensures FromBigEndian(BigEndian(n, k)) == n
  {
    if k == 0 {
    } else {
      var s := BigEndian(n, k);
      BigEndianRoundTrip(n / 256, k - 1);
      assert s[..|s| - 1] == BigEndian(n / 256, k - 1);
    }
  }

  lemma Pow256Of8()
    ensures Pow256(8) == TWO_64
  {
    assert Pow256(2) == 0x1_0000;
    assert Pow256(4) == 0x1_0000_0000;
    assert Pow256(6) == 0x1_0000_0000_0000;
  }

  /** `binary.BigEndian.PutUint64(rowBytes, uint64(n))`. */
  function RowBytes(n: int): (s: string)
    requires IsInt64(n)
    ensures |s| == 8
  {
    BigEndian(if n < 0 then n + TWO_64 else n, 8)
  }

  /** `int64(binary.BigEndian.Uint64(b))`. */
  function RowOf(b: string): int {
    var u := FromBigEndian(b);
    if u > MAX_INT64 then u - TWO_64 else u
  }

  lemma RowRoundTrip(n: int)
    requires IsInt64(n)
    ensures RowOf(RowBytes(n)) == n
  {
    Pow256Of8();
    BigEndianRoundTrip(if n < 0 then n + TWO_64 else n, 8);
  }

  /** A row's 8 bytes are its two's complement, the highest byte first. */
  lemma RowInBytes(n: int)
    requires IsInt64(n)
    ensures var b := RowBytes(n);
            && (forall i :: 0 <= i < 8 ==> 0 <= b[i] as int < 256)
            && b[0] as int * 0x100_0000_0000_0000 + b[1] as int * 0x1_0000_0000_0000 + b[2] as int * 0x100_0000_0000
               + b[3] as int * 0x1_0000_0000 + b[4] as int * 0x100_0000 + b[5] as int * 0x1_0000
               + b[6] as int * 0x100 + b[7] as int
               == if n < 0 then n + 18446744073709551616 else n
  {
    var u := if n < 0 then n + TWO_64 else n;
    Pow256Of8();
    BigEndianRoundTrip(u, 8);
    BytesAreBytes(u, 8);
    EightBytes(RowBytes(n));
  }

  lemma {:induction false} BytesAreBytes(n: nat, k: nat)
    ensures forall i :: 0 <= i < k ==> 0 <= BigEndian(n, k)[i] as int < 256
  {
    if k == 0 {
    } else {
      BytesAreBytes(n / 256, k - 1);
    }
  }

  lemma EightBytes(b: string)
    requires |b| == 8
    ensures FromBigEndian(b) == b[0] as int * 0x100_0000_0000_0000 + b[1] as int * 0x1_0000_0000_0000
              + b[2] as int * 0x100_0000_0000 + b[3] as int * 0x1_0000_0000 + b[4] as int * 0x100_0000
              + b[5] as int * 0x1_0000 + b[6] as int * 0x100 + b[7] as int
  {
    FourMore(b, 0);
    FourMore(b, 4);
    assert b[..8] == b && FromBigEndian(b[..0]) == 0;
    hide FromBigEndian;
  }

  lemma FourMore(b: string, k: nat)
    requires k + 4 <= |b|
    ensures FromBigEndian(b[..k + 4]) == 0x1_0000_0000 * FromBigEndian(b[..k]) + b[k] as int * 0x100_0000
              + b[k + 1] as int * 0x1_0000 + b[k + 2] as int * 0x100 + b[k + 3] as int
  {
    LastByte(b, k + 1);
    LastByte(b, k + 2);
    LastByte(b, k + 3);
    LastByte(b, k + 4);
    hide FromBigEndian;
  }

  lemma LastByte(b: string, k: nat)
    requires 0 < k <= |b|
    ensures FromBigEndian(b[..k]) == 256 * FromBigEndian(b[..k - 1]) + b[k - 1] as int
  {
    assert b[..k][..k - 1] == b[..k - 1];
  }

  // ---------------------------------------------------------------- rows from a hash

  function OnlyDigits(s: string): (d: string)
    ensures Digits(d)
  {
    if s == "" then "" else (if IsDigit(s[0]) then [s[0]] else "") + OnlyDigits(s[1..])
  }

  /** `strconv.ParseInt` on a run of digits. */
  function ParseDigits(s: string): (r: Result<int>)
    requires Digits(s)
    ensures r.Ok? ==> 0 <= r.value <= MAX_INT64
  {
    if s == "" || NatValue(s) > MAX_INT64 then Err("ParseInt") else Ok(NatValue(s))
  }

  /** The first `length` digits of the hash of an id; `hash` is the MD5 sum in hexadecimal. */
  function GenerateRowID(hash: string, length: nat): (r: Result<int>)
    ensures r.Ok? ==> 0 <= r.value <= MAX_INT64
  {
    var digits := OnlyDigits(hash);
    if |digits| < length then Err("not enough digits in MD5 hash") else ParseDigits(digits[..length])
  }

  function Pow10(k: nat): nat {
    if k == 0 then 1 else 10 * Pow10(k - 1)
  }

  lemma {:induction false} NatValueBound(s: string)
    requires Digits(s)
    ensures NatValue(s) < Pow10(|s|)
  {
    if s == "" {
    } else {
      assert IsDigit(s[|s| - 1]);
      NatValueBound(s[..|s| - 1]);
    }
  }

  /** A hashed row of 9 or 10 digits has at most that many, and is refused exactly when the hash has too
      few digits: the number itself always fits. */
  lemma HashRowExact(hash: string, length: nat)
    requires length == 9 || length == 10
    ensures GenerateRowID(hash, length).Ok? <==> |OnlyDigits(hash)| >= length
    ensures GenerateRowID(hash, length).Ok? ==> GenerateRowID(hash, length).value < Pow10(length)
  {
    var digits := OnlyDigits(hash);
    assert Pow10(5) == 100_000;
    assert Pow10(10) == 10_000_000_000;
    if |digits| >= length {
      NatValueBound(digits[..length]);
    }
  }

  /** These are the first digits of a text: their places ascend, and no other digit stands before the last. */
  ghost predicate FirstDigits(text: string, places: seq<nat>) {
    && (forall i :: 0 <= i < |places| ==> places[i] < |text| && '0' <= text[places[i]] <= '9')
    && (forall i, j :: 0 <= i < j < |places| ==> places[i] < places[j])
    && (forall p :: 0 <= p < |text| && '0' <= text[p] <= '9' ==>
          p in places || forall i :: 0 <= i < |places| ==> places[i] < p)
  }

  /** The value of a numeral by the weights of its digits, from the left. */
  function DecimalValue(s: string): int {
    if s == "" then 0 else (s[0] as int - 48) * Pow10(|s| - 1) + DecimalValue(s[1..])
  }

  lemma {:induction false} ValueByWeight(s: string)
    requires Digits(s)
    ensures NatValue(s) == DecimalValue(s)
  {
    if s == "" {
    } else {
      ValueByWeight(s[..|s| - 1]);
      LastWeight(s);
    }
  }

  lemma {:induction false} LastWeight(s: string)
    requires s != ""
    ensures DecimalValue(s) == 10 * DecimalValue(s[..|s| - 1]) + (s[|s| - 1] as int - 48)
  {
    var init := s[..|s| - 1];
    if |s| == 1 {
      assert Pow10(0) == 1 && s[1..] == "";
    } else {
      LastWeight(s[1..]);
      assert s[1..][..|s| - 2] == init[1..];
      var d, w := s[0] as int - 48, Pow10(|s| - 2);
      assert DecimalValue(init) == d * w + DecimalValue(init[1..]);
      assert Pow10(|s| - 1) == 10 * w;
      TenTimes(d, w);
    }
  }

  lemma TenTimes(d: int, w: int)
    ensures d * (10 * w) == 10 * (d * w)
  {}

  /** The places of all digits from one place on. */
  function DigitPlaces(s: string, from: nat): seq<nat>
    requires from <= |s|
    decreases |s| - from
  {
    if from == |s| then []
    else (if IsDigit(s[from]) then [from] else []) + DigitPlaces(s, from + 1)
  }

  ghost predicate ArePlaces(s: string, from: nat, places: seq<nat>, digits: string) {
    && |places| == |digits|
    && (forall i :: 0 <= i < |places| ==>
          from <= places[i] < |s| && IsDigit(s[places[i]]) && digits[i] == s[places[i]])
    && (forall i, j :: 0 <= i < j < |places| ==> places[i] < places[j])
    && (forall p: nat :: from <= p < |s| && IsDigit(s[p]) ==> p in places)
  }

  lemma OnePlace(s: string, from: nat, places: seq<nat>, digits: string)
    requires from < |s| && ArePlaces(s, from + 1, places, digits)
    ensures if IsDigit(s[from]) then ArePlaces(s, from, [from] + places, [s[from]] + digits)
            else ArePlaces(s, from, places, digits)
  {
    hide IsDigit;
    assert forall p :: p in [from] + places <==> p == from || p in places;
  }

  lemma {:induction false} PlacesOfDigits(s: string, from: nat)
    requires from <= |s|
    ensures ArePlaces(s, from, DigitPlaces(s, from), OnlyDigits(s[from..]))
    decreases |s| - from
  {
    if from == |s| {
    } else {
      PlacesOfDigits(s, from + 1);
      assert s[from..][1..] == s[from + 1..];
      OnePlace(s, from, DigitPlaces(s, from + 1), OnlyDigits(s[from + 1..]));
      assert [] + DigitPlaces(s, from + 1) == DigitPlaces(s, from + 1);
      assert "" + OnlyDigits(s[from + 1..]) == OnlyDigits(s[from + 1..]);
      hide ArePlaces, IsDigit;
    }
  }

  function PickedAt(text: string, places: seq<nat>): (s: string)
    requires forall i :: 0 <= i < |places| ==> places[i] < |text|
    ensures |s| == |places| && forall i :: 0 <= i < |places| ==> s[i] == text[places[i]]
  {
    seq(|places|, i requires 0 <= i < |places| => text[places[i]])
  }

  /** `n` is the decimal value of the characters at the first `length` digit places of the hash. */
  ghost predicate IsRowOfHash(hash: string, length: nat, n: int) {
    exists places: seq<nat> :: RowAt(hash, places, length, n)
  }

  ghost predicate RowAt(hash: string, places: seq<nat>, length: nat, n: int) {
    |places| == length && FirstDigits(hash, places) && n == DecimalValue(PickedAt(hash, places))
  }

  lemma HashRowReadsFirst(hash: string, length: nat)
    requires GenerateRowID(hash, length).Ok?
    ensures IsRowOfHash(hash, length, GenerateRowID(hash, length).value)
  {
    PlacesOfDigits(hash, 0);
    assert hash[0..] == hash;
    var places := DigitPlaces(hash, 0)[..length];
    assert PickedAt(hash, places) == OnlyDigits(hash)[..length];
    ValueByWeight(OnlyDigits(hash)[..length]);
    assert FirstDigits(hash, places);
    assert RowAt(hash, places, length, GenerateRowID(hash, length).value);
  }

  lemma {:induction false} SamePlace(text: string, one: seq<nat>, other: seq<nat>, i: nat)
    requires FirstDigits(text, one) && FirstDigits(text, other) && i < |one| && i < |other|
    ensures one[i] == other[i]
    decreases i
  {
    forall j | 0 <= j < i ensures one[j] == other[j] {
      SamePlace(text, one, other, j);
    }
    NotBefore(text, one, other, i);
    NotBefore(text, other, one, i);
  }

  lemma NotBefore(text: string, one: seq<nat>, other: seq<nat>, i: nat)
    requires FirstDigits(text, one) && FirstDigits(text, other) && i < |one| && i < |other|
    requires forall j :: 0 <= j < i ==> one[j] == other[j]
    ensures one[i] >= other[i]
  {
    var p := one[i];
    assert forall j :: 0 <= j < i ==> other[j] < p;
    assert p in other || forall j :: 0 <= j < |other| ==> other[j] < p;
  }

  lemma SamePlaces(text: string, one: seq<nat>, other: seq<nat>)
    requires FirstDigits(text, one) && FirstDigits(text, other) && |one| == |other|
    ensures one == other
  {
    forall i | 0 <= i < |one| ensures one[i] == other[i] {
      SamePlace(text, one, other, i);
    }
  }

  ghost function PlaceSet(places: seq<nat>): (ps: set<nat>)
    ensures forall p :: p in ps <==> p in places
  {
    set p | p in places
  }

  lemma {:induction false} AscendingCounts(places: seq<nat>)
    requires forall i, j :: 0 <= i < j < |places| ==> places[i] < places[j]
    ensures |PlaceSet(places)| == |places|
  {
    if places == [] {
      assert PlaceSet(places) == {};
    } else {
      var init, last := places[..|places| - 1], places[|places| - 1];
      AscendingCounts(init);
      forall i | 0 <= i < |init| ensures init[i] < last {
        assert init[i] == places[i];
      }
      assert places == init + [last];
      assert PlaceSet(places) == PlaceSet(init) + {last};
    }
  }

  lemma Subset(a: set<nat>, b: set<nat>)
    requires a <= b
    ensures |a| <= |b|
  {
    assert b == a + (b - a);
  }

  /** The row of a hash is the decimal value of its first 9 or 10 digits, and there is one exactly when it has
      that many; no such number is too large. */
  lemma RowOfHashExactly(hash: string, length: nat, n: int)
    requires length == 9 || length == 10
    ensures GenerateRowID(hash, length) == Ok(n) <==> IsRowOfHash(hash, length, n)
  {
    HashRowExact(hash, length);
    if IsRowOfHash(hash, length, n) {
      var places: seq<nat> :| RowAt(hash, places, length, n);
      EnoughDigits(hash, places);
      HashRowReadsFirst(hash, length);
      var found: seq<nat> :| RowAt(hash, found, length, GenerateRowID(hash, length).value);
      SamePlaces(hash, places, found);
    }
    if GenerateRowID(hash, length).Ok? {
      HashRowReadsFirst(hash, length);
    }
  }

  lemma EnoughDigits(hash: string, places: seq<nat>)
    requires FirstDigits(hash, places)
    ensures |places| <= |OnlyDigits(hash)|
  {
    PlacesOfDigits(hash, 0);
    assert hash[0..] == hash;
    var all := DigitPlaces(hash, 0);
    AscendingCounts(places);
    AscendingCounts(all);
    forall p | p in places ensures p in all {
      var i :| 0 <= i < |places| && places[i] == p;
    }
    hide DigitPlaces, OnlyDigits;
    Subset(PlaceSet(places), PlaceSet(all));
  }

  lemma {:induction false} DigitsStay(s: string)
    requires Digits(s)
    ensures OnlyDigits(s) == s
  {
    if s == "" {
    } else {
      DigitsStay(s[1..]);
    }
  }

  /** A hash that is 9 digits is its own row. */
  lemma NineDigits(hash: string)
    requires Digits(hash) && |hash| == 9
    ensures GenerateRowID(hash, 9) == Ok(NatValue(hash))
  {
    DigitsStay(hash);
    HashRowExact(hash, 9);
    assert hash[..9] == hash;
  }

  // ---------------------------------------------------------------- pairs

  function Pair(a: string, b: string): (p: string)
    ensures ':' in p
  {
    assert (a + ":" + b)[|a|] == ':';
    a + ":" + b
  }

  function VirtualPair(m: int, n: int): (p: string)
    ensures ':' in p
  {
    Pair(Numeral(m), Numeral(n))
  }

  /** The digits at the start of a string. */
  function DigitRun(s: string): (n: nat)
    ensures n <= |s| && Digits(s[..n]) && (n < |s| ==> !IsDigit(s[n]))
  {
    if s == "" || !IsDigit(s[0]) then 0 else 1 + DigitRun(s[1..])
  }

  /** What `%d` reads at the start of a string, and what follows it. */
  function ScanInt(s: string): Option<(int, string)> {
    var signed := s != "" && (s[0] == '-' || s[0] == '+');
    var t := if signed then s[1..] else s;
    var n := DigitRun(t);
    var value: int := if s != "" && s[0] == '-' then 0 - NatValue(t[..n]) else NatValue(t[..n]);
    if n > 0 && IsInt64(value) then Some((value, t[n..])) else None
  }

  /** `fmt.Sscanf(s, "%d:%d", &m, &n)` into variables that are 0: what is not read stays 0. */
  function ScanPair(s: string): (int, int) {
    match ScanInt(s)
    case None => (0, 0)
    case Some((m, rest)) =>
      if rest == "" || rest[0] != ':' then (m, 0)
      else match ScanInt(rest[1..])
        case None => (m, 0)
        case Some((n, _)) => (m, n)
  }

  lemma {:induction false} DigitRunOf(d: string, rest: string)
    requires Digits(d) && (rest == "" || !IsDigit(rest[0]))
    ensures DigitRun(d + rest) == |d|
  {
    if d == "" {
      assert d + rest == rest;
    } else {
      assert (d + rest)[1..] == d[1..] + rest;
      DigitRunOf(d[1..], rest);
    }
  }

  lemma ScanNumeral(n: int, rest: string)
    requires IsInt64(n) && (rest == "" || !IsDigit(rest[0]))
    ensures ScanInt(Numeral(n) + rest) == Some((n, rest))
  {
    var d := NatNumeral(if n < 0 then -n else n);
    NatValueOfNumeral(if n < 0 then -n else n);
    NumeralIs(n, rest);
    hide *;
    if n < 0 {
      ScanNegative(d, rest);
    } else {
      ScanPositive(d, rest);
    }
  }

  lemma NumeralIs(n: int, rest: string)
    ensures n < 0 ==> Numeral(n) + rest == "-" + (NatNumeral(-n) + rest)
    ensures n >= 0 ==> Numeral(n) + rest == NatNumeral(n) + rest
  {
    hide NatNumeral;
  }

  lemma ScanPositive(d: string, rest: string)
    requires d != "" && Digits(d) && (rest == "" || !IsDigit(rest[0])) && NatValue(d) <= MAX_INT64
    ensures ScanInt(d + rest) == Some((NatValue(d) as int, rest))
  {
    hide NatValue, DigitRun;
    var s := d + rest;
    assert IsDigit(s[0]);
    DigitRunOf(d, rest);
    assert s[..|d|] == d && s[|d|..] == rest;
  }

  lemma ScanNegative(d: string, rest: string)
    requires d != "" && Digits(d) && (rest == "" || !IsDigit(rest[0])) && NatValue(d) <= MAX_INT64 + 1
    ensures ScanInt("-" + (d + rest)) == Some((0 - NatValue(d) as int, rest))
  {
    hide NatValue, DigitRun;
    var t := d + rest;
    assert ("-" + t)[1..] == t;
    DigitRunOf(d, rest);
    assert t[..|d|] == d && t[|d|..] == rest;
  }

  /** A pair of rows is read back as it was written. */
  lemma ScanVirtualPair(m: int, n: int)
    requires IsInt64(m) && IsInt64(n)
    ensures ScanPair(VirtualPair(m, n)) == (m, n)
  {
    hide ScanInt, Numeral;
    var rest := ":" + Numeral(n);
    assert VirtualPair(m, n) == Numeral(m) + rest;
    ScanNumeral(m, rest);
    assert rest[1..] == Numeral(n) + "";
    ScanNumeral(n, "");
  }

  /** What is not a number at the start of a value reads as 0, and so does what does not follow a colon. */
  lemma ScanPartly(s: string, m: int, rest: string)
    requires IsInt64(m) && (rest == "" || (!IsDigit(rest[0]) && rest[0] != ':'))
    ensures s == "" || (!IsDigit(s[0]) && s[0] != '-' && s[0] != '+') ==> ScanPair(s) == (0, 0)
    ensures ScanPair(Numeral(m) + rest) == (m, 0)
  {
    ScanNumeral(m, rest);
  }

  lemma VirtualPairInjective(m: int, n: int, x: int, y: int)
    requires VirtualPair(m, n) == VirtualPair(x, y)
    ensures m == x && n == y
  {
    SplitAtColon(Numeral(m), Numeral(n));
    SplitAtColon(Numeral(x), Numeral(y));
    assert Split(VirtualPair(m, n)) == [Numeral(m), Numeral(n)];
    assert Split(VirtualPair(x, y)) == [Numeral(x), Numeral(y)];
    NumeralInjective(m, x);
    NumeralInjective(n, y);
  }

  // ---------------------------------------------------------------- what keys look like

  /** A number is printed with its digits in order, without leading zeros, and with a minus if it is
      negative. */
  lemma PrintedInDecimal(n: int)
    ensures var s := Numeral(n);
            if n < 0 then s == "-" + Numeral(-n)
            else Digits(s) && DecimalValue(s) == n && (s[0] == '0' ==> s == "0")
  {
    if n >= 0 {
      NatValueOfNumeral(n);
      ValueByWeight(NatNumeral(n));
      NoLeadingZero(n);
    }
  }

  lemma {:induction false} NoLeadingZero(n: nat)
    ensures NatNumeral(n)[0] == '0' <==> n == 0
    ensures n == 0 ==> NatNumeral(n) == "0"
  {
    if n < 10 {
    } else {
      NoLeadingZero(n / 10);
    }
  }

  lemma KeyNames(m: int, n: int, a: string, b: string)
    ensures COUNTER_KEY == "currentRow" && RowKey(n) == "row-" + Numeral(n)
    ensures Pair(a, b) == a + ":" + b && VirtualPair(m, n) == Numeral(m) + ":" + Numeral(n)
    ensures IsInt64(n) <==> -9223372036854775808 <= n <= 9223372036854775807
    ensures ValidId(a) <==> a != "" && ':' !in a && !("row-" <= a) && a != "currentRow"
  {}
}
