/** Go strings, byte slices and integers, and the few facts about them that the models share.

    A Go `string` is a `string` here, one `char` for each byte. `Less` is Go's byte-wise order,
    the order in which a bolt bucket keeps its keys and in which `sort.Strings` sorts. */
module Strings {

  datatype Option<+T> = None | Some(value: T)

  datatype Result<+T> = Ok(value: T) | Err(message: string)

  // ---------------------------------------------------------------- Go's int64

  const MAX_INT64 := 0x7fff_ffff_ffff_ffff

  predicate IsInt64(n: int) {
    -MAX_INT64 - 1 <= n <= MAX_INT64
  }

  // ---------------------------------------------------------------- order

  predicate Less(a: string, b: string) {
    b != [] && (a == [] || a[0] < b[0] || (a[0] == b[0] && Less(a[1..], b[1..])))
  }

  /** One string comes before another exactly when it is a proper prefix of it, or has the lower character at
      the first place where they differ. */
  lemma {:induction false} LessExactly(a: string, b: string)
    ensures Less(a, b) <==> exists i: nat :: FirstLower(a, b, i)
  {
    if a == [] || b == [] {
      assert b != [] ==> FirstLower(a, b, 0);
    } else if a[0] != b[0] {
      assert a[0] < b[0] ==> FirstLower(a, b, 0);
      if exists i: nat :: FirstLower(a, b, i) {
        var i: nat :| FirstLower(a, b, i);
        SameStart(a, b, i);
      }
    } else {
      LessExactly(a[1..], b[1..]);
      if Less(a[1..], b[1..]) {
        var i: nat :| FirstLower(a[1..], b[1..], i);
        assert a[..i + 1] == [a[0]] + a[1..][..i] && b[..i + 1] == [b[0]] + b[1..][..i];
        assert FirstLower(a, b, i + 1);
      }
      if exists i: nat :: FirstLower(a, b, i) {
        var i: nat :| FirstLower(a, b, i);
        assert a[..i][1..] == a[1..][..i - 1] && b[..i][1..] == b[1..][..i - 1];
        assert FirstLower(a[1..], b[1..], i - 1);
      }
    }
  }

  lemma SameStart(a: string, b: string, i: nat)
    requires i <= |a| && i <= |b| && a[..i] == b[..i]
    ensures i > 0 ==> a[0] == b[0]
  {
    assert i > 0 ==> a[..i][0] == a[0] && b[..i][0] == b[0];
  }

  predicate FirstLower(a: string, b: string, i: nat) {
    i <= |a| && i < |b| && a[..i] == b[..i] && (i == |a| || a[i] < b[i])
  }

  lemma {:induction false} LessTotal(a: string, b: string)
    ensures Less(a, b) || a == b || Less(b, a)
  {
    if a == [] || b == [] || a[0] != b[0] {
    } else {
      LessTotal(a[1..], b[1..]);
      assert a == [a[0]] + a[1..] && b == [b[0]] + b[1..];
    }
  }

  lemma {:induction false} LessAsymmetric(a: string, b: string)
    requires Less(a, b)
    ensures !Less(b, a) && a != b
  {
    if a == [] || a[0] != b[0] {
    } else {
      LessAsymmetric(a[1..], b[1..]);
    }
  }

  lemma {:induction false} LessTransitive(a: string, b: string, c: string)
    requires Less(a, b) && Less(b, c)
    ensures Less(a, c)
  {
    if a == [] || a[0] != b[0] || b[0] != c[0] {
    } else {
      LessTransitive(a[1..], b[1..], c[1..]);
    }
  }

  /** A common prefix does not matter to the order. */
  lemma {:induction false} LessUnderPrefix(p: string, a: string, b: string)
    ensures Less(p + a, p + b) == Less(a, b)
  {
    if p == [] {
      assert p + a == a && p + b == b;
    } else {
      assert (p + a)[1..] == p[1..] + a && (p + b)[1..] == p[1..] + b;
      LessUnderPrefix(p[1..], a, b);
    }
  }

  /** Once the order has passed the strings that start with `p`, none of them comes again. */
  lemma {:induction false} PastPrefix(p: string, x: string, y: string)
    requires !Less(x, p) && !(p <= x) && Less(x, y)
    ensures !(p <= y)
  {
    if !(p <= y) || x[0] != p[0] {
    } else {
      PastPrefix(p[1..], x[1..], y[1..]);
    }
  }

  /** No string that starts with `p` comes before `p`. */
  lemma {:induction false} NotBelowPrefix(p: string, x: string)
    requires p <= x
    ensures !Less(x, p)
  {
    if p == [] {
    } else {
      NotBelowPrefix(p[1..], x[1..]);
    }
  }

  // ---------------------------------------------------------------- sorted key lists

  function Elems(s: seq<string>): set<string> {
    set x | x in s
  }

  ghost predicate StrictlySorted(s: seq<string>) {
    forall i, j :: 0 <= i < j < |s| ==> Less(s[i], s[j])
  }

  function Insert(s: seq<string>, x: string): (r: seq<string>)
    ensures Elems(r) == Elems(s) + {x} && |r| == |s| + 1
  {
    if s == [] then [x]
    else if Less(x, s[0]) then [x] + s
    else
      var r := [s[0]] + Insert(s[1..], x);
      assert s == [s[0]] + s[1..];
      assert forall y :: y in r <==> y == s[0] || y in Insert(s[1..], x);
      assert forall y :: y in Insert(s[1..], x) <==> y in Elems(Insert(s[1..], x));
      r
  }

  lemma {:induction false} InsertSorted(s: seq<string>, x: string)
    requires StrictlySorted(s) && x !in s
    ensures StrictlySorted(Insert(s, x))
  {
    if s == [] {
    } else if Less(x, s[0]) {
      forall j | 0 <= j < |s| ensures Less(x, s[j]) {
        if j > 0 { LessTransitive(x, s[0], s[j]); }
      }
    } else {
      LessTotal(x, s[0]);
      var t := Insert(s[1..], x);
      InsertSorted(s[1..], x);
      forall j | 0 <= j < |t| ensures Less(s[0], t[j]) {
        assert t[j] in Elems(t);
      }
    }
  }

  /** Strictly sorted lists with the same elements are equal. */
  lemma {:induction false} SortedUnique(s: seq<string>, t: seq<string>)
    requires StrictlySorted(s) && StrictlySorted(t) && Elems(s) == Elems(t)
    ensures s == t
  {
    if s == [] {
      ElemsEmpty(t);
    } else {
      assert s[0] in Elems(t);
      assert t[0] in Elems(s);
      if s[0] != t[0] {
        LessAsymmetric(s[0], t[0]);
      }
      TailElems(s);
      TailElems(t);
      SortedUnique(s[1..], t[1..]);
      assert s == [s[0]] + s[1..] && t == [t[0]] + t[1..];
    }
  }

  lemma ElemsEmpty(s: seq<string>)
    ensures Elems(s) == {} <==> s == []
  {
    if s != [] {
      assert s[0] in Elems(s);
    }
  }

  lemma TailElems(s: seq<string>)
    requires StrictlySorted(s) && s != []
    ensures Elems(s[1..]) == Elems(s) - {s[0]}
  {
    forall x ensures x in s[1..] <==> x in s && x != s[0] {
      if x in s[1..] {
        var j :| 1 <= j < |s| && s[j] == x;
        LessAsymmetric(s[0], s[j]);
      }
    }
  }

  /** The keys of a set in order. */
  ghost function Sorted(ks: set<string>): (s: seq<string>)
    ensures StrictlySorted(s) && Elems(s) == ks
  {
    if ks == {} then []
    else
      var k :| k in ks;
      var r := Sorted(ks - {k});
      assert k !in Elems(r);
      InsertSorted(r, k);
      Insert(r, k)
  }

  // ---------------------------------------------------------------- searching and splitting

  /** `bytes.Index` and `strings.Index`: the least position at which `pat` occurs, or -1. */
  function Index(s: string, pat: string): (i: int)
    ensures -1 <= i <= |s| - |pat| || i == -1
    ensures i >= 0 ==> i + |pat| <= |s| && pat <= s[i..]
    ensures forall j :: 0 <= j <= |s| && (i == -1 || j < i) ==> !(pat <= s[j..])
  {
    if pat <= s then 0
    else if s == [] then -1
    else
      var k := Index(s[1..], pat);
      assert forall j :: 1 <= j <= |s| ==> s[j..] == s[1..][j - 1..];
      if k == -1 then -1 else k + 1
  }

  /** A stretch in which `pat` starts nowhere is skipped by the search. */
  lemma {:induction false} IndexSkips(seg: string, rest: string, pat: string)
    requires forall j :: 0 <= j < |seg| ==> !(pat <= (seg + rest)[j..])
    ensures Index(seg + rest, pat) == (if Index(rest, pat) == -1 then -1 else |seg| + Index(rest, pat))
  {
    if seg == [] {
      assert seg + rest == rest;
    } else {
      var s := seg + rest;
      assert s[0..] == s;
      assert s[1..] == seg[1..] + rest;
      forall j | 0 <= j < |seg[1..]| ensures !(pat <= (seg[1..] + rest)[j..]) {
        assert (seg[1..] + rest)[j..] == s[j + 1..];
      }
      IndexSkips(seg[1..], rest, pat);
    }
  }

  /** `strings.Split(s, ":")`. */
  function Split(s: string): (parts: seq<string>)
    ensures |parts| >= 1
    ensures |parts| == 1 <==> ':' !in s
    ensures |parts| == 1 ==> parts == [s]
  {
    if s == [] then [s]
    else
      var rest := Split(s[1..]);
      assert s == [s[0]] + s[1..];
      if s[0] == ':' then [""] + rest else [[s[0]] + rest[0]] + rest[1..]
  }

  function Joined(parts: seq<string>): string
    requires parts != []
  {
    if |parts| == 1 then parts[0] else parts[0] + ":" + Joined(parts[1..])
  }

  /** The parts have no colon, and put together with colons they are the text again. */
  lemma {:induction false} SplitExactly(s: string)
    ensures Joined(Split(s)) == s && forall i :: 0 <= i < |Split(s)| ==> ':' !in Split(s)[i]
  {
    if s == "" {
    } else {
      var rest := Split(s[1..]);
      SplitExactly(s[1..]);
      assert s == [s[0]] + s[1..];
      if s[0] == ':' {
        JoinedMore("", rest);
      } else {
        JoinedLonger(s[0], rest);
      }
      hide Joined;
    }
  }

  lemma JoinedMore(first: string, rest: seq<string>)
    requires rest != []
    ensures Joined([first] + rest) == first + ":" + Joined(rest)
  {
    assert ([first] + rest)[1..] == rest;
  }

  lemma JoinedLonger(c: char, parts: seq<string>)
    requires parts != []
    ensures Joined([[c] + parts[0]] + parts[1..]) == [c] + Joined(parts)
  {
    assert ([[c] + parts[0]] + parts[1..])[1..] == parts[1..];
    if |parts| > 1 {
      assert [c] + parts[0] + ":" + Joined(parts[1..]) == [c] + (parts[0] + ":" + Joined(parts[1..]));
    }
  }

  /** What precedes the first colon is the first part, what follows it is split further. */
  lemma {:induction false} SplitAtColon(a: string, b: string)
    requires ':' !in a
    ensures Split(a + ":" + b) == [a] + Split(b)
  {
    var s := a + ":" + b;
    if a == [] {
      assert s[1..] == b;
    } else {
      assert s[1..] == a[1..] + ":" + b;
      SplitAtColon(a[1..], b);
      assert [a[0]] + a[1..] == a;
    }
  }

  // ---------------------------------------------------------------- decimal numerals

  function Digit(d: int): char
    requires 0 <= d < 10
  {
    (d + 48) as char
  }

  predicate IsDigit(c: char) {
    '0' <= c <= '9'
  }

  predicate Digits(s: string) {
    forall i :: 0 <= i < |s| ==> IsDigit(s[i])
  }

  function NatNumeral(n: nat): (s: string)
    ensures s != [] && Digits(s)
  {
    if n < 10 then [Digit(n)] else NatNumeral(n / 10) + [Digit(n % 10)]
  }

  /** `fmt.Sprintf("%d", n)`. */
  function Numeral(n: int): (s: string)
    ensures s != [] && (s[0] == '-' || IsDigit(s[0])) && ':' !in s
  {
    if n < 0 then "-" + NatNumeral(-n) else NatNumeral(n)
  }

  /** The number that a run of digits stands for. */
  function NatValue(s: string): nat
    requires Digits(s)
  {
    if s == [] then 0 else 10 * NatValue(s[..|s| - 1]) + (s[|s| - 1] as int - 48)
  }

  lemma {:induction false} NatValueOfNumeral(n: nat)
    ensures NatValue(NatNumeral(n)) == n
  {
    var s := NatNumeral(n);
    if n >= 10 {
      NatValueOfNumeral(n / 10);
      assert s[..|s| - 1] == NatNumeral(n / 10);
    } else {
      assert s[..|s| - 1] == [];
    }
  }

  lemma NumeralInjective(a: int, b: int)
    requires Numeral(a) == Numeral(b)
    ensures a == b
  {
    if a < 0 {
      assert Numeral(a)[1..] == NatNumeral(-a);
      NatValueOfNumeral(-a);
    } else {
      NatValueOfNumeral(a);
    }
    if b < 0 {
      assert Numeral(b)[1..] == NatNumeral(-b);
      NatValueOfNumeral(-b);
    } else {
      NatValueOfNumeral(b);
    }
  }
}
