/** ASCII lower case (`wechat/internal/util/to_lower.go`), under which message types are registered and
    looked up. The buffer is only made once an upper-case letter is met. */
module LowerCase {

  function Lower(c: char): char {
    if 'A' <= c <= 'Z' then (c as int + 32) as char else c
  }

  predicate IsUpper(c: char) {
    'A' <= c <= 'Z'
  }

  function Lowered(s: string): (r: string)
    ensures |r| == |s| && forall i :: 0 <= i < |s| ==> r[i] == Lower(s[i])
  {
    seq(|s|, i requires 0 <= i < |s| => Lower(s[i]))
  }

  method ToLower(s: string) returns (r: string)
    ensures r == Lowered(s)
  {
    var b: array?<char> := null;
    var i := 0;
    while i < |s|
      invariant 0 <= i <= |s|
      invariant b == null ==> forall k :: 0 <= k < i ==> Lower(s[k]) == s[k]
      invariant b != null ==> fresh(b) && b.Length == |s| && forall k :: 0 <= k < i ==> b[k] == Lower(s[k])
    {
      var c := s[i];
      if c > 'Z' || c < 'A' {
        if b != null {
          b[i] := c;
        }
      } else {
        c := (c as int + 32) as char;
        if b == null {
          b := new char[|s|](k requires 0 <= k < |s| => if k < i then s[k] else '\0');
        }
        b[i] := c;
      }
      i := i + 1;
    }
    if b != null {
      r := b[..];
    } else {
      r := s;
    }
    assert forall k :: 0 <= k < |s| ==> r[k] == Lowered(s)[k];
  }

  /** A byte from `A` to `Z` becomes the one 32 above it, any other stays. */
  lemma LoweredBytes(s: string, i: nat)
    requires i < |s|
    ensures if 65 <= s[i] as int <= 90 then Lowered(s)[i] as int == s[i] as int + 32 else Lowered(s)[i] == s[i]
  {}

  /** Equal up to the case of ASCII letters. */
  predicate SameLetters(s: string, t: string) {
    |s| == |t| && forall i :: 0 <= i < |s| ==>
      || s[i] == t[i]
      || (IsUpper(s[i]) && t[i] as int == s[i] as int + 32)
      || (IsUpper(t[i]) && s[i] as int == t[i] as int + 32)
  }

  /** Two types reach the same chain exactly when they are equal up to the case of ASCII letters, and a
      type under which a chain is kept is its own lower case. */
  lemma SameKeyExactly(s: string, t: string)
    ensures Lowered(s) == Lowered(t) <==> SameLetters(s, t)
    ensures forall c :: IsUpper(c) <==> 65 <= c as int <= 90
    ensures Lowered(Lowered(s)) == Lowered(s)
  {
    if SameLetters(s, t) {
      forall i | 0 <= i < |s| ensures Lowered(s)[i] == Lowered(t)[i] {}
    }
    if Lowered(s) == Lowered(t) {
      assert |s| == |t|;
      forall i | 0 <= i < |s| ensures Lower(s[i]) == Lower(t[i]) {
        assert Lowered(s)[i] == Lowered(t)[i];
      }
    }
  }
}
