/** The hand-written parser of the encrypted callback body (`xmlUnmarshal` in `wechat/mp/core/server.go`).
    A byte slice is a `string`, one `char` for each byte. `None` stands for handing the body to
    `encoding/xml`. */
module FastEnvelope {
  import opened Strings

  datatype Body = Body(toUserName: string, encrypt: string)

  // ---------------------------------------------------------------- white space

  /** The UTF-8 encodings of the runes for which `unicode.IsSpace` holds. */
  predicate SpaceRune(r: string) {
    if |r| == 1 then '\t' <= r[0] <= '\r' || r[0] == ' '
    else if |r| == 2 then r == "\U{C2}\U{85}" || r == "\U{C2}\U{A0}"
    else |r| == 3 &&
         (|| r == "\U{E1}\U{9A}\U{80}"
          || (r[..2] == "\U{E2}\U{80}" && ('\U{80}' <= r[2] <= '\U{8A}' || r[2] in "\U{A8}\U{A9}\U{AF}"))
          || r == "\U{E2}\U{81}\U{9F}"
          || r == "\U{E3}\U{80}\U{80}")
  }

  /** The UTF-8 encoding of a code point below 2^16. */
  function Utf8(c: nat): string
    requires c < 0x1_0000
  {
    if c < 0x80 then [c as char]
    else if c < 0x800 then [(0xC0 + c / 64) as char, (0x80 + c % 64) as char]
    else [(0xE0 + c / 4096) as char, (0x80 + c / 64 % 64) as char, (0x80 + c % 64) as char]
  }

  /** White_Space of Unicode: tab, line feed, vertical tab, form feed, carriage return, space, next line,
      no-break space, and the wider ones. */
  predicate WhiteSpace(c: nat) {
    || 9 <= c <= 13 || c == 0x20 || c == 0x85 || c == 0xA0 || c == 0x1680 || 0x2000 <= c <= 0x200A
    || c == 0x2028 || c == 0x2029 || c == 0x202F || c == 0x205F || c == 0x3000
  }

  ghost predicate EncodesSpace(r: string, c: nat) {
    c < 0x1_0000 && WhiteSpace(c) && r == Utf8(c)
  }

  /** Those are the encodings of white space, and no other text is. */
  lemma SpaceRuneExactly(r: string)
    ensures SpaceRune(r) <==> exists c: nat :: EncodesSpace(r, c)
  {
    if SpaceRune(r) {
      var c: nat :=
        if |r| == 1 then r[0] as int
        else if |r| == 2 then r[1] as int
        else if r[0] == '\U{E1}' then 0x1680
        else if r[0] == '\U{E3}' then 0x3000
        else if r[1] == '\U{81}' then 0x205F
        else 0x2000 + r[2] as int - 0x80;
      SpaceEncoded(r, c);
    }
    if exists c: nat :: EncodesSpace(r, c) {
      var c: nat :| EncodesSpace(r, c);
      EncodedSpace(r, c);
    }
  }

  lemma SpaceEncoded(r: string, c: nat)
    requires SpaceRune(r)
    requires c == if |r| == 1 then r[0] as int
                  else if |r| == 2 then r[1] as int
                  else if r[0] == '\U{E1}' then 0x1680
                  else if r[0] == '\U{E3}' then 0x3000
                  else if r[1] == '\U{81}' then 0x205F
                  else 0x2000 + r[2] as int - 0x80
    ensures EncodesSpace(r, c)
  {
    if |r| == 3 {
      assert r == r[..2] + [r[2]];
    }
  }

  lemma EncodedSpace(r: string, c: nat)
    requires EncodesSpace(r, c)
    ensures SpaceRune(r)
  {
    if |r| == 3 {
      assert r[..2] == [r[0], r[1]];
    }
  }

  /** The length of the space at the front of `s`, or 0. */
  function SpaceAtFront(s: string): (n: nat)
    ensures n <= |s| && (n > 0 ==> SpaceRune(s[..n]))
  {
    if |s| >= 1 && SpaceRune(s[..1]) then 1
    else if |s| >= 2 && SpaceRune(s[..2]) then 2
    else if |s| >= 3 && SpaceRune(s[..3]) then 3
    else 0
  }

  /** The length of the space at the end of `s`, or 0. */
  function SpaceAtEnd(s: string): (n: nat)
    ensures n <= |s| && (n > 0 ==> SpaceRune(s[|s| - n..]))
  {
    if |s| >= 1 && SpaceRune(s[|s| - 1..]) then 1
    else if |s| >= 2 && SpaceRune(s[|s| - 2..]) then 2
    else if |s| >= 3 && SpaceRune(s[|s| - 3..]) then 3
    else 0
  }

  /** `bytes.TrimLeftFunc(s, unicode.IsSpace)`. */
  function TrimLeft(s: string): string {
    var n := SpaceAtFront(s);
    if n == 0 then s else TrimLeft(s[n..])
  }

  function TrimRight(s: string): string {
    var n := SpaceAtEnd(s);
    if n == 0 then s else TrimRight(s[..|s| - n])
  }

  /** `bytes.TrimSpace`. */
  function TrimSpace(s: string): string {
    TrimRight(TrimLeft(s))
  }

  /** A text of spaces. */
  predicate Blank(w: string) {
    w == "" || (SpaceAtFront(w) > 0 && Blank(w[SpaceAtFront(w)..]))
  }

  // ---------------------------------------------------------------- the parser

  const CDATA_START := "<![CDATA["
  const CDATA_END := "]]>"

  datatype Tag = ToUserName | Encrypt

  function Open(tag: Tag): string {
    if tag == ToUserName then "<ToUserName>" else "<Encrypt>"
  }

  function Close(tag: Tag): string {
    if tag == ToUserName then "</ToUserName>" else "</Encrypt>"
  }

  /** The CDATA value at the front of `s`, and what follows it. */
  function ReadValue(s: string): Option<(string, string)> {
    var inner := TrimLeft(s);
    if !(CDATA_START <= inner) then None
    else
      var text := inner[|CDATA_START|..];
      var j := Index(text, CDATA_END);
      if j == -1 then None else Some((text[..j], text[j + |CDATA_END|..]))
  }

  /** The value of the first element with this tag, and what follows the element. */
  function ReadElement(s: string, tag: Tag): Option<(string, string)> {
    var i := Index(s, Open(tag));
    if i == -1 then None
    else
      match ReadValue(s[i + |Open(tag)|..])
      case None => None
      case Some((v, after)) =>
        var rest := TrimLeft(after);
        if Close(tag) <= rest then Some((v, rest[|Close(tag)|..])) else None
  }

  predicate HasSuffix(s: string, suffix: string) {
    |suffix| <= |s| && s[|s| - |suffix|..] == suffix
  }

  /** `<xml>` and `</xml>` cannot overlap, so both slice bounds are in order. */
  lemma NoOverlap(s: string)
    requires "<xml>" <= s && HasSuffix(s, "</xml>")
    ensures |s| >= |"<xml>"| + |"</xml>"|
  {
    var p := |s| - 6;
    var first, last := "<xml>", "</xml>";
    assert forall k | 0 <= k < 5 :: s[k] == first[k];
    assert forall k | 0 <= k < 6 :: s[p..][k] == last[k];
    assert s[0] != '/' && s[1] == 'x' && s[2] == 'm' && s[3] == 'l' && s[4] == '>';
    assert s[p] == '<' && s[p + 1] == '/';
  }

  /** What the fast path reads from the content of `<xml>`. The message is looked for after the user
      name first. */
  function Fields(content: string): Option<Body> {
    match ReadElement(content, ToUserName)
    case None => None
    case Some((user, rest)) =>
      match ReadElement(if Index(rest, Open(Encrypt)) == -1 then content else rest, Encrypt)
      case None => None
      case Some((enc, _)) => Some(Body(user, enc))
  }

  function Parsed(data: string): Option<Body> {
    var s := TrimSpace(data);
    if "<xml>" <= s && HasSuffix(s, "</xml>") then
      NoOverlap(s);
      Fields(s[|"<xml>"|..|s| - |"</xml>"|])
    else None
  }

  /** The steps the code takes for the value of either element: the slice moves past what has been read. */
  method TakeValue(s: string) returns (read: Option<(string, string)>)
    ensures read == ReadValue(s)
  {
    hide TrimLeft, Index;
    var bytes := TrimLeft(s);
    if !(CDATA_START <= bytes) {
      return None;
    }
    bytes := bytes[|CDATA_START|..];
    var i := Index(bytes, CDATA_END);
    if i == -1 {
      return None;
    }
    return Some((bytes[..i], bytes[i + |CDATA_END|..]));
  }

  /** The whole of either element. */
  method TakeElement(s: string, tag: Tag) returns (read: Option<(string, string)>)
    ensures read == ReadElement(s, tag)
  {
    hide TrimLeft, Index, ReadValue;
    var i := Index(s, Open(tag));
    if i == -1 {
      return None;
    }
    var value := TakeValue(s[i + |Open(tag)|..]);
    if value.None? {
      return None;
    }
    var bytes := TrimLeft(value.value.1);
    if !(Close(tag) <= bytes) {
      return None;
    }
    return Some((value.value.0, bytes[|Close(tag)|..]));
  }

  method XmlUnmarshal(body: string) returns (p: Option<Body>)
    ensures p == Parsed(body)
  {
    hide TrimSpace, Index, ReadElement;
    var data := TrimSpace(body);
    if !("<xml>" <= data) || !HasSuffix(data, "</xml>") {
      return None;
    }
    NoOverlap(data);
    var data2 := data[|"<xml>"|..|data| - |"</xml>"|];
    var user := TakeElement(data2, ToUserName);
    if user == None {
      return None;
    }
    var bytes := user.value.1;
    if Index(bytes, Open(Encrypt)) == -1 {
      bytes := data2;
    }
    var enc := TakeElement(bytes, Encrypt);
    if enc == None {
      return None;
    }
    return Some(Body(user.value.0, enc.value.0));
  }

  // ---------------------------------------------------------------- white space, proofs

  /** No encoding begins or ends with another one. */
  lemma NoShorterSpace(r: string)
    requires SpaceRune(r)
    ensures 1 <= |r| <= 3
    ensures |r| >= 2 ==> !SpaceRune([r[0]]) && !SpaceRune([r[|r| - 1]])
    ensures |r| == 3 ==> !SpaceRune([r[0], r[1]]) && !SpaceRune([r[1], r[2]])
  {
    if |r| == 3 {
      assert r[..2] == [r[0], r[1]];
    }
  }

  lemma FrontRune(r: string, t: string)
    requires SpaceRune(r)
    ensures SpaceAtFront(r + t) == |r|
  {
    NoShorterSpace(r);
    hide SpaceRune;
    var s := r + t;
    assert s[..|r|] == r && s[..1] == [r[0]];
    assert |r| == 3 ==> s[..2] == [r[0], r[1]];
  }

  lemma EndRune(t: string, r: string)
    requires SpaceRune(r)
    ensures SpaceAtEnd(t + r) == |r|
  {
    NoShorterSpace(r);
    hide SpaceRune;
    var s := t + r;
    assert s[|s| - |r|..] == r && s[|s| - 1..] == [r[|r| - 1]];
    assert |r| == 3 ==> s[|s| - 2..] == [r[1], r[2]];
  }

  lemma SpaceRuneChars(r: string)
    requires SpaceRune(r)
    ensures '<' !in r && '>' !in r && r != ""
  {
    if |r| == 3 {
      assert r == r[..2] + [r[2]];
    }
  }

  lemma NoSpaceAtTag(s: string)
    requires s != "" && s[0] == '<'
    ensures SpaceAtFront(s) == 0
  {
    var n := SpaceAtFront(s);
    hide SpaceAtFront, SpaceRune;
    var r := s[..n];
    assert n > 0 ==> r[0] == '<';
    if n > 0 {
      SpaceRuneChars(r);
    }
  }

  lemma NoSpaceAfterTag(s: string)
    requires s != "" && s[|s| - 1] == '>'
    ensures SpaceAtEnd(s) == 0
  {
    var n := SpaceAtEnd(s);
    hide SpaceAtEnd, SpaceRune;
    var r := s[|s| - n..];
    assert n > 0 ==> r[n - 1] == '>';
    if n > 0 {
      SpaceRuneChars(r);
    }
  }

  lemma {:induction false} TrimLeftBlank(w: string, t: string)
    requires Blank(w) && SpaceAtFront(t) == 0
    ensures TrimLeft(w + t) == t
  {
    if w == "" {
      assert w + t == t;
    } else {
      var n := SpaceAtFront(w);
      var r, w' := w[..n], w[n..];
      hide SpaceRune, SpaceAtFront;
      assert w + t == r + (w' + t);
      FrontRune(r, w' + t);
      assert (w + t)[n..] == w' + t;
      TrimLeftBlank(w', t);
    }
  }

  lemma {:induction false} TrimRightBlank(t: string, w: string)
    requires Blank(w)
    ensures TrimRight(t + w) == TrimRight(t)
    decreases |w|
  {
    if w == "" {
      assert t + w == t;
    } else {
      var n := SpaceAtFront(w);
      var r, w' := w[..n], w[n..];
      hide SpaceRune, SpaceAtFront, SpaceAtEnd;
      assert t + w == (t + r) + w';
      TrimRightBlank(t + r, w');
      EndRune(t, r);
      assert (t + r)[..|t|] == t;
    }
  }

  lemma Regroup3(a: string, b: string, c: string)
    ensures (a + b) + c == a + (b + c)
  {}

  lemma BlankAfter(r: string, w: string)
    requires SpaceRune(r) && Blank(w)
    ensures Blank(r + w)
  {
    hide SpaceAtFront;
    FrontRune(r, w);
    assert (r + w)[|r|..] == w;
  }

  lemma TrimStep(s: string)
    ensures var n := SpaceAtFront(s); TrimLeft(s) == if n == 0 then s else TrimLeft(s[n..])
  {}

  /** Trimming takes away a text of spaces and nothing else. */
  lemma {:induction false} TrimLeftSplits(s: string) returns (w: string)
    ensures Blank(w) && s == w + TrimLeft(s)
  {
    TrimStep(s);
    var n := SpaceAtFront(s);
    if n == 0 {
      w := "";
      assert s == "" + s;
    } else {
      hide *;
      var r, rest := s[..n], s[n..];
      CutAt(s, n);
      var w' := TrimLeftSplits(rest);
      w := r + w';
      BlankAfter(r, w');
      Regroup3(r, w', TrimLeft(rest));
    }
  }

  lemma CutAt(s: string, n: nat)
    requires n <= |s|
    ensures s == s[..n] + s[n..]
  {}

  lemma {:induction false} BlankChars(w: string)
    requires Blank(w)
    ensures '<' !in w
  {
    if w == "" {
    } else {
      var n := SpaceAtFront(w);
      assert w == w[..n] + w[n..];
      BlankChars(w[n..]);
      assert '<' !in w[..n];
    }
  }

  // ---------------------------------------------------------------- where a literal occurs

  predicate Free(s: string, pat: string) {
    Index(s, pat) == -1
  }

  ghost predicate OccursAt(s: string, pat: string, j: nat) {
    j + |pat| <= |s| && forall k :: 0 <= k < |pat| ==> s[j + k] == pat[k]
  }

  lemma Occurs(s: string, pat: string, j: nat)
    requires j <= |s|
    ensures pat <= s[j..] <==> OccursAt(s, pat, j)
  {
    var t := s[j..];
    assert forall k :: 0 <= k < |t| ==> t[k] == s[j + k];
    if OccursAt(s, pat, j) {
      assert t[..|pat|] == pat;
    }
  }

  lemma OccursWithin(x: string, y: string, pat: string, j: nat)
    requires j + |pat| <= |x|
    ensures OccursAt(x + y, pat, j) == OccursAt(x, pat, j)
  {
    assert forall i :: 0 <= i < |x| ==> (x + y)[i] == x[i];
  }

  /** The first occurrence is where `pat` was put when nothing before it contains `pat`; no earlier
      occurrence can reach into it, because the last character of `pat` is found only there. */
  lemma FirstAt(pre: string, pat: string, rest: string)
    requires Free(pre, pat) && pat != ""
    requires pat[|pat| - 1] !in pat[..|pat| - 1]
    ensures Index(pre + (pat + rest), pat) == |pre|
  {
    hide Index;
    var s := pre + (pat + rest);
    forall j | 0 <= j < |pre| ensures !(pat <= s[j..]) {
      Occurs(s, pat, j);
      if j + |pat| <= |pre| {
        Occurs(pre, pat, j);
        OccursWithin(pre, pat + rest, pat, j);
      } else {
        var m := j + |pat| - 1 - |pre|;
        assert s[j + (|pat| - 1)] == pat[m] == pat[..|pat| - 1][m];
      }
    }
    IndexSkips(pre, pat + rest, pat);
    assert (pat + rest)[0..] == pat + rest;
  }

  lemma FreeUpTo(s: string, pat: string, i: nat)
    requires pat != "" && Index(s, pat) == i
    ensures Free(s[..i], pat)
    ensures s == s[..i] + (pat + s[i + |pat|..])
  {
    hide Index;
    var pre := s[..i];
    forall j | 0 <= j < |pre| ensures !(pat <= pre[j..]) {
      Occurs(s, pat, j);
      Occurs(pre, pat, j);
      assert forall k :: 0 <= k < |pre| ==> pre[k] == s[k];
    }
    assert s[i..][..|pat|] == pat;
  }

  /** Text without `<`, such as spaces or base64, opens no element. */
  lemma NoTagIn(s: string, tag: Tag)
    requires '<' !in s
    ensures Free(s, Open(tag))
  {
    var pat := Open(tag);
    hide Index;
    forall j | 0 <= j < |s| ensures !(pat <= s[j..]) {
      Occurs(s, pat, j);
      assert s[j + 0] != pat[0];
    }
  }

  lemma FreeJoin(x: string, y: string, pat: string)
    requires Free(x, pat) && Free(y, pat) && pat != ""
    requires y != "" ==> y[0] !in pat[1..]
    ensures Free(x + y, pat)
  {
    hide Index;
    var s := x + y;
    forall j | 0 <= j < |x| ensures !(pat <= s[j..]) {
      Occurs(s, pat, j);
      if j + |pat| <= |x| {
        Occurs(x, pat, j);
        OccursWithin(x, y, pat, j);
      } else if y != "" {
        assert s[j + (|x| - j)] == y[0] && (j + |pat| <= |s| ==> pat[|x| - j] == pat[1..][|x| - j - 1]);
      }
    }
    IndexSkips(x, y, pat);
  }

  /** `x` contains no `<` that could start `pat`. */
  lemma FreeAfter(x: string, y: string, pat: string)
    requires Free(y, pat) && |pat| >= 2 && pat[0] == '<'
    requires forall j :: 0 <= j < |x| && x[j] == '<' ==> j + 1 < |x| && x[j + 1] != pat[1]
    ensures Free(x + y, pat)
  {
    hide Index;
    var s := x + y;
    forall j | 0 <= j < |x| ensures !(pat <= s[j..]) {
      Occurs(s, pat, j);
      assert s[j + 0] == '<' ==> s[j + 1] != pat[1];
    }
    IndexSkips(x, y, pat);
  }

  // ---------------------------------------------------------------- one element

  function Element(tag: Tag, w1: string, v: string, w2: string): string {
    Open(tag) + (w1 + (CDATA_START + (v + (CDATA_END + (w2 + Close(tag))))))
  }

  ghost predicate ElementAt(s: string, pre: string, tag: Tag, w1: string, v: string, w2: string, rest: string) {
    && s == pre + (Element(tag, w1, v, w2) + rest)
    && Free(pre, Open(tag)) && Blank(w1) && Free(v, CDATA_END) && Blank(w2)
  }

  /** The first element with this tag holds `v` as CDATA, and `rest` follows it. */
  ghost predicate FirstElement(s: string, tag: Tag, v: string, rest: string) {
    exists pre, w1, w2 :: ElementAt(s, pre, tag, w1, v, w2, rest)
  }

  lemma OpenAt(pre: string, tag: Tag, rest: string)
    requires Free(pre, Open(tag))
    ensures Index(pre + (Open(tag) + rest), Open(tag)) == |pre|
  {
    var pat := Open(tag);
    FirstAt(pre, pat, rest);
  }

  lemma CdataEndAt(v: string, rest: string)
    requires Free(v, CDATA_END)
    ensures Index(v + (CDATA_END + rest), CDATA_END) == |v|
  {
    FirstAt(v, CDATA_END, rest);
  }

  lemma TakeOff(a: string, b: string)
    ensures a <= a + b && (a + b)[|a|..] == b
  {}

  lemma ValueIsRead(w: string, v: string, rest: string)
    requires Blank(w) && Free(v, CDATA_END)
    ensures ReadValue(w + (CDATA_START + (v + (CDATA_END + rest)))) == Some((v, rest))
  {
    var text := v + (CDATA_END + rest);
    CdataEndAt(v, rest);
    assert text[..|v|] == v && text[|v| + |CDATA_END|..] == rest;
    hide Index, TrimLeft, Blank;
    TakeOff(CDATA_START, text);
    NoSpaceAtTag(CDATA_START + text);
    TrimLeftBlank(w, CDATA_START + text);
  }

  /** An element that is there is read. */
  lemma ElementIsRead(pre: string, tag: Tag, w1: string, v: string, w2: string, rest: string)
    requires Free(pre, Open(tag)) && Blank(w1) && Free(v, CDATA_END) && Blank(w2)
    ensures ReadElement(pre + (Element(tag, w1, v, w2) + rest), tag) == Some((v, rest))
  {
    var after := w2 + (Close(tag) + rest);
    var value := w1 + (CDATA_START + (v + (CDATA_END + after)));
    Regroup(pre, Open(tag), w1, v, w2, Close(tag), rest);
    hide Index, TrimLeft, Blank, ReadValue;
    OpenAt(pre, tag, value);
    SkipTo(pre, Open(tag), value);
    ValueIsRead(w1, v, after);
    NoSpaceAtTag(Close(tag) + rest);
    TrimLeftBlank(w2, Close(tag) + rest);
    TakeOff(Close(tag), rest);
  }

  lemma SkipTo(a: string, b: string, c: string)
    ensures (a + (b + c))[|a| + |b|..] == c
  {}

  /** A value that is read is there. */
  lemma ValueIsThere(s: string) returns (w: string)
    requires ReadValue(s).Some?
    ensures var (v, after) := ReadValue(s).value;
            Blank(w) && Free(v, CDATA_END) && s == w + (CDATA_START + (v + (CDATA_END + after)))
  {
    hide TrimLeft, Index, Blank, Free;
    var inner := TrimLeft(s);
    w := TrimLeftSplits(s);
    var text := inner[|CDATA_START|..];
    assert inner == CDATA_START + text;
    FreeUpTo(text, CDATA_END, Index(text, CDATA_END));
  }

  /** What is read is there. */
  lemma ReadIsThere(s: string, tag: Tag, v: string, rest: string)
    requires ReadElement(s, tag) == Some((v, rest))
    ensures FirstElement(s, tag, v, rest)
  {
    hide TrimLeft, Index, Blank, Free, ReadValue, Element;
    var i := Index(s, Open(tag));
    FreeUpTo(s, Open(tag), i);
    var w1 := ValueIsThere(s[i + |Open(tag)|..]);
    var after := ReadValue(s[i + |Open(tag)|..]).value.1;
    var w2 := TrimLeftSplits(after);
    TakenOff(Close(tag), TrimLeft(after));
    AsElement(s[..i], tag, w1, v, w2, rest);
    assert ElementAt(s, s[..i], tag, w1, v, w2, rest);
  }

  lemma TakenOff(a: string, s: string)
    requires a <= s
    ensures s == a + s[|a|..]
  {}

  lemma AsElement(pre: string, tag: Tag, w1: string, v: string, w2: string, rest: string)
    ensures pre + (Open(tag) + (w1 + (CDATA_START + (v + (CDATA_END + (w2 + (Close(tag) + rest)))))))
         == pre + (Element(tag, w1, v, w2) + rest)
  {
    Regroup(pre, Open(tag), w1, v, w2, Close(tag), rest);
  }

  lemma Regroup(pre: string, open: string, w1: string, v: string, w2: string, close: string, rest: string)
    ensures pre + (open + (w1 + (CDATA_START + (v + (CDATA_END + (w2 + (close + rest)))))))
         == pre + ((open + (w1 + (CDATA_START + (v + (CDATA_END + (w2 + close)))))) + rest)
  {}

  /** Reading an element finds the first one with its tag, whole and with exactly its value. */
  lemma ReadsExactly(s: string, tag: Tag, v: string, rest: string)
    ensures ReadElement(s, tag) == Some((v, rest)) <==> FirstElement(s, tag, v, rest)
  {
    if ReadElement(s, tag) == Some((v, rest)) {
      ReadIsThere(s, tag, v, rest);
    }
    if FirstElement(s, tag, v, rest) {
      var pre, w1, w2 :| ElementAt(s, pre, tag, w1, v, w2, rest);
      ElementIsRead(pre, tag, w1, v, w2, rest);
    }
  }

  // ---------------------------------------------------------------- whole bodies

  function Document(before: string, content: string, after: string): string {
    before + ("<xml>" + (content + ("</xml>" + after)))
  }

  lemma ParsedDocument(before: string, content: string, after: string)
    requires Blank(before) && Blank(after)
    ensures Parsed(Document(before, content, after)) == Fields(content)
  {
    var s := "<xml>" + (content + "</xml>");
    hide Fields, Blank, SpaceRune, SpaceAtFront, SpaceAtEnd, TrimLeft;
    var t := "<xml>" + (content + ("</xml>" + after));
    assert t == s + after;
    NoSpaceAtTag(t);
    TrimLeftBlank(before, t);
    TrimRightBlank(s, after);
    NoSpaceAfterTag(s);
    assert s[|s| - 6..] == "</xml>";
    assert s[5..|s| - 6] == content;
  }

  lemma ValuesHaveNoEnd(s: string, tag: Tag, v: string, rest: string)
    requires ReadElement(s, tag) == Some((v, rest))
    ensures Free(v, CDATA_END)
  {
    ReadIsThere(s, tag, v, rest);
  }

  lemma FieldsHaveNoEnd(content: string)
    requires Fields(content).Some?
    ensures Free(Fields(content).value.toUserName, CDATA_END) && Free(Fields(content).value.encrypt, CDATA_END)
  {
    hide ReadElement, Index, Free;
    var user := ReadElement(content, ToUserName).value;
    ValuesHaveNoEnd(content, ToUserName, user.0, user.1);
    var from := if Index(user.1, Open(Encrypt)) == -1 then content else user.1;
    var enc := ReadElement(from, Encrypt).value;
    ValuesHaveNoEnd(from, Encrypt, enc.0, enc.1);
  }

  /** With the user name before the message the fast path returns exactly both values, unless one of
      them contains the end of a CDATA section. What stands around the elements is arbitrary as long as
      it does not open the element looked for. */
  lemma UserNameFirst(before: string, a: string, w1: string, user: string, w2: string,
                      b: string, w3: string, enc: string, w4: string, c: string, after: string)
    requires Blank(before) && Blank(w1) && Blank(w2) && Blank(w3) && Blank(w4) && Blank(after)
    requires Free(a, Open(ToUserName)) && Free(b, Open(Encrypt))
    ensures var content := a + (Element(ToUserName, w1, user, w2) + (b + (Element(Encrypt, w3, enc, w4) + c)));
            Parsed(Document(before, content, after)) == Some(Body(user, enc))
            <==> Free(user, CDATA_END) && Free(enc, CDATA_END)
  {
    var rest := b + (Element(Encrypt, w3, enc, w4) + c);
    var content := a + (Element(ToUserName, w1, user, w2) + rest);
    ParsedDocument(before, content, after);
    hide Parsed, Document, Blank, ReadElement, Index;
    if Free(user, CDATA_END) && Free(enc, CDATA_END) {
      ElementIsRead(a, ToUserName, w1, user, w2, rest);
      var inside := w3 + (CDATA_START + (enc + (CDATA_END + (w4 + (Close(Encrypt) + c)))));
      Regroup(b, Open(Encrypt), w3, enc, w4, Close(Encrypt), c);
      OpenAt(b, Encrypt, inside);
      ElementIsRead(b, Encrypt, w3, enc, w4, c);
    }
    if Fields(content) == Some(Body(user, enc)) {
      FieldsHaveNoEnd(content);
    }
  }

  lemma NoUserNameIn(w1: string, enc: string, w2: string, b: string)
    requires Blank(w1) && Blank(w2) && Free(enc, Open(ToUserName)) && Free(b, Open(ToUserName))
    ensures Free(Element(Encrypt, w1, enc, w2) + b, Open(ToUserName))
  {
    var pat := Open(ToUserName);
    hide Free;
    var s1 := Close(Encrypt) + b;
    FreeAfter(Close(Encrypt), b, pat);
    BlankChars(w2);
    FreeAfter(w2, s1, pat);
    FreeAfter(CDATA_END, w2 + s1, pat);
    var s2 := CDATA_END + (w2 + s1);
    FreeJoin(enc, s2, pat);
    FreeAfter(CDATA_START, enc + s2, pat);
    BlankChars(w1);
    var s3 := CDATA_START + (enc + s2);
    FreeAfter(w1, s3, pat);
    FreeAfter(Open(Encrypt), w1 + s3, pat);
    Regroup("", Open(Encrypt), w1, enc, w2, Close(Encrypt), b);
    assert "" + (Open(Encrypt) + (w1 + s3)) == Open(Encrypt) + (w1 + s3);
    var e := Element(Encrypt, w1, enc, w2) + b;
    assert "" + e == e;
  }

  lemma StartsWithTag(tag: Tag, w1: string, v: string, w2: string, b: string)
    ensures Element(tag, w1, v, w2) + b != "" && (Element(tag, w1, v, w2) + b)[0] == '<'
  {}

  lemma RegroupPair(a: string, first: string, b: string, second: string, c: string)
    ensures a + (first + (b + (second + c))) == (a + (first + b)) + (second + c)
  {
    Regroup3(first, b, second + c);
    Regroup3(a, first + b, second + c);
  }

  lemma MessageFirstFields(a: string, w1: string, enc: string, w2: string,
                           b: string, w3: string, user: string, w4: string, c: string)
    requires Blank(w1) && Blank(w2) && Blank(w3) && Blank(w4)
    requires Free(a, Open(Encrypt)) && Free(c, Open(Encrypt))
    requires Free(a, Open(ToUserName)) && Free(b, Open(ToUserName)) && Free(enc, Open(ToUserName))
    requires Free(user, CDATA_END) && Free(enc, CDATA_END)
    ensures Fields(a + (Element(Encrypt, w1, enc, w2) + (b + (Element(ToUserName, w3, user, w4) + c))))
         == Some(Body(user, enc))
  {
    var first, second := Element(Encrypt, w1, enc, w2), Element(ToUserName, w3, user, w4);
    var content := a + (first + (b + (second + c)));
    NoUserNameIn(w1, enc, w2, b);
    StartsWithTag(Encrypt, w1, enc, w2, b);
    FreeJoin(a, first + b, Open(ToUserName));
    RegroupPair(a, first, b, second, c);
    ElementIsRead(a + (first + b), ToUserName, w3, user, w4, c);
    ElementIsRead(a, Encrypt, w1, enc, w2, b + (second + c));
    hide Blank, ReadElement, Index, Element, Open;
  }

  /** The same with the message before the user name; then the message must not open a user name. */
  lemma MessageFirst(before: string, a: string, w1: string, enc: string, w2: string,
                     b: string, w3: string, user: string, w4: string, c: string, after: string)
    requires Blank(before) && Blank(w1) && Blank(w2) && Blank(w3) && Blank(w4) && Blank(after)
    requires Free(a, Open(Encrypt)) && Free(c, Open(Encrypt))
    requires Free(a, Open(ToUserName)) && Free(b, Open(ToUserName)) && Free(enc, Open(ToUserName))
    ensures var content := a + (Element(Encrypt, w1, enc, w2) + (b + (Element(ToUserName, w3, user, w4) + c)));
            Parsed(Document(before, content, after)) == Some(Body(user, enc))
            <==> Free(user, CDATA_END) && Free(enc, CDATA_END)
  {
    var content := a + (Element(Encrypt, w1, enc, w2) + (b + (Element(ToUserName, w3, user, w4) + c)));
    ParsedDocument(before, content, after);
    hide *;
    if Free(user, CDATA_END) && Free(enc, CDATA_END) {
      MessageFirstFields(a, w1, enc, w2, b, w3, user, w4, c);
    }
    if Fields(content) == Some(Body(user, enc)) {
      FieldsHaveNoEnd(content);
    }
  }

  // ---------------------------------------------------------------- any body

  lemma BlankMore(w: string, r: string)
    requires Blank(w) && SpaceRune(r)
    ensures Blank(w + r)
    decreases |w|
  {
    if w == "" {
      assert w + r == r + "" && r == r + "";
      BlankAfter(r, "");
    } else {
      var n := SpaceAtFront(w);
      var first, rest := w[..n], w[n..];
      CutAt(w, n);
      hide *;
      BlankMore(rest, r);
      BlankAfter(first, rest + r);
      Regroup3(first, rest, r);
    }
  }

  lemma {:induction false} TrimRightSplits(s: string) returns (w: string)
    ensures Blank(w) && s == TrimRight(s) + w && SpaceAtEnd(TrimRight(s)) == 0
  {
    var n := SpaceAtEnd(s);
    if n == 0 {
      w := "";
      assert s + "" == s;
    } else {
      var init, r := s[..|s| - n], s[|s| - n..];
      hide SpaceRune, SpaceAtEnd;
      var w' := TrimRightSplits(init);
      w := w' + r;
      BlankMore(w', r);
      Regroup3(TrimRight(init), w', r);
      CutAt(s, |s| - n);
    }
  }

  lemma {:induction false} TrimmedFront(s: string)
    ensures SpaceAtFront(TrimLeft(s)) == 0
  {
    if SpaceAtFront(s) == 0 {
    } else {
      TrimmedFront(s[SpaceAtFront(s)..]);
    }
  }

  /** Trimming takes the white space off both ends, all of it and nothing else. */
  lemma TrimmedExactly(s: string) returns (before: string, after: string)
    ensures Blank(before) && Blank(after) && s == before + (TrimSpace(s) + after)
    ensures SpaceAtEnd(TrimSpace(s)) == 0 && SpaceAtFront(TrimSpace(s) + after) == 0
  {
    before := TrimLeftSplits(s);
    after := TrimRightSplits(TrimLeft(s));
    TrimmedFront(s);
  }

  /** The first user name, followed by `rest`, and the first message in it, or of all if there is none in it. */
  ghost predicate AreFields(content: string, user: string, rest: string, enc: string, tail: string) {
    && FirstElement(content, ToUserName, user, rest)
    && FirstElement(if Free(rest, "<Encrypt>") then content else rest, Encrypt, enc, tail)
  }

  /** The fields are those of the first user name, and of the first message after it, or of the first of all if
      none follows. */
  lemma FieldsExactly(content: string, user: string, enc: string)
    ensures Fields(content) == Some(Body(user, enc)) <==> exists rest, tail :: AreFields(content, user, rest, enc, tail)
  {
    if Fields(content) == Some(Body(user, enc)) {
      var rest := ReadElement(content, ToUserName).value.1;
      var tail := ReadElement(if Free(rest, Open(Encrypt)) then content else rest, Encrypt).value.1;
      FieldsAre(content, user, rest, enc, tail);
    }
    if exists rest, tail :: AreFields(content, user, rest, enc, tail) {
      var rest, tail :| AreFields(content, user, rest, enc, tail);
      FieldsAre(content, user, rest, enc, tail);
    }
  }

  lemma FieldsAre(content: string, user: string, rest: string, enc: string, tail: string)
    ensures AreFields(content, user, rest, enc, tail) <==>
              && ReadElement(content, ToUserName) == Some((user, rest))
              && ReadElement(if Free(rest, Open(Encrypt)) then content else rest, Encrypt) == Some((enc, tail))
  {
    hide ReadElement, FirstElement, Free;
    ReadsExactly(content, ToUserName, user, rest);
    ReadsExactly(if Free(rest, Open(Encrypt)) then content else rest, Encrypt, enc, tail);
  }

  /** A body is read by the fast path exactly when, trimmed, it is an `xml` element with these fields. */
  lemma ParsedExactly(body: string, fields: Body)
    ensures Parsed(body) == Some(fields) <==>
              exists content :: TrimSpace(body) == "<xml>" + content + "</xml>" && Fields(content) == Some(fields)
  {
    var s := TrimSpace(body);
    hide TrimSpace, Fields;
    if "<xml>" <= s && HasSuffix(s, "</xml>") {
      NoOverlap(s);
      var content := s[5..|s| - 6];
      assert s == "<xml>" + content + "</xml>";
    }
    forall content | s == "<xml>" + content + "</xml>"
      ensures "<xml>" <= s && HasSuffix(s, "</xml>") && s[5..|s| - 6] == content
    {
      assert s[|s| - 6..] == "</xml>";
    }
  }

  /** The body as it is sent, in so many words. */
  lemma SentBody(user: string, enc: string)
    requires Free(user, "]]>") && Free(enc, "]]>")
    ensures Parsed("<xml>" + ("<ToUserName><![CDATA[" + user + "]]></ToUserName>"
                   + ("<Encrypt><![CDATA[" + enc + "]]></Encrypt>")) + "</xml>")
            == Some(Body(user, enc))
  {
    var e1, e2 := Element(ToUserName, "", user, ""), Element(Encrypt, "", enc, "");
    assert Free("", Open(ToUserName)) && Free("", Open(Encrypt)) && Blank("");
    SentElements(user, enc);
    UserNameFirst("", "", "", user, "", "", "", enc, "", "", "");
    hide *;
    PlainDocument(e1, e2);
  }

  lemma PlainDocument(e1: string, e2: string)
    ensures Document("", "" + (e1 + ("" + (e2 + ""))), "") == "<xml>" + (e1 + e2) + "</xml>"
  {
    assert "" + (e1 + ("" + (e2 + ""))) == e1 + e2;
    assert "</xml>" + "" == "</xml>";
    Regroup3("<xml>", e1 + e2, "</xml>");
  }

  lemma SentElements(user: string, enc: string)
    ensures Element(ToUserName, "", user, "") == "<ToUserName><![CDATA[" + user + "]]></ToUserName>"
    ensures Element(Encrypt, "", enc, "") == "<Encrypt><![CDATA[" + enc + "]]></Encrypt>"
  {
    SentElement("<ToUserName>", user, "</ToUserName>");
    SentElement("<Encrypt>", enc, "</Encrypt>");
    assert "<ToUserName>" + "<![CDATA[" == "<ToUserName><![CDATA[" && "]]>" + "</ToUserName>" == "]]></ToUserName>";
    assert "<Encrypt>" + "<![CDATA[" == "<Encrypt><![CDATA[" && "]]>" + "</Encrypt>" == "]]></Encrypt>";
  }

  lemma SentElement(open: string, v: string, close: string)
    ensures open + ("" + (CDATA_START + (v + (CDATA_END + ("" + close)))))
         == (open + CDATA_START) + v + (CDATA_END + close)
  {}
}
