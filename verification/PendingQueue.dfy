/** The overflow queue of replies in `wsclient/ws.go`, drained under a byte budget into the next reply
    that `main.go` assembles.

    The queues are Go slices: windows into arrays that several windows may share. Draining shifts one
    window in place before it cuts the other, so what is left depends on the shared array. */
module PendingQueue {
  import opened Strings

  /** A reply; `id` numbers the replies in the order of their acceptance and is not part of the code. */
  datatype Message = Message(id: nat, key: string, content: string)

  const LIMIT := 2047

  /** The 21 bytes of the marker between the parts of a reply: `-----`, four Chinese characters, `----`. */
  const MARKER :=
    "-----" + "\U{E5}\U{8E}\U{86}" + "\U{E5}\U{8F}\U{B2}" + "\U{E4}\U{BF}\U{A1}" + "\U{E6}\U{81}\U{AF}" + "----"

  function Cost(m: Message): nat {
    |m.content| + |MARKER|
  }

  function Total(msgs: seq<Message>): nat {
    if msgs == [] then 0 else Total(msgs[..|msgs| - 1]) + Cost(msgs[|msgs| - 1])
  }

  /** How many messages the drain takes: it stops at the first one that breaks the budget. */
  ghost function Taken(msgs: seq<Message>, length: nat): (k: nat)
    ensures k <= |msgs|
  {
    if msgs == [] || (Taken(msgs[..|msgs| - 1], length) == |msgs| - 1 && length + Total(msgs) <= LIMIT)
    then |msgs|
    else Taken(msgs[..|msgs| - 1], length)
  }

  lemma {:induction false} TotalGrows(msgs: seq<Message>, j: nat)
    requires j <= |msgs|
    ensures Total(msgs[..j]) + 21 * (|msgs| - j) <= Total(msgs)
  {
    if j < |msgs| {
      TotalGrows(msgs[..|msgs| - 1], j);
      assert msgs[..|msgs| - 1][..j] == msgs[..j];
    } else {
      assert msgs[..j] == msgs;
    }
  }

  /** What is taken is the longest prefix that keeps the total within the budget. */
  lemma {:induction false} TakenIsLongest(msgs: seq<Message>, length: nat, j: nat)
    requires j <= |msgs|
    ensures j <= Taken(msgs, length) <==> j == 0 || length + Total(msgs[..j]) <= LIMIT
  {
    if msgs == [] {
    } else {
      var init := msgs[..|msgs| - 1];
      if j < |msgs| {
        assert init[..j] == msgs[..j];
        TakenIsLongest(init, length, j);
      } else {
        assert msgs[..j] == msgs;
        TakenIsLongest(init, length, |init|);
        assert init[..|init|] == init;
        TotalGrows(msgs, |init|);
      }
    }
  }

  /** The same from the front, as the loop meets it. */
  lemma TakenStops(msgs: seq<Message>, length: nat, i: nat)
    requires i <= |msgs| && (i == 0 || length + Total(msgs[..i]) <= LIMIT)
    requires i < |msgs| ==> length + Total(msgs[..i + 1]) > LIMIT
    ensures Taken(msgs, length) == i
  {
    TakenIsLongest(msgs, length, i);
    if i < |msgs| {
      TakenIsLongest(msgs, length, i + 1);
    }
  }

  /** What the queue holds after a drain that took `k` messages. */
  function Remaining(msgs: seq<Message>, k: nat, clear: bool): seq<Message>
    requires k <= |msgs|
  {
    if k == |msgs| then (if clear then [] else msgs)
    else if clear then msgs[k + 1..] + [msgs[|msgs| - 1]]
    else msgs[..k] + msgs[k + 1..]
  }

  lemma NothingTaken(msgs: seq<Message>)
    ensures msgs[..0] == [] && Total(msgs[..0]) == 0
  {}

  lemma OneMore(msgs: seq<Message>, i: nat)
    requires i < |msgs|
    ensures msgs[..i + 1] == msgs[..i] + [msgs[i]] && Total(msgs[..i + 1]) == Total(msgs[..i]) + Cost(msgs[i])
  {
    assert msgs[..i + 1][..i] == msgs[..i] && msgs[..i + 1][i] == msgs[i];
  }

  lemma RemainingAt(q: seq<Message>, k: nat)
    requires k <= |q|
    ensures var left := Remaining(q, k, true);
            && |left| == |q| - k
            && forall j :: 0 <= j < |left| ==> left[j] == q[if j == |q| - k - 1 then |q| - 1 else j + k + 1]
  {}

  /** How many bytes the texts have together. */
  function Bytes(msgs: seq<Message>): nat {
    if msgs == [] then 0 else |msgs[0].content| + Bytes(msgs[1..])
  }

  lemma {:induction false} BytesAppend(msgs: seq<Message>, m: Message)
    ensures Bytes(msgs + [m]) == Bytes(msgs) + |m.content|
  {
    if msgs == [] {
      assert [] + [m] == [m] && [m][1..] == [];
    } else {
      assert (msgs + [m])[1..] == msgs[1..] + [m];
      BytesAppend(msgs[1..], m);
    }
  }

  /** The budgeted total is the bytes of the texts and 21 more for each. */
  lemma {:induction false} TotalExactly(msgs: seq<Message>)
    ensures Total(msgs) == Bytes(msgs) + 21 * |msgs|
  {
    if msgs == [] {
    } else {
      var init, last := msgs[..|msgs| - 1], msgs[|msgs| - 1];
      TotalExactly(init);
      BytesAppend(init, last);
      assert msgs == init + [last];
    }
  }

  /** A prefix is taken exactly when with it the reply stays within 2047 bytes. */
  lemma TakenWithin(msgs: seq<Message>, length: nat, j: nat)
    requires 0 < j <= |msgs|
    ensures j <= Taken(msgs, length) <==> length + Bytes(msgs[..j]) + 21 * j <= 2047
  {
    TakenIsLongest(msgs, length, j);
    TotalExactly(msgs[..j]);
  }

  /** What a drain leaves, message by message: nothing or everything when it took all; else all but the one at
      the break, or, with `clear`, what follows the break and the last one again. */
  lemma RemainingExactly(msgs: seq<Message>, k: nat, clear: bool)
    requires k <= |msgs|
    ensures var left := Remaining(msgs, k, clear);
            if k == |msgs| then left == if clear then [] else msgs
            else if clear then
              |left| == |msgs| - k && left[|left| - 1] == msgs[|msgs| - 1]
              && forall j :: 0 <= j < |left| - 1 ==> left[j] == msgs[j + k + 1]
            else
              |left| == |msgs| - 1 && forall j :: 0 <= j < |left| ==> left[j] == msgs[if j < k then j else j + 1]
  {}

  /** The marker in UTF-8: five hyphens, the characters U+5386 U+53F2 U+4FE1 U+606F, four hyphens. */
  lemma MarkerBytes()
    ensures |MARKER| == 21 && MARKER[..5] == "-----" && MARKER[17..] == "----"
    ensures MARKER[5] as int == 0xE5 && MARKER[6] as int == 0x8E && MARKER[7] as int == 0x86
    ensures MARKER[8] as int == 0xE5 && MARKER[9] as int == 0x8F && MARKER[10] as int == 0xB2
    ensures MARKER[11] as int == 0xE4 && MARKER[12] as int == 0xBF && MARKER[13] as int == 0xA1
    ensures MARKER[14] as int == 0xE6 && MARKER[15] as int == 0x81 && MARKER[16] as int == 0xAF
  {}

  // ---------------------------------------------------------------- slices and the queues

  datatype Slice = Slice(arr: array<Message>, off: nat, len: nat)

  class PendingMessages {
    var queues: map<string, Slice>
    ghost var owner: map<array<Message>, string>  // for every array the user whose queue it serves

    /** The windows lie in their arrays, and different users never share an array. */
    ghost predicate Valid()
      reads this
    {
      forall k :: k in queues ==>
        && queues[k].off + queues[k].len <= queues[k].arr.Length
        && queues[k].arr in owner && owner[queues[k].arr] == k
    }

    ghost function Queue(k: string): seq<Message>
      requires Valid()
      reads this, owner.Keys
    {
      if k in queues then queues[k].arr[queues[k].off..queues[k].off + queues[k].len] else []
    }

    constructor ()
      ensures Valid() && owner == map[] && forall k :: Queue(k) == []
    {
      queues, owner := map[], map[];
    }

    /** `append` to one user's queue: in place while the array has room behind the window. */
    method AddMessageToPending(echoKey: string, message: Message)
      requires Valid()
      modifies this, owner.Keys
      ensures Valid() && fresh(owner.Keys - old(owner.Keys))
      ensures Queue(echoKey) == old(Queue(echoKey)) + [message]
      ensures forall k :: k != echoKey ==> Queue(k) == old(Queue(k))
    {
      var window;
      if echoKey in queues {
        window := Append(queues[echoKey], message);
      } else {
        window := Grow([message]);
      }
      assert window.arr[window.off..window.off + window.len] == old(Queue(echoKey)) + [message];
      assert Valid() && forall k :: k != echoKey ==> Queue(k) == old(Queue(k));
      PutBack(echoKey, window);
    }

    /** `pendingMessages[userid] = msgs`, for a window into the user's own array or a fresh one. */
    method PutBack(userid: string, window: Slice)
      requires Valid() && window.off + window.len <= window.arr.Length
      requires window.arr in owner ==> owner[window.arr] == userid
      modifies this
      ensures Valid() && owner == old(owner)[window.arr := userid]
      ensures Queue(userid) == window.arr[window.off..window.off + window.len]
      ensures forall k :: k != userid ==> Queue(k) == old(Queue(k))
    {
      assert forall k :: k in queues && k != userid ==> queues[k].arr != window.arr;
      queues, owner := queues[userid := window], owner[window.arr := userid];
      assert forall k :: k in queues && k != userid ==> queues[k] == old(queues)[k];
    }

    /** Go's `append`: in place while there is room behind the window, else into a fresh array. */
    static method Append(s: Slice, message: Message) returns (window: Slice)
      requires s.off + s.len <= s.arr.Length
      modifies s.arr
      ensures window.off + window.len <= window.arr.Length && (window.arr == s.arr || fresh(window.arr))
      ensures window.arr[window.off..window.off + window.len] == old(s.arr[s.off..s.off + s.len]) + [message]
    {
      if s.off + s.len < s.arr.Length {
        s.arr[s.off + s.len] := message;
        window := Slice(s.arr, s.off, s.len + 1);
      } else {
        window := Grow(s.arr[s.off..s.off + s.len] + [message]);
      }
    }

    /** A fresh array with room to spare, holding `items` from its start. */
    static method Grow(items: seq<Message>) returns (s: Slice)
      requires items != []
      ensures fresh(s.arr) && s.off == 0 && s.len == |items| <= s.arr.Length
      ensures s.arr[..|items|] == items
    {
      var arr := new Message[2 * |items|](_ => items[0]);
      forall k | 0 <= k < |items| {
        arr[k] := items[k];
      }
      s := Slice(arr, 0, |items|);
    }

    /** Takes messages from the front while the budget lasts. On overflow `ws.go:320` closes the
        gap in place, and with `clear` `ws.go:333` then cuts the old window, which still shows the last message at
        its old place. */
    method GetPendingMessages(userid: string, clear: bool, currentLength: nat)
      returns (taken: seq<Message>, totalLength: nat)
      requires Valid()
      modifies this, owner.Keys
      ensures Valid() && owner == old(owner)
      ensures var q := old(Queue(userid));
              var k := Taken(q, currentLength);
              && taken == q[..k]
              && totalLength == currentLength + Total(taken)
              && Queue(userid) == Remaining(q, k, clear)
      ensures forall k :: k != userid ==> Queue(k) == old(Queue(k))
    {
      taken, totalLength := [], currentLength;
      if userid !in queues || queues[userid].len == 0 {
        assert Queue(userid) == [];
        return;
      }
      hide Taken, Total, Remaining;
      var i;
      taken, totalLength, i := TakeFront(queues[userid], currentLength);
      Settle(userid, i, clear);
    }

    /** What becomes of the queue once the loop has stopped at index `i`. */
    method Settle(userid: string, i: nat, clear: bool)
      requires Valid() && userid in queues && i <= queues[userid].len
      modifies this, owner.Keys
      ensures Valid() && owner == old(owner)
      ensures Queue(userid) == Remaining(old(Queue(userid)), i, clear)
      ensures forall k :: k != userid ==> Queue(k) == old(Queue(k))
    {
      hide Remaining;
      var msgs := queues[userid];
      var window := Cut(msgs, i, clear);
      PutBack(userid, window);
    }

    /** The slice expressions of `ws.go:320` and `ws.go:333`; the result is the window that stays in the map. */
    static method Cut(msgs: Slice, i: nat, clear: bool) returns (window: Slice)
      requires i <= msgs.len && msgs.off + msgs.len <= msgs.arr.Length
      modifies msgs.arr
      ensures window.arr == msgs.arr && window.off + window.len <= window.arr.Length
      ensures window.arr[window.off..window.off + window.len]
              == Remaining(old(msgs.arr[msgs.off..msgs.off + msgs.len]), i, clear)
    {
      window := msgs;
      if i < msgs.len {
        DropMessage(msgs, i);
        window := Slice(msgs.arr, msgs.off, msgs.len - 1);
      }
      if clear {
        window := Slice(msgs.arr, msgs.off + i, msgs.len - i);
      }
    }

    /** What the gap closed in place looks like through the shorter window, and through the old one from
        the gap on, where the last message still stands at its old place. */
    static method DropMessage(msgs: Slice, i: nat)
      requires i < msgs.len && msgs.off + msgs.len <= msgs.arr.Length
      modifies msgs.arr
      ensures var q := old(msgs.arr[msgs.off..msgs.off + msgs.len]);
              && msgs.arr[msgs.off..msgs.off + msgs.len - 1] == q[..i] + q[i + 1..]
              && msgs.arr[msgs.off + i..msgs.off + msgs.len] == q[i + 1..] + [q[msgs.len - 1]]
    {
      ghost var before := msgs.arr[..];
      CloseGap(msgs, i);
      ghost var after := msgs.arr[..];
      GapInWindow(before, after, msgs.off, msgs.len, i);
      assert msgs.arr[msgs.off..msgs.off + msgs.len - 1] == after[msgs.off..msgs.off + msgs.len - 1];
      assert msgs.arr[msgs.off + i..msgs.off + msgs.len] == after[msgs.off + i..msgs.off + msgs.len];
    }

    /** The loop over the queue: the messages before the first that breaks the budget. */
    static method TakeFront(msgs: Slice, currentLength: nat)
      returns (taken: seq<Message>, totalLength: nat, i: nat)
      requires msgs.off + msgs.len <= msgs.arr.Length
      ensures var q := msgs.arr[msgs.off..msgs.off + msgs.len];
              i == Taken(q, currentLength) && taken == q[..i] && totalLength == currentLength + Total(taken)
    {
      ghost var q := msgs.arr[msgs.off..msgs.off + msgs.len];
      taken, totalLength, i := [], currentLength, 0;
      hide Taken, Total;
      NothingTaken(q);
      while i < msgs.len
        invariant 0 <= i <= msgs.len
        invariant taken == q[..i] && totalLength == currentLength + Total(q[..i])
        invariant i == 0 || totalLength <= LIMIT
      {
        var msg := msgs.arr[msgs.off + i];
        assert msg == q[i];
        OneMore(q, i);
        if totalLength + |msg.content| + |MARKER| > LIMIT {
          break;
        }
        taken := taken + [msg];
        totalLength := totalLength + |msg.content| + |MARKER|;
        i := i + 1;
      }
      TakenStops(q, currentLength, i);
    }

    /** `append(msgs[:i], msgs[i+1:]...)`: there is room, so the tail moves down by one in place. */
    static method CloseGap(msgs: Slice, i: nat)
      requires i < msgs.len && msgs.off + msgs.len <= msgs.arr.Length
      modifies msgs.arr
      ensures forall a :: msgs.off <= a < msgs.off + msgs.len ==>
                msgs.arr[a] ==
                  if msgs.off + i <= a < msgs.off + msgs.len - 1 then old(msgs.arr[a + 1]) else old(msgs.arr[a])
    {
      forall j | msgs.off + i <= j < msgs.off + msgs.len - 1 {
        msgs.arr[j] := msgs.arr[j + 1];
      }
    }
  }

  lemma GapClosed(q: seq<Message>, w: seq<Message>, i: nat)
    requires |w| == |q| && i < |q|
    requires forall j :: 0 <= j < |q| ==> w[j] == q[if i <= j < |q| - 1 then j + 1 else j]
    ensures w[..|q| - 1] == q[..i] + q[i + 1..]
    ensures w[i..] == q[i + 1..] + [q[|q| - 1]]
  {
    var kept, cut := q[..i] + q[i + 1..], q[i + 1..] + [q[|q| - 1]];
    assert forall j :: 0 <= j < |kept| ==> w[..|q| - 1][j] == w[j] == kept[j];
    assert forall j :: 0 <= j < |cut| ==> w[i..][j] == w[i + j] == cut[j];
  }

  lemma GapInWindow(before: seq<Message>, after: seq<Message>, off: nat, len: nat, i: nat)
    requires |before| == |after| && off + len <= |before| && i < len
    requires forall a {:trigger after[a]} :: off <= a < off + len ==>
               after[a] == if off + i <= a < off + len - 1 then before[a + 1] else before[a]
    ensures var q := before[off..off + len];
            && after[off..off + len - 1] == q[..i] + q[i + 1..]
            && after[off + i..off + len] == q[i + 1..] + [q[len - 1]]
  {
    var q, w := before[off..off + len], after[off..off + len];
    forall j | 0 <= j < len ensures w[j] == q[if i <= j < len - 1 then j + 1 else j] {
      var a := off + j;
      assert w[j] == after[a];
      assert i <= j < len - 1 ==> before[a + 1] == q[j + 1];
    }
    GapClosed(q, w, i);
    assert after[off..off + len - 1] == w[..len - 1];
    assert after[off + i..off + len] == w[i..];
  }

  // ---------------------------------------------------------------- what a drain loses

  /** On overflow with `clear`, what is left is the untaken rest of the queue exactly when nothing but
      copies of one message follow the break: the message at the break is dropped and the last repeated. */
  lemma OverflowShifts(msgs: seq<Message>, k: nat)
    requires k < |msgs|
    ensures Remaining(msgs, k, true) == msgs[k..] <==> forall j :: k <= j < |msgs| - 1 ==> msgs[j] == msgs[j + 1]
    ensures multiset(msgs) + multiset{msgs[|msgs| - 1]}
            == multiset(msgs[..k]) + multiset{msgs[k]} + multiset(Remaining(msgs, k, true))
  {
    if forall j :: k <= j < |msgs| - 1 ==> msgs[j] == msgs[j + 1] {
      ShiftedSame(msgs, k);
    }
    if Remaining(msgs, k, true) == msgs[k..] {
      SameShifted(msgs, k);
    }
    ShiftLedger(msgs, k);
  }

  lemma ShiftedSame(msgs: seq<Message>, k: nat)
    requires k < |msgs| && forall j :: k <= j < |msgs| - 1 ==> msgs[j] == msgs[j + 1]
    ensures Remaining(msgs, k, true) == msgs[k..]
  {
    var left := Remaining(msgs, k, true);
    forall i | 0 <= i < |left| ensures left[i] == msgs[k..][i] {
      assert i < |left| - 1 ==> left[i] == msgs[k + i + 1] == msgs[k + i];
    }
  }

  lemma SameShifted(msgs: seq<Message>, k: nat)
    requires k < |msgs| && Remaining(msgs, k, true) == msgs[k..]
    ensures forall j :: k <= j < |msgs| - 1 ==> msgs[j] == msgs[j + 1]
  {
    forall j | k <= j < |msgs| - 1 ensures msgs[j] == msgs[j + 1] {
      assert Remaining(msgs, k, true)[j - k] == msgs[k..][j - k];
    }
  }

  lemma ShiftLedger(msgs: seq<Message>, k: nat)
    requires k < |msgs|
    ensures multiset(msgs) + multiset{msgs[|msgs| - 1]}
            == multiset(msgs[..k]) + multiset{msgs[k]} + multiset(Remaining(msgs, k, true))
  {
    assert msgs == msgs[..k] + [msgs[k]] + msgs[k + 1..];
  }

  ghost predicate NoRepeats(msgs: seq<Message>) {
    forall i, j :: 0 <= i < j < |msgs| ==> msgs[i] != msgs[j]
  }

  /** A drain of a queue without repeats leaves exactly what it did not take when it takes everything or
      breaks at the last message, and not otherwise. */
  lemma DrainLeavesRest(msgs: seq<Message>, length: nat)
    requires NoRepeats(msgs)
    ensures var k := Taken(msgs, length);
            Remaining(msgs, k, true) == msgs[k..] <==> |msgs| - 1 <= k
  {
    var k := Taken(msgs, length);
    if k < |msgs| {
      OverflowShifts(msgs, k);
      if k < |msgs| - 1 {
        assert msgs[k] != msgs[k + 1];
      }
    }
  }

  /** Three messages behind a reply that fills the budget: the first is lost, the last is there twice. */
  lemma ThreeOverflow(a: Message, b: Message, c: Message)
    requires NoRepeats([a, b, c])
    ensures Taken([a, b, c], LIMIT) == 0
    ensures Remaining([a, b, c], 0, true) == [b, c, c] != [a, b, c]
  {
    var msgs := [a, b, c];
    TakenIsLongest(msgs, LIMIT, 1);
    TotalGrows(msgs[..1], 0);
    assert msgs[1..] + [c] == [b, c, c];
    assert msgs[0] != msgs[1];
  }

  // ---------------------------------------------------------------- the assembled reply

  function Separator(): string {
    "\n" + MARKER + "\n"
  }

  /** The history in reverse queue order, each part followed by the separator. */
  function Stack(history: seq<Message>): string {
    if history == [] then "" else Stack(history[1..]) + history[0].content + Separator()
  }

  lemma {:induction false} StackAppend(history: seq<Message>, m: Message)
    ensures Stack(history + [m]) == m.content + Separator() + Stack(history)
  {
    if history == [] {
      assert (history + [m])[1..] == [];
    } else {
      assert (history + [m])[1..] == history[1..] + [m];
      StackAppend(history[1..], m);
      assert (m.content + Separator() + Stack(history[1..])) + history[0].content + Separator()
             == m.content + Separator() + (Stack(history[1..]) + history[0].content + Separator());
    }
  }

  /** Nothing stacks to nothing, and one more message comes in front, with a line break before and after the
      marker that follows it. */
  lemma StackedInFront(history: seq<Message>, m: Message)
    ensures Stack([]) == "" && Stack(history + [m]) == m.content + "\n" + MARKER + "\n" + Stack(history)
  {
    StackAppend(history, m);
    assert m.content + ("\n" + MARKER + "\n") == m.content + "\n" + MARKER + "\n";
  }

  lemma {:induction false} StackLength(history: seq<Message>)
    ensures |Stack(history)| == Total(history) + 2 * |history|
  {
    if history == [] {
    } else {
      var init := history[..|history| - 1];
      StackLength(init);
      StackAppend(init, history[|history| - 1]);
      assert history == init + [history[|history| - 1]];
    }
  }

  /** The loop of `textMsgHandler` that puts each history message in front of the reply. */
  method Assemble(history: seq<Message>, bare: string) returns (result: string)
    ensures result == Stack(history) + bare
  {
    result := bare;
    var i := 0;
    while i < |history|
      invariant 0 <= i <= |history|
      invariant result == Stack(history[..i]) + bare
    {
      assert history[..i + 1] == history[..i] + [history[i]];
      StackAppend(history[..i], history[i]);
      result := history[i].content + ("\n" + MARKER + "\n") + result;
      i := i + 1;
    }
    assert history[..i] == history;
  }

  /** The reply that goes out has two bytes for each history message beyond the budgeted total: at most
      2241 bytes whenever the bare reply is within the limit, and the bare reply alone when it is not. */
  lemma ReplyBudget(msgs: seq<Message>, bare: string)
    ensures var history := msgs[..Taken(msgs, |bare|)];
            var reply := Stack(history) + bare;
            && |reply| == |bare| + Total(history) + 2 * |history|
            && (|bare| <= LIMIT ==> |bare| + Total(history) <= LIMIT && |reply| <= 2241)
            && (|bare| > LIMIT ==> reply == bare)
  {
    var k := Taken(msgs, |bare|);
    var history := msgs[..k];
    StackLength(history);
    TakenIsLongest(msgs, |bare|, k);
    TotalGrows(history, 0);
    assert history[..0] == [];
  }
}
