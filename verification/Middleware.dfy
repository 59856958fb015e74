/** The re-entrant handler chain of the callback server (`wechat/mp/core/context.go`, `handler.go`):
    handlers that call `Next` and `Abort` as often and at whatever nesting they like. */
module Middleware {
  import opened Strings

  const MAX_HANDLER_CHAIN_SIZE := 64
  const INIT_HANDLER_INDEX := -1
  const ABORT_HANDLER_INDEX := MAX_HANDLER_CHAIN_SIZE

  datatype Act = CallNext | CallAbort

  /** A handler as the chain sees it: which of `Next` and `Abort` one invocation calls, in order. That may
      depend on everything that happened before it; `started` are the handlers invoked so far. */
  type Handler = seq<nat> -> seq<Act>

  /** `combineHandlerChain`, which panics when the chain gets too long. */
  function CombineHandlerChain(middlewares: seq<Handler>, handlers: seq<Handler>): (chain: Option<seq<Handler>>)
    ensures chain.None? <==> |middlewares| + |handlers| > 64
    ensures chain.Some? ==>
              && |chain.value| <= 64
              && middlewares <= chain.value && chain.value[|middlewares|..] == handlers
  {
    if |middlewares| + |handlers| > MAX_HANDLER_CHAIN_SIZE then None else Some(middlewares + handlers)
  }

  // ---------------------------------------------------------------- what a chain does

  /** The handlers before the k-th. */
  function Before(k: nat): (s: seq<nat>)
    ensures |s| == k && forall i :: 0 <= i < k ==> s[i] == i
  {
    seq(k, i => i)
  }

  /** How many handlers have been invoked, and whether somebody aborted, when a call of `Next` returns that was
      made with `k` of them invoked and nobody having aborted. */
  function NextFrom(hs: seq<Handler>, k: nat): (r: (nat, bool))
    requires k <= |hs|
    ensures k <= r.0 <= |hs| && (!r.1 ==> r.0 == |hs|)
    decreases |hs| - k, 0, 1
  {
    if k == |hs| then (k, false)
    else
      var (n, aborted) := DoActs(hs, hs[k](Before(k)), k + 1);
      if aborted then (n, true) else NextFrom(hs, n)
  }

  /** The same for what one handler does. */
  function DoActs(hs: seq<Handler>, acts: seq<Act>, k: nat): (r: (nat, bool))
    requires k <= |hs|
    ensures k <= r.0 <= |hs|
    decreases |hs| - k, |acts|, 2
  {
    if acts == [] then (k, false)
    else if acts[0].CallAbort? then (k, true)
    else
      var (n, aborted) := NextFrom(hs, k);
      if aborted then (n, true) else DoActs(hs, acts[1..], n)
  }

  ghost predicate Aborts(hs: seq<Handler>, i: nat)
    requires i < |hs|
  {
    CallAbort in hs[i](Before(i))
  }

  /** Somebody has aborted exactly when one of the handlers invoked is one that does. */
  lemma {:induction false} AbortedExactly(hs: seq<Handler>, k: nat)
    requires k <= |hs|
    ensures NextFrom(hs, k).1 <==> exists i :: k <= i < NextFrom(hs, k).0 && Aborts(hs, i)
    decreases |hs| - k, 0, 1
  {
    if k == |hs| {
    } else {
      var acts := hs[k](Before(k));
      var n := DoActs(hs, acts, k + 1).0;
      ActsAbortExactly(hs, acts, k + 1);
      if !DoActs(hs, acts, k + 1).1 {
        AbortedExactly(hs, n);
      } else if CallAbort in acts {
        assert Aborts(hs, k);
      }
    }
  }

  lemma {:induction false} ActsAbortExactly(hs: seq<Handler>, acts: seq<Act>, k: nat)
    requires k <= |hs|
    ensures DoActs(hs, acts, k).1
            <==> CallAbort in acts || exists i :: k <= i < DoActs(hs, acts, k).0 && Aborts(hs, i)
    decreases |hs| - k, |acts|, 2
  {
    if acts == [] {
    } else if acts[0].CallAbort? {
    } else {
      assert acts == [acts[0]] + acts[1..];
      AbortedExactly(hs, k);
      if !NextFrom(hs, k).1 {
        ActsAbortExactly(hs, acts[1..], NextFrom(hs, k).0);
      }
    }
  }

  /** The first handler that aborts without calling `Next` before is the last one invoked. */
  lemma {:induction false} StopsAtAbort(hs: seq<Handler>, k: nat, i: nat)
    requires k <= i < |hs| && (forall j :: k <= j < i ==> hs[j](Before(j)) == [])
    requires hs[i](Before(i)) != [] && hs[i](Before(i))[0] == CallAbort
    ensures NextFrom(hs, k) == (i + 1, true)
    decreases i - k
  {
    if k == i {
    } else {
      assert hs[k](Before(k)) == [];
      StopsAtAbort(hs, k + 1, i);
    }
  }

  /** A handler that calls `Next` first has all the others invoked before it goes on, if nobody of them aborts:
      an abort of its own then comes too late for them. */
  lemma OthersFirst(hs: seq<Handler>, k: nat)
    requires k < |hs| && hs[k](Before(k)) == [CallNext, CallAbort] && !NextFrom(hs, k + 1).1
    ensures NextFrom(hs, k) == (|hs|, true)
  {
    assert [CallNext, CallAbort][1..] == [CallAbort];
    assert DoActs(hs, [CallAbort], |hs|) == (|hs|, true);
    assert DoActs(hs, [CallNext, CallAbort], k + 1) == (|hs|, true);
  }

  class Context {
    var handlers: seq<Handler>
    var handlerIndex: int
    // The record of the run: the handlers invoked, and how many of them when Abort first ran.
    var started: seq<nat>
    var startedAtAbort: Option<nat>

    constructor ()
      ensures handlers == [] && handlerIndex == INIT_HANDLER_INDEX && started == [] && startedAtAbort == None
    {
      handlers, handlerIndex, started, startedAtAbort := [], INIT_HANDLER_INDEX, [], None;
    }

    /** The handlers invoked are 0, 1, and so on, each once. Until Abort runs the index is that of the last
        one; from then on it stays past every index, and nothing more has been invoked. */
    ghost predicate Valid()
      reads this
    {
      && |handlers| <= MAX_HANDLER_CHAIN_SIZE && |started| <= |handlers|
      && (forall i :: 0 <= i < |started| ==> started[i] == i)
      && (if startedAtAbort.Some?
          then handlerIndex == ABORT_HANDLER_INDEX && startedAtAbort.value == |started|
          else handlerIndex == |started| - 1)
    }

    /** It answers exactly whether Abort ran. */
    method IsAborted() returns (aborted: bool)
      requires Valid()
      ensures aborted <==> startedAtAbort.Some?
    {
      aborted := handlerIndex >= ABORT_HANDLER_INDEX;
    }

    method Abort()
      requires Valid()
      modifies this
      ensures Valid() && handlers == old(handlers) && started == old(started)
      ensures startedAtAbort == Some(|started|)
    {
      handlerIndex := ABORT_HANDLER_INDEX;
      if startedAtAbort.None? {
        startedAtAbort := Some(|started|);
      }
    }

    /** However it is nested, it terminates; unless somebody aborts it leaves no handler uninvoked; and
        once somebody has, it invokes none. */
    method Next()
      requires Valid()
      modifies this
      ensures Valid() && handlers == old(handlers) && old(started) <= started
      ensures old(startedAtAbort).Some? ==> startedAtAbort.Some? && started == old(started)
      ensures startedAtAbort.None? ==> |started| == |handlers|
      ensures old(startedAtAbort).None? ==>
                (|started|, startedAtAbort.Some?) == NextFrom(handlers, old(|started|))
      decreases |handlers| - |started|, 1
    {
      while true
        invariant Valid() && handlers == old(handlers) && old(started) <= started
        invariant old(startedAtAbort).Some? ==> startedAtAbort.Some? && started == old(started)
        invariant old(startedAtAbort).None? ==>
                    NextFrom(handlers, old(|started|))
                    == if startedAtAbort.Some? then (|started|, true) else NextFrom(handlers, |started|)
        decreases |handlers| - |started|
      {
        handlerIndex := handlerIndex + 1;
        if handlerIndex >= |handlers| {
          handlerIndex := handlerIndex - 1;
          break;
        }
        ServeMsg(handlers[handlerIndex]);
      }
    }

    /** One invocation of the handler at the index. */
    method ServeMsg(handler: Handler)
      requires |handlers| <= MAX_HANDLER_CHAIN_SIZE && handlerIndex == |started| < |handlers|
      requires startedAtAbort.None? && forall i :: 0 <= i < |started| ==> started[i] == i
      modifies this
      requires handler == handlers[handlerIndex]
      ensures Valid() && handlers == old(handlers) && old(started) + [|old(started)|] <= started
      ensures (|started|, startedAtAbort.Some?)
              == DoActs(handlers, handler(Before(old(|started|))), old(|started|) + 1)
      decreases |handlers| - |started|, 0
    {
      assert started == Before(|started|);
      var acts := handler(started);
      started := started + [handlerIndex];
      ghost var before := started;
      var i := 0;
      while i < |acts|
        invariant 0 <= i <= |acts|
        invariant Valid() && handlers == old(handlers) && before <= started
        invariant DoActs(handlers, acts, |before|)
                  == if startedAtAbort.Some? then (|started|, true) else DoActs(handlers, acts[i..], |started|)
      {
        assert acts[i..][1..] == acts[i + 1..];
        if acts[i].CallNext? {
          Next();
        } else {
          Abort();
        }
        i := i + 1;
      }
    }

    /** It panics when the chain is too long or has a nil handler, and once the chain has got to a handler
        or was aborted. */
    method SetHandlers(chain: seq<Option<Handler>>) returns (panics: bool)
      requires Valid()
      modifies this`handlers
      ensures Valid()
      ensures panics <==>
                || |chain| > 64 || None in chain
                || started != [] || startedAtAbort.Some?
      ensures panics ==> handlers == old(handlers)
      ensures !panics ==>
                |handlers| == |chain| && forall i :: 0 <= i < |chain| ==> chain[i] == Some(handlers[i])
    {
      if |chain| > MAX_HANDLER_CHAIN_SIZE {
        return true;
      }
      var checked: seq<Handler> := [];
      for i := 0 to |chain|
        invariant |checked| == i && forall j :: 0 <= j < i ==> chain[j] == Some(checked[j])
      {
        if chain[i].None? {
          return true;
        }
        checked := checked + [chain[i].value];
      }
      if handlerIndex != INIT_HANDLER_INDEX {
        return true;
      }
      handlers := checked;
      panics := false;
    }

    /** What serving a message with a registered chain comes to: the handlers 0, 1, up to some m, in order
        and without repeats; all of them if nobody aborts, none after an Abort if somebody does. */
    method Serve(chain: seq<Handler>) returns (aborted: bool)
      requires |chain| <= 64
      requires handlerIndex == INIT_HANDLER_INDEX && started == [] && startedAtAbort == None
      modifies this
      ensures |started| <= |chain| && forall i :: 0 <= i < |started| ==> started[i] == i
      ensures aborted <==> startedAtAbort.Some?
      ensures !aborted ==> |started| == |chain|
      ensures aborted ==> startedAtAbort == Some(|started|)
      ensures (|started|, aborted) == NextFrom(chain, 0)
    {
      handlers := chain;
      Next();
      aborted := IsAborted();
    }
  }
}
