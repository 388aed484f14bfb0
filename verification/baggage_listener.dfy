/**
  The inbound side's per-call listener. The server interceptor records one
  baggage scope handle per header it extracted, and wraps the handler's
  listener so that `onComplete` and `onCancel` run the delegate's own callback
  and then, as in a `finally` block, close every recorded scope in opening
  order. The other callbacks are forwarded untouched.

  Each callback is parameterised by whether the delegate's own callback throws
  and by which scope handles throw from `close()`. As in Java, an exception
  from a `finally` block replaces the one that was propagating.
 */
module BaggageListener {
  import opened Options
  import opened Rpc
  import opened Metadata

  /** A baggage scope opened for `key` with `value`; a listener refers to it by its position. */
  datatype Scope = Scope(key: string, value: string)

  /** The callbacks of a server call listener. */
  datatype Callback = OnMessage | OnHalfClose | OnReady | OnComplete | OnCancel

  /** The two callbacks that end a call. */
  predicate IsTerminal(cb: Callback)
  {
    cb.OnComplete? || cb.OnCancel?
  }

  /** The observable steps of an inbound call, in the order they happen. */
  datatype ServerEffect =
    | OpenScope(key: string, value: string)
    | Tag(span: SpanId, key: string, value: string)
    | StartCall(call: CallId, headers: Headers)
    | DelegateCallback(listener: ListenerId, callback: Callback)
    | Close(index: nat)

  /** Where a propagating exception came from. */
  datatype Fault = DelegateFault | CloseFault(index: nat)

  /** How a callback ends: it returns, or it throws. */
  datatype Outcome = Returned | Threw(fault: Fault)

  /** The wrapped listener: the handler's listener and the scopes recorded while intercepting. */
  datatype Listener = Listener(delegate: ListenerId, scopes: seq<Scope>)

  /** The effects and the outcome of one callback. */
  datatype Step = Step(effects: seq<ServerEffect>, outcome: Outcome)

  /** `Close(lo), …, Close(hi - 1)`. */
  function Closes(lo: nat, hi: nat): (r: seq<ServerEffect>)
    requires lo <= hi
    ensures |r| == hi - lo
    ensures forall j :: 0 <= j < |r| ==> r[j] == Close(lo + j)
    decreases hi - lo
  {
    if lo == hi then [] else [Close(lo)] + Closes(lo + 1, hi)
  }

  /** The first scope position in `lo..hi` whose `close()` throws, if any. */
  predicate FirstFailingClose(k: nat, lo: nat, hi: nat, closeThrows: set<nat>)
  {
    lo <= k < hi && k in closeThrows && forall j :: lo <= j < k ==> j !in closeThrows
  }

  /**
    `closeBaggageScopes` from position `i` of `n` recorded scopes: closes them
    in order and stops at the first `close()` that throws, naming it.
   */
  function CloseFrom(n: nat, i: nat, closeThrows: set<nat>): (r: (seq<ServerEffect>, Option<nat>))
    requires i <= n
    ensures r.1.None? <==> forall j :: i <= j < n ==> j !in closeThrows
    ensures r.1.None? ==> r.0 == Closes(i, n)
    ensures r.1.Some? ==> FirstFailingClose(r.1.value, i, n, closeThrows) && r.0 == Closes(i, r.1.value + 1)
    decreases n - i
  {
    if i == n then ([], None)
    else if i in closeThrows then ([Close(i)], Some(i))
    else
      var rest := CloseFrom(n, i + 1, closeThrows);
      ([Close(i)] + rest.0, rest.1)
  }

  /** What the delegate's own callback yields. */
  function DelegateOutcome(delegateThrows: bool): Outcome
  {
    if delegateThrows then Threw(DelegateFault) else Returned
  }

  /**
    One callback on the wrapped listener. The delegate's callback always runs
    first. A non-terminal callback does nothing else. A terminal one then
    closes the recorded scopes whether or not the delegate threw; the
    delegate's exception still propagates, unless a `close()` throws, which
    stops the closing and propagates instead.
   */
  function OnCallback(l: Listener, cb: Callback, delegateThrows: bool, closeThrows: set<nat>): (r: Step)
    ensures |r.effects| >= 1 && r.effects[0] == DelegateCallback(l.delegate, cb)
    ensures !IsTerminal(cb) ==> r.effects == [DelegateCallback(l.delegate, cb)] && r.outcome == DelegateOutcome(delegateThrows)
    ensures IsTerminal(cb) && (forall j :: 0 <= j < |l.scopes| ==> j !in closeThrows) ==>
              r.effects == [DelegateCallback(l.delegate, cb)] + Closes(0, |l.scopes|)
              && r.outcome == DelegateOutcome(delegateThrows)
    ensures forall k: nat :: IsTerminal(cb) && FirstFailingClose(k, 0, |l.scopes|, closeThrows) ==>
              r.effects == [DelegateCallback(l.delegate, cb)] + Closes(0, k + 1)
              && r.outcome == Threw(CloseFault(k))
  {
    var forwarded := [DelegateCallback(l.delegate, cb)];
    if IsTerminal(cb) then
      var closed := CloseFrom(|l.scopes|, 0, closeThrows);
      Step(forwarded + closed.0,
           match closed.1
           case Some(k) => Threw(CloseFault(k))
           case None => DelegateOutcome(delegateThrows))
    else
      Step(forwarded, DelegateOutcome(delegateThrows))
  }

  /** A callback as the runtime delivers it, with whether the delegate's own callback throws. */
  datatype Delivery = Delivery(callback: Callback, delegateThrows: bool)

  /** The effects of delivering `ds` in turn to `l`, every `close()` returning normally. */
  function Replay(l: Listener, ds: seq<Delivery>): seq<ServerEffect>
    decreases |ds|
  {
    if |ds| == 0 then []
    else
      var d := ds[|ds| - 1];
      Replay(l, ds[..|ds| - 1]) + OnCallback(l, d.callback, d.delegateThrows, {}).effects
  }

  /** How many times `e` occurs in `s`. */
  function Count(s: seq<ServerEffect>, e: ServerEffect): nat
    decreases |s|
  {
    if |s| == 0 then 0 else Count(s[..|s| - 1], e) + (if s[|s| - 1] == e then 1 else 0)
  }

  /** How many deliveries are terminal callbacks. */
  function TerminalCount(ds: seq<Delivery>): nat
    decreases |ds|
  {
    if |ds| == 0 then 0 else TerminalCount(ds[..|ds| - 1]) + (if IsTerminal(ds[|ds| - 1].callback) then 1 else 0)
  }

  lemma {:induction false} CountAppend(s: seq<ServerEffect>, t: seq<ServerEffect>, e: ServerEffect)
    ensures Count(s + t, e) == Count(s, e) + Count(t, e)
    decreases |t|
  {
    if |t| == 0 {
      assert s + t == s;
    } else {
      var n := |t| - 1;
      assert (s + t)[..|s + t| - 1] == s + t[..n];
      CountAppend(s, t[..n], e);
    }
  }

  /** Each position in `lo..hi` is closed exactly once by `Closes(lo, hi)`. */
  lemma {:induction false} CountCloses(lo: nat, hi: nat, j: nat)
    requires lo <= hi
    ensures Count(Closes(lo, hi), Close(j)) == if lo <= j < hi then 1 else 0
    decreases hi - lo
  {
    if lo < hi {
      CountCloses(lo + 1, hi, j);
      CountAppend([Close(lo)], Closes(lo + 1, hi), Close(j));
      assert [Close(lo)][..0] == [];
    }
  }

  /**
    The listener keeps no state between callbacks: each terminal callback
    closes every recorded scope once more, so a scope is closed once per
    terminal callback delivered and never by any other callback.
   */
  lemma {:induction false} ClosedOncePerTerminalCallback(l: Listener, ds: seq<Delivery>, j: nat)
    requires j < |l.scopes|
    ensures Count(Replay(l, ds), Close(j)) == TerminalCount(ds)
    decreases |ds|
  {
    if |ds| > 0 {
      var n := |ds| - 1;
      var d := ds[n];
      var step := OnCallback(l, d.callback, d.delegateThrows, {});
      ClosedOncePerTerminalCallback(l, ds[..n], j);
      CountAppend(Replay(l, ds[..n]), step.effects, Close(j));
      assert Count([DelegateCallback(l.delegate, d.callback)], Close(j)) == 0 by {
        assert [DelegateCallback(l.delegate, d.callback)][..0] == [];
      }
      if IsTerminal(d.callback) {
        CountAppend([DelegateCallback(l.delegate, d.callback)], Closes(0, |l.scopes|), Close(j));
        CountCloses(0, |l.scopes|, j);
      }
    }
  }
}
