/**
  The outbound side: a client interceptor that, when its call is started,
  copies the configured baggage fields of the caller's tracing context into
  the call's request metadata.

  The tracer is a function from field name to baggage: the outer `None` is a
  `null` `Baggage`, the inner `None` a `Baggage` whose value is `null`.
 */
module HeaderClientInterceptor {
  import opened Options
  import opened Rpc
  import opened Metadata

  type BaggageLookup = string -> Option<Option<string>>

  /** The interceptor's configuration: the remote field names, in order; possibly empty. */
  datatype ClientInterceptor = ClientInterceptor(remoteFields: seq<string>)

  /** The observable steps of an outbound call, in the order they happen. */
  datatype ClientEffect =
    | NewCall(rpcMethod: MethodId, options: CallOptions)
    | PutHeader(key: string, value: string)
    | DelegateStart(call: CallId, listener: ListenerId, headers: Headers)

  /** The call handed back by `interceptCall`: a forwarding wrapper around the delegate call. */
  datatype ForwardingCall = ForwardingCall(interceptor: ClientInterceptor, delegate: CallId)

  /** The value to propagate for a field: present only for a non-null baggage with a non-null value. */
  function Propagated(baggage: BaggageLookup, field: string): Option<string>
  {
    match baggage(field)
    case Some(Some(v)) => Some(v)
    case _ => None
  }

  /**
    Reference definition of the headers the injection loop appends: one
    `(field, value)` pair per configured field, in field order, for the
    fields whose baggage carries a value.
   */
  function Injected(fields: seq<string>, baggage: BaggageLookup): Headers
    decreases |fields|
  {
    if |fields| == 0 then []
    else
      var f := fields[|fields| - 1];
      Injected(fields[..|fields| - 1], baggage)
        + (match Propagated(baggage, f) case Some(v) => [Header(f, v)] case None => [])
  }

  /** The effects the injection loop emits: one `PutHeader` per injected header. */
  function Puts(hs: Headers): (r: seq<ClientEffect>)
    ensures |r| == |hs|
    ensures forall i :: 0 <= i < |hs| ==> r[i] == PutHeader(hs[i].key, hs[i].value)
    decreases |hs|
  {
    if |hs| == 0 then [] else Puts(hs[..|hs| - 1]) + [PutHeader(hs[|hs| - 1].key, hs[|hs| - 1].value)]
  }

  /**
    The wrapper's `start`: walks the remote fields in order, appends a header
    for each field whose baggage carries a value, then starts the delegate
    once with the same listener and the same, now extended, metadata.
   */
  method Start(call: ForwardingCall, baggage: BaggageLookup, listener: ListenerId, headers: Headers)
    returns (effects: seq<ClientEffect>, sent: Headers)
    ensures sent == headers + Injected(call.interceptor.remoteFields, baggage)
    ensures |sent| >= |headers| && sent[..|headers|] == headers
    ensures call.interceptor.remoteFields == [] ==> sent == headers
    ensures effects == Puts(sent[|headers|..]) + [DelegateStart(call.delegate, listener, sent)]
  {
    var fields := call.interceptor.remoteFields;
    var md := headers;
    var puts: seq<ClientEffect> := [];
    var i := 0;
    while i < |fields|
      invariant 0 <= i <= |fields|
      invariant md == headers + Injected(fields[..i], baggage)
      invariant puts == Puts(Injected(fields[..i], baggage))
    {
      ghost var before := Injected(fields[..i], baggage);
      assert fields[..i + 1][..i] == fields[..i];
      assert Injected(fields[..i + 1], baggage)
          == before + (match Propagated(baggage, fields[i]) case Some(v) => [Header(fields[i], v)] case None => []);
      var b := baggage(fields[i]);
      if b.Some? {
        var value := b.value;
        if value.Some? {
          assert Injected(fields[..i + 1], baggage) == before + [Header(fields[i], value.value)];
          assert (before + [Header(fields[i], value.value)])[..|before|] == before;
          md := Put(md, fields[i], value.value);
          puts := puts + [PutHeader(fields[i], value.value)];
        }
      }
      i := i + 1;
    }
    assert fields[..i] == fields;
    sent := md;
    assert sent[|headers|..] == Injected(fields, baggage);
    effects := puts + [DelegateStart(call.delegate, listener, sent)];
  }

  /**
    A whole outbound call. `interceptCall` asks the channel for the delegate
    call exactly once, first, with the method and call options unchanged, and
    wraps it; then the wrapper's `start` puts the injected headers in field
    order and starts that delegate exactly once, last, with the caller's
    listener and the extended metadata.
   */
  method Call(interceptor: ClientInterceptor, newCall: (MethodId, CallOptions) -> CallId,
              rpcMethod: MethodId, options: CallOptions,
              baggage: BaggageLookup, listener: ListenerId, headers: Headers)
    returns (trace: seq<ClientEffect>)
    ensures trace == [NewCall(rpcMethod, options)]
                     + Puts(Injected(interceptor.remoteFields, baggage))
                     + [DelegateStart(newCall(rpcMethod, options), listener,
                                      headers + Injected(interceptor.remoteFields, baggage))]
    ensures |trace| >= 2
    ensures trace[0] == NewCall(rpcMethod, options)
    ensures forall i :: 0 < i < |trace| - 1 ==> trace[i].PutHeader?
  {
    var call := ForwardingCall(interceptor, newCall(rpcMethod, options));
    var created := [NewCall(rpcMethod, options)];
    var effects, sent := Start(call, baggage, listener, headers);
    ghost var injected := Injected(interceptor.remoteFields, baggage);
    ghost var puts := Puts(injected);
    assert sent[|headers|..] == injected;
    assert effects == puts + [DelegateStart(newCall(rpcMethod, options), listener, sent)];
    trace := created + effects;
    assert trace == created + puts + [DelegateStart(newCall(rpcMethod, options), listener, sent)];
    assert forall i :: 0 < i < |trace| - 1 ==> trace[i] == puts[i - 1];
  }

  /** A header is injected exactly for the configured fields whose baggage carries a value, with that value. */
  lemma {:induction false} InjectedExactly(fields: seq<string>, baggage: BaggageLookup, k: string, v: string)
    ensures Header(k, v) in Injected(fields, baggage) <==> k in fields && baggage(k) == Some(Some(v))
    decreases |fields|
  {
    if |fields| > 0 {
      var n := |fields| - 1;
      assert fields == fields[..n] + [fields[n]];
      InjectedExactly(fields[..n], baggage, k, v);
    }
  }

  /** The injected headers follow the field order: injecting two field lists in turn injects their concatenation. */
  lemma {:induction false} InjectedInFieldOrder(fs: seq<string>, gs: seq<string>, baggage: BaggageLookup)
    ensures Injected(fs + gs, baggage) == Injected(fs, baggage) + Injected(gs, baggage)
    decreases |gs|
  {
    if |gs| == 0 {
      assert fs + gs == fs;
    } else {
      var n := |gs| - 1;
      assert (fs + gs)[..|fs + gs| - 1] == fs + gs[..n];
      InjectedInFieldOrder(fs, gs[..n], baggage);
    }
  }

  /** A field whose baggage is `null`, or whose value is `null`, gets no header: reading it back sees only what was there before. */
  lemma AbsentBaggageWritesNothing(fields: seq<string>, baggage: BaggageLookup, headers: Headers, f: string)
    requires baggage(f).None? || baggage(f) == Some(None)
    ensures !HasKey(Injected(fields, baggage), f)
    ensures Get(headers + Injected(fields, baggage), f) == Get(headers, f)
  {
    var inj := Injected(fields, baggage);
    if HasKey(inj, f) {
      var i :| 0 <= i < |inj| && inj[i].key == f;
      InjectedExactly(fields, baggage, f, inj[i].value);
      assert false;
    }
    GetAppendOther(headers, inj, f);
  }

  /** A configured field whose baggage carries `v` reads back as exactly `v` from the metadata the delegate receives. */
  lemma PresentBaggageReadsBack(fields: seq<string>, baggage: BaggageLookup, headers: Headers, f: string, v: string)
    requires f in fields && baggage(f) == Some(Some(v))
    ensures Get(headers + Injected(fields, baggage), f) == Some(v)
  {
    var inj := Injected(fields, baggage);
    InjectedExactly(fields, baggage, f, v);
    GetAppendShadows(headers, inj, f);
    var r := Get(inj, f);
    InjectedExactly(fields, baggage, f, r.value);
  }
}
