/**
  The inbound side: a server interceptor that, before handing a call to the
  next handler, opens a baggage scope for each configured remote field whose
  header is present in the request metadata, tags the span that was current
  on entry with the fields that are also tag fields, and returns a listener
  that closes the opened scopes when the call completes or is cancelled.

  The current span is read once, on entry, and passed in as `currentSpan`;
  `None` stands for a `null` span. The next handler is the function
  `startCall` from the call and its metadata to the listener it returns.
 */
module HeaderServerInterceptor {
  import opened Options
  import opened Rpc
  import opened Metadata
  import opened BaggageListener

  /** The interceptor's configuration: remote field names and tag field names; either may be empty. */
  datatype ServerInterceptor = ServerInterceptor(remoteFields: seq<string>, tagFields: seq<string>)

  /**
    The effects of the extraction loop's iteration for one field: nothing
    when its header is absent; otherwise the opening of its scope, first,
    and a tag on the entry span exactly when the field is a tag field and a
    span exists (the second, last effect); every effect binds the field name
    to the header's value verbatim.
   */
  function FieldEffects(f: string, tagFields: seq<string>, span: Option<SpanId>, headers: Headers): (r: seq<ServerEffect>)
    ensures r == [] <==> !HasKey(headers, f)
    ensures |r| <= 2
    ensures forall i :: 0 <= i < |r| ==> (r[i].OpenScope? <==> i == 0) && (r[i].OpenScope? || r[i].Tag?)
    ensures forall i :: 0 <= i < |r| ==> r[i].key == f && Some(r[i].value) == Get(headers, f)
    ensures |r| == 2 <==> HasKey(headers, f) && f in tagFields && span.Some?
    ensures forall i :: 0 <= i < |r| && r[i].Tag? ==> Some(r[i].span) == span
  {
    match Get(headers, f)
    case None => []
    case Some(v) => [OpenScope(f, v)] + (if f in tagFields && span.Some? then [Tag(span.value, f, v)] else [])
  }

  /** Reference definition of the extraction loop's effects: the per-field effects, in field order. */
  function Extraction(fields: seq<string>, tagFields: seq<string>, span: Option<SpanId>, headers: Headers): seq<ServerEffect>
    decreases |fields|
  {
    if |fields| == 0 then []
    else Extraction(fields[..|fields| - 1], tagFields, span, headers) + FieldEffects(fields[|fields| - 1], tagFields, span, headers)
  }

  /** Reference definition of the scopes the extraction loop records, in field order. */
  function Opened(fields: seq<string>, headers: Headers): seq<Scope>
    decreases |fields|
  {
    if |fields| == 0 then []
    else
      var f := fields[|fields| - 1];
      Opened(fields[..|fields| - 1], headers) + (match Get(headers, f) case Some(v) => [Scope(f, v)] case None => [])
  }

  /** The scopes a trace opens, in the order it opens them. */
  function OpenedBy(effects: seq<ServerEffect>): seq<Scope>
    decreases |effects|
  {
    if |effects| == 0 then []
    else
      var e := effects[|effects| - 1];
      OpenedBy(effects[..|effects| - 1]) + (if e.OpenScope? then [Scope(e.key, e.value)] else [])
  }

  /** The field names of a list of scopes. */
  function Keys(scopes: seq<Scope>): (r: seq<string>)
    ensures |r| == |scopes| && forall i :: 0 <= i < |scopes| ==> r[i] == scopes[i].key
    decreases |scopes|
  {
    if |scopes| == 0 then [] else Keys(scopes[..|scopes| - 1]) + [scopes[|scopes| - 1].key]
  }

  lemma {:induction false} OpenedByAppend(s: seq<ServerEffect>, t: seq<ServerEffect>)
    ensures OpenedBy(s + t) == OpenedBy(s) + OpenedBy(t)
    decreases |t|
  {
    if |t| == 0 {
      assert s + t == s;
    } else {
      var n := |t| - 1;
      assert (s + t)[..|s + t| - 1] == s + t[..n];
      OpenedByAppend(s, t[..n]);
    }
  }

  /** The scopes opened by one field's effects are the ones recorded for it, whatever the span. */
  lemma FieldOpens(f: string, tagFields: seq<string>, span: Option<SpanId>, headers: Headers)
    ensures OpenedBy(FieldEffects(f, tagFields, span, headers))
         == (match Get(headers, f) case Some(v) => [Scope(f, v)] case None => [])
  {
    match Get(headers, f)
    case None =>
    case Some(v) =>
      var open := [OpenScope(f, v)];
      var tag: seq<ServerEffect> := if f in tagFields && span.Some? then [Tag(span.value, f, v)] else [];
      OpenedByAppend(open, tag);
      assert open[..0] == [];
      if tag != [] {
        assert tag[..0] == [];
      }
  }

  /**
    The scopes the listener records are exactly the scopes the extraction
    opens, in opening order, whatever the span: a missing span changes the
    tags only.
   */
  lemma {:induction false} RecordedScopesAreOpenedScopes(fields: seq<string>, tagFields: seq<string>,
                                                         span: Option<SpanId>, headers: Headers)
    ensures OpenedBy(Extraction(fields, tagFields, span, headers)) == Opened(fields, headers)
    decreases |fields|
  {
    if |fields| > 0 {
      var n := |fields| - 1;
      RecordedScopesAreOpenedScopes(fields[..n], tagFields, span, headers);
      OpenedByAppend(Extraction(fields[..n], tagFields, span, headers), FieldEffects(fields[n], tagFields, span, headers));
      FieldOpens(fields[n], tagFields, span, headers);
    }
  }

  /** One more iteration of the extraction loop appends that field's effects and scope. */
  lemma ExtractionStep(fields: seq<string>, i: nat, tagFields: seq<string>, span: Option<SpanId>, headers: Headers)
    requires i < |fields|
    ensures Extraction(fields[..i + 1], tagFields, span, headers)
         == Extraction(fields[..i], tagFields, span, headers) + FieldEffects(fields[i], tagFields, span, headers)
    ensures Opened(fields[..i + 1], headers)
         == Opened(fields[..i], headers) + (match Get(headers, fields[i]) case Some(v) => [Scope(fields[i], v)] case None => [])
  {
    assert fields[..i + 1][..i] == fields[..i];
  }

  /** The trace holds only scope openings and tags. */
  predicate OnlyOpensAndTags(e: seq<ServerEffect>)
  {
    forall i :: 0 <= i < |e| ==> e[i].OpenScope? || e[i].Tag?
  }

  /** In the trace, every tag comes right after the opening of a scope for the same field and value. */
  predicate TagsFollowTheirScopes(e: seq<ServerEffect>)
  {
    forall i :: 0 <= i < |e| && e[i].Tag? ==> 0 < i && e[i - 1] == OpenScope(e[i].key, e[i].value)
  }

  /** The extraction loop emits only scope openings and tags. */
  lemma {:induction false} ExtractionOpensAndTags(fields: seq<string>, tagFields: seq<string>, span: Option<SpanId>,
                                                  headers: Headers)
    ensures OnlyOpensAndTags(Extraction(fields, tagFields, span, headers))
    decreases |fields|
  {
    if |fields| > 0 {
      var n := |fields| - 1;
      ExtractionOpensAndTags(fields[..n], tagFields, span, headers);
      var prefix := Extraction(fields[..n], tagFields, span, headers);
      var last := FieldEffects(fields[n], tagFields, span, headers);
      var e := prefix + last;
      assert OnlyOpensAndTags(prefix);
      forall i | 0 <= i < |e|
        ensures e[i].OpenScope? || e[i].Tag?
      {
        if i < |prefix| {
          assert e[i] == prefix[i];
        } else {
          assert e[i] == last[i - |prefix|];
        }
      }
    }
  }

  /**
    The loop of `interceptCall`: for each remote field in order whose header
    is present, opens and records a scope, and tags the span when the field
    is a tag field and a span exists.
   */
  method ExtractBaggage(fields: seq<string>, tags: seq<string>, currentSpan: Option<SpanId>, headers: Headers)
    returns (extracted: seq<ServerEffect>, scopes: seq<Scope>)
    ensures extracted == Extraction(fields, tags, currentSpan, headers)
    ensures scopes == Opened(fields, headers)
  {
    extracted := [];
    scopes := [];
    var i := 0;
    while i < |fields|
      invariant 0 <= i <= |fields|
      invariant extracted == Extraction(fields[..i], tags, currentSpan, headers)
      invariant scopes == Opened(fields[..i], headers)
    {
      ExtractionStep(fields, i, tags, currentSpan, headers);
      var headerName := fields[i];
      var value := Get(headers, headerName);
      if value.Some? {
        scopes := scopes + [Scope(headerName, value.value)];
        extracted := extracted + [OpenScope(headerName, value.value)];
        if headerName in tags && currentSpan.Some? {
          extracted := extracted + [Tag(currentSpan.value, headerName, value.value)];
        }
      }
      i := i + 1;
    }
    assert fields[..i] == fields;
  }

  /**
    `interceptCall`: runs the extraction loop over the remote fields in
    order, then calls the next handler exactly once, last, with the call and
    the metadata unchanged, and wraps the listener it returns together with
    the recorded scopes.
   */
  method InterceptCall(interceptor: ServerInterceptor, currentSpan: Option<SpanId>, call: CallId, headers: Headers,
                       startCall: (CallId, Headers) -> ListenerId)
    returns (effects: seq<ServerEffect>, listener: Listener)
    ensures effects == Extraction(interceptor.remoteFields, interceptor.tagFields, currentSpan, headers)
                       + [StartCall(call, headers)]
    ensures forall i :: 0 <= i < |effects| - 1 ==> !effects[i].StartCall?
    ensures listener.delegate == startCall(call, headers)
    ensures listener.scopes == OpenedBy(effects)
    ensures listener.scopes == Opened(interceptor.remoteFields, headers)
    ensures interceptor.remoteFields == [] ==> effects == [StartCall(call, headers)] && listener.scopes == []
  {
    var extracted, scopes := ExtractBaggage(interceptor.remoteFields, interceptor.tagFields, currentSpan, headers);
    effects := extracted + [StartCall(call, headers)];
    listener := Listener(startCall(call, headers), scopes);
    ExtractionOpensAndTags(interceptor.remoteFields, interceptor.tagFields, currentSpan, headers);
    RecordedScopesAreOpenedScopes(interceptor.remoteFields, interceptor.tagFields, currentSpan, headers);
    OpenedByAppend(extracted, [StartCall(call, headers)]);
    assert [StartCall(call, headers)][..0] == [];
  }

  /** A scope binding `k` to `v` is opened exactly when `k` is a remote field and its header holds `v`. */
  lemma {:induction false} ScopeOpenedExactly(fields: seq<string>, tagFields: seq<string>, span: Option<SpanId>,
                                              headers: Headers, k: string, v: string)
    ensures OpenScope(k, v) in Extraction(fields, tagFields, span, headers)
            <==> k in fields && Get(headers, k) == Some(v)
    decreases |fields|
  {
    if |fields| > 0 {
      var n := |fields| - 1;
      assert fields == fields[..n] + [fields[n]];
      ScopeOpenedExactly(fields[..n], tagFields, span, headers, k, v);
    }
  }

  /**
    A tag `(k, v)` is written on span `s` exactly when `k` is a remote field
    whose header holds `v`, `k` is a tag field, and `s` was current on entry.
   */
  lemma {:induction false} TagWrittenExactly(fields: seq<string>, tagFields: seq<string>, span: Option<SpanId>,
                                             headers: Headers, s: SpanId, k: string, v: string)
    ensures Tag(s, k, v) in Extraction(fields, tagFields, span, headers)
            <==> k in fields && Get(headers, k) == Some(v) && k in tagFields && span == Some(s)
    decreases |fields|
  {
    if |fields| > 0 {
      var n := |fields| - 1;
      assert fields == fields[..n] + [fields[n]];
      TagWrittenExactly(fields[..n], tagFields, span, headers, s, k, v);
    }
  }

  /** With no current span nothing is tagged, and the extraction is exactly the opening of the recorded scopes. */
  lemma {:induction false} NoSpanOnlyOpens(fields: seq<string>, tagFields: seq<string>, headers: Headers)
    ensures forall i :: 0 <= i < |Extraction(fields, tagFields, None, headers)| ==>
              Extraction(fields, tagFields, None, headers)[i].OpenScope?
    ensures OpenedBy(Extraction(fields, tagFields, None, headers)) == Opened(fields, headers)
    decreases |fields|
  {
    if |fields| > 0 {
      NoSpanOnlyOpens(fields[..|fields| - 1], tagFields, headers);
    }
    RecordedScopesAreOpenedScopes(fields, tagFields, None, headers);
  }

  /** Every tag immediately follows the opening of the scope for the same field and value. */
  lemma {:induction false} TagFollowsItsScope(fields: seq<string>, tagFields: seq<string>, span: Option<SpanId>,
                                              headers: Headers)
    ensures TagsFollowTheirScopes(Extraction(fields, tagFields, span, headers))
    decreases |fields|
  {
    if |fields| > 0 {
      var n := |fields| - 1;
      TagFollowsItsScope(fields[..n], tagFields, span, headers);
      var prefix := Extraction(fields[..n], tagFields, span, headers);
      var last := FieldEffects(fields[n], tagFields, span, headers);
      var e := prefix + last;
      assert TagsFollowTheirScopes(prefix);
      forall i | 0 <= i < |e| && e[i].Tag?
        ensures 0 < i && e[i - 1] == OpenScope(e[i].key, e[i].value)
      {
        if i >= |prefix| {
          assert e[i] == last[i - |prefix|];
          assert i - |prefix| == 1;
          assert e[i - 1] == last[0];
        } else {
          assert e[i] == prefix[i];
          assert e[i - 1] == prefix[i - 1];
        }
      }
    }
  }

  lemma ExtractionSnoc(fields: seq<string>, f: string, tagFields: seq<string>, span: Option<SpanId>, headers: Headers)
    ensures Extraction(fields + [f], tagFields, span, headers)
         == Extraction(fields, tagFields, span, headers) + FieldEffects(f, tagFields, span, headers)
  {
  }

  /** The extraction follows the field order: extracting two field lists in turn extracts their concatenation. */
  lemma {:induction false} ExtractionInFieldOrder(fs: seq<string>, gs: seq<string>, tagFields: seq<string>,
                                                  span: Option<SpanId>, headers: Headers)
    ensures Extraction(fs + gs, tagFields, span, headers)
         == Extraction(fs, tagFields, span, headers) + Extraction(gs, tagFields, span, headers)
    decreases |gs|
  {
    if |gs| == 0 {
      assert fs + gs == fs;
    } else {
      var n := |gs| - 1;
      var last := FieldEffects(gs[n], tagFields, span, headers);
      calc {
        Extraction(fs + gs, tagFields, span, headers);
        { assert fs + gs == (fs + gs[..n]) + [gs[n]];
          ExtractionSnoc(fs + gs[..n], gs[n], tagFields, span, headers); }
        Extraction(fs + gs[..n], tagFields, span, headers) + last;
        { ExtractionInFieldOrder(fs, gs[..n], tagFields, span, headers); }
        (Extraction(fs, tagFields, span, headers) + Extraction(gs[..n], tagFields, span, headers)) + last;
        Extraction(fs, tagFields, span, headers) + (Extraction(gs[..n], tagFields, span, headers) + last);
        { assert gs == gs[..n] + [gs[n]];
          ExtractionSnoc(gs[..n], gs[n], tagFields, span, headers); }
        Extraction(fs, tagFields, span, headers) + Extraction(gs, tagFields, span, headers);
      }
    }
  }

  /**
    Field `k` has as many recorded scopes as it has entries in the remote
    fields, duplicates included, when its header is present, and none
    otherwise.
   */
  lemma {:induction false} ScopesPerField(fields: seq<string>, headers: Headers, k: string)
    ensures multiset(Keys(Opened(fields, headers)))[k] == if HasKey(headers, k) then multiset(fields)[k] else 0
    decreases |fields|
  {
    if |fields| > 0 {
      var n := |fields| - 1;
      var f := fields[n];
      ScopesPerField(fields[..n], headers, k);
      assert fields == fields[..n] + [f];
      assert multiset(fields) == multiset(fields[..n]) + multiset{f};
      var before := Opened(fields[..n], headers);
      match Get(headers, f)
      case Some(v) =>
        assert Opened(fields, headers) == before + [Scope(f, v)];
        assert Keys(before + [Scope(f, v)]) == Keys(before) + [f];
        assert multiset(Keys(Opened(fields, headers))) == multiset(Keys(before)) + multiset{f};
      case None =>
        assert Opened(fields, headers) == before;
        assert !HasKey(headers, f);
    }
  }

  /**
    On a terminal callback whose closes all return, the wrapped listener
    closes exactly the scopes the extraction opened: position `j` is closed
    exactly when the extraction opened a `j`-th scope, so as many scopes are
    closed as were opened.
   */
  lemma EveryOpenedScopeIsClosed(interceptor: ServerInterceptor, currentSpan: Option<SpanId>, headers: Headers,
                                 delegate: ListenerId, cb: Callback, delegateThrows: bool, j: nat)
    requires IsTerminal(cb)
    ensures var openedScopes := OpenedBy(Extraction(interceptor.remoteFields, interceptor.tagFields, currentSpan, headers));
            var l := Listener(delegate, Opened(interceptor.remoteFields, headers));
            Close(j) in OnCallback(l, cb, delegateThrows, {}).effects <==> j < |openedScopes|
  {
    var openedScopes := OpenedBy(Extraction(interceptor.remoteFields, interceptor.tagFields, currentSpan, headers));
    RecordedScopesAreOpenedScopes(interceptor.remoteFields, interceptor.tagFields, currentSpan, headers);
    var l := Listener(delegate, openedScopes);
    var r := OnCallback(l, cb, delegateThrows, {});
    assert r.effects == [DelegateCallback(delegate, cb)] + Closes(0, |openedScopes|);
    if j < |openedScopes| {
      assert r.effects[j + 1] == Close(j);
    }
  }
}
