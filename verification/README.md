# Baggage header interceptors for gRPC, in Dafny

This project models the two interceptors that carry tracing baggage across a
gRPC call boundary, and proves properties of the model.

- **Outbound** (`GrpcHeaderClientInterceptor`). When the intercepted client
  call is started, the interceptor walks the configured remote fields in order.
  For each field it asks the tracer for its baggage. It appends a
  `(field, value)` header to the request metadata only when the baggage is
  non-null and its value is non-null. It then starts the delegate call with
  the same listener and the same, now extended, metadata.
- **Inbound** (`GrpcHeaderServerInterceptor`). The interceptor reads the
  current span once. It walks the configured remote fields in order. For each
  field whose header is present, it opens a baggage scope and records it. If
  the field is also a tag field and a span exists, it tags the span. Only then
  does it call the next handler. It wraps the returned listener so that
  `onComplete` and `onCancel` run the delegate's callback and then, in a
  `finally`, close every recorded scope in opening order.

Modules, one per concern:

| file | module | contents |
|---|---|---|
| options.dfy | `Options` | `Option`: `None` is Java's `null` |
| rpc.dfy | `Rpc` | opaque identities of calls, listeners, methods, call options and spans |
| metadata.dfy | `Metadata` | headers as a sequence of `(key, value)` pairs, `Put` (append) and `Get` |
| client_interceptor.dfy | `HeaderClientInterceptor` | the outbound injection |
| baggage_listener.dfy | `BaggageListener` | the inbound call's effects and the wrapped listener's callbacks |
| server_interceptor.dfy | `HeaderServerInterceptor` | the inbound extraction |

External collaborators are parameters:

- The tracer's `getBaggage` is a function `string -> Option<Option<string>>`.
  The outer `None` is a `null` `Baggage`; the inner `None` is a null value.
- The span current on entry is an `Option<SpanId>`. Passing it as one value
  models reading it once.
- The channel's `newCall` and the handler's `startCall` are functions to
  call and listener identities.
- Whether the delegate's callback throws, and which scope handles throw from
  `close()`, are parameters of each callback.

Every effect on a collaborator (a header put, a scope opened or closed, a span
tagged, a delegate called) is an event in an effect trace. Reads (`getBaggage`,
`currentSpan`, `Metadata.get`) are the parameters above and leave no event.
The traces hold:

- outbound: `NewCall`, `PutHeader`, `DelegateStart`;
- inbound: `OpenScope`, `Tag`, `StartCall`, `DelegateCallback`, `Close(i)`.

`Close(i)` closes the `i`-th recorded scope.

Two behaviours of the code to keep in mind:

- The scopes are closed in one plain loop, so the first `close()` that throws
  aborts the remaining closes. Its exception also replaces any exception from
  the delegate, as a `finally` block does in Java. `BaggageListener.OnCallback`
  states exactly this.
- The listener keeps no state, so every terminal callback closes every scope
  again. `BaggageListener.ClosedOncePerTerminalCallback` states the count per
  callback.

## Model

| member | source | states |
|---|---|---|
| Metadata.Get | spring-grpc-server-spring-boot-autoconfigure/src/main/java/org/springframework/boot/grpc/server/autoconfigure/GrpcHeaderServerInterceptor.java:76-77 | a header read yields a value exactly when the metadata holds the key, and that value is the one added last under the key |
| Metadata.GetAfterPut | spring-grpc-client-spring-boot-autoconfigure/src/test/java/org/springframework/boot/grpc/client/autoconfigure/GrpcHeaderClientInterceptorTests.java:82-85 | after a put, reading the same key yields the value just put; reading another key is unaffected |
| HeaderClientInterceptor.Start | spring-grpc-client-spring-boot-autoconfigure/src/main/java/org/springframework/boot/grpc/client/autoconfigure/GrpcHeaderClientInterceptor.java:67-78 | the metadata sent is the old metadata followed by the injected headers; old entries stay a prefix; no remote fields means unchanged metadata; one put per injected header in order; the delegate is started last with the same listener and the extended metadata |
| HeaderClientInterceptor.Call | spring-grpc-client-spring-boot-autoconfigure/src/main/java/org/springframework/boot/grpc/client/autoconfigure/GrpcHeaderClientInterceptor.java:65-78 | a whole outbound call: the delegate is obtained from the channel once, first, with the method and call options unchanged; then exactly one put per injected header, in field order; that delegate is started exactly once, last, with the caller's listener and the extended metadata |
| HeaderClientInterceptor.InjectedExactly | spring-grpc-client-spring-boot-autoconfigure/src/main/java/org/springframework/boot/grpc/client/autoconfigure/GrpcHeaderClientInterceptor.java:68-76 | a header (k, v) is injected if and only if k is a remote field and its baggage is non-null with value v |
| HeaderClientInterceptor.InjectedInFieldOrder | spring-grpc-client-spring-boot-autoconfigure/src/main/java/org/springframework/boot/grpc/client/autoconfigure/GrpcHeaderClientInterceptor.java:68 | the injected headers follow the order of the remote fields |
| HeaderClientInterceptor.AbsentBaggageWritesNothing | spring-grpc-client-spring-boot-autoconfigure/src/main/java/org/springframework/boot/grpc/client/autoconfigure/GrpcHeaderClientInterceptor.java:69-72 | a field with null baggage or a null value gets no header, so a read of that key sees only what was there before |
| HeaderClientInterceptor.PresentBaggageReadsBack | spring-grpc-client-spring-boot-autoconfigure/src/main/java/org/springframework/boot/grpc/client/autoconfigure/GrpcHeaderClientInterceptor.java:71-74 | a remote field whose baggage holds v reads back as exactly v from the metadata the delegate receives |
| BaggageListener.CloseFrom | spring-grpc-server-spring-boot-autoconfigure/src/main/java/org/springframework/boot/grpc/server/autoconfigure/GrpcHeaderServerInterceptor.java:114-118 | the scopes are closed in order; when no close throws, every one is closed; otherwise closing stops at the first close that throws, and that close is named |
| BaggageListener.OnCallback | spring-grpc-server-spring-boot-autoconfigure/src/main/java/org/springframework/boot/grpc/server/autoconfigure/GrpcHeaderServerInterceptor.java:91-111 | the delegate's callback runs first; other callbacks close nothing and pass the delegate's outcome through; onComplete and onCancel close all scopes in order, whether or not the delegate threw, and re-raise the delegate's exception; a throwing close stops the closing and its exception propagates instead |
| BaggageListener.ClosedOncePerTerminalCallback | spring-grpc-server-spring-boot-autoconfigure/src/main/java/org/springframework/boot/grpc/server/autoconfigure/GrpcHeaderServerInterceptor.java:91-118 | over any sequence of callbacks, each recorded scope is closed once per onComplete or onCancel delivered, and never by another callback |
| HeaderServerInterceptor.FieldEffects | spring-grpc-server-spring-boot-autoconfigure/src/main/java/org/springframework/boot/grpc/server/autoconfigure/GrpcHeaderServerInterceptor.java:76-86 | one loop iteration: nothing exactly when the field's header is absent; otherwise the scope opening comes first, a tag follows exactly when the field is a tag field and a span exists, the tag goes on the entry span, and every effect binds the field name to the header's value verbatim |
| HeaderServerInterceptor.ExtractBaggage | spring-grpc-server-spring-boot-autoconfigure/src/main/java/org/springframework/boot/grpc/server/autoconfigure/GrpcHeaderServerInterceptor.java:72-87 | the loop produces exactly the reference extraction effects and records exactly the reference scopes |
| HeaderServerInterceptor.InterceptCall | spring-grpc-server-spring-boot-autoconfigure/src/main/java/org/springframework/boot/grpc/server/autoconfigure/GrpcHeaderServerInterceptor.java:68-91 | the extraction comes first; the next handler is called exactly once, last, with the call and metadata unchanged; the listener wraps the handler's listener and records exactly the scopes the trace opened; no remote fields means no scopes |
| HeaderServerInterceptor.ScopeOpenedExactly | spring-grpc-server-spring-boot-autoconfigure/src/main/java/org/springframework/boot/grpc/server/autoconfigure/GrpcHeaderServerInterceptor.java:75-81 | a scope binding k to v is opened if and only if k is a remote field and its header holds v |
| HeaderServerInterceptor.TagWrittenExactly | spring-grpc-server-spring-boot-autoconfigure/src/main/java/org/springframework/boot/grpc/server/autoconfigure/GrpcHeaderServerInterceptor.java:72-85 | a tag (k, v) is written on span s if and only if k is a remote field whose header holds v, k is a tag field, and s was current on entry |
| HeaderServerInterceptor.NoSpanOnlyOpens | spring-grpc-server-spring-boot-autoconfigure/src/main/java/org/springframework/boot/grpc/server/autoconfigure/GrpcHeaderServerInterceptor.java:79-85 | with no current span nothing is tagged, and scopes are still opened for every present field |
| HeaderServerInterceptor.RecordedScopesAreOpenedScopes | spring-grpc-server-spring-boot-autoconfigure/src/main/java/org/springframework/boot/grpc/server/autoconfigure/GrpcHeaderServerInterceptor.java:80-81 | the recorded scopes are the opened scopes, in opening order, whatever the span |
| HeaderServerInterceptor.ExtractionOpensAndTags | spring-grpc-server-spring-boot-autoconfigure/src/main/java/org/springframework/boot/grpc/server/autoconfigure/GrpcHeaderServerInterceptor.java:75-87 | the extraction loop emits only scope openings and tags |
| HeaderServerInterceptor.TagFollowsItsScope | spring-grpc-server-spring-boot-autoconfigure/src/main/java/org/springframework/boot/grpc/server/autoconfigure/GrpcHeaderServerInterceptor.java:80-85 | every tag comes right after the opening of the scope for the same field and value |
| HeaderServerInterceptor.ExtractionInFieldOrder | spring-grpc-server-spring-boot-autoconfigure/src/main/java/org/springframework/boot/grpc/server/autoconfigure/GrpcHeaderServerInterceptor.java:75 | the extraction follows the order of the remote fields |
| HeaderServerInterceptor.ScopesPerField | spring-grpc-server-spring-boot-autoconfigure/src/main/java/org/springframework/boot/grpc/server/autoconfigure/GrpcHeaderServerInterceptor.java:73-81 | a field has as many recorded scopes as it has entries in the remote fields, duplicates included, when its header is present, and none otherwise |
| HeaderServerInterceptor.EveryOpenedScopeIsClosed | spring-grpc-server-spring-boot-autoconfigure/src/main/java/org/springframework/boot/grpc/server/autoconfigure/GrpcHeaderServerInterceptor.java:89-118 | on onComplete or onCancel, scope position j is closed if and only if the extraction opened a j-th scope, so closes match opens |

## Left out

- The Spring auto-configuration classes are not modelled. They are conditional wiring and property binding. Their one piece of logic, "a missing list is empty", is covered because both interceptors accept empty field lists.
- gRPC's `Metadata.Key.of` is not modelled. It validates header names and lower-cases them. The model uses the field name as the key verbatim, so it is exact only for field names that are already valid lower-case header names. For a field such as `X-Request-Id`, the code reads and writes the header `x-request-id`, while the model looks for `X-Request-Id`.
- The ASCII marshaller is not modelled. It sends non-ASCII characters as `?`. The model carries values verbatim, so "reads back exactly v" holds only for ASCII values.
- Header reads (`Metadata.Get`) return the value added last under a key, as gRPC's `Metadata.get` does, and its contract says so. `PresentBaggageReadsBack` relies on this. The metadata may already hold another value under the field's key before injection, and the read yields the injected value only because it was added last.
- The tracer's internals and its thread-local baggage context are not modelled. Opening and closing a scope, and tagging a span, are events in the trace.
- Exceptions from `getBaggage`, `createBaggageInScope`, `tag`, `newCall` and `startCall` are not modelled. This hides a leak in the code. Any exception thrown after the first scope opens and before `interceptCall` returns leaves the scopes opened so far unclosed, because the wrapping listener that would close them is never created. The next handler's `startCall` throwing is one example. Others are `createBaggageInScope` or `tag` throwing for a later field, or `Metadata.Key.of` rejecting a later field name.
- The forwarding of the client call's other methods (`request`, `sendMessage`, `halfClose`, `cancel`) is not modelled; the wrapper only overrides `start`.
- Concurrency, and reuse of one interceptor across simultaneous calls, are not modelled.
- BaggageListener.ClosedOncePerTerminalCallback: assumes every `close()` returns normally. What a throwing close does is stated per callback by `OnCallback`.
- HeaderServerInterceptor.EveryOpenedScopeIsClosed: assumes every `close()` returns normally, for the same reason.
