/** Opaque identities of the RPC runtime objects the interceptors pass through untouched. */
module Rpc {

  /** A call object (`ClientCall` or `ServerCall`). */
  datatype CallId = CallId(id: nat)

  /** A call listener (`ClientCall.Listener` or `ServerCall.Listener`). */
  datatype ListenerId = ListenerId(id: nat)

  /** A `MethodDescriptor`. */
  datatype MethodId = MethodId(id: nat)

  /** A `CallOptions` value. */
  datatype CallOptions = CallOptions(id: nat)

  /** A tracing span. */
  datatype SpanId = SpanId(id: nat)
}
