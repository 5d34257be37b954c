/** The HTTP side of the API handlers. */
module Http {
  /** An HTTP reply of `NextResponse.json(body, { status })`; the status defaults to 200. */
  datatype Reply<B> = Reply(status: nat, body: B)
}
