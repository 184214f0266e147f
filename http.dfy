/** The parts of an HTTP HEAD reply that the downloader and the verifier read. */
module Http {

  /**
   * The `Content-Length` header: missing, a text that Python's `int()` turns into
   * `n`, or a text it rejects.
   */
  datatype LengthHeader = Absent | Numeric(n: int) | Malformed

  /** A HEAD request either raises (connection, timeout) or yields a reply. */
  datatype HeadResponse = HeadError | HeadReply(status: int, contentLength: LengthHeader)
}
