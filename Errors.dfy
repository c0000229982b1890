/** The error channel of mm_err.h.
    Every operation takes the caller's current error value and hands back the
    new one. An operation entered with anything but MmSuccess does no work,
    returns its failure value and hands the error back unchanged; the
    operations of the other modules state this in their contracts. */
module MmErrors {

  /** The error codes the WebSocket code can report. HttpOom is declared by the
      HTTP parser, whose error that expand_pkt_mem_to reports. */
  datatype MmErr =
    | MmSuccess
    | WebsockNotWebsocket
    | WebsockProtTooLong
    | WebsockNullArg
    | WebsockStragglers
    | WebsockInvalidArg
    | WebsockNotImpl
    | WebsockOom
    | HttpOom
  {
    predicate Failed() { this != MmSuccess }
  }
}
