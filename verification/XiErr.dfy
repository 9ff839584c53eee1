/** `xi_err.h`: the error codes of the modelled functions, and the global cell they are kept in. */
module XiErr {

  datatype Error =
    | NoErr
    | HttpStatusParseError
    | HttpHeaderParseError
    | HttpParseError
    | HttpEncodeCreateDatastream
    | HttpEncodeUpdateFeed
    | HttpConstructRequestBufferOverrun
    | HttpConstructContentBufferOverrun
    | CsvEncodeDatapointBufferOverrun
    | CsvEncodeDatastreamBufferOverrun
    | CsvDecodeFeedParserError
    | CsvDecodeDatapointParserError
    | CsvTimeConvertionError
    | DatapointValueBufferOverflow

  datatype Option<+T> = None | Some(value: T)

  datatype Result<+T> = Ok(value: T) | Err(error: Error)

  /** The static variable behind `xi_set_err` and `xi_get_last_error`. */
  class ErrorCell {
    var last: Error

    constructor ()
      ensures last == NoErr
    {
      last := NoErr;
    }

    method Set(e: Error)
      modifies this
      ensures last == e
    {
      last := e;
    }

    /** Reading the last error resets it. */
    method GetLast() returns (e: Error)
      modifies this
      ensures e == old(last) && last == NoErr
    {
      e := last;
      last := NoErr;
    }
  }
}
