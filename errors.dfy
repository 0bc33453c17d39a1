/** Failures of the decoder. In the program every one of these is a slice
    bounds panic (or a log.Fatal that the panic would have preceded); here
    each becomes an error value naming the read that went out of range. */
module Errors {

  datatype ParseError =
    | HeaderOutOfRange                          // bs[:112]
    | DiskHeaderOutOfRange                      // bs[112:144]
    | SessionInfoOutOfRange                     // make + bs[off:off+len] of the session text
    | VarRecordOutOfRange(index: int)           // bs[start:end] of variable record `index`
    | NoVarRecords                              // varHeaders[1:] on an empty slice
    | FrameOutOfRange(frame: nat)               // bs[start:end] of a frame
    | ChannelOutOfRange(frame: nat, channel: string) // buf[off:off+width] of a channel

  datatype Result<+T> = Ok(value: T) | Err(error: ParseError)
}
