/** Outcomes of the client's operations: a value, or the exception the Python code would raise. */
module Results {
  import opened Bytes

  /** The exceptions the client raises, one constructor per distinct cause. */
  datatype Fault =
    | BadSignature                    // loads: the block does not start with "NVDS"
    | ShortHeader                     // struct.unpack on fewer bytes than the format needs
    | BadMarker(marker: byte)         // loads: an entry's type marker is not 6
    | OutOfRange(value: int)          // struct.pack of a value its format cannot hold
    | DivisionByZero                  // calc_div with a zero baud rate
    | SyncExpected(read: seq<byte>)   // read_packet: the first byte is not 0x01
    | NoStartByte                     // read_packet: nothing after the 0x01
    | StartByteExpected(got: byte)    // read_packet: the frame does not start with 0x71
    | BadChecksum                     // read_packet: trailing CRC does not match
    | UnexpectedResponse(got: byte)   // connect: the sync answer is not 0x01
    | Timeout                         // connect: the sync deadline passed
    | Silent                          // connect: the line stays silent and no deadline is set
    | NotAPayload                     // a page read answered with something that is not a data frame
    | MissingNvdsHeader               // validate_nvds: no "NVDS" prefix
    | BadNvdsLength(length: nat)      // validate_nvds: not exactly 4096 bytes
    | WriteUnsupported                // nvdstool: the write mode raises instead of writing

  datatype Result<+T> = Ok(value: T) | Err(fault: Fault) {
    predicate IsFailure() {
      Err?
    }

    function PropagateFailure<U>(): Result<U>
      requires Err?
    {
      Err(fault)
    }

    function Extract(): T
      requires Ok?
    {
      value
    }
  }

  datatype Option<+T> = None | Some(value: T)
}
