/** What a receiver can read off a frame, once the identifier is decoded. */
module BusFrames {
  import opened Bits

  datatype Part = Only | First | Middle | Last

  datatype Content =
    | CidFrame(ordinal: nat)
    | RidFrame
    | AmrFrame
    | AmdFrame
    | InitializationComplete
    | VerifiedNid
    | Datagram(part: Part, dest: nat, data: seq<Byte>)
    | DatagramOk(to: nat)
    | DatagramRejected(to: nat, code: nat)
    | Other

  /** A frame with its source alias; an internal frame is one of our own, looped back. */
  datatype Frame = Frame(content: Content, source: nat, internal: bool)
}
