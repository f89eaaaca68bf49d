/** The encoded frame every transport of the server sends. */
module Frames {
  import opened Bytes

  const VIDEO: nat := 3

  datatype EncodedFrame = EncodedFrame(
    frameType: nat, sequence: nat, capture: nat, encodeStart: nat, encodeEnd: nat, isKeyframe: bool, payload: bytes)
  {
    /** The field widths of the C++ struct. */
    predicate Fits() {
      frameType < U16 && sequence < U64 && capture < U64 && encodeStart < U64 && encodeEnd < U64
    }
  }
}
