/** The failures the codecs report through serde's `Error::custom`; each
    carries the value that was refused. */
module Errors {
  import opened Tch

  datatype CodecError =
    | UnsupportedKind(kind: Kind)      // serialising a tensor whose kind has no byte width
    | InvalidKind(text: string)        // deserialising an unknown kind name
    | InvalidDevice(text: string)      // deserialising a malformed device name
    | InvalidReduction(text: string)   // deserialising a malformed reduction name
}
