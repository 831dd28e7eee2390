/**
 The foreign code the codec calls: the basE91 binary-to-text codec and the
 CRC32 checksum. Neither is modelled; both are passed in as functions, and the
 only facts assumed about basE91 are stated by `Lawful`.
 */
module Collaborators {
  import opened Slices

  datatype Collaborators = Collaborators(
    encode91: seq<byte> -> string,
    decode91: string -> seq<byte>,
    crc32: seq<byte> -> nat)

  /** basE91 decoding inverts encoding, and decodes the empty text to no bytes. */
  ghost predicate Lawful(c: Collaborators) {
    && c.decode91([]) == []
    && forall b :: c.decode91(c.encode91(b)) == b
  }
}
