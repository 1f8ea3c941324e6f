/** Outpoints as the block-validation core names them: the hash of the parent
    transaction and the index of the spent output. The 32-byte hash is kept as the
    windows the disk-backed spends map addresses: two little-endian 64-bit words
    and the sixteen bytes after them. */
module Inpoints {
  datatype TxHash = TxHash(bucket: nat, segment: nat, tail: seq<nat>)

  datatype Inpoint = Inpoint(parent: TxHash, index: nat)
}
