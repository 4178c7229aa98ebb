/** Ideal keccak: every tagged preimage of the sequencer's chains is its own
    digest, so digests are equal exactly when their preimages are
    (crates/sequencer/src/records.rs). */
module Digests {
  import opened Words

  datatype Bucket = Majors | LongTail

  datatype Window = Window(start: nat, len: nat) {
    /** `end_inclusive` */
    function End(): int { start + len - 1 }
  }

  type Bytes = seq<Byte>

  type TicketId = Bytes

  /** Signature bytes. Whether they verify is a matter of what was signed. */
  type Sig = Bytes

  datatype Digest =
    | Raw(value: nat)  // a 32-byte string that is none of the hashes below
    | GroupElement(x: nat)
    | Commitment(epoch: nat, envelope: Bytes)
    | LogGenesis(epoch: nat)
    | LogStep(cPrev: Digest, tick: nat, batchRoot: Digest, xHash: Digest)
    | DigestGenesis(epoch: nat, tick: nat)
    | DigestStep(dPrev: Digest, tick: nat, pos: nat, h: Digest, bucket: Bucket, ticketId: TicketId)
    | Leaf(tick: nat, pos: nat, h: Digest, bucket: Bucket, ticketId: TicketId, receiptSig: Sig)
    | EmptyBatch
    | Parent(left: Digest, right: Digest)
}
