/** Signed protocol objects (crates/sequencer/src/records.rs). A signature
    verifies exactly when the sequencer signed the message; the signature bytes
    themselves carry no further information. */
module Records {
  import opened Digests

  datatype RejectReason =
    | Malformed | WrongSize | BadTicket | TicketConsumed | Duplicate | WindowNotOpen | WindowExpired
    | BadDelayClass | Fenced

  /** The domain-tagged messages the sequencer signs. */
  datatype Message =
    | RecordMsg(epoch: nat, segment: nat, tick: nat, xHash: Digest, cPrev: Digest, cT: Digest, batchRoot: Digest,
                daRef: Digest)
    | ReceiptMsg(epoch: nat, tick: nat, pos: nat, h: Digest, bucket: Bucket, window: Window, ticketId: TicketId,
                 xPrevHash: Digest, cPrev: Digest, dPrev: Digest, d: Digest)
    | RejectionMsg(epoch: nat, h: Digest, bucket: Bucket, window: Window, reason: RejectReason, cLatest: Digest)
    | FullWindowMsg(epoch: nat, bucket: Bucket, window: Window, capacity: nat, cLatest: Digest)

  datatype Receipt = Receipt(epoch: nat, tick: nat, pos: nat, h: Digest, bucket: Bucket, window: Window,
                             ticketId: TicketId, xPrevHash: Digest, cPrev: Digest, dPrev: Digest, d: Digest, sig: Sig)

  datatype TickRecord = TickRecord(epoch: nat, segment: nat, tick: nat, x: nat, cPrev: Digest, cT: Digest,
                                   batchRoot: Digest, daRef: Digest, sig: Sig)

  datatype BatchEntry = BatchEntry(tick: nat, pos: nat, h: Digest, bucket: Bucket, ticketId: TicketId, receiptSig: Sig)

  datatype SealedTick = SealedTick(record: TickRecord, entries: seq<BatchEntry>, receipts: seq<Receipt>)

  function LeafOf(e: BatchEntry): Digest {
    Leaf(e.tick, e.pos, e.h, e.bucket, e.ticketId, e.receiptSig)
  }

  function LeavesOf(entries: seq<BatchEntry>): (leaves: seq<Digest>)
    ensures |leaves| == |entries|
    ensures forall i | 0 <= i < |entries| :: leaves[i] == LeafOf(entries[i])
  {
    seq(|entries|, i requires 0 <= i < |entries| => LeafOf(entries[i]))
  }

  function ReceiptMessage(r: Receipt): Message {
    ReceiptMsg(r.epoch, r.tick, r.pos, r.h, r.bucket, r.window, r.ticketId, r.xPrevHash, r.cPrev, r.dPrev, r.d)
  }

  /** The hash of the group element stands for it in the message. */
  function RecordMessage(r: TickRecord): Message {
    RecordMsg(r.epoch, r.segment, r.tick, GroupElement(r.x), r.cPrev, r.cT, r.batchRoot, r.daRef)
  }

  /** `Receipt::verify`: the digest link holds and the message was signed. */
  predicate ReceiptVerifies(signed: set<Message>, r: Receipt) {
    r.d == DigestStep(r.dPrev, r.tick, r.pos, r.h, r.bucket, r.ticketId) && ReceiptMessage(r) in signed
  }

  /** `TickRecord::verify` */
  predicate RecordVerifies(signed: set<Message>, r: TickRecord) {
    RecordMessage(r) in signed
  }

  function EntryOf(r: Receipt): BatchEntry {
    BatchEntry(r.tick, r.pos, r.h, r.bucket, r.ticketId, r.sig)
  }

  function EntriesOf(rs: seq<Receipt>): (es: seq<BatchEntry>)
    ensures |es| == |rs| && forall i | 0 <= i < |rs| :: es[i] == EntryOf(rs[i])
  {
    seq(|rs|, i requires 0 <= i < |rs| => EntryOf(rs[i]))
  }
}
