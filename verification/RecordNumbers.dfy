/** Record numbers: an epoch and a sequence number, ordered lexicographically. */
module RecordNumbers {
  import opened Wire

  /** Sending stops at this epoch. */
  const MAX_SENDING_EPOCH := U48_LIMIT - 1

  datatype RecordNumber = RecordNumber(epoch: nat, sequence: nat)

  predicate Less(a: RecordNumber, b: RecordNumber) {
    a.epoch < b.epoch || (a.epoch == b.epoch && a.sequence < b.sequence)
  }
}
