/** The bytes of protected ACK records: what was acknowledged is what the peer reads. */
module AckRecords {
  import opened Wire
  import opened RecordNumbers
  import opened SequenceNumbers
  import opened Acks
  import RecordCipher
  import RecordRoundTrip
  import Replay

  /** The record layer as the building of ACKs sees it. */
  function LinkOf(c: RecordCipher.Cipher): Link {
    var maxContent := if c.plaintextLimit == 0 then MAX_RECORD_CONTENT else c.plaintextLimit - 1;
    Sealed(5 + |c.connectionID|, c.keys.overhead, maxContent, c.nextSequence, c.recordLimit)
  }

  /** The sizes of a cipher: room for a sample in the shortest ACK, an expansion of at most 255 bytes. */
  ghost predicate UsualSizes(c: RecordCipher.Cipher) {
    && c.epoch <= MAX_SENDING_EPOCH && c.plaintextLimit <= MAX_RECORD_CONTENT + 1
    && RecordCipher.SAMPLE_SIZE <= 3 + c.keys.overhead && c.keys.overhead <= 255
  }

  /** The cipher when it seals the record. */
  function AtRecord(c: RecordCipher.Cipher, record: AckRecord): RecordCipher.Cipher {
    c.(nextSequence := record.sequence)
  }

  lemma AckIsSealed(c: RecordCipher.Cipher, record: AckRecord, index: nat, mtu: nat, maxEntries: int, content: Bytes)
    requires |c.keys.iv| >= 8 && RecordCipher.CorrectAead(c.keys) && UsualSizes(c)
    requires GoodRecord(record, index, LinkOf(c), mtu, maxEntries) && Marshal(record.numbers) == Some(content)
    ensures var sealing := RecordCipher.Seal(AtRecord(c, record), RecordCipher.ACK, content, true, true);
            sealing.Sealed? && |sealing.packet| == record.length
  {
    var s := AtRecord(c, record);
    assert |content| == 2 + 16 * |record.numbers|;
    assert RecordCipher.SealRefusal(s, RecordCipher.ACK, |content|) == None;
    var sealing := RecordCipher.Seal(s, RecordCipher.ACK, content, true, true);
    var ciphertext := RecordRoundTrip.SealedForm(s, RecordCipher.ACK, content, true, true, sealing.packet);
  }

  /** The list in one record is a stretch of the whole canonical list. */
  lemma {:induction false} ChunkIsCanonical(records: seq<AckRecord>, i: nat)
    requires i < |records| && Canonical(Listed(records))
    ensures Canonical(records[i].numbers) && forall n :: n in records[i].numbers ==> n in Listed(records)
  {
    var last := |records| - 1;
    var before, all := Listed(records[..last]), Listed(records);
    assert before == all[..|before|] && records[last].numbers == all[|before|..];
    if i < last { ChunkIsCanonical(records[..last], i); }
  }

  /**
   * Every protected record of a batch of ACKs has the promised length, and a receiver that finds it reachable and fresh
   * reads exactly the numbers it was built for.
   */
  lemma AcksArrive(c: RecordCipher.Cipher, receiver: RecordCipher.Cipher, records: seq<AckRecord>, i: nat, mtu: nat,
                   maxEntries: int, trailing: Bytes)
    requires i < |records| && WellBuilt(records, LinkOf(c), mtu, maxEntries)
    requires Canonical(Listed(records)) && forall n :: n in Listed(records) ==> Fits(n)
    requires UsualSizes(c) && RecordRoundTrip.Paired(AtRecord(c, records[i]), receiver)
    requires receiver.plaintextLimit == 0 || 2 + 16 * |records[i].numbers| < receiver.plaintextLimit
    requires Replay.NextExpected(receiver.replay) <= U48_LIMIT
    requires Reachable(Replay.NextExpected(receiver.replay), records[i].sequence, Radix(2))
    requires Replay.Check(receiver.replay, records[i].sequence)
    ensures Marshal(records[i].numbers).Some?
    ensures var sealing := RecordCipher.Seal(AtRecord(c, records[i]), RecordCipher.ACK,
                                             Marshal(records[i].numbers).value, true, true);
            && sealing.Sealed? && |sealing.packet| == records[i].length <= mtu
            && var opening := RecordCipher.Open(receiver, sealing.packet + trailing).0;
            && opening.Opened? && opening.contentType == RecordCipher.ACK && opening.consumed == |sealing.packet|
            && Parse(opening.content) == Some(records[i].numbers)
  {
    var record := records[i];
    ChunkIsCanonical(records, i);
    assert GoodRecord(record, i, LinkOf(c), mtu, maxEntries);
    ParseMarshal(record.numbers);
    var content := Marshal(record.numbers).value;
    AckIsSealed(c, record, i, mtu, maxEntries, content);
    var packet := RecordCipher.Seal(AtRecord(c, record), RecordCipher.ACK, content, true, true).packet;
    RecordRoundTrip.RoundTrip(AtRecord(c, record), receiver, RecordCipher.ACK, content, true, true, packet, trailing);
  }
}
