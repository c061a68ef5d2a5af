/** The record cipher behind the sending side of key updates, and the nonces it uses over a whole run. */
module SealedNonces {
  import opened Wire
  import opened RecordNumbers
  import opened SendingTraffic
  import opened KeyUpdateRun
  import RecordCipher

  /** What key updates need to know of a record cipher. */
  function Abridged(c: RecordCipher.Cipher, secret: Bytes): TxCipher {
    TxCipher(c.epoch, secret, c.nextSequence, c.recordLimit)
  }

  predicate OutOfNumbers(error: RecordCipher.SealError) {
    error.EpochTooLarge? || error.SequenceExhausted? || error.RecordLimitReached?
  }

  /** Sealing takes a number exactly as the abridged cipher does, refuses for want of one exactly when that cipher
      cannot seal, and on any failure takes none. */
  lemma SealingTakesTheNumber(c: RecordCipher.Cipher, secret: Bytes, contentType: Byte, content: Bytes,
                              sequence16: bool, lengthPresent: bool)
    requires |c.keys.iv| >= 8
    ensures var outcome := RecordCipher.Seal(c, contentType, content, sequence16, lengthPresent);
            && (outcome.SealFailed? && OutOfNumbers(outcome.error) <==> !CanSeal(Abridged(c, secret)))
            && Abridged(RecordCipher.AfterSeal(c, outcome), secret)
               == if outcome.Sealed? then AfterSealing(Abridged(c, secret)) else Abridged(c, secret)
  {}

  /** Over every run no two records of one epoch are sealed under the same nonce, whatever the epoch's IV is. */
  lemma NoncesNeverRepeat(secret: Bytes, handshakeSecret: Bytes, negotiated: Option<Bytes>, messageSequence: nat,
                          recordLimit: nat, steps: seq<Step>, derive: Bytes -> Bytes, iv: Bytes, i: nat, j: nat)
    requires messageSequence < U16_LIMIT && (negotiated.Some? ==> |negotiated.value| <= 255) && |iv| >= 8
    ensures var w := Run(Start(secret, handshakeSecret, negotiated, messageSequence, recordLimit), steps, derive);
            i < j < |w.sealed| && w.sealed[i].epoch == w.sealed[j].epoch ==>
              RecordCipher.Nonce(iv, w.sealed[i].sequence) != RecordCipher.Nonce(iv, w.sealed[j].sequence)
  {
    var w := Run(Start(secret, handshakeSecret, negotiated, messageSequence, recordLimit), steps, derive);
    NumbersAreNeverReused(secret, handshakeSecret, negotiated, messageSequence, recordLimit, steps, derive);
    if i < j < |w.sealed| && w.sealed[i].epoch == w.sealed[j].epoch {
      assert w.sealed[i] in w.sealed && w.sealed[j] in w.sealed && w.sealed[i] != w.sealed[j];
      RecordCipher.NoncesDiffer(iv, w.sealed[i].sequence, w.sealed[j].sequence);
    }
  }
}
