/** The receiving object: epoch ciphers, the retained secrets, and the accepted connection IDs. */
module ReceivingObject {
  import opened Wire
  import opened ConnectionIds
  import opened EpochSets
  import opened ReceivingTraffic

  /** The arrays of two epochs are different objects. */
  ghost predicate Separate(secrets: map<nat, array<Byte>>) {
    forall e, f :: e in secrets && f in secrets && e != f ==> secrets[e] != secrets[f]
  }

  ghost function Contents(secrets: map<nat, array<Byte>>): map<nat, Bytes>
    reads set e | e in secrets :: secrets[e]
  {
    map e | e in secrets :: secrets[e][..]
  }

  ghost predicate Zeroed(secret: array<Byte>)
    reads secret
  {
    forall i :: 0 <= i < secret.Length ==> secret[i] == 0
  }

  class ReceivingState {
    const derive: Bytes -> Bytes
    const epochs: EpochSet<RxCipher>
    var secret: array<Byte>
    var current: nat
    var last: Option<nat>
    var secrets: map<nat, array<Byte>>
    var hasConnectionID: bool
    var connectionID: Bytes
    var acceptedCIDs: seq<Bytes>

    /** The current secret is the array held for the current epoch, the latest, and no two epochs share one. */
    ghost predicate Valid()
      reads this
    {
      && current in secrets && secrets[current] == secret && Separate(secrets)
      && forall e :: e in secrets ==> e <= current
    }

    ghost function View(): Receiver
      reads this, epochs, secret, set e | e in secrets :: secrets[e]
    {
      Receiver(secret[..], epochs.View(), current, last, Contents(secrets), hasConnectionID, connectionID, acceptedCIDs)
    }

    /**
     * Application keys at epoch 3, the negotiated connection ID, and the handshake cipher of epoch 2 kept beside
     * them.
     */
    constructor (derive: Bytes -> Bytes, secret: array<Byte>, handshakeSecret: Bytes, negotiated: Option<Bytes>)
      requires negotiated.Some? ==> |negotiated.value| <= MAX_CID_LENGTH
      ensures Valid() && View() == Initial(secret[..], handshakeSecret, negotiated) && this.secret == secret
    {
      this.derive, this.secret, current, last, secrets := derive, secret, 3, None, map[3 := secret];
      hasConnectionID := negotiated.Some?;
      connectionID := if negotiated.Some? then negotiated.value else [];
      acceptedCIDs := if negotiated.Some? then [negotiated.value] else [];
      epochs := new EpochSet<RxCipher>();
      new;
      var installed := epochs.InstallCipher(3, RxCipher(secret[..], hasConnectionID, connectionID, acceptedCIDs));
      var moved := epochs.MoveTo(3);
      installed := epochs.InstallCipher(2, RxCipher(handshakeSecret, hasConnectionID, connectionID, acceptedCIDs));
      assert epochs.View() == Initial(secret[..], handshakeSecret, negotiated).epochs;
    }

    method BuildCipher(bytes: Bytes) returns (cipher: Option<RxCipher>)
      ensures cipher == NewCipher(View(), bytes)
    {
      if !hasConnectionID { return Some(RxCipher(bytes, false, [], [])); }
      if |connectionID| > MAX_CID_LENGTH || acceptedCIDs == [] { return None; }
      var merged := MergeConnectionIDs([connectionID], acceptedCIDs[1..]);
      if merged.None? { return None; }
      return Some(RxCipher(bytes, true, connectionID, merged.value));
    }

    /** Secrets that an update retires are zeroed, and no other is, although the current one is held twice. */
    method ProcessUpdate(sequence: nat, body: Bytes) returns (outcome: Outcome)
      requires Valid()
      modifies this, epochs, set e | e in secrets && e < current :: secrets[e]
      ensures Valid() && (View(), outcome) == ProcessKeyUpdate(old(View()), sequence, body, derive)
      ensures forall e :: e in old(secrets) && e !in secrets ==> Zeroed(old(secrets)[e])
      ensures forall e :: e in old(secrets) && e in secrets ==> secrets[e] == old(secrets)[e]
    {
      hide NewCipher, Promote, Zeroed, Contents, Separate;
      var parsed := ParseKeyUpdate(body);
      if parsed.None? { return Refused; }
      if last.Some? && sequence <= last.value { return Ignored(parsed.value); }
      var next := derive(secret[..]);
      var cipher := BuildCipher(next);
      if cipher.None? { return Refused; }
      var installed := epochs.InstallCipher(current + 1, cipher.value);
      if !installed { return Refused; }
      var moved := epochs.MoveTo(current + 1);
      if !moved { return Refused; }
      var nextSecret := new Byte[|next|](i requires 0 <= i < |next| => next[i]);
      assert nextSecret[..] == next;
      PromoteSecret(nextSecret, sequence);
      return Updated(parsed.value);
    }

    method PromoteSecret(nextSecret: array<Byte>, sequence: nat)
      requires Valid() && epochs.current == current + 1 && forall e :: e in secrets ==> secrets[e] != nextSecret
      modifies this, epochs, set e | e in secrets && e < current :: secrets[e]
      ensures Valid() && View() == Promote(old(View()), nextSecret[..], sequence)
      ensures forall e :: e in old(secrets) && e !in secrets ==> Zeroed(old(secrets)[e])
      ensures forall e :: e in old(secrets) && e in secrets ==> secrets[e] == old(secrets)[e]
    {
      hide Zeroed, Contents, Separate, KeptSecrets;
      secret := nextSecret;
      current := current + 1;
      if current > 1 { epochs.Discard(current - 1, if current < 6 then 2 else 0); }
      secrets := RenewSecrets(secrets, current, nextSecret);
      last := Some(sequence);
    }

    /** On a coherent connection the first cipher decides for all, so the early exit leaves nothing half done. */
    method AddIDs(cids: seq<Bytes>) returns (ok: bool)
      requires Valid() && CidCoherent(View()) && epochs.ciphers != map[]
      modifies this`acceptedCIDs, epochs
      ensures Valid()
      ensures match AddConnectionIDs(old(View()), cids)
              case None => !ok && View() == old(View())
              case Some(after) => ok && View() == after
    {
      if !hasConnectionID { return false; }
      ok := ExtendCiphers(epochs, acceptedCIDs, cids, Merge(acceptedCIDs, cids));
      if ok {
        AppendMissingIsMerge(acceptedCIDs, cids);
        acceptedCIDs := AppendIDs(acceptedCIDs, cids);
      }
    }
  }

  /** Holds the secret of the next epoch, and from the second epoch on forgets those before the previous one. */
  method RenewSecrets(secrets: map<nat, array<Byte>>, current: nat, nextSecret: array<Byte>)
    returns (kept: map<nat, array<Byte>>)
    requires current > 0 && Separate(secrets)
    requires forall e :: e in secrets ==> e < current && secrets[e] != nextSecret
    modifies set e | e in secrets && e < current - 1 :: secrets[e]
    ensures Contents(kept) == KeptSecrets(old(Contents(secrets))[current := nextSecret[..]], current - 1)
    ensures Separate(kept) && current in kept && kept[current] == nextSecret && forall e :: e in kept ==> e <= current
    ensures forall e :: e in secrets && e !in kept ==> Zeroed(secrets[e])
    ensures forall e :: e in secrets && e in kept ==> kept[e] == secrets[e]
  {
    hide Zeroed;
    var held := secrets[current := nextSecret];
    assert Contents(held) == old(Contents(secrets))[current := nextSecret[..]];
    kept := held;
    if current > 1 {
      kept := ForgetSecrets(held, current - 1);
      forall e | e in secrets && e !in kept ensures Zeroed(secrets[e]) {
        assert held[e] == secrets[e];
      }
    } else {
      assert KeptSecrets(Contents(held), 0) == Contents(held);
    }
  }

  method ForgetSecrets(secrets: map<nat, array<Byte>>, minimum: nat) returns (kept: map<nat, array<Byte>>)
    requires Separate(secrets)
    modifies set e | e in secrets && e < minimum :: secrets[e]
    ensures kept == KeptSecrets(secrets, minimum)
    ensures Contents(kept) == KeptSecrets(old(Contents(secrets)), minimum)
    ensures forall e :: e in secrets && e < minimum ==> Zeroed(secrets[e])
  {
    hide Zeroed;
    kept := secrets;
    var todo := secrets.Keys;
    while todo != {}
      invariant todo <= secrets.Keys
      invariant forall e :: e in kept <==> e in secrets && (e in todo || e >= minimum)
      invariant forall e :: e in kept ==> kept[e] == secrets[e]
      invariant forall e :: e in secrets && e !in todo && e < minimum ==> Zeroed(secrets[e])
      invariant forall e :: e in secrets && e >= minimum ==> secrets[e][..] == old(secrets[e][..])
      decreases |todo|
    {
      var epoch :| epoch in todo;
      todo := todo - {epoch};
      if epoch < minimum {
        ClearSecret(secrets[epoch]);
        kept := kept - {epoch};
      }
    }
    assert kept == KeptSecrets(secrets, minimum);
  }

  method ClearSecret(secret: array<Byte>)
    modifies secret
    ensures Zeroed(secret)
  {
    forall i | 0 <= i < secret.Length { secret[i] := 0; }
  }

  /** Extends every installed cipher in turn and stops at the first refusal. */
  method ExtendCiphers(epochs: EpochSet<RxCipher>, ghost list: seq<Bytes>, cids: seq<Bytes>,
                       ghost merged: Option<seq<Bytes>>) returns (ok: bool)
    requires epochs.ciphers != map[] && merged == Merge(list, cids)
    requires forall e :: e in epochs.ciphers ==> epochs.ciphers[e].acceptedCIDs == list
    modifies epochs
    ensures ok == merged.Some?
    ensures epochs.View() == if ok then WithCids(old(epochs.View()), merged.value) else old(epochs.View())
  {
    ghost var before := epochs.ciphers;
    var todo := epochs.ciphers.Keys;
    while todo != {}
      invariant todo <= before.Keys && epochs.current == old(epochs.current) && epochs.ciphers.Keys == before.Keys
      invariant todo == before.Keys || merged.Some?
      invariant forall e :: e in todo ==> epochs.ciphers[e] == before[e]
      invariant forall e :: e in before && e !in todo ==> epochs.ciphers[e] == before[e].(acceptedCIDs := merged.value)
      decreases |todo|
    {
      var epoch :| epoch in todo;
      var cipher := epochs.ciphers[epoch];
      var extended := MergeConnectionIDs(cipher.acceptedCIDs, cids);
      if extended.None? {
        assert epochs.ciphers == before;
        return false;
      }
      epochs.ciphers := epochs.ciphers[epoch := cipher.(acceptedCIDs := extended.value)];
      todo := todo - {epoch};
    }
    assert epochs.ciphers == WithCids(Epochs(epochs.current, before), merged.value).ciphers;
    return true;
  }

  method AppendIDs(existing: seq<Bytes>, cids: seq<Bytes>) returns (list: seq<Bytes>)
    ensures list == AppendMissing(existing, cids)
  {
    list := existing;
    var k := 0;
    while k < |cids|
      invariant k <= |cids| && AppendMissing(existing, cids) == AppendMissing(list, cids[k..])
    {
      assert cids[k..][1..] == cids[k + 1..];
      if cids[k] !in list {
        list := list + [cids[k]];
      }
      k := k + 1;
    }
  }
}
