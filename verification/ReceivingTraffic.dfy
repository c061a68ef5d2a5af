/** The receiving side of key updates, with the connection IDs every installed epoch accepts. */
module ReceivingTraffic {
  import opened Wire
  import opened ConnectionIds
  import opened EpochSets

  /** What matters of a receive cipher here: the secret it came from and the connection IDs it accepts. */
  datatype RxCipher = RxCipher(secret: Bytes, hasConnectionID: bool, connectionID: Bytes, acceptedCIDs: seq<Bytes>)

  datatype Receiver = Receiver(
    secret: Bytes,
    epochs: Epochs<RxCipher>,
    current: nat,
    last: Option<nat>,
    secrets: map<nat, Bytes>,
    hasConnectionID: bool,
    connectionID: Bytes,
    acceptedCIDs: seq<Bytes>)

  datatype Outcome = Updated(requestUpdate: bool) | Ignored(requestUpdate: bool) | Refused

  function ParseKeyUpdate(body: Bytes): Option<bool> {
    if |body| != 1 || body[0] > 1 then None else Some(body[0] == 1)
  }

  /** The body of a KeyUpdate on the wire. */
  function Body(requestUpdate: bool): Bytes {
    [if requestUpdate then 1 else 0]
  }

  /** The two bodies that are accepted, and what they ask for. */
  lemma KeyUpdateBodies(body: Bytes)
    ensures ParseKeyUpdate(body) == Some(true) <==> body == [1]
    ensures ParseKeyUpdate(body) == Some(false) <==> body == [0]
    ensures forall request :: ParseKeyUpdate(Body(request)) == Some(request)
  {}

  /** A fresh cipher with the connection's IDs: the negotiated one, then the later ones merged in. */
  function NewCipher(r: Receiver, secret: Bytes): Option<RxCipher> {
    if !r.hasConnectionID then Some(RxCipher(secret, false, [], []))
    else if |r.connectionID| > MAX_CID_LENGTH || r.acceptedCIDs == [] then None
    else
      match Merge([r.connectionID], r.acceptedCIDs[1..])
      case None => None
      case Some(accepted) => Some(RxCipher(secret, true, r.connectionID, accepted))
  }

  function KeptSecrets<T>(secrets: map<nat, T>, minimum: nat): map<nat, T> {
    map e | e in secrets && e >= minimum :: secrets[e]
  }

  function ProcessKeyUpdate(r: Receiver, sequence: nat, body: Bytes, derive: Bytes -> Bytes): (Receiver, Outcome) {
    match ParseKeyUpdate(body)
    case None => (r, Refused)
    case Some(requestUpdate) =>
      if r.last.Some? && sequence <= r.last.value then (r, Ignored(requestUpdate))
      else
        var next := derive(r.secret);
        match NewCipher(r, next)
        case None => (r, Refused)
        case Some(cipher) =>
          match Install(r.epochs, r.current + 1, cipher)
          case None => (r, Refused)
          case Some(installed) =>
            match SetCurrent(installed, r.current + 1)
            case None => (r.(epochs := installed), Refused)
            case Some(moved) =>
              (Promote(r.(epochs := moved), next, sequence), Updated(requestUpdate))
  }

  /** Once the next epoch is current, its secret replaces the old one and stale epochs and secrets are dropped. */
  function Promote(r: Receiver, next: Bytes, sequence: nat): Receiver {
    r.(secret := next, epochs := Retire(r.epochs), current := r.current + 1, last := Some(sequence),
       secrets := KeptSecrets(r.secrets[r.current + 1 := next], r.current))
  }

  /** Every installed cipher accepts exactly the connection's own list, in order, and that list is prefix-free. */
  ghost predicate CidCoherent(r: Receiver) {
    && (r.hasConnectionID ==>
          r.acceptedCIDs != [] && r.acceptedCIDs[0] == r.connectionID && PrefixFree(r.acceptedCIDs)
          && forall cid :: cid in r.acceptedCIDs ==> |cid| <= MAX_CID_LENGTH)
    && (!r.hasConnectionID ==> r.connectionID == [] && r.acceptedCIDs == [])
    && forall e :: e in r.epochs.ciphers ==>
         && r.epochs.ciphers[e].hasConnectionID == r.hasConnectionID
         && r.epochs.ciphers[e].connectionID == r.connectionID
         && r.epochs.ciphers[e].acceptedCIDs == r.acceptedCIDs
  }

  /**
   * The retained secrets are those of the current epoch and its predecessor, and they are the installed ciphers'
   * secrets.
   */
  ghost predicate KeysCoherent(r: Receiver) {
    && r.epochs.current == r.current >= 3
    && r.epochs.ciphers.Keys == InstalledAt(r.current)
    && r.secrets.Keys == (if r.current == 3 then {3} else {r.current - 1, r.current})
    && r.secret == r.secrets[r.current]
    && forall e :: e in r.secrets ==> r.epochs.ciphers[e].secret == r.secrets[e]
  }

  ghost predicate Coherent(r: Receiver) {
    KeysCoherent(r) && CidCoherent(r)
  }

  /** The state in which the handshake leaves the connection: epochs 2 and 3 installed, 3 current. */
  function Initial(secret: Bytes, handshakeSecret: Bytes, negotiated: Option<Bytes>): Receiver {
    var hasCID := negotiated.Some?;
    var cid := if hasCID then negotiated.value else [];
    var accepted := if hasCID then [negotiated.value] else [];
    Receiver(secret,
             Epochs(3,
                    map[2 := RxCipher(handshakeSecret, hasCID, cid, accepted),
                        3 := RxCipher(secret, hasCID, cid, accepted)]),
             3, None, map[3 := secret], hasCID, cid, accepted)
  }

  lemma InitialIsCoherent(secret: Bytes, handshakeSecret: Bytes, negotiated: Option<Bytes>)
    requires negotiated.Some? ==> |negotiated.value| <= MAX_CID_LENGTH
    ensures Coherent(Initial(secret, handshakeSecret, negotiated))
  {}

  lemma MergeRebuilds(cids: seq<Bytes>)
    requires cids != [] && PrefixFree(cids) && forall cid :: cid in cids ==> |cid| <= MAX_CID_LENGTH
    ensures Merge([cids[0]], cids[1..]) == Some(cids)
  {
    MergeAppends([cids[0]], cids[1..]);
    assert [cids[0]] + cids[1..] == cids;
  }

  lemma {:induction false} MergeAppends(existing: seq<Bytes>, additions: seq<Bytes>)
    requires PrefixFree(existing + additions) && forall cid :: cid in additions ==> |cid| <= MAX_CID_LENGTH
    ensures Merge(existing, additions) == Some(existing + additions)
    decreases |additions|
  {
    var all := existing + additions;
    assert forall i, j :: 0 <= i < j < |existing| ==> existing[i] == all[i] && existing[j] == all[j];
    if additions == [] {
      assert all == existing;
    } else {
      ScanMeaning(existing, additions[0]);
      forall c | c in existing ensures !Comparable(c, additions[0]) {
        var i :| 0 <= i < |existing| && existing[i] == c;
        assert !Comparable(all[i], all[|existing|]);
      }
      assert (existing + [additions[0]]) + additions[1..] == all;
      MergeAppends(existing + [additions[0]], additions[1..]);
    }
  }

  /** The cipher a coherent connection installs for its next epoch. */
  function NextCipher(r: Receiver, derive: Bytes -> Bytes): RxCipher {
    RxCipher(derive(r.secret), r.hasConnectionID, r.connectionID, r.acceptedCIDs)
  }

  /** The state after an accepted KeyUpdate. */
  function Advanced(r: Receiver, sequence: nat, derive: Bytes -> Bytes): Receiver
    requires Advance(r.epochs, NextCipher(r, derive)).Some?
  {
    r.(secret := derive(r.secret), epochs := Advance(r.epochs, NextCipher(r, derive)).value, current := r.current + 1,
       last := Some(sequence), secrets := KeptSecrets(r.secrets[r.current + 1 := derive(r.secret)], r.current))
  }

  predicate Accepts(r: Receiver, sequence: nat, body: Bytes) {
    ParseKeyUpdate(body).Some? && (r.last.None? || sequence > r.last.value)
  }

  lemma NextCipherIsBuilt(r: Receiver, derive: Bytes -> Bytes)
    requires CidCoherent(r)
    ensures NewCipher(r, derive(r.secret)) == Some(NextCipher(r, derive))
  {
    if r.hasConnectionID { MergeRebuilds(r.acceptedCIDs); }
  }

  /** On a coherent connection a KeyUpdate is refused only for a malformed body, ignored only when it is not newer
      than the last one, and otherwise moves the connection to the next epoch. */
  lemma KeyUpdateMeaning(r: Receiver, sequence: nat, body: Bytes, derive: Bytes -> Bytes)
    requires Coherent(r)
    ensures Advance(r.epochs, NextCipher(r, derive)).Some?
    ensures ProcessKeyUpdate(r, sequence, body, derive)
         == match ParseKeyUpdate(body)
            case None => (r, Refused)
            case Some(request) =>
              if Accepts(r, sequence, body) then (Advanced(r, sequence, derive), Updated(request))
              else (r, Ignored(request))
  {
    hide CidCoherent, NewCipher, DiscardBefore;
    NextCipherIsBuilt(r, derive);
    AdvanceInstalls(r.epochs, NextCipher(r, derive));
  }

  lemma AdvancedKeys(r: Receiver, sequence: nat, derive: Bytes -> Bytes)
    requires Coherent(r)
    ensures Advance(r.epochs, NextCipher(r, derive)).Some?
    ensures KeysCoherent(Advanced(r, sequence, derive))
  {
    AdvanceInstalls(r.epochs, NextCipher(r, derive));
    InstalledAreDistinct(r.current, r.current, r.current);
    var after := Advanced(r, sequence, derive);
    assert after.secrets.Keys == {r.current, r.current + 1};
    InstalledAreDistinct(after.current, after.current, after.current);
  }

  lemma AdvancedCids(r: Receiver, sequence: nat, derive: Bytes -> Bytes)
    requires Coherent(r)
    ensures Advance(r.epochs, NextCipher(r, derive)).Some?
    ensures CidCoherent(Advanced(r, sequence, derive))
  {
    AdvanceInstalls(r.epochs, NextCipher(r, derive));
  }

  lemma KeyUpdateKeepsCoherence(r: Receiver, sequence: nat, body: Bytes, derive: Bytes -> Bytes)
    requires Coherent(r)
    ensures Coherent(ProcessKeyUpdate(r, sequence, body, derive).0)
  {
    KeyUpdateMeaning(r, sequence, body, derive);
    AdvancedKeys(r, sequence, derive);
    AdvancedCids(r, sequence, derive);
  }

  // ---------------------------------------------------------------- connection IDs

  /** One cipher's list extended; refused when no ID was negotiated or the lists do not merge. */
  function Extend(c: RxCipher, cids: seq<Bytes>): Option<RxCipher> {
    if !c.hasConnectionID then None
    else
      match Merge(c.acceptedCIDs, cids)
      case None => None
      case Some(merged) => Some(c.(acceptedCIDs := merged))
  }

  function WithCids(epochs: Epochs<RxCipher>, cids: seq<Bytes>): Epochs<RxCipher> {
    epochs.(ciphers := map e | e in epochs.ciphers :: epochs.ciphers[e].(acceptedCIDs := cids))
  }

  /** The effect on a coherent connection: everything or nothing. */
  function AddConnectionIDs(r: Receiver, cids: seq<Bytes>): Option<Receiver> {
    if !r.hasConnectionID then None
    else
      match Merge(r.acceptedCIDs, cids)
      case None => None
      case Some(merged) => Some(r.(acceptedCIDs := merged, epochs := WithCids(r.epochs, merged)))
  }

  function RestoreConnectionIDs(r: Receiver, cids: seq<Bytes>): Receiver {
    r.(acceptedCIDs := cids, epochs := WithCids(r.epochs, cids))
  }

  /**
   * Adding is possible exactly when the union is prefix-free, keeps coherence, and restoring the old list undoes it.
   */
  lemma AddThenRestore(r: Receiver, cids: seq<Bytes>)
    requires Coherent(r)
    ensures AddConnectionIDs(r, cids).Some? <==> r.hasConnectionID && Mergeable(r.acceptedCIDs, cids)
    ensures AddConnectionIDs(r, cids).Some? ==>
              var added := AddConnectionIDs(r, cids).value;
              && Coherent(added)
              && (forall c :: c in added.acceptedCIDs <==> c in r.acceptedCIDs || c in cids)
              && RestoreConnectionIDs(added, r.acceptedCIDs) == r
  {
    if r.hasConnectionID {
      MergeMeaning(r.acceptedCIDs, cids);
      if Merge(r.acceptedCIDs, cids).Some? {
        var added := AddConnectionIDs(r, cids).value;
        assert RestoreConnectionIDs(added, r.acceptedCIDs).epochs.ciphers == r.epochs.ciphers;
      }
    }
  }

  /** The loop that extends the connection's own list by the IDs it does not hold yet. */
  function AppendMissing(list: seq<Bytes>, cids: seq<Bytes>): seq<Bytes>
    decreases |cids|
  {
    if cids == [] then list
    else AppendMissing(if cids[0] in list then list else list + [cids[0]], cids[1..])
  }

  lemma {:induction false} AppendMissingIsMerge(list: seq<Bytes>, cids: seq<Bytes>)
    requires PrefixFree(list) && Merge(list, cids).Some?
    ensures AppendMissing(list, cids) == Merge(list, cids).value
    decreases |cids|
  {
    if cids != [] {
      ScanMeaning(list, cids[0]);
      if cids[0] in list {
        AppendMissingIsMerge(list, cids[1..]);
      } else {
        AppendMissingIsMerge(list + [cids[0]], cids[1..]);
      }
    }
  }
}
