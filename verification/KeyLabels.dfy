/** The derived secrets spelled out: labels by their characters, and every secret as nested HMACs of plain bytes. */
module KeyLabels {
  import opened Wire
  import opened Hkdf
  import opened KeySchedules

  predicate Spells(b: Bytes, text: string) {
    |b| == |text| && forall i :: 0 <= i < |b| ==> b[i] == text[i] as int
  }

  lemma AsciiSpells(text: string)
    requires forall i :: 0 <= i < |text| ==> text[i] < 128 as char
    ensures Spells(Ascii(text), text)
  {}

  /** The labels of sections 7.1 and 7.5 of RFC 8446. */
  lemma LabelsAreSpelled()
    ensures Spells(DERIVED, "derived") && Spells(CLIENT_EARLY, "c e traffic")
    ensures Spells(CLIENT_HANDSHAKE, "c hs traffic") && Spells(SERVER_HANDSHAKE, "s hs traffic")
    ensures Spells(CLIENT_APPLICATION, "c ap traffic") && Spells(SERVER_APPLICATION, "s ap traffic")
    ensures Spells(EXPORTER_MASTER, "exp master") && Spells(RESUMPTION_MASTER, "res master")
    ensures Spells(FINISHED, "finished") && Spells(EXPORTER, "exporter")
  {
    AsciiSpells("derived");
    AsciiSpells("c e traffic");
    AsciiSpells("c hs traffic");
    AsciiSpells("s hs traffic");
    AsciiSpells("c ap traffic");
    AsciiSpells("s ap traffic");
    AsciiSpells("exp master");
    AsciiSpells("res master");
    AsciiSpells("finished");
    AsciiSpells("exporter");
  }

  /**
   * The HkdfLabel: the length, big-endian; the length of the full label; the prefix that section 5.9 of RFC 9147 asks
   * for, without a space; the label; the length of the context; the context.
   */
  lemma InfoLayout(length: nat, name: Bytes, context: Bytes)
    requires |name| <= 249 && |context| <= 255
    ensures var info := Info(length, name, context);
            && |info| == 10 + |name| + |context|
            && info[0] == length / 256 % 256 && info[1] == length % 256 && info[2] == 6 + |name|
            && Spells(info[3..9], "dtls13") && info[9..9 + |name|] == name
            && info[9 + |name|] == |context| && info[10 + |name|..] == context
  {
    var info := Info(length, name, context);
    TwoBytes(length);
    assert info == PutUint(length, 2) + ([6 + |name|] + PREFIX + name + [|context|] + context);
    assert info[..2] == PutUint(length, 2);
    assert info[3..9] == PREFIX && info[9..9 + |name|] == name && info[10 + |name|..] == context;
  }

  lemma TwoBytes(value: nat)
    ensures PutUint(value, 2) == [value / 256 % 256, value % 256]
  {
    assert PutUint(value, 2) == PutUint(value / 256, 1) + [value % 256];
    assert PutUint(value / 256, 1) == PutUint(value / 256 / 256, 0) + [value / 256 % 256];
  }

  /** Block `i` of an expansion is the HMAC of the block before it, the info and the number of the block. */
  lemma ExpandChains(s: Suite, secret: Bytes, info: Bytes, length: nat, i: nat)
    requires IsSuite(s) && length <= 255 * s.size && 1 <= i && i * s.size <= length
    ensures 0 <= (i - 1) * s.size <= i * s.size <= |Expand(s, secret, info, length)| == length
    ensures Expand(s, secret, info, length)[(i - 1) * s.size..i * s.size]
            == s.hmac(secret, (if i == 1 then []
                               else Expand(s, secret, info, length)[(i - 2) * s.size..(i - 1) * s.size]) + info + [i])
  {
    BlocksLength(s, secret, info, MAX_BLOCKS);
    BlockCount(s.size, i, length);
    BlockIsSlice(s, secret, info, length, i);
    if i > 1 { BlockIsSlice(s, secret, info, length, i - 1); }
  }

  lemma BlockCount(size: nat, i: nat, length: nat)
    requires size > 0 && length <= 255 * size && i * size <= length
    ensures i <= 255
  {
    MultiplesGrow(i, 256, size);
  }

  lemma MultiplesGrow(a: nat, b: nat, size: nat)
    ensures a >= b ==> a * size >= b * size
  {}

  lemma BlockIsSlice(s: Suite, secret: Bytes, info: Bytes, length: nat, i: nat)
    requires IsSuite(s) && length <= 255 * s.size && 1 <= i <= 255 && i * s.size <= length
    ensures 0 <= (i - 1) * s.size <= i * s.size <= |Expand(s, secret, info, length)| == length
    ensures Expand(s, secret, info, length)[(i - 1) * s.size..i * s.size] == Block(s, secret, info, i)
  {
    var n := i * s.size;
    BlocksLength(s, secret, info, MAX_BLOCKS);
    BlocksLength(s, secret, info, i);
    BlocksLength(s, secret, info, i - 1);
    ExpandFromFewer(s, secret, info, i, n);
    var all := Blocks(s, secret, info, MAX_BLOCKS);
    assert Expand(s, secret, info, length)[(i - 1) * s.size..n] == all[..n][(i - 1) * s.size..];
    assert all[..n] == Blocks(s, secret, info, i)[..n] == Blocks(s, secret, info, i);
  }

  /** The input of the one HMAC that derives a secret. */
  function LabelInput(size: nat, name: Bytes, context: Bytes): Bytes
    requires size < 256 && |name| <= 249 && |context| <= 255
  {
    [0, size, 6 + |name|, 100, 116, 108, 115, 49, 51] + name + [|context|] + context + [1]
  }

  lemma DerivedByOneHmac(s: Suite, secret: Bytes, name: Bytes, context: Bytes)
    requires IsSuite(s) && |name| <= 249 && |context| <= 255
    ensures DeriveSecret(s, secret, name, context) == s.hmac(secret, LabelInput(s.size, name, context))
  {
    OneBlock(s, secret, Info(s.size, name, context));
    TwoBytes(s.size);
    assert Info(s.size, name, context) + [1] == LabelInput(s.size, name, context);
  }

  /** What is mixed in to reach the next stage of the schedule. */
  function NextStage(s: Suite, secret: Bytes, ikm: Bytes): Bytes
    requires s.size < 256 && |s.hash([])| <= 255
  {
    s.hmac(s.hmac(secret, LabelInput(s.size, DERIVED, s.hash([]))), ikm)
  }

  /** The whole schedule as HMACs. With no PSK, and in the last stage, a string of zeros is mixed in. */
  lemma ScheduleInHmacs(s: Suite, psk: Option<Bytes>, shared: Bytes, hello: Bytes, server: Bytes, client: Bytes)
    requires IsSuite(s) && |hello| <= 255 && |server| <= 255 && |client| <= 255
    ensures var zeros := seq(s.size, _ => 0);
            var early := s.hmac([], if psk.Some? then psk.value else zeros);
            var handshake := NextStage(s, early, shared);
            var master := NextStage(s, handshake, zeros);
            Definition(s, psk, shared, hello, server, client)
            == Derived(s.hmac(handshake, LabelInput(s.size, CLIENT_HANDSHAKE, hello)),
                       s.hmac(handshake, LabelInput(s.size, SERVER_HANDSHAKE, hello)),
                       s.hmac(master, LabelInput(s.size, CLIENT_APPLICATION, server)),
                       s.hmac(master, LabelInput(s.size, SERVER_APPLICATION, server)),
                       s.hmac(master, LabelInput(s.size, EXPORTER_MASTER, server)),
                       s.hmac(master, LabelInput(s.size, RESUMPTION_MASTER, client)))
  {
    hide DeriveSecret, LabelInput;
    var zeros: Bytes := seq(s.size, _ => 0);
    assert Zeros(s) == zeros;
    var early := s.hmac([], if psk.Some? then psk.value else zeros);
    DerivedByOneHmac(s, early, DERIVED, s.hash([]));
    var handshake := NextStage(s, early, shared);
    DerivedByOneHmac(s, handshake, DERIVED, s.hash([]));
    var master := NextStage(s, handshake, zeros);
    DerivedByOneHmac(s, handshake, CLIENT_HANDSHAKE, hello);
    DerivedByOneHmac(s, handshake, SERVER_HANDSHAKE, hello);
    DerivedByOneHmac(s, master, CLIENT_APPLICATION, server);
    DerivedByOneHmac(s, master, SERVER_APPLICATION, server);
    DerivedByOneHmac(s, master, EXPORTER_MASTER, server);
    DerivedByOneHmac(s, master, RESUMPTION_MASTER, client);
  }

  /** Exported keying material: a secret per label, expanded under the hash of the context. */
  lemma ExportInHmacs(s: Suite, secret: Bytes, name: Bytes, context: Bytes, length: nat)
    requires IsSuite(s) && |name| <= 249 && length <= 255 * s.size
    ensures var info := [length / 256 % 256, length % 256, 14, 100, 116, 108, 115, 49, 51] + EXPORTER
                        + [s.size] + s.hash(context);
            Export(s, secret, name, context, length)
            == Expand(s, s.hmac(secret, LabelInput(s.size, name, s.hash([]))), info, length)
  {
    DerivedByOneHmac(s, secret, name, s.hash([]));
    TwoBytes(length);
    assert Info(length, EXPORTER, s.hash(context))
        == [length / 256 % 256, length % 256, 14, 100, 116, 108, 115, 49, 51] + EXPORTER + [s.size] + s.hash(context);
  }
}
