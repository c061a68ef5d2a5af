/** Stateless retry cookies under a rotating key: what a sealed cookie promises and when it stops being accepted. */
module Cookies {
  import opened Wire

  const SECOND := 1_000_000_000
  const MINUTE := 60 * SECOND
  const MAC_SIZE := 32

  datatype Key = Key(id: Byte, secret: Bytes)

  /** The clock counts nanoseconds since 1970. `rotated` is its value at the last change of key. */
  datatype Protector = Protector(current: Key, previous: Option<Key>, lifetime: nat, rotated: nat)

  /** One call reads the clock up to three times and may draw a fresh secret; None is a failing random source. */
  datatype Clock = Clock(first: nat, second: nat, third: nat, draw: Option<Bytes>)

  predicate Ordered(c: Clock) {
    c.first <= c.second <= c.third
  }

  type Hmac = (Bytes, Bytes) -> Bytes

  ghost predicate IsMac(mac: Hmac) {
    forall key, text :: |mac(key, text)| == MAC_SIZE
  }

  // ---------------------------------------------------------------- rotation

  predicate Due(p: Protector, now: nat) {
    now - p.rotated >= p.lifetime / 2
  }

  function NextId(id: Byte): Byte {
    (id + 1) % 256
  }

  /** None when a rotation is due and no secret could be drawn. */
  function Rotate(p: Protector, c: Clock): Option<Protector> {
    if !Due(p, c.first) then Some(p)
    else if c.draw.None? then None
    else Some(p.(current := Key(NextId(p.current.id), c.draw.value), previous := Some(p.current), rotated := c.second))
  }

  function AfterCall(p: Protector, c: Clock): Protector {
    match Rotate(p, c) case Some(q) => q case None => p
  }

  // ---------------------------------------------------------------- seal and open

  function Prefix(id: Byte, now: nat, hash: Bytes): Bytes
    requires |hash| < 256
  {
    [id] + PutUint(now / SECOND, 8) + [|hash|] + hash
  }

  function Seal(mac: Hmac, p: Protector, address: Bytes, hash: Bytes, c: Clock): Option<Bytes> {
    match Rotate(p, c)
    case None => None
    case Some(q) =>
      if |hash| == 0 || |hash| > 255 then None
      else
        var prefix := Prefix(q.current.id, c.third, hash);
        Some(prefix + mac(q.current.secret, address + prefix))
  }

  function KeyFor(p: Protector, id: Byte): Option<Key> {
    if id == p.current.id then Some(p.current)
    else if p.previous.Some? && id == p.previous.value.id then p.previous
    else None
  }

  predicate WellFormed(cookie: Bytes) {
    |cookie| >= 10 + MAC_SIZE && cookie[9] != 0 && |cookie| == 10 + cookie[9] + MAC_SIZE
  }

  function Created(cookie: Bytes): nat
    requires WellFormed(cookie)
  {
    GetUint(cookie[1..9]) * SECOND
  }

  predicate Timely(p: Protector, created: nat, now: nat) {
    created <= now + MINUTE && now - created <= p.lifetime
  }

  function Open(mac: Hmac, p: Protector, address: Bytes, cookie: Bytes, c: Clock): Option<Bytes> {
    match Rotate(p, c)
    case None => None
    case Some(q) =>
      if !WellFormed(cookie) then None
      else
        var prefix, tag := cookie[..10 + cookie[9]], cookie[10 + cookie[9]..];
        match KeyFor(q, cookie[0])
        case None => None
        case Some(key) =>
          if mac(key.secret, address + prefix) != tag then None
          else if !Timely(q, Created(cookie), c.third) then None
          else Some(cookie[10..10 + cookie[9]])
  }

  // ---------------------------------------------------------------- encoding

  lemma SealedFields(mac: Hmac, p: Protector, address: Bytes, hash: Bytes, c: Clock)
    requires IsMac(mac) && c.third / SECOND < U64_LIMIT && Seal(mac, p, address, hash, c).Some?
    ensures var cookie, key := Seal(mac, p, address, hash, c).value, AfterCall(p, c).current;
            && WellFormed(cookie) && cookie[9] == |hash| && cookie[0] == key.id
            && cookie[10..10 + |hash|] == hash && Created(cookie) == c.third / SECOND * SECOND
            && cookie[10 + |hash|..] == mac(key.secret, address + cookie[..10 + |hash|])
  {
    var key := AfterCall(p, c).current;
    var cookie := Seal(mac, p, address, hash, c).value;
    var prefix := Prefix(key.id, c.third, hash);
    var seconds := PutUint(c.third / SECOND, 8);
    assert prefix[1..9] == seconds && prefix[10..] == hash;
    assert cookie[..10 + |hash|] == prefix;
    assert cookie[1..9] == prefix[1..9] && cookie[10..10 + |hash|] == prefix[10..];
    RadixValues();
    GetPut(c.third / SECOND, 8);
  }

  /**
   * A cookie: the key's number, the second of sealing, the hash behind its length, and the MAC over address and all.
   */
  lemma CookieLayout(mac: Hmac, p: Protector, address: Bytes, hash: Bytes, c: Clock)
    requires IsMac(mac) && c.third / 1_000_000_000 < U64_LIMIT
    ensures Seal(mac, p, address, hash, c).Some? <==> Rotate(p, c).Some? && 1 <= |hash| <= 255
    ensures Seal(mac, p, address, hash, c).Some? ==>
              var cookie, key := Seal(mac, p, address, hash, c).value, AfterCall(p, c).current;
              && |cookie| == 10 + |hash| + 32 && cookie[0] == key.id && GetUint(cookie[1..9]) == c.third / 1_000_000_000
              && cookie[9] == |hash| && cookie[10..10 + |hash|] == hash
              && cookie[10 + |hash|..] == mac(key.secret, address + cookie[..10 + |hash|])
  {
    if Seal(mac, p, address, hash, c).Some? {
      SealedFields(mac, p, address, hash, c);
      var seconds := PutUint(c.third / SECOND, 8);
      var cookie := Seal(mac, p, address, hash, c).value;
      assert cookie[1..9] == seconds;
      RadixValues();
      GetPut(c.third / SECOND, 8);
    }
  }

  /** A rotation: every half lifetime, to the next number and a drawn secret; the old key is kept for one more turn. */
  lemma RotatesExactly(p: Protector, c: Clock)
    ensures Rotate(p, c) == Some(p) <== c.first - p.rotated < p.lifetime / 2
    ensures Rotate(p, c).None? <==> c.first - p.rotated >= p.lifetime / 2 && c.draw.None?
    ensures c.first - p.rotated >= p.lifetime / 2 && c.draw.Some? ==>
              Rotate(p, c) == Some(Protector(Key(if p.current.id == 255 then 0 else p.current.id + 1, c.draw.value),
                                             Some(p.current), p.lifetime, c.second))
  {}

  /** A cookie is opened exactly when it is whole, was authenticated by the key its first byte names, and is timely. */
  lemma OpensExactly(mac: Hmac, p: Protector, address: Bytes, cookie: Bytes, c: Clock)
    ensures Open(mac, p, address, cookie, c).Some?
            <==>
              && Rotate(p, c).Some? && |cookie| >= 10 + 32 && cookie[9] != 0 && |cookie| - 42 == cookie[9]
              && var q, created := Rotate(p, c).value, GetUint(cookie[1..9]) * 1_000_000_000;
              && created <= c.third + 60_000_000_000 && c.third - created <= p.lifetime
              && var tag, text := cookie[10 + cookie[9]..], address + cookie[..10 + cookie[9]];
              if cookie[0] == q.current.id then mac(q.current.secret, text) == tag
              else q.previous.Some? && cookie[0] == q.previous.value.id && mac(q.previous.value.secret, text) == tag
    ensures Open(mac, p, address, cookie, c).Some? ==>
              |cookie| - 10 >= cookie[9] && Open(mac, p, address, cookie, c).value == cookie[10..10 + cookie[9]]
  {}

  // ---------------------------------------------------------------- runs

  /** Calls between sealing and opening only matter through the rotations they cause. */
  ghost predicate InOrder(calls: seq<Clock>, from: nat, to: nat)
    decreases |calls|
  {
    if calls == [] then from <= to
    else Ordered(calls[0]) && from <= calls[0].first && InOrder(calls[1..], calls[0].third, to)
  }

  function Run(p: Protector, calls: seq<Clock>): Protector
    decreases |calls|
  {
    if calls == [] then p else Run(AfterCall(p, calls[0]), calls[1..])
  }

  function Later(a: nat, b: nat): nat {
    if a >= b then a else b
  }

  /** From this reading on, two rotations since the sealing are possible. `q` is the state the sealing left. */
  function Deadline(q: Protector, sealed: nat): nat {
    Later(sealed, q.rotated + q.lifetime / 2) + q.lifetime / 2
  }

  /** The sealing key is still the current one, or became the previous one no earlier than it could. */
  ghost predicate Held(p: Protector, q: Protector, sealed: nat) {
    && p.lifetime == q.lifetime
    && (|| (p.current == q.current && p.rotated == q.rotated)
        || (&& p.previous == Some(q.current) && p.current.id == NextId(q.current.id)
            && p.rotated >= Later(sealed, q.rotated + q.lifetime / 2)))
  }

  lemma CallKeepsHeld(p: Protector, q: Protector, sealed: nat, c: Clock)
    requires Held(p, q, sealed) && Ordered(c) && sealed <= c.first < Deadline(q, sealed)
    ensures Held(AfterCall(p, c), q, sealed)
  {}

  lemma {:induction false} RunKeepsHeld(p: Protector, q: Protector, sealed: nat, calls: seq<Clock>, from: nat, to: nat)
    requires Held(p, q, sealed) && sealed <= from && InOrder(calls, from, to) && to < Deadline(q, sealed)
    ensures Held(Run(p, calls), q, sealed) && from <= to
    decreases |calls|
  {
    if calls != [] {
      InOrderBounds(calls[1..], calls[0].third, to);
      CallKeepsHeld(p, q, sealed, calls[0]);
      RunKeepsHeld(AfterCall(p, calls[0]), q, sealed, calls[1..], calls[0].third, to);
    }
  }

  lemma {:induction false} InOrderBounds(calls: seq<Clock>, from: nat, to: nat)
    requires InOrder(calls, from, to)
    ensures from <= to
    decreases |calls|
  {
    if calls != [] { InOrderBounds(calls[1..], calls[0].third, to); }
  }

  /** Before the deadline, a cookie opened for the same address is accepted exactly when its recorded second is within
      the lifetime, whatever calls and rotations came between, key-id wrap included. */
  lemma HonouredBeforeDeadline(mac: Hmac, p: Protector, address: Bytes, hash: Bytes, s: Clock, calls: seq<Clock>,
                               o: Clock)
    requires IsMac(mac) && Seal(mac, p, address, hash, s).Some? && s.third / SECOND < U64_LIMIT
    requires Ordered(s) && Ordered(o) && InOrder(calls, s.third, o.first)
    requires Rotate(Run(AfterCall(p, s), calls), o).Some?
    requires o.first < Deadline(AfterCall(p, s), s.third)
    ensures Open(mac, Run(AfterCall(p, s), calls), address, Seal(mac, p, address, hash, s).value, o)
            == if o.third - s.third / SECOND * SECOND <= p.lifetime then Some(hash) else None
  {
    var q := AfterCall(p, s);
    InOrderBounds(calls, s.third, o.first);
    RunKeepsHeld(q, q, s.third, calls, s.third, o.first);
    CallKeepsHeld(Run(q, calls), q, s.third, o);
    HeldKeyIsFound(AfterCall(Run(q, calls), o), q, s.third);
    SealedFields(mac, p, address, hash, s);
  }

  lemma HeldKeyIsFound(p: Protector, q: Protector, sealed: nat)
    requires Held(p, q, sealed)
    ensures KeyFor(p, q.current.id) == Some(q.current)
  {}

  /** The promise: a cookie opened for the same address within half a lifetime of its sealing is accepted. Half a
      lifetime is counted from the first clock reading of the sealing, or short of it from the last. */
  lemma CookieIsHonoured(mac: Hmac, p: Protector, address: Bytes, hash: Bytes, s: Clock, calls: seq<Clock>, o: Clock)
    requires IsMac(mac) && Seal(mac, p, address, hash, s).Some? && s.third / SECOND < U64_LIMIT
    requires Ordered(s) && Ordered(o) && InOrder(calls, s.third, o.first)
    requires Rotate(Run(AfterCall(p, s), calls), o).Some?
    requires p.lifetime >= 2 * SECOND
    requires o.third <= s.first + p.lifetime / 2 || o.third < s.third + p.lifetime / 2
    ensures Open(mac, Run(AfterCall(p, s), calls), address, Seal(mac, p, address, hash, s).value, o) == Some(hash)
  {
    HonouredBeforeDeadline(mac, p, address, hash, s, calls, o);
  }

  /** From the deadline on the promise can break: one rotation as early as possible and a second one at the opening
      leave the sealing key unknown. */
  lemma LostAfterDeadline(mac: Hmac, p: Protector, address: Bytes, hash: Bytes, s: Clock, o: Clock, secret: Bytes)
    requires IsMac(mac) && Seal(mac, p, address, hash, s).Some? && s.third / SECOND < U64_LIMIT
    requires Ordered(s) && Ordered(o) && o.draw.Some?
    requires o.first >= Deadline(AfterCall(p, s), s.third)
    ensures var q := AfterCall(p, s);
            var r := Later(s.third, q.rotated + q.lifetime / 2);
            var calls := [Clock(r, r, r, Some(secret))];
            && InOrder(calls, s.third, o.first)
            && Open(mac, Run(q, calls), address, Seal(mac, p, address, hash, s).value, o) == None
  {
    var q := AfterCall(p, s);
    var r := Later(s.third, q.rotated + q.lifetime / 2);
    var calls := [Clock(r, r, r, Some(secret))];
    assert calls[1..] == [];
    assert Run(q, calls) == AfterCall(q, calls[0]);
    SealedFields(mac, p, address, hash, s);
  }

  /** Nothing is accepted once its recorded second is older than the lifetime, nor far from the future, nor under
      any key but the current and the previous one. */
  lemma AcceptedIsTimelyAndAuthentic(mac: Hmac, p: Protector, address: Bytes, cookie: Bytes, o: Clock)
    requires Open(mac, p, address, cookie, o).Some?
    ensures WellFormed(cookie) && Open(mac, p, address, cookie, o).value == cookie[10..10 + cookie[9]]
    ensures o.third - Created(cookie) <= p.lifetime && Created(cookie) <= o.third + MINUTE
    ensures var q := AfterCall(p, o);
            exists key :: (key == q.current || q.previous == Some(key)) && key.id == cookie[0]
              && mac(key.secret, address + cookie[..10 + cookie[9]]) == cookie[10 + cookie[9]..]
  {
    var q := AfterCall(p, o);
    var key := KeyFor(q, cookie[0]).value;
    assert key == q.current || q.previous == Some(key);
  }

  // ---------------------------------------------------------------- object

  class CookieProtector {
    var current: Key
    var previous: Option<Key>
    const lifetime: nat
    var rotated: nat
    const mac: Hmac

    ghost function View(): Protector
      reads this
    {
      Protector(current, previous, lifetime, rotated)
    }

    constructor (mac: Hmac, secret: Bytes, lifetime: nat, now: nat)
      ensures View() == Protector(Key(1, secret), None, lifetime, now) && this.mac == mac
    {
      this.mac := mac;
      this.lifetime := lifetime;
      current, previous, rotated := Key(1, secret), None, now;
    }

    method RotateIfNeeded(c: Clock) returns (ok: bool)
      modifies this
      ensures View() == AfterCall(old(View()), c) && ok == Rotate(old(View()), c).Some?
    {
      if c.first - rotated < lifetime / 2 { return true; }
      if c.draw.None? { return false; }
      var retired := current;
      previous := Some(retired);
      current := Key((retired.id + 1) % 256, c.draw.value);
      rotated := c.second;
      return true;
    }

    method SealCookie(address: Bytes, hash: Bytes, c: Clock) returns (cookie: Option<Bytes>)
      modifies this
      ensures View() == AfterCall(old(View()), c) && cookie == Seal(mac, old(View()), address, hash, c)
    {
      var ok := RotateIfNeeded(c);
      if !ok || |hash| == 0 || |hash| > 255 { return None; }
      var prefix := [current.id] + PutUint(c.third / SECOND, 8) + [|hash|] + hash;
      return Some(prefix + mac(current.secret, address + prefix));
    }

    method OpenCookie(address: Bytes, cookie: Bytes, c: Clock) returns (hash: Option<Bytes>)
      modifies this
      ensures View() == AfterCall(old(View()), c) && hash == Open(mac, old(View()), address, cookie, c)
    {
      var ok := RotateIfNeeded(c);
      if !ok || |cookie| < 10 + MAC_SIZE { return None; }
      var hashLen := cookie[9];
      if hashLen == 0 || |cookie| != 10 + hashLen + MAC_SIZE { return None; }
      var secret;
      if cookie[0] == current.id {
        secret := current.secret;
      } else if previous.Some? && cookie[0] == previous.value.id {
        secret := previous.value.secret;
      } else {
        return None;
      }
      if mac(secret, address + cookie[..10 + hashLen]) != cookie[10 + hashLen..] { return None; }
      var created := GetUint(cookie[1..9]) * SECOND;
      if created > c.third + MINUTE || c.third - created > lifetime { return None; }
      return Some(cookie[10..10 + hashLen]);
    }
  }
}
