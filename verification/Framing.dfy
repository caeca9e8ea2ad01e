/** Packets on an encrypted TCP connection: length, nonce, payload, hash, all under one key stream for each
    direction, as in section 6.5 of NIST SP 800-38A. */
module Framing {
  import opened Options
  import opened Order

  type Byte = x: int | 0 <= x < 256
  type Bytes = seq<Byte>
  /** The byte of the key stream at a position. */
  type Stream = nat -> Byte

  const MAX_PACKET: nat := 0x100_0000
  const MIN_PACKET: nat := 64
  const NONCE: nat := 32
  const HASH: nat := 32
  const WORD: nat := 0x1_0000_0000

  // ---- the cipher ----

  function XorBits(x: nat, y: nat): nat {
    if x == 0 && y == 0 then 0 else 2 * XorBits(x / 2, y / 2) + if x % 2 == y % 2 then 0 else 1
  }

  lemma {:induction false} XorTwice(x: nat, y: nat)
    ensures XorBits(XorBits(x, y), y) == x
    decreases x + y
  {
    if x != 0 || y != 0 {
      XorTwice(x / 2, y / 2);
      var q := XorBits(x / 2, y / 2);
      assert XorBits(x, y) / 2 == q;
    }
  }

  function Pow(k: nat): nat {
    if k == 0 then 1 else 2 * Pow(k - 1)
  }

  lemma {:induction false} XorBelow(x: nat, y: nat, k: nat)
    requires x < Pow(k) && y < Pow(k)
    ensures XorBits(x, y) < Pow(k)
  {
    if k > 0 { XorBelow(x / 2, y / 2, k - 1); }
  }

  function Xor(x: Byte, y: Byte): Byte {
    assert Pow(8) == 256;
    XorBelow(x, y, 8);
    XorBits(x, y)
  }

  function Crypt(s: Stream, pos: nat, d: Bytes): (r: Bytes)
    ensures |r| == |d|
    decreases |d|
  {
    if d == [] then [] else [Xor(d[0], s(pos))] + Crypt(s, pos + 1, d[1..])
  }

  lemma {:induction false} CryptTwice(s: Stream, pos: nat, d: Bytes)
    ensures Crypt(s, pos, Crypt(s, pos, d)) == d
    decreases |d|
  {
    if d != [] {
      XorTwice(d[0], s(pos));
      CryptTwice(s, pos + 1, d[1..]);
      assert Crypt(s, pos, d)[1..] == Crypt(s, pos + 1, d[1..]);
    }
  }

  lemma {:induction false} CryptConcat(s: Stream, pos: nat, a: Bytes, b: Bytes)
    ensures Crypt(s, pos, a + b) == Crypt(s, pos, a) + Crypt(s, pos + |a|, b)
    decreases |a|
  {
    if a == [] {
      assert a + b == b;
    } else {
      assert (a + b)[1..] == a[1..] + b;
      CryptConcat(s, pos + 1, a[1..], b);
    }
  }

  lemma CryptCut(s: Stream, pos: nat, d: Bytes, n: nat)
    requires n <= |d|
    ensures Crypt(s, pos, d)[..n] == Crypt(s, pos, d[..n]) && Crypt(s, pos, d)[n..] == Crypt(s, pos + n, d[n..])
  {
    assert d == d[..n] + d[n..];
    CryptConcat(s, pos, d[..n], d[n..]);
  }

  // ---- the length field ----

  function Little(n: nat): Bytes
    requires n < WORD
  {
    var n1 := n / 256;
    var n2 := n1 / 256;
    var a: int, b: int, c: int, d: int := n % 256, n1 % 256, n2 % 256, n2 / 256;
    [a, b, c, d]
  }

  function Value(b: Bytes): (n: nat)
    requires |b| == 4
    ensures n < WORD
  {
    var w: int, x: int, y: int, z: int := b[0], b[1], b[2], b[3];
    w + 256 * (x + 256 * (y + 256 * z))
  }

  lemma ValueOfLittle(n: nat)
    requires n < WORD
    ensures Value(Little(n)) == n
  {
  }

  // ---- sending ----

  /** `data_size` is a 32-bit sum, and the payload must fit 32 bits for it to be formed at all. */
  predicate Accepts(size: nat)
    requires size < WORD
  {
    var dataSize := (size + NONCE + HASH) % WORD;
    32 <= dataSize <= MAX_PACKET
  }

  /** Exactly payloads up to the limit are sent, and those whose 32-bit size wraps around to 32 or more. */
  lemma AcceptsIff(size: nat)
    requires size < WORD
    ensures Accepts(size) <==> size <= MAX_PACKET - 64 || size >= WORD - 32
  {
  }

  /** What is sent for a payload, before encryption. */
  function Frame(sha: Bytes -> Bytes, nonce: Bytes, payload: Bytes): Bytes {
    Little((|payload| + NONCE + HASH) % WORD) + (nonce + payload + sha(nonce + payload))
  }

  // ---- receiving ----

  datatype Event = KeepAlive | Packet(data: Bytes)

  function EventOf(payload: Bytes): Event {
    if payload == [] then KeepAlive else Packet(payload)
  }

  /** How packets are judged: the hash they end with, and whether the contents of the packet with a given number are
      handled without an error. */
  datatype Rules = Rules(sha: Bytes -> Bytes, handles: (nat, Bytes) -> bool) {
    predicate Fine(k: nat, payload: Bytes) {
      payload == [] || handles(k, payload)
    }
  }

  /** What the packet with number `k` brings, without its length field, if its hash is right and it is handled. */
  function Open(rules: Rules, k: nat, body: Bytes): Option<Event>
    requires |body| >= MIN_PACKET
  {
    var n := |body| - HASH;
    var payload := body[NONCE..n];
    if rules.sha(body[..n]) == body[n..] && rules.Fine(k, payload) then Some(EventOf(payload)) else None
  }

  predicate BadLength(n: nat) {
    n > MAX_PACKET || n < MIN_PACKET
  }

  /** What the beginning of a stream of decrypted bytes is: not yet a packet, not a packet, or one of a given length. */
  datatype Head = Partial | Broken | Whole(event: Event, size: nat)

  function HeadOf(rules: Rules, k: nat, p: Bytes): (h: Head)
    ensures h.Whole? ==> 4 < h.size <= |p|
  {
    if |p| < 4 then Partial
    else
      var n := Value(p[..4]);
      if BadLength(n) then Broken
      else if |p| < 4 + n then Partial
      else
        var m := Open(rules, k, p[4..4 + n]);
        if m.None? then Broken else Whole(m.value, 4 + n)
  }

  lemma HeadStays(rules: Rules, k: nat, a: Bytes, b: Bytes)
    requires !HeadOf(rules, k, a).Partial?
    ensures HeadOf(rules, k, a + b) == HeadOf(rules, k, a)
  {
    assert (a + b)[..4] == a[..4];
    var n := Value(a[..4]);
    if !BadLength(n) { assert (a + b)[4..4 + n] == a[4..4 + n]; }
  }

  type Heading = (nat, Bytes) -> Head

  /** More bytes do not change what a beginning is, and a packet is not longer than the bytes at hand. */
  ghost predicate StableAt(head: Heading, k: nat, a: Bytes, b: Bytes) {
    (!head(k, a).Partial? ==> head(k, a + b) == head(k, a)) && (head(k, a).Whole? ==> 0 < head(k, a).size <= |a|)
  }

  ghost predicate Stable(head: Heading) {
    forall k: nat, a: Bytes, b: Bytes :: StableAt(head, k, a, b)
  }

  function Heads(rules: Rules): Heading {
    (k: nat, p: Bytes) => HeadOf(rules, k, p)
  }

  lemma HeadsStable(rules: Rules)
    ensures Stable(Heads(rules))
  {
    forall k: nat, a: Bytes, b: Bytes ensures StableAt(Heads(rules), k, a, b) {
      if !HeadOf(rules, k, a).Partial? { HeadStays(rules, k, a, b); }
    }
  }

  /** What a stream holds: complete packets, the bytes after them, and whether it broke the protocol. */
  datatype Scanned = Scanned(events: seq<Event>, rest: Bytes, failed: bool)

  /** The packets of a stream, the first of which has number `k`. */
  ghost function Scan(head: Heading, k: nat, p: Bytes): Scanned
    requires Stable(head)
    decreases |p|
  {
    assert StableAt(head, k, p, []);
    match head(k, p)
    case Partial => Scanned([], p, false)
    case Broken => Scanned([], [], true)
    case Whole(e, n) =>
      var s := Scan(head, k + 1, p[n..]);
      Scanned([e] + s.events, s.rest, s.failed)
  }

  /** The scan of more bytes goes on from the rest. */
  ghost function Then(s: Scanned, t: Scanned): Scanned {
    if s.failed then s else Scanned(s.events + t.events, t.rest, t.failed)
  }

  /** Scanning can be interrupted anywhere. */
  lemma {:induction false} ScanConcat(head: Heading, k: nat, a: Bytes, b: Bytes)
    requires Stable(head)
    ensures var s := Scan(head, k, a); Scan(head, k, a + b) == Then(s, Scan(head, k + |s.events|, s.rest + b))
    decreases |a|
  {
    assert StableAt(head, k, a, b);
    match head(k, a) {
      case Partial =>
        assert [] + Scan(head, k, a + b).events == Scan(head, k, a + b).events;
      case Broken =>
        assert head(k, a + b) == Broken;
      case Whole(e, n) =>
        assert head(k, a + b) == head(k, a) && (a + b)[n..] == a[n..] + b;
        ScanConcat(head, k + 1, a[n..], b);
        var s := Scan(head, k + 1, a[n..]);
        ConcatAssociates([e], s.events, Scan(head, k + 1 + |s.events|, s.rest + b).events);
    }
  }

  // ---- frames are recovered ----

  ghost predicate IsHash(sha: Bytes -> Bytes) {
    forall b: Bytes :: |sha(b)| == HASH
  }

  /** A packet to send: its nonce and its payload. */
  datatype Outgoing = Outgoing(nonce: Bytes, payload: Bytes) {
    predicate Valid() {
      |nonce| == NONCE && |payload| <= MAX_PACKET - 64
    }
  }

  lemma FrameIsWhole(rules: Rules, k: nat, o: Outgoing, more: Bytes)
    requires IsHash(rules.sha) && o.Valid()
    ensures var f := Frame(rules.sha, o.nonce, o.payload);
      && |f| == |o.payload| + 68
      && HeadOf(rules, k, f + more) == if rules.Fine(k, o.payload) then Whole(EventOf(o.payload), |f|) else Broken
  {
    var n := |o.payload| + 64;
    var signed := o.nonce + o.payload;
    var body := signed + rules.sha(signed);
    var p := Frame(rules.sha, o.nonce, o.payload) + more;
    assert p[..4] == Little(n) && p[4..4 + n] == body;
    ValueOfLittle(n);
    assert body[..n - HASH] == signed && body[n - HASH..] == rules.sha(signed) && body[NONCE..n - HASH] == o.payload;
  }

  /** A frame whose 32-bit size wrapped around is refused. */
  lemma WrappedIsBroken(rules: Rules, k: nat, o: Outgoing, more: Bytes)
    requires WORD - 32 <= |o.payload| < WORD
    ensures HeadOf(rules, k, Frame(rules.sha, o.nonce, o.payload) + more) == Broken
  {
    var n := |o.payload| + NONCE + HASH - WORD;
    assert (|o.payload| + NONCE + HASH) % WORD == n;
    assert (Frame(rules.sha, o.nonce, o.payload) + more)[..4] == Little(n);
    ValueOfLittle(n);
  }

  /** Of the payloads that are sent, exactly those up to the limit that are handled without an error are recovered. */
  lemma RecoveredIff(rules: Rules, k: nat, o: Outgoing, more: Bytes)
    requires IsHash(rules.sha) && |o.nonce| == NONCE && |o.payload| < WORD && Accepts(|o.payload|)
    ensures var f := Frame(rules.sha, o.nonce, o.payload);
      HeadOf(rules, k, f + more) == Whole(EventOf(o.payload), |f|)
      <==> |o.payload| <= MAX_PACKET - 64 && rules.Fine(k, o.payload)
  {
    AcceptsIff(|o.payload|);
    if |o.payload| <= MAX_PACKET - 64 {
      FrameIsWhole(rules, k, o, more);
    } else {
      WrappedIsBroken(rules, k, o, more);
    }
  }

  function Frames(sha: Bytes -> Bytes, os: seq<Outgoing>): Bytes {
    if os == [] then [] else Frame(sha, os[0].nonce, os[0].payload) + Frames(sha, os[1..])
  }

  lemma {:induction false} FramesMore(sha: Bytes -> Bytes, os: seq<Outgoing>, o: Outgoing)
    ensures Frames(sha, os + [o]) == Frames(sha, os) + Frame(sha, o.nonce, o.payload)
    decreases |os|
  {
    var f := Frame(sha, o.nonce, o.payload);
    if os == [] {
      assert [o][1..] == [] && os + [o] == [o];
      assert f + [] == f && [] + f == f;
    } else {
      assert (os + [o])[1..] == os[1..] + [o];
      FramesMore(sha, os[1..], o);
      ConcatAssociates(Frame(sha, os[0].nonce, os[0].payload), Frames(sha, os[1..]), f);
    }
  }

  function EventsOf(os: seq<Outgoing>): seq<Event> {
    seq(|os|, i requires 0 <= i < |os| => EventOf(os[i].payload))
  }

  /** The contents handed on, in order. */
  function Contents(es: seq<Event>): seq<Bytes> {
    if es == [] then []
    else Contents(es[..|es| - 1]) + if es[|es| - 1].Packet? then [es[|es| - 1].data] else []
  }

  /** The payloads that are not empty, in order. */
  function NotEmpty(os: seq<Outgoing>): seq<Bytes> {
    if os == [] then []
    else NotEmpty(os[..|os| - 1]) + if os[|os| - 1].payload != [] then [os[|os| - 1].payload] else []
  }

  /** Empty payloads are kept from whoever handles packets, all others are handed on as they are. */
  lemma {:induction false} ContentsAre(os: seq<Outgoing>)
    ensures |EventsOf(os)| == |os| && Contents(EventsOf(os)) == NotEmpty(os)
    decreases |os|
  {
    if os != [] {
      var n := |os| - 1;
      ContentsAre(os[..n]);
      assert EventsOf(os)[..n] == EventsOf(os[..n]);
    }
  }

  /** How many packets are handled before one is not, or all of them. */
  ghost function Handled(rules: Rules, k: nat, os: seq<Outgoing>): (m: nat)
    ensures m <= |os| && (forall i | 0 <= i < m :: os[i].payload == [] || rules.handles(k + i, os[i].payload))
    ensures m < |os| ==> os[m].payload != [] && !rules.handles(k + m, os[m].payload)
    decreases |os|
  {
    if os == [] || !rules.Fine(k, os[0].payload) then 0 else 1 + Handled(rules, k + 1, os[1..])
  }

  lemma ScanWhole(head: Heading, k: nat, f: Bytes, more: Bytes, e: Event)
    requires Stable(head) && head(k, f + more) == Whole(e, |f|)
    ensures var s := Scan(head, k + 1, more); Scan(head, k, f + more) == Scanned([e] + s.events, s.rest, s.failed)
  {
    assert (f + more)[|f|..] == more;
    assert StableAt(head, k, f + more, []);
  }

  ghost predicate FramedAt(head: Heading, rules: Rules, k: nat, o: Outgoing, more: Bytes) {
    var f := Frame(rules.sha, o.nonce, o.payload);
    head(k, f + more) == if rules.Fine(k, o.payload) then Whole(EventOf(o.payload), |f|) else Broken
  }

  ghost predicate Blank(head: Heading, k: nat) {
    head(k, []) == Partial
  }

  /** No bytes are not yet a packet, and a frame is one if it is handled without an error. */
  ghost predicate Framed(head: Heading, rules: Rules) {
    && (forall k: nat :: Blank(head, k))
    && forall k: nat, o: Outgoing, more: Bytes | o.Valid() :: FramedAt(head, rules, k, o, more)
  }

  lemma EventsCut(os: seq<Outgoing>, m: nat)
    requires m < |os|
    ensures EventsOf(os[..m + 1]) == [EventOf(os[0].payload)] + EventsOf(os[1..][..m])
  {
  }

  /** The packets of a stream that begins with a frame. */
  lemma FirstFrame(head: Heading, rules: Rules, k: nat, o: Outgoing, more: Bytes)
    requires Stable(head) && FramedAt(head, rules, k, o, more)
    ensures Scan(head, k, Frame(rules.sha, o.nonce, o.payload) + more) ==
      if rules.Fine(k, o.payload)
      then var s := Scan(head, k + 1, more); Scanned([EventOf(o.payload)] + s.events, s.rest, s.failed)
      else Scanned([], [], true)
  {
    if rules.Fine(k, o.payload) {
      ScanWhole(head, k, Frame(rules.sha, o.nonce, o.payload), more, EventOf(o.payload));
    }
  }

  /** A stream of frames holds exactly the payloads up to the first that is not handled, empty ones as keepalives, and
      nothing else. */
  lemma {:induction false} FramesScan(head: Heading, rules: Rules, k: nat, os: seq<Outgoing>)
    requires Stable(head) && Framed(head, rules) && (forall o | o in os :: o.Valid())
    ensures var m := Handled(rules, k, os);
      Scan(head, k, Frames(rules.sha, os)) == Scanned(EventsOf(os[..m]), [], m < |os|)
    decreases |os|
  {
    if os == [] {
      assert Blank(head, k);
    } else {
      var o := os[0];
      assert o in os && o.Valid();
      assert FramedAt(head, rules, k, o, Frames(rules.sha, os[1..]));
      FirstFrame(head, rules, k, o, Frames(rules.sha, os[1..]));
      if rules.Fine(k, o.payload) {
        FramesScan(head, rules, k + 1, os[1..]);
        EventsCut(os, Handled(rules, k + 1, os[1..]));
      }
    }
  }
}
