/** ADNL messages, and how large ones are cut into parts and put together again. */
module Fragments {
  import opened Options
  import opened Order
  import opened PeerStart

  type Bytes = seq<int>

  const ADNL_MTU: nat := 1024
  const PEER_MTU: nat := ADNL_MTU + 128
  const HUGE_PACKET_MAX_SIZE: nat := 1024 * 8 + 128
  const NO_HASH: int := 0

  datatype Message =
    | CreateChannel(key: int, date: int)
    | ConfirmChannel(key: int, peerKey: int, date: int)
    | Custom(data: Bytes)
    | Nop
    | Reinit(date: int)
    | Query(id: int, data: Bytes)
    | Answer(id: int, data: Bytes)
    | Part(hash: int, totalSize: nat, offset: nat, data: Bytes)
  {
    /** The size a message is accounted with. */
    function Size(): nat {
      match this
      case CreateChannel(_, _) => 40
      case ConfirmChannel(_, _, _) => 72
      case Custom(d) => |d| + 12
      case Nop => 4
      case Reinit(_) => 8
      case Query(_, d) => |d| + 44
      case Answer(_, d) => |d| + 44
      case Part(_, _, _, d) => |d| + 48
    }
  }

  /** The serializer and the hash of byte strings. */
  datatype Codec = Codec(serialize: Message -> Bytes, parse: Bytes -> Option<Message>, hash: Bytes -> int) {
    /** A part carries fewer bytes than its own serialization has. */
    ghost predicate Shrinks() {
      forall b: Bytes {:trigger parse(b)} :: parse(b).Some? && parse(b).value.Part? ==> |parse(b).value.data| < |b|
    }

    ghost predicate RoundTrips() {
      forall m: Message :: |serialize(m)| > 0 && parse(serialize(m)) == Some(m)
    }

    /** No two byte strings share a hash, and none has the zero hash. */
    ghost predicate HashesApart() {
      && (forall x: Bytes, y: Bytes | hash(x) == hash(y) :: x == y)
      && (forall x: Bytes :: hash(x) != NO_HASH)
    }
  }

  // ---- sending ----

  function PartSize(b: Bytes, offset: nat): nat
    requires offset < |b|
  {
    if |b| - offset > ADNL_MTU then ADNL_MTU else |b| - offset
  }

  function PartsFrom(hash: int, b: Bytes, offset: nat): seq<Message>
    decreases |b| - offset
  {
    if offset >= |b| then []
    else [Part(hash, |b|, offset, b[offset..offset + PartSize(b, offset)])] + PartsFrom(hash, b, offset + ADNL_MTU)
  }

  /** What is queued for one message. */
  function Split(c: Codec, m: Message): seq<Message> {
    if m.Size() <= PEER_MTU then [m] else PartsFrom(c.hash(c.serialize(m)), c.serialize(m), 0)
  }

  function SplitAll(c: Codec, ms: seq<Message>): seq<Message> {
    if ms == [] then [] else SplitAll(c, ms[..|ms| - 1]) + Split(c, ms[|ms| - 1])
  }

  /** The parts before `offset` have been cut. */
  ghost predicate Cut(parts: seq<Message>, hash: int, b: Bytes, offset: nat) {
    parts + PartsFrom(hash, b, offset) == PartsFrom(hash, b, 0)
  }

  lemma CutNext(parts: seq<Message>, hash: int, b: Bytes, offset: nat, p: Message)
    requires Cut(parts, hash, b, offset) && offset < |b|
    requires p == Part(hash, |b|, offset, b[offset..offset + PartSize(b, offset)])
    ensures Cut(parts + [p], hash, b, offset + ADNL_MTU)
  {
    ConcatAssociates(parts, [p], PartsFrom(hash, b, offset + ADNL_MTU));
  }

  method CutBytes(hash: int, b: Bytes) returns (parts: seq<Message>)
    ensures parts == PartsFrom(hash, b, 0)
  {
    var rest, offset := b, 0;
    parts := [];
    while offset < |b|
      invariant Cut(parts, hash, b, offset)
      invariant rest == if offset <= |b| then b[offset..] else []
      decreases |b| - offset
    {
      var data := if |rest| > ADNL_MTU then rest[..ADNL_MTU] else rest;
      assert data == b[offset..offset + PartSize(b, offset)];
      CutNext(parts, hash, b, offset, Part(hash, |b|, offset, data));
      parts := parts + [Part(hash, |b|, offset, data)];
      rest := rest[|data|..];
      offset := offset + ADNL_MTU;
    }
    assert parts + [] == parts;
  }

  method SplitMessage(c: Codec, m: Message) returns (parts: seq<Message>)
    ensures parts == Split(c, m)
  {
    if m.Size() <= PEER_MTU {
      return [m];
    }
    var b := c.serialize(m);
    parts := CutBytes(c.hash(b), b);
  }

  lemma {:induction false} PartsFit(hash: int, b: Bytes, offset: nat)
    ensures forall p | p in PartsFrom(hash, b, offset) :: p.Part? && p.hash == hash && p.totalSize == |b| && p.Size() <= PEER_MTU
    decreases |b| - offset
  {
    if offset < |b| { PartsFit(hash, b, offset + ADNL_MTU); }
  }

  /** Everything queued fits the limit the packing loop relies on. */
  lemma SplitFits(c: Codec, m: Message)
    ensures forall p | p in Split(c, m) :: p.Size() <= PEER_MTU
  {
    PartsFit(c.hash(c.serialize(m)), c.serialize(m), 0);
  }

  // ---- receiving ----

  /** The message being put together: its hash (zero if none), its size, and the bytes received so far. */
  datatype Assembly = Assembly(hash: int, size: nat, got: Bytes)

  const NOTHING := Assembly(NO_HASH, 0, [])

  predicate Refused(p: Message)
    requires p.Part?
  {
    p.totalSize > HUGE_PACKET_MAX_SIZE || p.hash == NO_HASH
  }

  /** A part of another message than the one in progress ends it, and begins its own if it is the first. */
  function Begun(a: Assembly, p: Message): Assembly
    requires p.Part?
  {
    if p.hash == a.hash then a else if p.offset == 0 then Assembly(p.hash, p.totalSize, []) else NOTHING
  }

  predicate Extends(a: Assembly, p: Message)
    requires p.Part?
  {
    p.hash == a.hash && |p.data| + p.offset <= p.totalSize == a.size && p.offset == |a.got|
  }

  /** The assembly after a part, and the bytes of the message if that is complete. */
  function TakePart(c: Codec, a: Assembly, p: Message): (Assembly, Option<Bytes>)
    requires p.Part?
  {
    if Refused(p) then (a, None)
    else
      var a1 := Begun(a, p);
      if !Extends(a1, p) then (a1, None)
      else
        var got := a1.got + p.data;
        if |got| < a1.size || c.hash(got) != a1.hash then (a1.(got := got), None) else (NOTHING, Some(got))
  }

  /** A message is complete only with all the bytes that were announced for it, and these have the hash announced. */
  lemma CompletesWhole(c: Codec, a: Assembly, p: Message)
    requires p.Part?
    ensures var r := TakePart(c, a, p);
      r.1.Some? ==> |r.1.value| == p.totalSize <= HUGE_PACKET_MAX_SIZE && c.hash(r.1.value) == p.hash && r.0 == NOTHING
  {
  }

  /** Bounds the bytes a message could complete. */
  ghost function Reach(a: Assembly, m: Message): nat {
    if !m.Part? then 0 else if m.hash == a.hash then a.size + 1 else |m.data| + 1
  }

  lemma NestedIsSmaller(c: Codec, a: Assembly, p: Message)
    requires c.Shrinks() && p.Part?
    ensures var r := TakePart(c, a, p);
      r.1.Some? && c.parse(r.1.value).Some? ==> Reach(NOTHING, c.parse(r.1.value).value) < Reach(a, p)
  {
    var r := TakePart(c, a, p);
    if r.1.Some? && c.parse(r.1.value).Some? {
      var m := c.parse(r.1.value).value;
      assert r.1.value == Begun(a, p).got + p.data;
    }
  }

  /** What a peer pair keeps of the message being put together, and the peer's start as far as known (0 if not). */
  datatype Inbox = Inbox(assembly: Assembly, reinitDate: int)

  /** A later start of the peer ends the message being put together. */
  function Restarted(x: Inbox, date: int): Inbox {
    if Restarts(x.reinitDate, date) then Inbox(NOTHING, date) else x.(reinitDate := Learned(x.reinitDate, date))
  }

  /** Handles one message: what is processed, in order. A message put together from parts may be a part itself. */
  function Deliver(c: Codec, x: Inbox, m: Message): (Inbox, seq<Message>)
    requires c.Shrinks()
    decreases Reach(x.assembly, m)
  {
    if m.Reinit? then (Restarted(x, m.date), [m])
    else if !m.Part? then (x, [m])
    else
      var r := TakePart(c, x.assembly, m);
      NestedIsSmaller(c, x.assembly, m);
      if r.1.None? || c.parse(r.1.value).None? then (x.(assembly := r.0), [])
      else Deliver(c, x.(assembly := r.0), c.parse(r.1.value).value)
  }

  function DeliverAll(c: Codec, x: Inbox, ms: seq<Message>): (Inbox, seq<Message>)
    requires c.Shrinks()
    decreases |ms|
  {
    if ms == [] then (x, [])
    else
      var first := Deliver(c, x, ms[0]);
      var rest := DeliverAll(c, first.0, ms[1..]);
      (rest.0, first.1 + rest.1)
  }

  class Reassembler {
    const c: Codec
    var hash: int
    var size: nat
    var got: Bytes
    var reinitDate: int
    /** The messages processed. */
    var delivered: seq<Message>

    ghost function State(): Inbox
      reads this
    {
      Inbox(Assembly(hash, size, got), reinitDate)
    }

    constructor (c: Codec)
      ensures this.c == c && State() == Inbox(NOTHING, 0) && delivered == []
    {
      this.c := c;
      hash, size, got, reinitDate, delivered := NO_HASH, 0, [], 0, [];
    }

    method ReinitFrom(date: int)
      modifies this`hash, this`size, this`got, this`reinitDate
      ensures State() == Restarted(old(State()), date)
    {
      if reinitDate == 0 {
        reinitDate := date;
      }
      if reinitDate < date {
        hash, size, got := NO_HASH, 0, [];
        reinitDate := date;
      }
    }

    method DeliverMessage(m: Message)
      requires c.Shrinks()
      modifies this
      ensures var r := Deliver(c, old(State()), m); State() == r.0 && delivered == old(delivered) + r.1
      decreases Reach(State().assembly, m)
    {
      if m.Part? {
        ProcessPart(m);
      } else if m.Reinit? {
        ReinitFrom(m.date);
        delivered := delivered + [m];
      } else {
        delivered := delivered + [m];
      }
    }

    method ProcessPart(m: Message)
      requires c.Shrinks() && m.Part?
      modifies this
      ensures var r := Deliver(c, old(State()), m); State() == r.0 && delivered == old(delivered) + r.1
      decreases Reach(State().assembly, m), 0
    {
      NestedIsSmaller(c, State().assembly, m);
      var total := m.totalSize;
      if total > HUGE_PACKET_MAX_SIZE {
        return;
      }
      if m.hash == NO_HASH {
        return;
      }
      if m.hash != hash {
        hash, size, got := NO_HASH, 0, [];
        if m.offset == 0 {
          hash, size := m.hash, total;
        } else {
          return;
        }
      }
      if |m.data| + m.offset > total {
        return;
      }
      if total != size {
        return;
      }
      if m.offset == |got| {
        got := got + m.data;
        if |got| == size {
          if c.hash(got) != hash {
            return;
          }
          var b := got;
          hash, size, got := NO_HASH, 0, [];
          var parsed := c.parse(b);
          if parsed.None? {
            return;
          }
          DeliverMessage(parsed.value);
        }
      }
    }
  }

  // ---- nothing is made up ----

  /** A message that some sent message is queued as, or cut into. */
  ghost predicate OnWire(c: Codec, sent: set<Message>, w: Message) {
    exists m :: m in sent && w in Split(c, m)
  }

  ghost predicate Plain(ms: set<Message>) {
    forall m | m in ms :: !m.Part?
  }

  lemma WirePart(c: Codec, sent: set<Message>, w: Message)
    requires OnWire(c, sent, w) && Plain(sent)
    ensures !w.Part? ==> w in sent
    ensures w.Part? ==> exists m :: m in sent && w.hash == c.hash(c.serialize(m))
  {
    var m :| m in sent && w in Split(c, m);
    PartsFit(c.hash(c.serialize(m)), c.serialize(m), 0);
  }

  /** A part that completes a message, of a hash that some sent message has, completes that message. */
  lemma CompletesSent(c: Codec, sent: set<Message>, a: Assembly, w: Message)
    requires c.RoundTrips() && c.HashesApart() && w.Part? && exists m :: m in sent && w.hash == c.hash(c.serialize(m))
    ensures var r := TakePart(c, a, w); r.1.Some? ==> c.parse(r.1.value).Some? && c.parse(r.1.value).value in sent
  {
    var r := TakePart(c, a, w);
    if r.1.Some? {
      var m :| m in sent && w.hash == c.hash(c.serialize(m));
      assert c.hash(r.1.value) == w.hash;
      assert r.1.value == c.serialize(m) && c.parse(r.1.value) == Some(m);
    }
  }

  lemma DeliverGenuine(c: Codec, sent: set<Message>, x: Inbox, w: Message)
    requires c.Shrinks() && c.RoundTrips() && c.HashesApart()
    requires Plain(sent) && (OnWire(c, sent, w) || w.Reinit?)
    ensures forall d | d in Deliver(c, x, w).1 :: d in sent || (d == w && w.Reinit?)
  {
    if !w.Reinit? {
      WirePart(c, sent, w);
      if w.Part? { CompletesSent(c, sent, x.assembly, w); }
    }
  }

  /** Whatever part of the packets of an honest sender arrives, in whatever order and however often, and whenever the
      message being put together is given up for a later start of the peer: every message delivered is one that was
      sent. A `Reinit` not sent stands for a packet that names a later start. */
  lemma {:induction false} DeliveredWereSent(c: Codec, sent: set<Message>, x: Inbox, ws: seq<Message>)
    requires c.Shrinks() && c.RoundTrips() && c.HashesApart()
    requires Plain(sent) && forall w | w in ws :: OnWire(c, sent, w) || w.Reinit?
    ensures forall d | d in DeliverAll(c, x, ws).1 :: d in sent || (d.Reinit? && d in ws)
    decreases |ws|
  {
    if ws != [] {
      DeliverGenuine(c, sent, x, ws[0]);
      DeliveredWereSent(c, sent, Deliver(c, x, ws[0]).0, ws[1..]);
    }
  }

  // ---- nothing is lost ----

  lemma {:induction false} DeliverConcat(c: Codec, x: Inbox, ms: seq<Message>, ns: seq<Message>)
    requires c.Shrinks()
    ensures var r := DeliverAll(c, x, ms); var s := DeliverAll(c, r.0, ns);
      DeliverAll(c, x, ms + ns) == (s.0, r.1 + s.1)
    decreases |ms|
  {
    if ms == [] {
      assert ms + ns == ns && DeliverAll(c, x, ms) == (x, []);
      assert [] + DeliverAll(c, x, ns).1 == DeliverAll(c, x, ns).1;
    } else {
      var f := Deliver(c, x, ms[0]);
      assert (ms + ns)[1..] == ms[1..] + ns;
      DeliverConcat(c, f.0, ms[1..], ns);
      var r := DeliverAll(c, f.0, ms[1..]);
      ConcatAssociates(f.1, r.1, DeliverAll(c, r.0, ns).1);
    }
  }

  /** The assembly after all bytes before `offset`. */
  ghost function Until(h: int, b: Bytes, offset: nat): Assembly
    requires offset <= |b|
  {
    if offset == 0 then NOTHING else Assembly(h, |b|, b[..offset])
  }

  lemma OnePart(c: Codec, b: Bytes, offset: nat)
    requires c.HashesApart() && offset < |b| <= HUGE_PACKET_MAX_SIZE
    ensures var h, n := c.hash(b), PartSize(b, offset);
      TakePart(c, Until(h, b, offset), Part(h, |b|, offset, b[offset..offset + n]))
      == if offset + n < |b| then (Until(h, b, offset + n), None) else (NOTHING, Some(b))
  {
    var n := PartSize(b, offset);
    assert b[..offset] + b[offset..offset + n] == b[..offset + n];
    if offset + n == |b| { assert b[..offset + n] == b; }
  }

  /** The inbox between messages, after this one. */
  ghost function Next(date: int, m: Message): Inbox {
    if m.Reinit? then Restarted(Inbox(NOTHING, date), m.date) else Inbox(NOTHING, date)
  }

  lemma DeliverOne(c: Codec, x: Inbox, m: Message)
    requires c.Shrinks()
    ensures DeliverAll(c, x, [m]) == Deliver(c, x, m)
  {
    var l := [m];
    assert l[1..] == [] && DeliverAll(c, Deliver(c, x, m).0, l[1..]) == (Deliver(c, x, m).0, []);
    assert Deliver(c, x, m).1 + [] == Deliver(c, x, m).1;
  }

  lemma {:induction false} PartsArrive(c: Codec, m: Message, date: int, offset: nat)
    requires c.Shrinks() && c.RoundTrips() && c.HashesApart() && !m.Part?
    requires offset < |c.serialize(m)| <= HUGE_PACKET_MAX_SIZE
    ensures var b := c.serialize(m); var h := c.hash(b);
      DeliverAll(c, Inbox(Until(h, b, offset), date), PartsFrom(h, b, offset)) == (Next(date, m), [m])
    decreases |c.serialize(m)| - offset
  {
    var b := c.serialize(m);
    var h, n := c.hash(b), PartSize(b, offset);
    var x, p := Inbox(Until(h, b, offset), date), Part(h, |b|, offset, b[offset..offset + n]);
    OnePart(c, b, offset);
    if offset + n < |b| {
      assert Deliver(c, x, p) == (Inbox(Until(h, b, offset + n), date), []);
      assert PartsFrom(h, b, offset)[1..] == PartsFrom(h, b, offset + n);
      PartsArrive(c, m, date, offset + n);
      assert [] + [m] == [m];
    } else {
      assert PartsFrom(h, b, offset) == [p];
      DeliverOne(c, x, p);
    }
  }

  /** The source checks this with CHECK(B.size() <= huge_packet_max_size()). */
  ghost predicate CanSend(c: Codec, m: Message) {
    !m.Part? && (m.Size() > PEER_MTU ==> |c.serialize(m)| <= HUGE_PACKET_MAX_SIZE)
  }

  lemma MessageArrives(c: Codec, m: Message, date: int)
    requires c.Shrinks() && c.RoundTrips() && c.HashesApart() && CanSend(c, m)
    ensures DeliverAll(c, Inbox(NOTHING, date), Split(c, m)) == (Next(date, m), [m])
  {
    if m.Size() > PEER_MTU { PartsArrive(c, m, date, 0); } else { DeliverOne(c, Inbox(NOTHING, date), m); }
  }

  /** What arrives is delivered as these messages, and leaves no partial message. */
  ghost predicate Arrives(c: Codec, x: Inbox, wire: seq<Message>, ms: seq<Message>)
    requires c.Shrinks()
  {
    DeliverAll(c, x, wire).1 == ms && DeliverAll(c, x, wire).0.assembly == NOTHING
  }

  lemma OneMore(c: Codec, x: Inbox, wire: seq<Message>, ms: seq<Message>, m: Message)
    requires c.Shrinks() && c.RoundTrips() && c.HashesApart() && CanSend(c, m) && Arrives(c, x, wire, ms)
    ensures Arrives(c, x, wire + Split(c, m), ms + [m])
  {
    DeliverConcat(c, x, wire, Split(c, m));
    MessageArrives(c, m, DeliverAll(c, x, wire).0.reinitDate);
  }

  lemma NoneArrive(c: Codec, date: int)
    requires c.Shrinks()
    ensures Arrives(c, Inbox(NOTHING, date), [], [])
  {
  }

  /** From a state without a partial message, messages sent in order and without loss arrive exactly, in order, and
      leave no partial message. */
  lemma {:induction false} RoundTrip(c: Codec, ms: seq<Message>, date: int)
    requires c.Shrinks() && c.RoundTrips() && c.HashesApart() && forall m | m in ms :: CanSend(c, m)
    ensures Arrives(c, Inbox(NOTHING, date), SplitAll(c, ms), ms)
    decreases |ms|
  {
    if ms == [] {
      NoneArrive(c, date);
    } else {
      var front, m := ms[..|ms| - 1], ms[|ms| - 1];
      assert ms == front + [m];
      RoundTrip(c, front, date);
      OneMore(c, Inbox(NOTHING, date), SplitAll(c, front), front, m);
    }
  }

  // ---- a lost part costs only its own message ----

  /** Part of the message is there, up to where a part of it begins. */
  ghost predicate Partly(c: Codec, m: Message, a: Assembly) {
    var b, o := c.serialize(m), |a.got|;
    o < |b| && o % ADNL_MTU == 0 && a == Assembly(c.hash(b), |b|, b[..o])
  }

  /** Another message is in progress, or none, or part of this one. */
  ghost predicate Ready(c: Codec, m: Message, a: Assembly) {
    a.hash != c.hash(c.serialize(m)) || Partly(c, m, a)
  }

  /** The first part of a message ends any other in progress. */
  lemma FirstPart(c: Codec, a: Assembly, p: Message)
    requires p.Part? && p.offset == 0 && p.hash != NO_HASH && p.totalSize <= HUGE_PACKET_MAX_SIZE
    requires p.hash != a.hash || a == Assembly(p.hash, p.totalSize, [])
    ensures TakePart(c, a, p) == TakePart(c, NOTHING, p)
  {
  }

  lemma FromTheFirst(c: Codec, m: Message, x: Inbox)
    requires c.Shrinks() && c.RoundTrips() && c.HashesApart() && !m.Part? && |c.serialize(m)| <= HUGE_PACKET_MAX_SIZE
    requires Ready(c, m, x.assembly) && (x.assembly.hash == c.hash(c.serialize(m)) ==> x.assembly.got == [])
    ensures DeliverAll(c, x, PartsFrom(c.hash(c.serialize(m)), c.serialize(m), 0)) == (Next(x.reinitDate, m), [m])
  {
    var b := c.serialize(m);
    var parts := PartsFrom(c.hash(b), b, 0);
    FirstPart(c, x.assembly, parts[0]);
    assert Deliver(c, x, parts[0]) == Deliver(c, Inbox(NOTHING, x.reinitDate), parts[0]);
    PartsArrive(c, m, x.reinitDate, 0);
  }

  /** Parts that are there already change nothing. */
  lemma {:induction false} Repeats(c: Codec, m: Message, x: Inbox, from: nat)
    requires c.Shrinks() && c.HashesApart() && Partly(c, m, x.assembly) && from <= |x.assembly.got| && from % ADNL_MTU == 0
    ensures var b := c.serialize(m);
      DeliverAll(c, x, PartsFrom(c.hash(b), b, from)) == DeliverAll(c, x, PartsFrom(c.hash(b), b, |x.assembly.got|))
    decreases |x.assembly.got| - from
  {
    if from < |x.assembly.got| {
      var b := c.serialize(m);
      var parts := PartsFrom(c.hash(b), b, from);
      assert from + ADNL_MTU <= |x.assembly.got|;
      assert Deliver(c, x, parts[0]) == (x, []) && parts[1..] == PartsFrom(c.hash(b), b, from + ADNL_MTU);
      var rest := DeliverAll(c, x, parts[1..]);
      assert [] + rest.1 == rest.1;
      Repeats(c, m, x, from + ADNL_MTU);
    }
  }

  /** The parts from `from` on cannot complete the message any more. */
  ghost predicate Spoiled(c: Codec, m: Message, a: Assembly, from: nat) {
    var b := c.serialize(m);
    a.hash == c.hash(b) && (!Partly(c, m, a) || |a.got| < from)
  }

  lemma SpoiledStays(c: Codec, m: Message, a: Assembly, from: nat)
    requires c.HashesApart() && Spoiled(c, m, a, from) && from < |c.serialize(m)| && from % ADNL_MTU == 0
    ensures var b := c.serialize(m);
      var r := TakePart(c, a, Part(c.hash(b), |b|, from, b[from..from + PartSize(b, from)]));
      r.1 == None && Spoiled(c, m, r.0, from + ADNL_MTU)
  {
    var b := c.serialize(m);
    var data := b[from..from + PartSize(b, from)];
    if Extends(a, Part(c.hash(b), |b|, from, data)) {
      var got := a.got + data;
      assert a.got != b[..from];
      assert got[..from] == a.got;
      assert got != b[..|got|] by { assert b[..|got|][..from] == b[..from]; }
      assert |got| == |b| ==> b[..|got|] == b;
    }
  }

  lemma {:induction false} SpoiledDeliversNone(c: Codec, m: Message, x: Inbox, from: nat)
    requires c.Shrinks() && c.HashesApart() && Spoiled(c, m, x.assembly, from) && from % ADNL_MTU == 0
    ensures DeliverAll(c, x, PartsFrom(c.hash(c.serialize(m)), c.serialize(m), from)).1 == []
    decreases |c.serialize(m)| - from
  {
    var b := c.serialize(m);
    if from < |b| {
      var parts := PartsFrom(c.hash(b), b, from);
      SpoiledStays(c, m, x.assembly, from);
      assert parts[1..] == PartsFrom(c.hash(b), b, from + ADNL_MTU);
      SpoiledDeliversNone(c, m, Deliver(c, x, parts[0]).0, from + ADNL_MTU);
    }
  }

  /** A message that was cut and all of whose parts arrive in a row is delivered, and leaves nothing in progress, exactly
      if another message is in progress, or none, or a beginning of this one. Otherwise nothing is delivered. */
  lemma RowArrivesIff(c: Codec, m: Message, x: Inbox)
    requires c.Shrinks() && c.RoundTrips() && c.HashesApart() && CanSend(c, m) && m.Size() > PEER_MTU
    ensures if Ready(c, m, x.assembly) then DeliverAll(c, x, Split(c, m)) == (Next(x.reinitDate, m), [m])
            else DeliverAll(c, x, Split(c, m)).1 == []
  {
    var b, o := c.serialize(m), |x.assembly.got|;
    if !Ready(c, m, x.assembly) {
      SpoiledDeliversNone(c, m, x, 0);
    } else if x.assembly.hash != c.hash(b) || o == 0 {
      FromTheFirst(c, m, x);
    } else {
      Repeats(c, m, x, 0);
      PartsArrive(c, m, x.reinitDate, o);
    }
  }

  /** What an honest sender's parts can leave in progress. */
  ghost predicate Honest(c: Codec, sent: set<Message>, a: Assembly) {
    a == NOTHING || exists m :: m in sent && Partly(c, m, a)
  }

  lemma HonestIsReady(c: Codec, sent: set<Message>, a: Assembly, m: Message)
    requires c.RoundTrips() && c.HashesApart() && Honest(c, sent, a)
    ensures Ready(c, m, a)
  {
    if a != NOTHING && a.hash == c.hash(c.serialize(m)) {
      var n :| n in sent && Partly(c, n, a);
      assert c.serialize(n) == c.serialize(m);
    }
  }

  lemma {:induction false} PartIsCut(hash: int, b: Bytes, from: nat, p: Message)
    requires p in PartsFrom(hash, b, from) && from % ADNL_MTU == 0
    ensures p.Part? && p.offset < |b| && p.offset % ADNL_MTU == 0
    ensures p == Part(hash, |b|, p.offset, b[p.offset..p.offset + PartSize(b, p.offset)])
    decreases |b| - from
  {
    if p != PartsFrom(hash, b, from)[0] { PartIsCut(hash, b, from + ADNL_MTU, p); }
  }

  /** The assembly after a part of an honest sender that carries on from where the assembly is. */
  lemma TakeNext(c: Codec, sent: set<Message>, a: Assembly, m: Message, p: Message)
    requires c.HashesApart() && m in sent && |c.serialize(m)| <= HUGE_PACKET_MAX_SIZE && p.Part? && Partly(c, m, a)
    requires var b, o := c.serialize(m), |a.got|; p == Part(c.hash(b), |b|, o, b[o..o + PartSize(b, o)])
    ensures Honest(c, sent, TakePart(c, a, p).0)
  {
    var b, o := c.serialize(m), |a.got|;
    var n := PartSize(b, o);
    if o == 0 { FirstPart(c, a, p); }
    OnePart(c, b, o);
    if o + n < |b| { assert Partly(c, m, Until(c.hash(b), b, o + n)); }
  }

  lemma TakeHonest(c: Codec, sent: set<Message>, a: Assembly, m: Message, p: Message)
    requires c.RoundTrips() && c.HashesApart() && Honest(c, sent, a) && m in sent
    requires p.Part? && p in PartsFrom(c.hash(c.serialize(m)), c.serialize(m), 0)
    ensures Honest(c, sent, TakePart(c, a, p).0)
  {
    var b := c.serialize(m);
    PartIsCut(c.hash(b), b, 0, p);
    HonestIsReady(c, sent, a, m);
    if !Refused(p) {
      if a.hash == p.hash {
        assert Partly(c, m, a);
        if p.offset == |a.got| { TakeNext(c, sent, a, m, p); }
      } else if p.offset == 0 {
        var begun := Assembly(c.hash(b), |b|, []);
        assert Partly(c, m, begun) && TakePart(c, a, p) == TakePart(c, begun, p);
        TakeNext(c, sent, begun, m, p);
      }
    }
  }

  lemma DeliverHonest(c: Codec, sent: set<Message>, x: Inbox, w: Message)
    requires c.Shrinks() && c.RoundTrips() && c.HashesApart() && Plain(sent) && Honest(c, sent, x.assembly)
    requires OnWire(c, sent, w) || w.Reinit?
    ensures Honest(c, sent, Deliver(c, x, w).0.assembly)
  {
    if w.Part? {
      var m :| m in sent && w in Split(c, m);
      TakeHonest(c, sent, x.assembly, m, w);
      WirePart(c, sent, w);
      CompletesSent(c, sent, x.assembly, w);
    }
  }

  lemma {:induction false} StaysHonest(c: Codec, sent: set<Message>, x: Inbox, ws: seq<Message>)
    requires c.Shrinks() && c.RoundTrips() && c.HashesApart() && Plain(sent) && Honest(c, sent, x.assembly)
    requires forall w | w in ws :: OnWire(c, sent, w) || w.Reinit?
    ensures Honest(c, sent, DeliverAll(c, x, ws).0.assembly)
    decreases |ws|
  {
    if ws != [] {
      DeliverHonest(c, sent, x, ws[0]);
      StaysHonest(c, sent, Deliver(c, x, ws[0]).0, ws[1..]);
    }
  }

  /** Whatever was lost, repeated or reordered before, and whatever comes after: a message of an honest sender all of whose
      parts arrive in a row is delivered, once for that row. */
  lemma LossIsLocal(c: Codec, sent: set<Message>, date: int, before: seq<Message>, m: Message, after: seq<Message>)
    requires c.Shrinks() && c.RoundTrips() && c.HashesApart() && Plain(sent) && CanSend(c, m)
    requires forall w | w in before :: OnWire(c, sent, w) || w.Reinit?
    ensures var r := DeliverAll(c, Inbox(NOTHING, date), before);
      var y := if m.Size() > PEER_MTU then Next(r.0.reinitDate, m) else Deliver(c, r.0, m).0;
      DeliverAll(c, Inbox(NOTHING, date), before + Split(c, m) + after).1 == r.1 + [m] + DeliverAll(c, y, after).1
  {
    var x := Inbox(NOTHING, date);
    var r := DeliverAll(c, x, before);
    StaysHonest(c, sent, x, before);
    HonestIsReady(c, sent, r.0.assembly, m);
    DeliverConcat(c, x, before, Split(c, m));
    DeliverConcat(c, x, before + Split(c, m), after);
    if m.Size() > PEER_MTU { RowArrivesIff(c, m, r.0); } else { DeliverOne(c, r.0, m); }
  }
}
