/** The queue of outgoing messages of a peer pair, and how it is packed into packets. */
module PeerQueue {
  import opened Options
  import opened Fragments
  import opened RateLimiter

  const NETWORK_MTU: nat := 1440
  const PACKET_HEADER_MAX_SIZE: nat := 272
  const CHANNEL_PACKET_HEADER_MAX_SIZE: nat := 128
  const ADDR_LIST_MAX_SIZE: nat := 128
  const MAX_MESSAGE_QUEUE_TOTAL_SIZE: nat := 10 * 1024 * 1024

  /** Packets outside the channel: 50 at once, then one every half second. */
  const NOCHANNEL_RATE := RateOf(50, 0.5)

  /** A queued message, whether it may only go over a direct connection, and when it expires. */
  datatype Out = Out(message: Message, directOnly: bool, expires: real)

  function TotalSize(q: seq<Out>): nat {
    if q == [] then 0 else TotalSize(q[..|q| - 1]) + q[|q| - 1].message.Size()
  }

  lemma {:induction false} TotalSizeConcat(x: seq<Out>, y: seq<Out>)
    ensures TotalSize(x + y) == TotalSize(x) + TotalSize(y)
    decreases |y|
  {
    if y == [] {
      assert x + y == x;
    } else {
      var n := |y| - 1;
      assert (x + y)[..|x + y| - 1] == x + y[..n];
      TotalSizeConcat(x, y[..n]);
    }
  }

  lemma TotalSizeFront(q: seq<Out>)
    requires q != []
    ensures TotalSize(q) == q[0].message.Size() + TotalSize(q[1..])
  {
    assert q == [q[0]] + q[1..] && [q[0]][..0] == [];
    TotalSizeConcat([q[0]], q[1..]);
  }

  ghost predicate Small(q: seq<Out>) {
    forall o | o in q :: o.message.Size() <= PEER_MTU
  }

  function Sizes(ms: seq<Message>): nat {
    if ms == [] then 0 else Sizes(ms[..|ms| - 1]) + ms[|ms| - 1].Size()
  }

  /** A direct-only message is dropped on another connection. */
  predicate Skipped(o: Out, direct: bool) {
    !direct && o.directOnly
  }

  /** The messages of a stretch of the queue that may go out. */
  function Sendable(q: seq<Out>, direct: bool): seq<Message> {
    if q == [] then []
    else (if Skipped(q[0], direct) then [] else [q[0].message]) + Sendable(q[1..], direct)
  }

  lemma {:induction false} SendableConcat(x: seq<Out>, y: seq<Out>, direct: bool)
    ensures Sendable(x + y, direct) == Sendable(x, direct) + Sendable(y, direct)
    decreases |x|
  {
    if x == [] {
      assert x + y == y;
    } else {
      assert (x + y)[1..] == x[1..] + y;
      SendableConcat(x[1..], y, direct);
    }
  }

  function SizeOf(m: Option<Message>): nat {
    if m.None? then 0 else m.value.Size()
  }

  /** What does not change while the queue is packed: the state of the channel, the kind of connection, whether
      the first packet introduces this side, and for every pass whether it tries to start over and the time. */
  datatype Plan = Plan(
    inited: bool, ready: bool, key: int, peerKey: int, date: int, direct: bool, introduce: bool,
    startOver: nat -> bool, clock: nat -> real)
  {
    function Handshake(): Option<Message> {
      if !inited then Some(CreateChannel(key, date))
      else if !ready then Some(ConfirmChannel(key, peerKey, date))
      else None
    }

    predicate ViaChannel(pass: nat) {
      ready && !startOver(pass)
    }

    predicate First(pass: nat) {
      introduce && pass == 0
    }

    /** The size accounted before the messages of the queue. */
    function Base(pass: nat): nat {
      (if ViaChannel(pass) then CHANNEL_PACKET_HEADER_MAX_SIZE else PACKET_HEADER_MAX_SIZE)
      + if First(pass) then 2 * ADDR_LIST_MAX_SIZE + SizeOf(Handshake()) else 0
    }
  }

  /** The part of the queue one pass takes that begins with `s` bytes used. */
  function Taken(q: seq<Out>, s: nat, direct: bool): seq<Out>
    decreases |q|
  {
    if q == [] then []
    else if Skipped(q[0], direct) then [q[0]] + Taken(q[1..], s, direct)
    else if s + q[0].message.Size() <= NETWORK_MTU then [q[0]] + Taken(q[1..], s + q[0].message.Size(), direct)
    else []
  }

  /** The messages such a pass puts into the packet. */
  function Body(q: seq<Out>, s: nat, direct: bool): seq<Message>
    decreases |q|
  {
    if q == [] then []
    else if Skipped(q[0], direct) then Body(q[1..], s, direct)
    else if s + q[0].message.Size() <= NETWORK_MTU then [q[0].message] + Body(q[1..], s + q[0].message.Size(), direct)
    else []
  }

  /** What such a pass leaves in the queue. */
  function Rest(q: seq<Out>, s: nat, direct: bool): seq<Out>
    decreases |q|
  {
    if q == [] then []
    else if Skipped(q[0], direct) then Rest(q[1..], s, direct)
    else if s + q[0].message.Size() <= NETWORK_MTU then Rest(q[1..], s + q[0].message.Size(), direct)
    else q
  }

  /** The bytes used after it. */
  function Used(q: seq<Out>, s: nat, direct: bool): nat
    decreases |q|
  {
    if q == [] then s
    else if Skipped(q[0], direct) then Used(q[1..], s, direct)
    else if s + q[0].message.Size() <= NETWORK_MTU then Used(q[1..], s + q[0].message.Size(), direct)
    else s
  }

  /** A packet as handed on: messages of the queue, a handshake message before or after them, and which of the two
      address lists may still be added. */
  datatype Packet = Packet(
    seqno: nat, viaChannel: bool, first: bool, handshake: Option<Message>, body: seq<Message>, addrs: bool, priorityAddrs: bool)
  {
    /** The size with every address list that may be added. */
    function MaxSize(): nat {
      (if viaChannel then CHANNEL_PACKET_HEADER_MAX_SIZE else PACKET_HEADER_MAX_SIZE)
      + SizeOf(handshake) + Sizes(body)
      + (if addrs then ADDR_LIST_MAX_SIZE else 0) + (if priorityAddrs then ADDR_LIST_MAX_SIZE else 0)
    }

    predicate Fits(n: nat) {
      seqno == n && MaxSize() <= NETWORK_MTU
    }
  }

  /** The packet of one pass over the queue `q`. */
  function PacketOf(p: Plan, pass: nat, q: seq<Out>, seqno: nat): Packet {
    var first, s := p.First(pass), Used(q, p.Base(pass), p.direct);
    var h := if first || s + SizeOf(p.Handshake()) <= NETWORK_MTU then p.Handshake() else None;
    var s' := if first then s else s + SizeOf(h);
    Packet(seqno, p.ViaChannel(pass), first, h, Body(q, p.Base(pass), p.direct),
           first || s' + ADDR_LIST_MAX_SIZE <= NETWORK_MTU, first || s' + 2 * ADDR_LIST_MAX_SIZE <= NETWORK_MTU)
  }

  /** The queue before a pass. */
  function Left(p: Plan, q: seq<Out>, passes: nat): seq<Out> {
    if passes == 0 then q else Rest(Left(p, q, passes - 1), p.Base(passes - 1), p.direct)
  }

  function Packets(p: Plan, q: seq<Out>, passes: nat, seqno: nat): seq<Packet> {
    if passes == 0 then []
    else Packets(p, q, passes - 1, seqno) + [PacketOf(p, passes - 1, Left(p, q, passes - 1), seqno + passes)]
  }

  /** The limiter after a pass: packets on the channel do not count. */
  function NextReady(p: Plan, pass: nat, readyAt: real): real {
    if p.ViaChannel(pass) then readyAt else Take(NOCHANNEL_RATE, readyAt, p.clock(pass))
  }

  /** The limiter before a pass. */
  function LimiterAt(p: Plan, readyAt: real, passes: nat): real {
    if passes == 0 then readyAt else NextReady(p, passes - 1, LimiterAt(p, readyAt, passes - 1))
  }

  predicate Blocked(p: Plan, readyAt: real, pass: nat) {
    !p.ViaChannel(pass) && !Succeeds(NOCHANNEL_RATE, readyAt, p.clock(pass))
  }

  // ---- what packing keeps ----

  /** A pass takes a beginning of the queue; what of it may go out becomes the packet. */
  lemma {:induction false} PassTakesPrefix(q: seq<Out>, s: nat, direct: bool)
    ensures q == Taken(q, s, direct) + Rest(q, s, direct) && Body(q, s, direct) == Sendable(Taken(q, s, direct), direct)
    decreases |q|
  {
    if q != [] {
      assert q == [q[0]] + q[1..];
      if Skipped(q[0], direct) {
        PassTakesPrefix(q[1..], s, direct);
        assert Taken(q, s, direct)[1..] == Taken(q[1..], s, direct);
      } else if s + q[0].message.Size() <= NETWORK_MTU {
        var s' := s + q[0].message.Size();
        PassTakesPrefix(q[1..], s', direct);
        assert Taken(q, s, direct)[1..] == Taken(q[1..], s', direct);
      }
    }
  }

  lemma {:induction false} SizesConcat(x: seq<Message>, y: seq<Message>)
    ensures Sizes(x + y) == Sizes(x) + Sizes(y)
    decreases |y|
  {
    if y == [] {
      assert x + y == x;
    } else {
      var n := |y| - 1;
      assert (x + y)[..|x + y| - 1] == x + y[..n];
      SizesConcat(x, y[..n]);
    }
  }

  /** The bytes used are those of the messages taken, and within the limit. */
  lemma {:induction false} UsedIsSize(q: seq<Out>, s: nat, direct: bool)
    ensures Used(q, s, direct) == s + Sizes(Body(q, s, direct))
    ensures s <= NETWORK_MTU ==> Used(q, s, direct) <= NETWORK_MTU
    decreases |q|
  {
    if q != [] {
      var m := q[0].message;
      if Skipped(q[0], direct) {
        UsedIsSize(q[1..], s, direct);
      } else if s + m.Size() <= NETWORK_MTU {
        UsedIsSize(q[1..], s + m.Size(), direct);
        SizesConcat([m], Body(q[1..], s + m.Size(), direct));
        assert [m][..0] == [];
      }
    }
  }

  /** A pass stops only before a message that may go out and for which there is no room. */
  lemma {:induction false} PassIsGreedy(q: seq<Out>, s: nat, direct: bool)
    ensures var r := Rest(q, s, direct);
      r != [] ==> !Skipped(r[0], direct) && s + Sizes(Body(q, s, direct)) + r[0].message.Size() > NETWORK_MTU
    decreases |q|
  {
    if q != [] {
      var m := q[0].message;
      if Skipped(q[0], direct) {
        PassIsGreedy(q[1..], s, direct);
      } else if s + m.Size() <= NETWORK_MTU {
        PassIsGreedy(q[1..], s + m.Size(), direct);
        SizesConcat([m], Body(q[1..], s + m.Size(), direct));
        assert [m][..0] == [];
      }
    }
  }

  /** Whatever fits is in a packet. One that introduces its sender has the handshake message and room for both address
      lists. Another lacks the handshake message, or the permission for a list, only if there is no room; and what is left
      of the queue begins with a message for which there was none. */
  lemma PacketIsFull(p: Plan, pass: nat, q: seq<Out>, seqno: nat)
    ensures var x := PacketOf(p, pass, q, seqno);
      var header := if x.viaChannel then CHANNEL_PACKET_HEADER_MAX_SIZE else PACKET_HEADER_MAX_SIZE;
      var size := header + Sizes(x.body) + SizeOf(x.handshake);
      var r := Rest(q, p.Base(pass), p.direct);
      && (x.first ==> x.handshake == p.Handshake() && x.addrs && x.priorityAddrs)
      && (!x.first && x.handshake != p.Handshake() ==> x.handshake == None && size + SizeOf(p.Handshake()) > NETWORK_MTU)
      && (!x.addrs ==> size + ADDR_LIST_MAX_SIZE > NETWORK_MTU)
      && (!x.priorityAddrs ==> size + 2 * ADDR_LIST_MAX_SIZE > NETWORK_MTU)
      && (r != [] && !x.first ==> header + Sizes(x.body) + r[0].message.Size() > NETWORK_MTU)
      && (r != [] && x.first ==> size + 2 * ADDR_LIST_MAX_SIZE + r[0].message.Size() > NETWORK_MTU)
  {
    UsedIsSize(q, p.Base(pass), p.direct);
    PassIsGreedy(q, p.Base(pass), p.direct);
  }

  /** No packet is larger than the network takes, with any address list that may be added to it. */
  lemma PacketFits(p: Plan, pass: nat, q: seq<Out>, seqno: nat)
    ensures PacketOf(p, pass, q, seqno).Fits(seqno)
  {
    UsedIsSize(q, p.Base(pass), p.direct);
  }

  lemma RestShrinks(q: seq<Out>, s: nat, direct: bool)
    ensures |Rest(q, s, direct)| <= |q| && (Small(q) ==> Small(Rest(q, s, direct)))
  {
    PassTakesPrefix(q, s, direct);
    assert forall o | o in Rest(q, s, direct) :: o in Taken(q, s, direct) + Rest(q, s, direct);
  }

  /** A pass that does not introduce this side always takes something, so packing ends. */
  lemma PassTakes(p: Plan, pass: nat, q: seq<Out>)
    requires q != [] && Small(q) && !p.First(pass)
    ensures |Rest(q, p.Base(pass), p.direct)| < |q|
  {
    assert q[0] in q;
    RestShrinks(q[1..], p.Base(pass), p.direct);
    RestShrinks(q[1..], p.Base(pass) + q[0].message.Size(), p.direct);
  }

  lemma PassProgresses(p: Plan, pass: nat, q: seq<Out>)
    requires q != [] && Small(q)
    ensures |Rest(q, p.Base(pass), p.direct)| < |q| || (p.First(pass) && |Rest(q, p.Base(pass), p.direct)| == |q|)
  {
    RestShrinks(q, p.Base(pass), p.direct);
    if !p.First(pass) { PassTakes(p, pass, q); }
  }

  /** All messages of the queue some packets carry. */
  function Carried(ps: seq<Packet>): seq<Message> {
    if ps == [] then [] else Carried(ps[..|ps| - 1]) + ps[|ps| - 1].body
  }

  lemma CarriedMore(ps: seq<Packet>, x: Packet)
    ensures Carried(ps + [x]) == Carried(ps) + x.body
  {
    assert (ps + [x])[..|ps|] == ps;
  }

  /** The part of the queue the first passes take. */
  function TakenBy(p: Plan, q: seq<Out>, passes: nat): seq<Out> {
    if passes == 0 then []
    else TakenBy(p, q, passes - 1) + Taken(Left(p, q, passes - 1), p.Base(passes - 1), p.direct)
  }

  ghost predicate Accounts(q: seq<Out>, taken: seq<Out>, left: seq<Out>, ps: seq<Packet>, direct: bool) {
    q == taken + left && Carried(ps) == Sendable(taken, direct)
  }

  lemma AccountsMore(q: seq<Out>, taken: seq<Out>, left: seq<Out>, ps: seq<Packet>, direct: bool, s: nat, x: Packet)
    requires Accounts(q, taken, left, ps, direct) && x.body == Body(left, s, direct)
    ensures Accounts(q, taken + Taken(left, s, direct), Rest(left, s, direct), ps + [x], direct)
  {
    var t, r := Taken(left, s, direct), Rest(left, s, direct);
    assert left == t + r && x.body == Sendable(t, direct) by { PassTakesPrefix(left, s, direct); }
    assert q == (taken + t) + r;
    SendableConcat(taken, t, direct);
    CarriedMore(ps, x);
  }

  /** What was taken, in order and without the direct-only messages that may not go out, is exactly what the
      packets carry; the rest is still queued. */
  lemma {:induction false} PacketsAreTheQueue(p: Plan, q: seq<Out>, passes: nat, seqno: nat)
    ensures Accounts(q, TakenBy(p, q, passes), Left(p, q, passes), Packets(p, q, passes, seqno), p.direct)
  {
    if passes == 0 {
      assert [] + q == q;
    } else {
      PacketsAreTheQueue(p, q, passes - 1, seqno);
      var l, ps := Left(p, q, passes - 1), Packets(p, q, passes - 1, seqno);
      AccountsMore(q, TakenBy(p, q, passes - 1), l, ps, p.direct, p.Base(passes - 1), PacketOf(p, passes - 1, l, seqno + passes));
    }
  }

  ghost predicate Numbered(ps: seq<Packet>, seqno: nat) {
    forall i | 0 <= i < |ps| :: ps[i].Fits(seqno + i + 1)
  }

  lemma NumberedMore(ps: seq<Packet>, seqno: nat, x: Packet)
    requires Numbered(ps, seqno) && x.Fits(seqno + |ps| + 1)
    ensures Numbered(ps + [x], seqno)
  {
  }

  lemma LastFits(p: Plan, q: seq<Out>, passes: nat, seqno: nat, ps: seq<Packet>, l: seq<Out>)
    requires passes > 0 && ps == Packets(p, q, passes - 1, seqno) && l == Left(p, q, passes - 1)
    requires |ps| == passes - 1 && Numbered(ps, seqno)
    ensures |Packets(p, q, passes, seqno)| == passes && Numbered(Packets(p, q, passes, seqno), seqno)
  {
    var x := PacketOf(p, passes - 1, l, seqno + passes);
    assert Packets(p, q, passes, seqno) == ps + [x];
    PacketFits(p, passes - 1, l, seqno + passes);
    NumberedMore(ps, seqno, x);
  }

  /** Packets are numbered one after the other, and all fit. */
  lemma {:induction false} PacketsFit(p: Plan, q: seq<Out>, passes: nat, seqno: nat)
    ensures |Packets(p, q, passes, seqno)| == passes && Numbered(Packets(p, q, passes, seqno), seqno)
  {
    if passes > 0 {
      PacketsFit(p, q, passes - 1, seqno);
      LastFits(p, q, passes, seqno, Packets(p, q, passes - 1, seqno), Left(p, q, passes - 1));
    }
  }

  ghost predicate NotEmpty(p: Plan, q: seq<Out>, pass: nat) {
    Left(p, q, pass) != []
  }

  /** Every pass but the first shortens the queue, so there are at most `|q| + 1` of them. */
  lemma {:induction false} LeftShrinks(p: Plan, q: seq<Out>, passes: nat)
    requires Small(q) && forall i: nat | i < passes :: NotEmpty(p, q, i)
    ensures |Left(p, q, passes)| + passes <= (if p.introduce then |q| + 1 else |q|) && Small(Left(p, q, passes))
  {
    if passes > 0 {
      LeftShrinks(p, q, passes - 1);
      assert NotEmpty(p, q, passes - 1);
      RestShrinks(Left(p, q, passes - 1), p.Base(passes - 1), p.direct);
      if !p.First(passes - 1) { PassTakes(p, passes - 1, Left(p, q, passes - 1)); }
    }
  }
}
