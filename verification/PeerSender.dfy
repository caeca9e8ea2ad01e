/** The sending side of a peer pair. */
module PeerSender {
  import opened Options
  import opened Order
  import opened Fragments
  import opened RateLimiter
  import opened PeerQueue

  /** The queue without the expired messages at its front. */
  function Unexpired(q: seq<Out>, now: real): seq<Out>
    decreases |q|
  {
    if q != [] && q[0].expires <= now then Unexpired(q[1..], now) else q
  }

  /** Exactly the messages at the front that have expired are dropped, up to the first that has not. */
  lemma {:induction false} UnexpiredFrom(q: seq<Out>, now: real) returns (n: nat)
    ensures n <= |q| && Unexpired(q, now) == q[n..]
    ensures (forall i | 0 <= i < n :: q[i].expires <= now) && (n < |q| ==> q[n].expires > now)
    decreases |q|
  {
    n := 0;
    if q != [] && q[0].expires <= now {
      n := UnexpiredFrom(q[1..], now);
      n := n + 1;
      assert q[1..][n - 1..] == q[n..];
    }
  }

  /** The messages that have not expired. */
  function Live(q: seq<Out>, now: real): seq<Out> {
    if q == [] then [] else (if q[0].expires > now then [q[0]] else []) + Live(q[1..], now)
  }

  /** Messages queued earlier expire no later. */
  ghost predicate InTurn(q: seq<Out>) {
    forall i, j | 0 <= i <= j < |q| :: q[i].expires <= q[j].expires
  }

  lemma {:induction false} AllLive(q: seq<Out>, now: real)
    requires forall o | o in q :: o.expires > now
    ensures Live(q, now) == q
    decreases |q|
  {
    if q != [] {
      assert q[0] in q && q == [q[0]] + q[1..];
      AllLive(q[1..], now);
    }
  }

  lemma {:induction false} NoneLive(q: seq<Out>, now: real)
    requires forall o | o in q :: o.expires <= now
    ensures Live(q, now) == []
    decreases |q|
  {
    if q != [] {
      assert q[0] in q;
      NoneLive(q[1..], now);
    }
  }

  lemma {:induction false} LiveConcat(x: seq<Out>, y: seq<Out>, now: real)
    ensures Live(x + y, now) == Live(x, now) + Live(y, now)
    decreases |x|
  {
    if x == [] {
      assert x + y == y;
    } else {
      assert (x + y)[1..] == x[1..] + y;
      LiveConcat(x[1..], y, now);
    }
  }

  /** If messages expire in the order they were queued, exactly those that have not expired are left. */
  lemma UnexpiredIsLive(q: seq<Out>, now: real)
    requires InTurn(q)
    ensures Unexpired(q, now) == Live(q, now)
  {
    var n := UnexpiredFrom(q, now);
    assert q == q[..n] + q[n..];
    LiveConcat(q[..n], q[n..], now);
    NoneLive(q[..n], now);
    AllLive(q[n..], now);
  }

  /** Of a queue in turn, the messages that have not expired are exactly those taken into packets, in order and without the
      ones that may not go out, and those still queued. */
  lemma LiveIsPackedOrKept(p: Plan, q: seq<Out>, now: real, passes: nat, seqno: nat)
    requires InTurn(q)
    ensures var u := Unexpired(q, now);
      Accounts(Live(q, now), TakenBy(p, u, passes), Left(p, u, passes), Packets(p, u, passes, seqno), p.direct)
  {
    UnexpiredIsLive(q, now);
    PacketsAreTheQueue(p, Unexpired(q, now), passes, seqno);
  }

  /** The longest beginning of the queue within the limit. */
  function Bounded(q: seq<Out>): seq<Out>
    decreases |q|
  {
    if TotalSize(q) > MAX_MESSAGE_QUEUE_TOTAL_SIZE then Bounded(q[..|q| - 1]) else q
  }

  lemma {:induction false} BoundedIsLongest(q: seq<Out>)
    ensures Bounded(q) <= q && TotalSize(Bounded(q)) <= MAX_MESSAGE_QUEUE_TOTAL_SIZE
    ensures forall n | |Bounded(q)| < n <= |q| :: TotalSize(q[..n]) > MAX_MESSAGE_QUEUE_TOTAL_SIZE
    decreases |q|
  {
    if TotalSize(q) > MAX_MESSAGE_QUEUE_TOTAL_SIZE {
      var r := q[..|q| - 1];
      BoundedIsLongest(r);
      forall n | |Bounded(q)| < n <= |q| ensures TotalSize(q[..n]) > MAX_MESSAGE_QUEUE_TOTAL_SIZE {
        if n == |q| { assert q[..n] == q; } else { assert q[..n] == r[..n]; }
      }
    }
  }

  /** A pass that goes on from here ends like the whole pass. */
  ghost predicate Filled(q: seq<Out>, base: nat, direct: bool, rest: seq<Out>, s: nat, body: seq<Message>) {
    && Rest(rest, s, direct) == Rest(q, base, direct) && Used(rest, s, direct) == Used(q, base, direct)
    && body + Body(rest, s, direct) == Body(q, base, direct)
  }

  /** One pass over the queue: what is left, its size, the bytes used, and the messages taken. */
  method Fill(q: seq<Out>, total: nat, base: nat, direct: bool) returns (rest: seq<Out>, left: nat, s: nat, body: seq<Message>)
    requires total == TotalSize(q) && Small(q)
    ensures rest == Rest(q, base, direct) && s == Used(q, base, direct) && body == Body(q, base, direct)
    ensures left == TotalSize(rest) && Small(rest)
  {
    rest, left, s, body := q, total, base, [];
    while rest != []
      invariant Filled(q, base, direct, rest, s, body) && left == TotalSize(rest) && Small(rest)
      decreases |rest|
    {
      var o := rest[0];
      TotalSizeFront(rest);
      if !direct && o.directOnly {
        left, rest := left - o.message.Size(), rest[1..];
        continue;
      }
      // CHECK(M.size() <= get_mtu())
      assert o in rest && o.message.Size() <= PEER_MTU;
      if s + o.message.Size() <= NETWORK_MTU {
        left := left - o.message.Size();
        ConcatAssociates(body, [o.message], Body(rest[1..], s + o.message.Size(), direct));
        s := s + o.message.Size();
        body := body + [o.message];
        rest := rest[1..];
      } else {
        assert body + [] == body;
        break;
      }
    }
    assert body + [] == body;
  }

  /** The header, and for the first packet room for both address lists and the handshake message. */
  method Opening(p: Plan, pass: nat) returns (s: nat, handshake: Option<Message>)
    ensures s == p.Base(pass) && handshake == if p.First(pass) then p.Handshake() else None
  {
    s := if p.ViaChannel(pass) then CHANNEL_PACKET_HEADER_MAX_SIZE else PACKET_HEADER_MAX_SIZE;
    handshake := None;
    if p.First(pass) {
      s := s + 2 * ADDR_LIST_MAX_SIZE;
      handshake := p.Handshake();
      if handshake.Some? {
        s := s + handshake.value.Size();
      }
    }
  }

  /** The handshake message goes into the remaining room, if there is enough. */
  method Closing(p: Plan, s: nat) returns (s': nat, handshake: Option<Message>)
    ensures handshake == if s + SizeOf(p.Handshake()) <= NETWORK_MTU then p.Handshake() else None
    ensures s' == s + SizeOf(handshake)
  {
    s', handshake := s, None;
    var hello := p.Handshake();
    if hello.Some? && s + hello.value.Size() <= NETWORK_MTU {
      s' := s + hello.value.Size();
      handshake := hello;
    }
  }

  /** The packet of one pass. */
  method MakePacket(p: Plan, pass: nat, q: seq<Out>, total: nat, seqno: nat) returns (rest: seq<Out>, left: nat, packet: Packet)
    requires total == TotalSize(q) && Small(q)
    ensures packet == PacketOf(p, pass, q, seqno)
    ensures rest == Rest(q, p.Base(pass), p.direct) && left == TotalSize(rest) && Small(rest)
  {
    var first := p.First(pass);
    var base, handshake := Opening(p, pass);
    var s, body;
    rest, left, s, body := Fill(q, total, base, p.direct);
    if !first {
      s, handshake := Closing(p, s);
    }
    packet := Packet(seqno, p.ViaChannel(pass), first, handshake, body,
                     first || s + ADDR_LIST_MAX_SIZE <= NETWORK_MTU, first || s + 2 * ADDR_LIST_MAX_SIZE <= NETWORK_MTU);
  }

  /** Whether the next packet is to introduce this side is decided by the last one: if it carried messages. */
  ghost predicate Skips(skipInit: bool, ps: seq<Packet>, skipInit': bool) {
    skipInit' == if ps == [] then skipInit else ps[|ps| - 1].body == []
  }

  /** Messages as queued. */
  function Outs(ms: seq<Message>, directOnly: bool, expires: real): seq<Out> {
    seq(|ms|, i requires 0 <= i < |ms| => Out(ms[i], directOnly, expires))
  }

  /** What a list of messages with their flags is queued as. */
  function Queued(c: Codec, ms: seq<(Message, bool)>, expires: real): seq<Out> {
    if ms == [] then []
    else
      var last := ms[|ms| - 1];
      Queued(c, ms[..|ms| - 1], expires) + Outs(Split(c, last.0), last.1, expires)
  }

  ghost predicate Packs(p: Plan, q: seq<Out>, readyAt: real, pass: nat) {
    Left(p, q, pass) != [] && !Blocked(p, LimiterAt(p, readyAt, pass), pass)
  }

  /** Every pass had something to pack and was let through by the limiter. */
  ghost predicate Packing(p: Plan, q: seq<Out>, readyAt: real, passes: nat) {
    forall i: nat | i < passes :: Packs(p, q, readyAt, i)
  }

  /** The state of packing before a pass. */
  ghost predicate At(
    p: Plan, q0: seq<Out>, readyAt0: real, seqno0: nat, pass: nat, q: seq<Out>, readyAt: real, seqno: nat, done: seq<Packet>)
  {
    && Packing(p, q0, readyAt0, pass)
    && q == Left(p, q0, pass) && readyAt == LimiterAt(p, readyAt0, pass) && seqno == seqno0 + pass
    && done == Packets(p, q0, pass, seqno0)
  }

  lemma AtNext(
    p: Plan, q0: seq<Out>, readyAt0: real, seqno0: nat, pass: nat, q: seq<Out>, readyAt: real, seqno: nat, done: seq<Packet>)
    requires At(p, q0, readyAt0, seqno0, pass, q, readyAt, seqno, done) && q != [] && !Blocked(p, readyAt, pass)
    ensures At(p, q0, readyAt0, seqno0, pass + 1, Rest(q, p.Base(pass), p.direct),
               NextReady(p, pass, readyAt), seqno + 1, done + [PacketOf(p, pass, q, seqno + 1)])
  {
    assert Packs(p, q0, readyAt0, pass);
  }

  class PeerPairSender {
    var queue: seq<Out>
    var total: nat
    var skipInit: bool
    var outSeqno: nat
    var readyAt: real
    var retryAt: Option<real>
    /** The packets handed on, in order. */
    var packets: seq<Packet>

    /** The counter of queued bytes is exact, and every queued message fits a packet. */
    ghost predicate Valid()
      reads this
    {
      total == TotalSize(queue) && Small(queue)
    }

    constructor ()
      ensures Valid() && queue == [] && packets == [] && outSeqno == 0 && !skipInit && readyAt == -NOCHANNEL_RATE.emission
    {
      queue, total, skipInit, outSeqno, readyAt, retryAt, packets := [], 0, false, 0, -NOCHANNEL_RATE.emission, None, [];
    }

    method DropExpired(now: real)
      requires Valid()
      modifies this`queue, this`total
      ensures Valid() && queue == Unexpired(old(queue), now)
    {
      while queue != [] && queue[0].expires <= now
        invariant Valid() && Unexpired(queue, now) == Unexpired(old(queue), now)
        decreases |queue|
      {
        TotalSizeFront(queue);
        total := total - queue[0].message.Size();
        queue := queue[1..];
      }
    }

    /** Packets outside the channel need the limiter's leave; if refused, sending is tried again when it is ready. */
    method Admit(p: Plan, pass: nat) returns (ok: bool)
      modifies this`readyAt, this`retryAt
      ensures ok == !Blocked(p, old(readyAt), pass)
      ensures readyAt == if ok then NextReady(p, pass, old(readyAt)) else old(readyAt)
      ensures !ok ==> retryAt == Some(readyAt)
    {
      if p.ViaChannel(pass) {
        return true;
      }
      var now := p.clock(pass);
      readyAt := Clamped(NOCHANNEL_RATE, readyAt, now);
      if readyAt > now {
        retryAt := Some(readyAt);
        return false;
      }
      readyAt := readyAt + NOCHANNEL_RATE.period;
      return true;
    }

    /** One pass of the packing loop. */
    method Pack(p: Plan, pass: nat) returns (packet: Packet)
      requires Valid() && queue != []
      modifies this`queue, this`total, this`skipInit, this`outSeqno, this`packets
      ensures Valid() && queue == Rest(old(queue), p.Base(pass), p.direct)
      ensures packet == PacketOf(p, pass, old(queue), old(outSeqno) + 1) && packets == old(packets) + [packet]
      ensures outSeqno == old(outSeqno) + 1 && skipInit == (packet.body == [])
    {
      outSeqno := outSeqno + 1;
      queue, total, packet := MakePacket(p, pass, queue, total, outSeqno);
      skipInit := packet.body == [];
      packets := packets + [packet];
    }

    /** Packs the queue until it is empty or the limiter stops it. Without a connection nothing is packed. The
        loop ends: a pass that takes nothing is the first, and only if it introduces this side. */
    method SendMessagesFromQueue(settings: Plan, now: real, connected: bool) returns (ghost passes: nat)
      requires Valid()
      modifies this
      ensures Valid()
      ensures var p, q := settings.(introduce := !old(skipInit)), Unexpired(old(queue), now);
        && Packing(p, q, old(readyAt), passes)
        && queue == Left(p, q, passes) && packets == old(packets) + Packets(p, q, passes, old(outSeqno))
        && outSeqno == old(outSeqno) + passes && readyAt == LimiterAt(p, old(readyAt), passes)
        && (if connected then queue == [] || (Blocked(p, readyAt, passes) && retryAt == Some(readyAt)) else passes == 0)
        && Skips(old(skipInit), Packets(p, q, passes, old(outSeqno)), skipInit)
    {
      DropExpired(now);
      passes := 0;
      if queue == [] || !connected {
        assert packets + [] == packets;
        return;
      }
      var p := settings.(introduce := !skipInit);
      ghost var done;
      passes, done := PackAll(p);
    }

    method PackAll(p: Plan) returns (ghost passes: nat, ghost done: seq<Packet>)
      requires Valid()
      modifies this
      ensures Valid() && packets == old(packets) + done && Skips(old(skipInit), done, skipInit)
      ensures At(p, old(queue), old(readyAt), old(outSeqno), passes, queue, readyAt, outSeqno, done)
      ensures queue == [] || (Blocked(p, readyAt, passes) && retryAt == Some(readyAt))
    {
      ghost var q0, r0, n0, sent, skip := queue, readyAt, outSeqno, packets, skipInit;
      var pass := 0;
      done := [];
      var stop := false;
      assert sent + done == sent;
      while queue != [] && !stop
        invariant Valid() && packets == sent + done && Skips(skip, done, skipInit)
        invariant At(p, q0, r0, n0, pass, queue, readyAt, outSeqno, done)
        invariant stop ==> Blocked(p, readyAt, pass) && retryAt == Some(readyAt)
        decreases !stop, 2 * |queue| + if p.First(pass) then 1 else 0
      {
        stop, done := OnePass(p, pass, q0, r0, n0, sent, skip, done);
        if !stop {
          pass := pass + 1;
        }
      }
      passes := pass;
    }

    /** Queues messages, the large ones in parts. */
    method Enqueue(c: Codec, ms: seq<(Message, bool)>, expires: real)
      requires Valid()
      modifies this`queue, this`total
      ensures Valid() && queue == old(queue) + Queued(c, ms, expires)
    {
      assert queue + [] == queue;
      for i := 0 to |ms|
        invariant Valid() && queue == old(queue) + Queued(c, ms[..i], expires)
      {
        var parts := SplitMessage(c, ms[i].0);
        SplitFits(c, ms[i].0);
        assert ms[..i + 1][..i] == ms[..i];
        ConcatAssociates(old(queue), Queued(c, ms[..i], expires), Outs(parts, ms[i].1, expires));
        AddParts(parts, ms[i].1, expires);
      }
      assert ms[..|ms|] == ms;
    }

    method AddParts(parts: seq<Message>, directOnly: bool, expires: real)
      requires Valid() && forall m | m in parts :: m.Size() <= PEER_MTU
      modifies this`queue, this`total
      ensures Valid() && queue == old(queue) + Outs(parts, directOnly, expires)
    {
      for i := 0 to |parts|
        invariant Valid() && queue == old(queue) + Outs(parts[..i], directOnly, expires)
      {
        var o := Out(parts[i], directOnly, expires);
        assert (queue + [o])[..|queue|] == queue;
        assert Outs(parts[..i + 1], directOnly, expires) == Outs(parts[..i], directOnly, expires) + [o];
        total := total + o.message.Size();
        queue := queue + [o];
      }
      assert parts[..|parts|] == parts;
    }

    /** Drops messages from the back until the queue is within its limit. */
    method Shorten()
      requires Valid()
      modifies this`queue, this`total
      ensures Valid() && queue == Bounded(old(queue)) && total <= MAX_MESSAGE_QUEUE_TOTAL_SIZE
    {
      while total > MAX_MESSAGE_QUEUE_TOTAL_SIZE
        invariant Valid() && Bounded(queue) == Bounded(old(queue))
        decreases |queue|
      {
        total := total - queue[|queue| - 1].message.Size();
        queue := queue[..|queue| - 1];
      }
    }

    /** Queues messages and sends what can be sent; the queue is within its limit afterwards. */
    method SendMessages(c: Codec, ms: seq<(Message, bool)>, expires: real, settings: Plan, now: real, connected: bool)
      returns (ghost passes: nat)
      requires Valid()
      modifies this
      ensures Valid() && total <= MAX_MESSAGE_QUEUE_TOTAL_SIZE
      ensures var p := settings.(introduce := !old(skipInit));
        var q := Unexpired(old(queue) + Queued(c, ms, expires), now);
        && Packing(p, q, old(readyAt), passes)
        && queue == Bounded(Left(p, q, passes)) && packets == old(packets) + Packets(p, q, passes, old(outSeqno))
    {
      Enqueue(c, ms, expires);
      passes := SendMessagesFromQueue(settings, now, connected);
      Shorten();
    }

    /** One round of the loop, unless the limiter refuses. */
    method OnePass(
      p: Plan, pass: nat, ghost q0: seq<Out>, ghost readyAt0: real, ghost seqno0: nat, ghost sent: seq<Packet>, ghost skip: bool, ghost done: seq<Packet>)
      returns (stop: bool, ghost done': seq<Packet>)
      requires Valid() && queue != [] && packets == sent + done && Skips(skip, done, skipInit)
      requires At(p, q0, readyAt0, seqno0, pass, queue, readyAt, outSeqno, done)
      modifies this
      ensures Valid() && packets == sent + done' && Skips(skip, done', skipInit)
      ensures At(p, q0, readyAt0, seqno0, if stop then pass else pass + 1, queue, readyAt, outSeqno, done')
      ensures stop ==> Blocked(p, readyAt, pass) && retryAt == Some(readyAt)
      ensures !stop ==> |queue| < |old(queue)| || (p.First(pass) && |queue| == |old(queue)|)
    {
      var ok := Admit(p, pass);
      if !ok {
        return true, done;
      }
      PassProgresses(p, pass, queue);
      AtNext(p, q0, readyAt0, seqno0, pass, queue, old(readyAt), outSeqno, done);
      var packet := Pack(p, pass);
      ConcatAssociates(sent, done, [packet]);
      return false, done + [packet];
    }
  }

  // ---- from one side to the other ----

  /** The messages that may go over a connection: on an indirect one, those that are not for direct ones only. */
  function Allowed(ms: seq<(Message, bool)>, direct: bool): seq<Message> {
    if ms == [] then []
    else
      var n := |ms| - 1;
      Allowed(ms[..n], direct) + if direct || !ms[n].1 then [ms[n].0] else []
  }

  /** Over a direct connection all messages may go. */
  lemma {:induction false} AllAllowed(ms: seq<(Message, bool)>)
    ensures Allowed(ms, true) == seq(|ms|, i requires 0 <= i < |ms| => ms[i].0)
    decreases |ms|
  {
    if ms != [] { AllAllowed(ms[..|ms| - 1]); }
  }

  /** All parts of a message share its flag. */
  lemma {:induction false} OutsSendable(ms: seq<Message>, directOnly: bool, expires: real, direct: bool)
    ensures Sendable(Outs(ms, directOnly, expires), direct) == if direct || !directOnly then ms else []
    decreases |ms|
  {
    if ms != [] {
      assert Outs(ms, directOnly, expires)[1..] == Outs(ms[1..], directOnly, expires);
      OutsSendable(ms[1..], directOnly, expires, direct);
    }
  }

  lemma SplitAllowed(c: Codec, ms: seq<(Message, bool)>, direct: bool)
    requires ms != []
    ensures var n := |ms| - 1;
      SplitAll(c, Allowed(ms, direct)) == SplitAll(c, Allowed(ms[..n], direct)) + if direct || !ms[n].1 then Split(c, ms[n].0) else []
  {
    var n := |ms| - 1;
    var before := Allowed(ms[..n], direct);
    if direct || !ms[n].1 {
      assert (before + [ms[n].0])[..|before|] == before;
    } else {
      assert before + [] == before;
    }
  }

  lemma {:induction false} QueuedSendable(c: Codec, ms: seq<(Message, bool)>, expires: real, direct: bool)
    ensures Sendable(Queued(c, ms, expires), direct) == SplitAll(c, Allowed(ms, direct))
    decreases |ms|
  {
    if ms != [] {
      var n := |ms| - 1;
      var last := Split(c, ms[n].0);
      QueuedSendable(c, ms[..n], expires, direct);
      SendableConcat(Queued(c, ms[..n], expires), Outs(last, ms[n].1, expires), direct);
      OutsSendable(last, ms[n].1, expires, direct);
      SplitAllowed(c, ms, direct);
    }
  }

  /** Messages queued by one call, and when they expire. */
  datatype Batch = Batch(messages: seq<(Message, bool)>, expires: real)

  /** What several calls leave in an empty queue. */
  function QueuedAll(c: Codec, bs: seq<Batch>): seq<Out> {
    if bs == [] then []
    else QueuedAll(c, bs[..|bs| - 1]) + Queued(c, bs[|bs| - 1].messages, bs[|bs| - 1].expires)
  }

  /** The messages that have not expired and may go over the connection. */
  function Due(bs: seq<Batch>, direct: bool, now: real): seq<Message> {
    if bs == [] then []
    else
      var b := bs[|bs| - 1];
      Due(bs[..|bs| - 1], direct, now) + if b.expires > now then Allowed(b.messages, direct) else []
  }

  /** Later calls give later times, or the same. */
  ghost predicate Later(bs: seq<Batch>) {
    forall i, j | 0 <= i <= j < |bs| :: bs[i].expires <= bs[j].expires
  }

  lemma {:induction false} QueuedExpires(c: Codec, ms: seq<(Message, bool)>, expires: real)
    ensures forall o | o in Queued(c, ms, expires) :: o.expires == expires
    decreases |ms|
  {
    if ms != [] { QueuedExpires(c, ms[..|ms| - 1], expires); }
  }

  lemma {:induction false} QueuedInTurn(c: Codec, bs: seq<Batch>)
    requires Later(bs)
    ensures InTurn(QueuedAll(c, bs)) && forall o | o in QueuedAll(c, bs) :: bs != [] && o.expires <= bs[|bs| - 1].expires
    decreases |bs|
  {
    if bs != [] {
      var n := |bs| - 1;
      QueuedInTurn(c, bs[..n]);
      QueuedExpires(c, bs[n].messages, bs[n].expires);
      var x, y := QueuedAll(c, bs[..n]), Queued(c, bs[n].messages, bs[n].expires);
      assert forall o | o in x :: o.expires <= bs[n].expires;
      assert forall i | 0 <= i < |x| :: x[i] in x;
      assert forall i | 0 <= i < |y| :: y[i] in y;
    }
  }

  lemma {:induction false} SplitAllConcat(c: Codec, ms: seq<Message>, ns: seq<Message>)
    ensures SplitAll(c, ms + ns) == SplitAll(c, ms) + SplitAll(c, ns)
    decreases |ns|
  {
    if ns == [] {
      assert ms + ns == ms;
    } else {
      var n := |ns| - 1;
      assert (ms + ns)[..|ms + ns| - 1] == ms + ns[..n];
      SplitAllConcat(c, ms, ns[..n]);
      ConcatAssociates(SplitAll(c, ms), SplitAll(c, ns[..n]), Split(c, ns[n]));
    }
  }

  /** One call adds the parts of its messages, if they have not expired. */
  lemma QueuedDue(c: Codec, b: Batch, direct: bool, now: real)
    ensures Sendable(Live(Queued(c, b.messages, b.expires), now), direct)
         == SplitAll(c, if b.expires > now then Allowed(b.messages, direct) else [])
  {
    var q := Queued(c, b.messages, b.expires);
    QueuedExpires(c, b.messages, b.expires);
    if b.expires > now {
      AllLive(q, now);
      QueuedSendable(c, b.messages, b.expires, direct);
    } else {
      NoneLive(q, now);
    }
  }

  lemma {:induction false} QueueDue(c: Codec, bs: seq<Batch>, direct: bool, now: real)
    ensures Sendable(Live(QueuedAll(c, bs), now), direct) == SplitAll(c, Due(bs, direct, now))
    decreases |bs|
  {
    if bs != [] {
      var n := |bs| - 1;
      var b := bs[n];
      var x, y := QueuedAll(c, bs[..n]), Queued(c, b.messages, b.expires);
      QueueDue(c, bs[..n], direct, now);
      QueuedDue(c, b, direct, now);
      LiveConcat(x, y, now);
      SendableConcat(Live(x, now), Live(y, now), direct);
      SplitAllConcat(c, Due(bs[..n], direct, now), if b.expires > now then Allowed(b.messages, direct) else []);
    }
  }

  /** Messages queued by any number of calls, cut into parts, packed until the queue is empty, and taken out of the packets
      in order, are put together to exactly the messages that have not expired and may go over the connection. */
  lemma SentIsReceived(c: Codec, bs: seq<Batch>, now: real, p: Plan, passes: nat, seqno: nat, date: int)
    requires c.Shrinks() && c.RoundTrips() && c.HashesApart() && Later(bs)
    requires forall m | m in Due(bs, p.direct, now) :: CanSend(c, m)
    requires Left(p, Unexpired(QueuedAll(c, bs), now), passes) == []
    ensures var packets := Packets(p, Unexpired(QueuedAll(c, bs), now), passes, seqno);
      DeliverAll(c, Inbox(NOTHING, date), Carried(packets)).1 == Due(bs, p.direct, now)
  {
    var q := QueuedAll(c, bs);
    var u := Unexpired(q, now);
    QueuedInTurn(c, bs);
    LiveIsPackedOrKept(p, q, now, passes, seqno);
    assert TakenBy(p, u, passes) + [] == TakenBy(p, u, passes);
    QueueDue(c, bs, p.direct, now);
    RoundTrip(c, Due(bs, p.direct, now), date);
  }

  // ---- packets outside the channel are limited ----

  /** When the packets outside the channel go out. */
  function OutsideTimes(p: Plan, passes: nat): seq<real> {
    if passes == 0 then []
    else OutsideTimes(p, passes - 1) + if p.ViaChannel(passes - 1) then [] else [p.clock(passes - 1)]
  }

  function Outside(ps: seq<Packet>): nat {
    if ps == [] then 0 else Outside(ps[..|ps| - 1]) + if ps[|ps| - 1].viaChannel then 0 else 1
  }

  lemma {:induction false} OutsideSize(p: Plan, q: seq<Out>, passes: nat, seqno: nat)
    ensures Outside(Packets(p, q, passes, seqno)) == |OutsideTimes(p, passes)|
  {
    if passes > 0 {
      OutsideSize(p, q, passes - 1, seqno);
      var ps := Packets(p, q, passes, seqno);
      assert ps[..|ps| - 1] == Packets(p, q, passes - 1, seqno);
    }
  }

  lemma {:induction false} OutsideAllowed(p: Plan, q: seq<Out>, readyAt: real, passes: nat)
    requires Packing(p, q, readyAt, passes)
    ensures LimiterAt(p, readyAt, passes) == Final(NOCHANNEL_RATE, readyAt, OutsideTimes(p, passes))
    ensures Count(Outcomes(NOCHANNEL_RATE, readyAt, OutsideTimes(p, passes))) == |OutsideTimes(p, passes)|
  {
    if passes > 0 {
      OutsideAllowed(p, q, readyAt, passes - 1);
      assert Packs(p, q, readyAt, passes - 1);
      if p.ViaChannel(passes - 1) {
        assert OutsideTimes(p, passes) == OutsideTimes(p, passes - 1);
      } else {
        OneAttemptMore(NOCHANNEL_RATE, readyAt, OutsideTimes(p, passes - 1), p.clock(passes - 1));
      }
    }
  }

  /** However many passes packing takes, at most 50 packets go out outside the channel, and one more for every half second
      that passes meanwhile. */
  lemma OutsideIsLimited(p: Plan, q: seq<Out>, readyAt: real, passes: nat, seqno: nat)
    requires Packing(p, q, readyAt, passes) && InOrder(OutsideTimes(p, passes)) && OutsideTimes(p, passes) != []
    ensures var ts := OutsideTimes(p, passes);
      Outside(Packets(p, q, passes, seqno)) as real <= 50.0 + (ts[|ts| - 1] - ts[0]) / 0.5
  {
    OutsideSize(p, q, passes, seqno);
    OutsideAllowed(p, q, readyAt, passes);
    TakesAreBounded(50, 0.5, readyAt, OutsideTimes(p, passes));
  }

  /** Packing is held up only outside the channel, and only when the limiter refuses an attempt after all those made. */
  lemma HeldUpIff(p: Plan, q: seq<Out>, readyAt: real, passes: nat)
    requires Packing(p, q, readyAt, passes)
    ensures Blocked(p, LimiterAt(p, readyAt, passes), passes)
      <==> !p.ViaChannel(passes)
           && Count(Outcomes(NOCHANNEL_RATE, readyAt, OutsideTimes(p, passes) + [p.clock(passes)])) == |OutsideTimes(p, passes)|
  {
    OutsideAllowed(p, q, readyAt, passes);
    OneAttemptMore(NOCHANNEL_RATE, readyAt, OutsideTimes(p, passes), p.clock(passes));
  }

  // ---- introductions ----

  /** One round of sending: settings, the queue after dropping what expired, and the passes it took. */
  datatype Round = Round(settings: Plan, queue: seq<Out>, passes: nat)

  /** All packets of several rounds, and whether the next one may skip the introduction. */
  function Rounds(rs: seq<Round>): (seq<Packet>, bool) {
    if rs == [] then ([], false)
    else
      var before, r := Rounds(rs[..|rs| - 1]), rs[|rs| - 1];
      var ps := Packets(r.settings.(introduce := !before.1), r.queue, r.passes, |before.0|);
      (before.0 + ps, if ps == [] then before.1 else ps[|ps| - 1].body == [])
  }

  /** The first packet introduces this side; a later one does so only if the one before it carried messages. */
  ghost predicate Introduces(ps: seq<Packet>) {
    && (ps != [] ==> ps[0].first)
    && forall i | 0 < i < |ps| && ps[i].first :: ps[i - 1].body != []
  }

  lemma {:induction false} OnlyFirstIntroduces(p: Plan, q: seq<Out>, passes: nat, seqno: nat)
    ensures var ps := Packets(p, q, passes, seqno);
      |ps| == passes && forall i | 0 <= i < |ps| :: ps[i].first <==> i == 0 && p.introduce
  {
    if passes > 0 { OnlyFirstIntroduces(p, q, passes - 1, seqno); }
  }

  /** Over all rounds of sending: an introduction that carried no message is not repeated by the next packet. */
  lemma {:induction false} IntroducesOnce(rs: seq<Round>)
    ensures var r := Rounds(rs); Introduces(r.0) && (r.1 <==> r.0 != [] && r.0[|r.0| - 1].body == [])
    decreases |rs|
  {
    if rs != [] {
      IntroducesOnce(rs[..|rs| - 1]);
      var before, r := Rounds(rs[..|rs| - 1]), rs[|rs| - 1];
      OnlyFirstIntroduces(r.settings.(introduce := !before.1), r.queue, r.passes, |before.0|);
    }
  }
}
