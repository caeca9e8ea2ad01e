/** What a peer pair checks about a packet before it delivers its messages. */
module PeerLink {
  import opened PeerStart
  import opened Window

  /** Times after which a peer's start is taken for an error of its clock. */
  const CLOCK_SLACK: int := 60

  datatype Packet = Packet(reinitDate: int, dstReinitDate: int, seqno: nat, confirmSeqno: nat) {
    predicate Fits() {
      seqno < WRAP && confirmSeqno < WRAP
    }
  }

  /** The peer's start as far as known (0 if not), the receive window, and the numbers sent and confirmed. */
  datatype Link = Link(reinitDate: int, window: Window, outSeqno: nat, ackSeqno: nat) {
    predicate Valid() {
      window.last < WRAP && ackSeqno <= outSeqno
    }
  }

  /** A later start of the peer begins the numbers of both sides anew. */
  function Reinit(l: Link, date: int): Link {
    if Restarts(l.reinitDate, date) then Link(date, EMPTY, 0, 0) else l.(reinitDate := Learned(l.reinitDate, date))
  }

  datatype Verdict = Accepted | OursTooNew | PeerTooNew | PeerTooOld | OursTooOld | Repeated | AckTooNew

  /** The link a packet is judged on. */
  function Judged(l: Link, p: Packet): Link {
    if p.reinitDate > l.reinitDate then Reinit(l, p.reinitDate) else l
  }

  function Judge(l: Link, p: Packet, started: int, now: int): Verdict
    requires l.Valid() && p.Fits()
  {
    var l1 := Judged(l, p);
    if p.dstReinitDate > started then OursTooNew
    else if p.reinitDate > now + CLOCK_SLACK then PeerTooNew
    else if p.reinitDate > 0 && p.reinitDate < l1.reinitDate then PeerTooOld
    else if p.dstReinitDate > 0 && p.dstReinitDate < started then OursTooOld
    else if p.seqno > 0 && Received(l1.window, p.seqno) then Repeated
    else if p.confirmSeqno > 0 && p.confirmSeqno > l1.outSeqno then AckTooNew
    else Accepted
  }

  function Acked(l: Link, p: Packet): Link {
    if p.confirmSeqno > l.ackSeqno then l.(ackSeqno := p.confirmSeqno) else l
  }

  /** The state after a packet. The receive window changes only for an accepted one. */
  function After(l: Link, p: Packet, started: int, now: int): Link
    requires l.Valid() && p.Fits()
  {
    match Judge(l, p, started, now)
    case OursTooNew => l
    case PeerTooNew => l
    case Accepted =>
      var l1 := Judged(l, p);
      if p.seqno > 0 then ReceivedIff(l1.window, p.seqno); Acked(l1.(window := l1.window.Add(p.seqno)), p) else Acked(l1, p)
    case _ => Judged(l, p)
  }

  class PeerPairLink {
    var reinitDate: int
    var inSeqno: nat
    var mask: Bits
    var outSeqno: nat
    var ackSeqno: nat

    ghost function State(): Link
      reads this
    {
      Link(reinitDate, Window(inSeqno, mask), outSeqno, ackSeqno)
    }

    constructor ()
      ensures State() == Link(0, EMPTY, 0, 0)
    {
      reinitDate, inSeqno, mask, outSeqno, ackSeqno := 0, 0, NoBits(), 0, 0;
    }

    method ReceivedPacket(seqno: nat) returns (r: bool)
      requires State().Valid() && 0 < seqno < WRAP
      ensures r <==> Received(State().window, seqno)
    {
      SumWraps(seqno);
      if (seqno + BITS) % WRAP <= inSeqno {
        return true;
      }
      if seqno > inSeqno {
        return false;
      }
      return mask[inSeqno - seqno];
    }

    /** CHECK(!received_packet(seqno)) is the precondition. */
    method AddReceivedPacket(seqno: nat)
      requires State().Valid() && 0 < seqno < WRAP && !Received(State().window, seqno)
      modifies this
      ensures !old(State()).window.Seen(seqno)
      ensures State() == old(State()).(window := old(State()).window.Add(seqno))
    {
      ReceivedIff(State().window, seqno);
      inSeqno, mask := Extended(inSeqno, mask, seqno);
    }

    /** The highest number and the register with one more number marked. */
    static method Extended(last: nat, bits: Bits, seqno: nat) returns (last': nat, bits': Bits)
      requires !Window(last, bits).Seen(seqno)
      ensures Window(last', bits') == Window(last, bits).Add(seqno)
    {
      if seqno <= last {
        return last, bits[last - seqno := true];
      }
      var shifted := if seqno - last >= BITS then NoBits() else ShiftLeft(bits, seqno - last);
      return seqno, shifted[0 := true];
    }

    method ReinitFrom(date: int)
      modifies this
      ensures State() == Reinit(old(State()), date)
    {
      if reinitDate == 0 {
        reinitDate := date;
      }
      if reinitDate < date {
        inSeqno, outSeqno, ackSeqno, mask := 0, 0, 0, NoBits();
        reinitDate := date;
      }
    }

    method ReceivePacketChecked(p: Packet, started: int, now: int) returns (v: Verdict)
      requires State().Valid() && p.Fits()
      modifies this
      ensures v == Judge(old(State()), p, started, now) && State() == After(old(State()), p, started, now)
    {
      if p.dstReinitDate > started {
        return OursTooNew;
      }
      if p.reinitDate > now + CLOCK_SLACK {
        return PeerTooNew;
      }
      if p.reinitDate > reinitDate {
        ReinitFrom(p.reinitDate);
      }
      if p.reinitDate > 0 && p.reinitDate < reinitDate {
        return PeerTooOld;
      }
      if p.dstReinitDate > 0 && p.dstReinitDate < started {
        return OursTooOld;
      }
      if p.seqno > 0 {
        var seen := ReceivedPacket(p.seqno);
        if seen {
          return Repeated;
        }
      }
      if p.confirmSeqno > 0 && p.confirmSeqno > outSeqno {
        return AckTooNew;
      }
      if p.seqno > 0 {
        AddReceivedPacket(p.seqno);
      }
      if p.confirmSeqno > ackSeqno {
        ackSeqno := p.confirmSeqno;
      }
      v := Accepted;
    }
  }

  // ---- runs ----

  datatype Event =
    | Arrives(packet: Packet, now: int)
    | Told(date: int)              // a reinit message among those delivered
    | Sends                        // one packet of our own goes out

  predicate Proper(es: seq<Event>) {
    forall e | e in es && e.Arrives? :: e.packet.Fits()
  }

  function Step(l: Link, e: Event, started: int): Link
    requires l.Valid() && (e.Arrives? ==> e.packet.Fits())
  {
    match e
    case Arrives(p, now) => After(l, p, started, now)
    case Told(date) => Reinit(l, date)
    case Sends => l.(outSeqno := l.outSeqno + 1)
  }

  lemma StepValid(l: Link, e: Event, started: int)
    requires l.Valid() && (e.Arrives? ==> e.packet.Fits())
    ensures Step(l, e, started).Valid()
  {
  }

  /** Which events of a run are accepted packets. */
  ghost function Verdicts(l: Link, es: seq<Event>, started: int): seq<bool>
    requires l.Valid() && Proper(es)
    decreases |es|
  {
    if es == [] then []
    else
      StepValid(l, es[0], started);
      [es[0].Arrives? && Judge(l, es[0].packet, started, es[0].now) == Accepted] + Verdicts(Step(l, es[0], started), es[1..], started)
  }

  /** A packet with this start and number would be refused: an older start, or a number seen. */
  ghost predicate Used(l: Link, date: int, seqno: nat) {
    0 < date <= l.reinitDate && (date == l.reinitDate ==> l.window.Seen(seqno))
  }

  lemma AddSees(w: Window, s: nat, t: nat)
    requires !w.Seen(s)
    ensures w.Add(s).Seen(s) && (w.Seen(t) ==> w.Add(s).Seen(t))
  {
  }

  lemma AcceptedIsUsed(l: Link, p: Packet, started: int, now: int)
    requires l.Valid() && p.Fits() && p.reinitDate > 0 && p.seqno > 0
    ensures Judge(l, p, started, now) == Accepted ==> Used(After(l, p, started, now), p.reinitDate, p.seqno)
    ensures Used(l, p.reinitDate, p.seqno) ==> Judge(l, p, started, now) != Accepted
  {
    ReceivedIff(Judged(l, p).window, p.seqno);
    if !Judged(l, p).window.Seen(p.seqno) { AddSees(Judged(l, p).window, p.seqno, 0); }
  }

  lemma UsedStays(l: Link, e: Event, started: int, date: int, seqno: nat)
    requires l.Valid() && (e.Arrives? ==> e.packet.Fits()) && Used(l, date, seqno)
    ensures Used(Step(l, e, started), date, seqno)
  {
    if e.Arrives? {
      var l1 := Judged(l, e.packet);
      assert Used(l1, date, seqno);
      var s := e.packet.seqno;
      if s > 0 {
        ReceivedIff(l1.window, s);
        if !l1.window.Seen(s) { AddSees(l1.window, s, seqno); }
      }
    }
  }

  lemma {:induction false} UsedIsRefused(l: Link, es: seq<Event>, started: int, j: nat)
    requires l.Valid() && Proper(es) && j < |es| && es[j].Arrives? && es[j].packet.seqno > 0
    requires Used(l, es[j].packet.reinitDate, es[j].packet.seqno)
    ensures |Verdicts(l, es, started)| > j && !Verdicts(l, es, started)[j]
    decreases |es|
  {
    StepValid(l, es[0], started);
    if j == 0 {
      AcceptedIsUsed(l, es[0].packet, started, es[0].now);
    } else {
      UsedStays(l, es[0], started, es[j].packet.reinitDate, es[j].packet.seqno);
      UsedIsRefused(Step(l, es[0], started), es[1..], started, j - 1);
    }
  }

  lemma {:induction false} VerdictsSize(l: Link, es: seq<Event>, started: int)
    requires l.Valid() && Proper(es)
    ensures |Verdicts(l, es, started)| == |es|
    decreases |es|
  {
    if es != [] {
      StepValid(l, es[0], started);
      VerdictsSize(Step(l, es[0], started), es[1..], started);
    }
  }

  /** Over every run, across restarts of the peer, a packet that names its sender's start is delivered at
      most once. */
  lemma {:induction false} DeliveredOnce(l: Link, es: seq<Event>, started: int, i: nat, j: nat)
    requires l.Valid() && Proper(es) && i < j < |es| && es[i].Arrives? && es[j].Arrives?
    requires es[i].packet.reinitDate == es[j].packet.reinitDate > 0 && es[i].packet.seqno == es[j].packet.seqno > 0
    ensures |Verdicts(l, es, started)| == |es| && !(Verdicts(l, es, started)[i] && Verdicts(l, es, started)[j])
    decreases |es|
  {
    VerdictsSize(l, es, started);
    StepValid(l, es[0], started);
    if i > 0 {
      DeliveredOnce(Step(l, es[0], started), es[1..], started, i - 1, j - 1);
    } else if Verdicts(l, es, started)[0] {
      AcceptedIsUsed(l, es[0].packet, started, es[0].now);
      UsedIsRefused(Step(l, es[0], started), es[1..], started, j - 1);
    }
  }

  /** No event of the run learns of a later start of the peer than the one known. */
  ghost predicate NoRestart(l: Link, es: seq<Event>, started: int)
    requires l.Valid() && Proper(es)
    decreases |es|
  {
    es == [] || (
      StepValid(l, es[0], started);
      (l.reinitDate == 0 || Step(l, es[0], started).reinitDate == l.reinitDate) && NoRestart(Step(l, es[0], started), es[1..], started))
  }

  lemma SeenStays(l: Link, e: Event, started: int, seqno: nat)
    requires l.Valid() && (e.Arrives? ==> e.packet.Fits()) && l.window.Seen(seqno)
    requires l.reinitDate == 0 || Step(l, e, started).reinitDate == l.reinitDate
    ensures Step(l, e, started).window.Seen(seqno)
  {
    if e.Arrives? && e.packet.seqno > 0 {
      var w := Judged(l, e.packet).window;
      ReceivedIff(w, e.packet.seqno);
      if !w.Seen(e.packet.seqno) { AddSees(w, e.packet.seqno, seqno); }
    }
  }

  lemma {:induction false} SeenIsRefused(l: Link, es: seq<Event>, started: int, j: nat)
    requires l.Valid() && Proper(es) && NoRestart(l, es, started) && j < |es| && es[j].Arrives? && es[j].packet.seqno > 0
    requires l.window.Seen(es[j].packet.seqno)
    ensures |Verdicts(l, es, started)| > j && !Verdicts(l, es, started)[j]
    decreases |es|
  {
    StepValid(l, es[0], started);
    SeenStays(l, es[0], started, es[j].packet.seqno);
    if j == 0 {
      ReceivedIff(Judged(l, es[0].packet).window, es[0].packet.seqno);
    } else {
      SeenIsRefused(Step(l, es[0], started), es[1..], started, j - 1);
    }
  }

  /** Between two restarts of the peer no packet number is delivered twice, whether or not the packets
      name a start (those of a channel do not). */
  lemma {:induction false} DeliveredOnceBetweenRestarts(l: Link, es: seq<Event>, started: int, i: nat, j: nat)
    requires l.Valid() && Proper(es) && NoRestart(l, es, started) && i < j < |es| && es[i].Arrives? && es[j].Arrives?
    requires es[i].packet.seqno == es[j].packet.seqno > 0
    ensures |Verdicts(l, es, started)| == |es| && !(Verdicts(l, es, started)[i] && Verdicts(l, es, started)[j])
    decreases |es|
  {
    VerdictsSize(l, es, started);
    StepValid(l, es[0], started);
    if i > 0 {
      DeliveredOnceBetweenRestarts(Step(l, es[0], started), es[1..], started, i - 1, j - 1);
    } else if Verdicts(l, es, started)[0] {
      ReceivedIff(Judged(l, es[0].packet).window, es[0].packet.seqno);
      AddSees(Judged(l, es[0].packet).window, es[0].packet.seqno, 0);
      SeenIsRefused(Step(l, es[0], started), es[1..], started, j - 1);
    }
  }

  // ---- which packets are accepted ----

  /** What an ideal receiver remembers: the peer's start as far as known, all numbers accepted since, how many packets were
      sent since, and the highest number confirmed. */
  datatype Ledger = Ledger(start: int, accepted: set<nat>, sent: nat, confirmed: nat)

  /** A later start begins a new ledger; the first one heard of is noted in the old one. */
  ghost function Opened(g: Ledger, date: int): Ledger {
    if g.start == 0 then g.(start := date) else if date > g.start then Ledger(date, {}, 0, 0) else g
  }

  /** Accepted before, or 64 or more behind one that was, or one of the last 64 numbers, for which 64 more is a small
      number again, and that is not above one accepted. */
  ghost predicate Old(accepted: set<nat>, s: nat) {
    || Delivered(accepted, s)
    || s + BITS == WRAP
    || (s + BITS > WRAP && exists m :: m in accepted && s + BITS <= m + WRAP)
  }

  /** The ledger a packet is judged on, unless its dates are too far ahead. */
  ghost function Turned(g: Ledger, p: Packet): Ledger {
    if p.reinitDate > g.start then Opened(g, p.reinitDate) else g
  }

  ghost predicate InTime(p: Packet, started: int, now: int) {
    p.dstReinitDate <= started && p.reinitDate <= now + CLOCK_SLACK
  }

  /** A packet is welcome that names no start but the present ones, has a new number, and confirms only what was sent. */
  ghost predicate Welcome(g: Ledger, p: Packet, started: int, now: int) {
    var h := Turned(g, p);
    && InTime(p, started, now)
    && (p.reinitDate > 0 ==> p.reinitDate == h.start) && (p.dstReinitDate > 0 ==> p.dstReinitDate == started)
    && (p.seqno > 0 ==> !Old(h.accepted, p.seqno)) && p.confirmSeqno <= h.sent
  }

  ghost function Booked(g: Ledger, e: Event, started: int): Ledger {
    match e
    case Arrives(p, now) =>
      if !InTime(p, started, now) then g
      else
        var h := Turned(g, p);
        if !Welcome(g, p, started, now) then h
        else h.(accepted := if p.seqno > 0 then h.accepted + {p.seqno} else h.accepted,
                confirmed := if p.confirmSeqno > h.confirmed then p.confirmSeqno else h.confirmed)
    case Told(date) => Opened(g, date)
    case Sends => g.(sent := g.sent + 1)
  }

  ghost function Welcomes(g: Ledger, es: seq<Event>, started: int): seq<bool>
    decreases |es|
  {
    if es == [] then []
    else [es[0].Arrives? && Welcome(g, es[0].packet, started, es[0].now)] + Welcomes(Booked(g, es[0], started), es[1..], started)
  }

  ghost predicate Records(l: Link, g: Ledger) {
    l.reinitDate == g.start && Stands(l.window, g.accepted) && l.outSeqno == g.sent && l.ackSeqno == g.confirmed
  }

  lemma OldIsReceived(w: Window, accepted: set<nat>, s: nat)
    requires Stands(w, accepted) && 0 < s < WRAP && w.last < WRAP
    ensures Received(w, s) <==> Old(accepted, s)
  {
    ReceivedIff(w, s);
    SeenMeansDelivered(w, accepted, s);
    SumWraps(s);
    if s + BITS > WRAP && s + BITS - WRAP <= w.last { assert w.last in accepted; }
  }

  lemma OpenedRecords(l: Link, g: Ledger, date: int)
    requires Records(l, g)
    ensures Records(Reinit(l, date), Opened(g, date))
  {
  }

  lemma JudgeIsWelcome(l: Link, g: Ledger, p: Packet, started: int, now: int)
    requires l.Valid() && p.Fits() && Records(l, g)
    ensures Records(Judged(l, p), Turned(g, p))
    ensures Judge(l, p, started, now) == Accepted <==> Welcome(g, p, started, now)
  {
    OpenedRecords(l, g, p.reinitDate);
    if p.seqno > 0 { OldIsReceived(Judged(l, p).window, Turned(g, p).accepted, p.seqno); }
  }

  lemma StepRecords(l: Link, g: Ledger, e: Event, started: int)
    requires l.Valid() && (e.Arrives? ==> e.packet.Fits()) && Records(l, g)
    ensures Records(Step(l, e, started), Booked(g, e, started))
  {
    match e {
      case Arrives(p, now) =>
        JudgeIsWelcome(l, g, p, started, now);
        var l1, h := Judged(l, p), Turned(g, p);
        if p.seqno > 0 && Welcome(g, p, started, now) {
          ReceivedIff(l1.window, p.seqno);
          AddStands(l1.window, h.accepted, p.seqno);
        }
      case Told(date) => OpenedRecords(l, g, date);
      case Sends =>
    }
  }

  /** On every run the pair accepts exactly the packets that are welcome to a receiver that remembers everything. */
  lemma {:induction false} LinkRefinesLedger(l: Link, g: Ledger, es: seq<Event>, started: int)
    requires l.Valid() && Proper(es) && Records(l, g)
    ensures Verdicts(l, es, started) == Welcomes(g, es, started)
    decreases |es|
  {
    if es != [] {
      StepValid(l, es[0], started);
      StepRecords(l, g, es[0], started);
      if es[0].Arrives? { JudgeIsWelcome(l, g, es[0].packet, started, es[0].now); }
      LinkRefinesLedger(Step(l, es[0], started), Booked(g, es[0], started), es[1..], started);
    }
  }

  /** In particular from the beginning. */
  lemma AcceptsWelcome(es: seq<Event>, started: int)
    requires Proper(es)
    ensures Verdicts(Link(0, EMPTY, 0, 0), es, started) == Welcomes(Ledger(0, {}, 0, 0), es, started)
  {
    LinkRefinesLedger(Link(0, EMPTY, 0, 0), Ledger(0, {}, 0, 0), es, started);
  }
}
