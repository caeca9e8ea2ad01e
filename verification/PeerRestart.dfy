/** The parts of a peer pair together: what a later start of the peer ends, and which packets of a channel are
    delivered again after it. */
module PeerRestart {
  import opened Order
  import opened PeerStart
  import opened Window
  import Channel
  import Fragments
  import PeerLink

  type Message = Fragments.Message

  /** The ciphers and serializer used, and the start of this process. */
  datatype Setting = Setting(crypto: Channel.Crypto, codec: Fragments.Codec, started: int)

  /** The numbers of packets, the channel, and the message being put together. */
  datatype Pair = Pair(link: PeerLink.Link, channel: Channel.Pair, inbox: Fragments.Inbox) {
    /** The parts know the same start of the peer. */
    ghost predicate Valid() {
      link.Valid() && link.reinitDate == channel.reinitDate == inbox.reinitDate
    }
  }

  /** One later start ends the numbers, the channel and the message together. */
  function Reinit(p: Pair, date: int): (q: Pair)
    requires p.Valid()
    ensures q.Valid()
  {
    Pair(PeerLink.Reinit(p.link, date), Channel.Reinit(p.channel, date), Fragments.Restarted(p.inbox, date))
  }

  /** At most one message is processed for one that arrives, and the start of the peer changes only if it names one. */
  lemma {:induction false} DeliverOne(c: Fragments.Codec, x: Fragments.Inbox, m: Message)
    requires c.Shrinks()
    ensures var r := Fragments.Deliver(c, x, m);
      && |r.1| <= 1
      && r.0.reinitDate == if r.1 != [] && r.1[0].Reinit? then Learned(x.reinitDate, r.1[0].date) else x.reinitDate
    decreases Fragments.Reach(x.assembly, m)
  {
    if m.Part? {
      var r := Fragments.TakePart(c, x.assembly, m);
      Fragments.NestedIsSmaller(c, x.assembly, m);
      if r.1.Some? && c.parse(r.1.value).Some? {
        DeliverOne(c, x.(assembly := r.0), c.parse(r.1.value).value);
      }
    }
  }

  /** A message out of a packet: whole ones are processed, also one that a part completes. */
  function Deliver(s: Setting, p: Pair, m: Message): (q: Pair)
    requires p.Valid() && s.codec.Shrinks()
    ensures q.Valid()
  {
    DeliverOne(s.codec, p.inbox, m);
    var r := Fragments.Deliver(s.codec, p.inbox, m);
    var p1 := p.(inbox := r.0);
    if r.1 == [] then p1
    else
      match r.1[0]
      case CreateChannel(key, date) => p1.(channel := Channel.CreateChannel(s.crypto, p.channel, key, date))
      case ConfirmChannel(key, peerKey, date) => p1.(channel := Channel.Confirmed(s.crypto, p.channel, key, peerKey, date))
      case Reinit(date) => Pair(PeerLink.Reinit(p.link, date), Channel.Reinit(p.channel, date), r.0)
      case _ => p1
  }

  function DeliverAll(s: Setting, p: Pair, ms: seq<Message>): (q: Pair)
    requires p.Valid() && s.codec.Shrinks()
    ensures q.Valid()
    decreases |ms|
  {
    if ms == [] then p else DeliverAll(s, Deliver(s, p, ms[0]), ms[1..])
  }

  /** Address lists name a start as well. One too far ahead is dropped. */
  function Lists(p: Pair, dates: seq<int>, now: int): (q: Pair)
    requires p.Valid()
    ensures q.Valid()
    decreases |dates|
  {
    if dates == [] then p
    else
      var later := p.link.reinitDate < dates[0] <= now + PeerLink.CLOCK_SLACK;
      Lists(if later then Reinit(p, dates[0]) else p, dates[1..], now)
  }

  /** A decrypted packet: what it is judged by, when it is, the starts its address lists name, and its messages. */
  datatype Letter = Letter(packet: PeerLink.Packet, now: int, lists: seq<int>, messages: seq<Message>)

  function Judge(s: Setting, p: Pair, l: Letter): PeerLink.Verdict
    requires p.Valid() && l.packet.Fits()
  {
    PeerLink.Judge(p.link, l.packet, s.started, l.now)
  }

  /** The pair once a packet is judged: a later start it names ends all parts. */
  function Judged(s: Setting, p: Pair, l: Letter): (q: Pair)
    requires p.Valid() && l.packet.Fits()
    ensures q.Valid()
  {
    var heard := !Judge(s, p, l).OursTooNew? && !Judge(s, p, l).PeerTooNew? && l.packet.reinitDate > p.link.reinitDate;
    var q := if heard then Reinit(p, l.packet.reinitDate) else p;
    PeerLink.StepValid(p.link, PeerLink.Arrives(l.packet, l.now), s.started);
    q.(link := PeerLink.After(p.link, l.packet, s.started, l.now))
  }

  function Receive(s: Setting, p: Pair, l: Letter): (q: Pair)
    requires p.Valid() && l.packet.Fits() && s.codec.Shrinks()
    ensures q.Valid()
  {
    match Judge(s, p, l)
    case Accepted => DeliverAll(s, Lists(Judged(s, p, l), l.lists, l.now), l.messages)
    case OursTooOld => Lists(Judged(s, p, l), l.lists, l.now)
    case _ => Judged(s, p, l)
  }

  datatype Event =
    | Direct(letter: Letter)
    | OverChannel(id: int, letter: Letter)
    | Listed(date: int, now: int)
    | Sends

  predicate Fits(e: Event) {
    e.Direct? || e.OverChannel? ==> e.letter.packet.Fits()
  }

  function Step(s: Setting, p: Pair, e: Event): (q: Pair)
    requires p.Valid() && s.codec.Shrinks() && Fits(e)
    ensures q.Valid()
  {
    match e
    case Direct(l) => Receive(s, p, l)
    case OverChannel(id, l) =>
      if id != p.channel.inId then p else Receive(s, p.(channel := Channel.FromChannel(p.channel, id)), l)
    case Listed(date, now) => Lists(p, [date], now)
    case Sends => p.(link := p.link.(outSeqno := p.link.outSeqno + 1))
  }

  /** The messages of a packet that came over the channel are delivered. */
  predicate Delivers(s: Setting, p: Pair, e: Event)
    requires p.Valid() && Fits(e)
  {
    e.OverChannel? && e.id == p.channel.inId && Judge(s, p, e.letter).Accepted?
  }

  function Run(s: Setting, p: Pair, es: seq<Event>): (q: Pair)
    requires p.Valid() && s.codec.Shrinks() && forall e | e in es :: Fits(e)
    ensures q.Valid()
    decreases |es|
  {
    if es == [] then p else Run(s, Step(s, p, es[0]), es[1..])
  }

  // ---- every part goes its own way ----

  /** What a processed message is to the channel, and to the numbers of packets. */
  function ToChannel(m: Message): seq<Channel.Event> {
    match m
    case CreateChannel(key, date) => [Channel.Creating(key, date)]
    case ConfirmChannel(key, peerKey, date) => [Channel.Confirming(key, peerKey, date)]
    case Reinit(date) => [Channel.Restarting(date)]
    case _ => []
  }

  function ToLink(m: Message): seq<PeerLink.Event> {
    if m.Reinit? then [PeerLink.Told(m.date)] else []
  }

  function ForChannel(ms: seq<Message>): seq<Channel.Event> {
    if ms == [] then [] else ToChannel(ms[0]) + ForChannel(ms[1..])
  }

  function ForLink(ms: seq<Message>): seq<PeerLink.Event> {
    if ms == [] then [] else ToLink(ms[0]) + ForLink(ms[1..])
  }

  lemma ForFew(m: Message)
    ensures ForLink([m]) == ToLink(m) && ForChannel([m]) == ToChannel(m)
  {
    assert [m][1..] == [];
  }

  lemma {:induction false} ForChannelConcat(ms: seq<Message>, ns: seq<Message>)
    ensures ForChannel(ms + ns) == ForChannel(ms) + ForChannel(ns)
    decreases |ms|
  {
    if ms == [] {
      assert ms + ns == ns;
    } else {
      assert (ms + ns)[1..] == ms[1..] + ns && (ms + ns)[0] == ms[0];
      ForChannelConcat(ms[1..], ns);
      ConcatAssociates(ToChannel(ms[0]), ForChannel(ms[1..]), ForChannel(ns));
    }
  }

  lemma {:induction false} ForLinkConcat(ms: seq<Message>, ns: seq<Message>)
    ensures ForLink(ms + ns) == ForLink(ms) + ForLink(ns)
    decreases |ms|
  {
    if ms == [] {
      assert ms + ns == ns;
    } else {
      assert (ms + ns)[1..] == ms[1..] + ns && (ms + ns)[0] == ms[0];
      ForLinkConcat(ms[1..], ns);
      ConcatAssociates(ToLink(ms[0]), ForLink(ms[1..]), ForLink(ns));
    }
  }

  ghost function LinkRun(l: PeerLink.Link, es: seq<PeerLink.Event>, started: int): PeerLink.Link
    requires l.Valid() && PeerLink.Proper(es)
    decreases |es|
  {
    if es == [] then l
    else
      PeerLink.StepValid(l, es[0], started);
      LinkRun(PeerLink.Step(l, es[0], started), es[1..], started)
  }

  lemma {:induction false} ForLinkProper(ms: seq<Message>)
    ensures PeerLink.Proper(ForLink(ms))
    decreases |ms|
  {
    if ms != [] { ForLinkProper(ms[1..]); }
  }

  /** The parts of `q` are those of `p` after these messages were processed and the inbox became `x`. */
  ghost predicate Parted(s: Setting, p: Pair, ms: seq<Message>, x: Fragments.Inbox, q: Pair)
    requires p.Valid()
  {
    ForLinkProper(ms);
    q.link == LinkRun(p.link, ForLink(ms), s.started) && q.channel == Channel.Run(s.crypto, p.channel, ForChannel(ms)) && q.inbox == x
  }

  lemma DeliverParted(s: Setting, p: Pair, m: Message)
    requires p.Valid() && s.codec.Shrinks()
    ensures var r := Fragments.Deliver(s.codec, p.inbox, m); Parted(s, p, r.1, r.0, Deliver(s, p, m))
  {
    DeliverOne(s.codec, p.inbox, m);
    var r := Fragments.Deliver(s.codec, p.inbox, m);
    if r.1 != [] {
      assert r.1 == [r.1[0]];
      ForFew(r.1[0]);
      var es := ForChannel(r.1);
      if es != [] { assert es[1..] == []; }
    }
  }

  lemma {:induction false} ChannelRunConcat(c: Channel.Crypto, p: Channel.Pair, es: seq<Channel.Event>, fs: seq<Channel.Event>)
    ensures Channel.Run(c, p, es + fs) == Channel.Run(c, Channel.Run(c, p, es), fs)
    decreases |es|
  {
    if es == [] {
      assert es + fs == fs;
    } else {
      assert (es + fs)[1..] == es[1..] + fs;
      ChannelRunConcat(c, Channel.Step(c, p, es[0]), es[1..], fs);
    }
  }

  lemma {:induction false} LinkRunConcat(l: PeerLink.Link, es: seq<PeerLink.Event>, fs: seq<PeerLink.Event>, started: int)
    requires l.Valid() && PeerLink.Proper(es) && PeerLink.Proper(fs)
    ensures LinkRun(l, es, started).Valid() && PeerLink.Proper(es + fs)
    ensures LinkRun(l, es + fs, started) == LinkRun(LinkRun(l, es, started), fs, started)
    decreases |es|
  {
    if es == [] {
      assert es + fs == fs;
    } else {
      assert (es + fs)[1..] == es[1..] + fs && (es + fs)[0] == es[0];
      PeerLink.StepValid(l, es[0], started);
      LinkRunConcat(PeerLink.Step(l, es[0], started), es[1..], fs, started);
    }
  }

  lemma PartedMore(s: Setting, p: Pair, ms: seq<Message>, x: Fragments.Inbox, q: Pair, ns: seq<Message>, y: Fragments.Inbox, r: Pair)
    requires p.Valid() && q.Valid() && Parted(s, p, ms, x, q) && Parted(s, q, ns, y, r)
    ensures Parted(s, p, ms + ns, y, r)
  {
    ForChannelConcat(ms, ns);
    ForLinkConcat(ms, ns);
    ForLinkProper(ms);
    ForLinkProper(ns);
    ChannelRunConcat(s.crypto, p.channel, ForChannel(ms), ForChannel(ns));
    LinkRunConcat(p.link, ForLink(ms), ForLink(ns), s.started);
  }

  /** Whatever messages a packet brings, the reassembly decides which are processed, and those, in order, drive the channel
      and the numbers of packets. */
  lemma {:induction false} PartsGoTogether(s: Setting, p: Pair, ms: seq<Message>)
    requires p.Valid() && s.codec.Shrinks()
    ensures var r := Fragments.DeliverAll(s.codec, p.inbox, ms); Parted(s, p, r.1, r.0, DeliverAll(s, p, ms))
    decreases |ms|
  {
    if ms != [] {
      var q := Deliver(s, p, ms[0]);
      var first := Fragments.Deliver(s.codec, p.inbox, ms[0]);
      var rest := Fragments.DeliverAll(s.codec, first.0, ms[1..]);
      DeliverParted(s, p, ms[0]);
      PartsGoTogether(s, q, ms[1..]);
      PartedMore(s, p, first.1, first.0, q, rest.1, rest.0, DeliverAll(s, q, ms[1..]));
    }
  }

  /** A packet without address lists steps the numbers of packets; a later start it names restarts the other parts; and if
      it is accepted its messages follow. Sending steps only the numbers. */
  lemma StepParted(s: Setting, p: Pair, l: Letter)
    requires p.Valid() && s.codec.Shrinks() && l.packet.Fits() && l.lists == []
    ensures var q := Judged(s, p, l); var v := Judge(s, p, l);
      var restarts := p.link.reinitDate < l.packet.reinitDate <= l.now + 60 && l.packet.dstReinitDate <= s.started;
      && q.link == PeerLink.Step(p.link, PeerLink.Arrives(l.packet, l.now), s.started)
      && q.channel == (if restarts then Channel.Step(s.crypto, p.channel, Channel.Restarting(l.packet.reinitDate)) else p.channel)
      && q.inbox == (if restarts then Fragments.Restarted(p.inbox, l.packet.reinitDate) else p.inbox)
      && Step(s, p, Direct(l)) == if v.Accepted? then DeliverAll(s, q, l.messages) else q
    ensures Step(s, p, Sends) == p.(link := PeerLink.Step(p.link, PeerLink.Sends, s.started))
  {
  }

  // ---- a packet delivered stays delivered while its channel lasts ----

  /** How often the peer table was told of a channel with this id. */
  function SetUps(ops: seq<Channel.TableOp>, id: int): nat
    decreases |ops|
  {
    if ops == [] then 0
    else SetUps(ops[..|ops| - 1], id) + if ops[|ops| - 1] == Channel.Register(id) then 1 else 0
  }

  lemma SetUpsNext(ops: seq<Channel.TableOp>, op: Channel.TableOp, id: int)
    ensures SetUps(ops + [op], id) == SetUps(ops, id) + if op == Channel.Register(id) then 1 else 0
  {
    assert (ops + [op])[..|ops|] == ops;
  }

  /** The channel with this id was set up again, or is not set up, or the number counts as received. */
  ghost predicate Spent(p: Pair, id: int, seqno: nat, n: nat) {
    var ups := SetUps(p.channel.toTable, id);
    ups > n || (ups == n && (p.channel.inited && p.channel.inId == id ==> p.link.window.Seen(seqno)))
  }

  lemma DroppedSpent(c: Channel.Pair, id: int)
    ensures !Channel.Dropped(c).inited && SetUps(Channel.Dropped(c).toTable, id) == SetUps(c.toTable, id)
  {
    SetUpsNext(c.toTable, Channel.Unregister(c.inId), id);
  }

  lemma ReinitSpent(p: Pair, date: int, id: int, seqno: nat, n: nat)
    requires p.Valid() && Spent(p, id, seqno, n)
    ensures Spent(Reinit(p, date), id, seqno, n)
  {
    DroppedSpent(p.channel, id);
  }

  lemma CreateSpent(s: Setting, p: Pair, key: int, date: int, id: int, seqno: nat, n: nat)
    requires p.Valid() && Spent(p, id, seqno, n)
    ensures Spent(p.(channel := Channel.CreateChannel(s.crypto, p.channel, key, date)), id, seqno, n)
  {
    DroppedSpent(p.channel, id);
    var c := Channel.Dropped(p.channel);
    var r := Channel.Creates(s.crypto, c.priv, key, c.local, c.peer);
    if r.Made? { SetUpsNext(c.toTable, Channel.Register(s.crypto.shortId(r.keys.inKey)), id); }
  }

  lemma DeliverSpent(s: Setting, p: Pair, m: Message, id: int, seqno: nat, n: nat)
    requires p.Valid() && s.codec.Shrinks() && Spent(p, id, seqno, n)
    ensures Spent(Deliver(s, p, m), id, seqno, n)
  {
    var r := Fragments.Deliver(s.codec, p.inbox, m);
    if r.1 != [] {
      match r.1[0]
      case CreateChannel(key, date) => CreateSpent(s, p, key, date, id, seqno, n);
      case ConfirmChannel(key, peerKey, date) => CreateSpent(s, p, key, date, id, seqno, n);
      case Reinit(date) => ReinitSpent(p, date, id, seqno, n);
      case _ =>
    }
  }

  lemma {:induction false} DeliverAllSpent(s: Setting, p: Pair, ms: seq<Message>, id: int, seqno: nat, n: nat)
    requires p.Valid() && s.codec.Shrinks() && Spent(p, id, seqno, n)
    ensures Spent(DeliverAll(s, p, ms), id, seqno, n)
    decreases |ms|
  {
    if ms != [] {
      DeliverSpent(s, p, ms[0], id, seqno, n);
      DeliverAllSpent(s, Deliver(s, p, ms[0]), ms[1..], id, seqno, n);
    }
  }

  lemma {:induction false} ListsSpent(p: Pair, dates: seq<int>, now: int, id: int, seqno: nat, n: nat)
    requires p.Valid() && Spent(p, id, seqno, n)
    ensures Spent(Lists(p, dates, now), id, seqno, n)
    decreases |dates|
  {
    if dates != [] {
      var later := p.link.reinitDate < dates[0] <= now + PeerLink.CLOCK_SLACK;
      if later { ReinitSpent(p, dates[0], id, seqno, n); }
      ListsSpent(if later then Reinit(p, dates[0]) else p, dates[1..], now, id, seqno, n);
    }
  }

  lemma JudgedSpent(s: Setting, p: Pair, l: Letter, id: int, seqno: nat, n: nat)
    requires p.Valid() && l.packet.Fits() && Spent(p, id, seqno, n)
    ensures Spent(Judged(s, p, l), id, seqno, n)
  {
    var e := PeerLink.Arrives(l.packet, l.now);
    var l1 := PeerLink.Step(p.link, e, s.started);
    DroppedSpent(p.channel, id);
    if p.link.window.Seen(seqno) && (p.link.reinitDate == 0 || l1.reinitDate == p.link.reinitDate) {
      PeerLink.SeenStays(p.link, e, s.started, seqno);
    }
  }

  lemma ReceiveSpent(s: Setting, p: Pair, l: Letter, id: int, seqno: nat, n: nat)
    requires p.Valid() && l.packet.Fits() && s.codec.Shrinks() && Spent(Judged(s, p, l), id, seqno, n)
    ensures Spent(Receive(s, p, l), id, seqno, n)
  {
    var q := Judged(s, p, l);
    ListsSpent(q, l.lists, l.now, id, seqno, n);
    DeliverAllSpent(s, Lists(q, l.lists, l.now), l.messages, id, seqno, n);
  }

  lemma StepSpent(s: Setting, p: Pair, e: Event, id: int, seqno: nat, n: nat)
    requires p.Valid() && s.codec.Shrinks() && Fits(e) && Spent(p, id, seqno, n)
    ensures Spent(Step(s, p, e), id, seqno, n)
  {
    match e
    case Direct(l) =>
      JudgedSpent(s, p, l, id, seqno, n);
      ReceiveSpent(s, p, l, id, seqno, n);
    case OverChannel(i, l) =>
      if i == p.channel.inId {
        var p1 := p.(channel := Channel.FromChannel(p.channel, i));
        JudgedSpent(s, p1, l, id, seqno, n);
        ReceiveSpent(s, p1, l, id, seqno, n);
      }
    case Listed(date, now) =>
      ListsSpent(p, [date], now, id, seqno, n);
    case Sends =>
  }

  lemma {:induction false} RunSpent(s: Setting, p: Pair, es: seq<Event>, id: int, seqno: nat, n: nat)
    requires p.Valid() && s.codec.Shrinks() && (forall e | e in es :: Fits(e)) && Spent(p, id, seqno, n)
    ensures Spent(Run(s, p, es), id, seqno, n)
    decreases |es|
  {
    if es != [] {
      StepSpent(s, p, es[0], id, seqno, n);
      RunSpent(s, Step(s, p, es[0]), es[1..], id, seqno, n);
    }
  }

  /** A packet delivered over the channel counts as received after it, whatever its messages do. */
  lemma DeliveredIsSpent(s: Setting, p: Pair, e: Event)
    requires p.Valid() && s.codec.Shrinks() && Fits(e) && Delivers(s, p, e) && e.letter.packet.seqno > 0
    ensures Spent(Step(s, p, e), e.id, e.letter.packet.seqno, SetUps(p.channel.toTable, e.id))
  {
    var l, id := e.letter, e.id;
    var p1 := p.(channel := Channel.FromChannel(p.channel, id));
    var seqno := l.packet.seqno;
    var w := PeerLink.Judged(p.link, l.packet).window;
    ReceivedIff(w, seqno);
    PeerLink.AddSees(w, seqno, 0);
    DroppedSpent(p1.channel, id);
    assert Spent(Judged(s, p1, l), id, seqno, SetUps(p.channel.toTable, id));
    ReceiveSpent(s, p1, l, id, seqno, SetUps(p.channel.toTable, id));
  }

  /** A packet of the channel that is set up, with a number that counts as received and no later start than the one
      known, is not delivered. */
  lemma SpentIsRefused(s: Setting, p: Pair, e: Event)
    requires p.Valid() && Fits(e) && e.OverChannel? && e.letter.packet.seqno > 0
    requires p.channel.inited && e.letter.packet.reinitDate <= p.link.reinitDate
    requires Spent(p, e.id, e.letter.packet.seqno, SetUps(p.channel.toTable, e.id))
    ensures !Delivers(s, p, e)
  {
    ReceivedIff(p.link.window, e.letter.packet.seqno);
  }

  /** The pair before an event of a run. */
  function Before(s: Setting, p: Pair, es: seq<Event>, k: nat): (q: Pair)
    requires p.Valid() && s.codec.Shrinks() && (forall e | e in es :: Fits(e)) && k <= |es|
    ensures q.Valid()
  {
    Run(s, p, es[..k])
  }

  lemma {:induction false} RunConcat(s: Setting, p: Pair, es: seq<Event>, fs: seq<Event>)
    requires p.Valid() && s.codec.Shrinks() && (forall e | e in es + fs :: Fits(e))
    ensures (forall e | e in es :: e in es + fs) && (forall e | e in fs :: e in es + fs)
    ensures Run(s, p, es + fs) == Run(s, Run(s, p, es), fs)
    decreases |es|
  {
    if es == [] {
      assert es + fs == fs;
    } else {
      assert (es + fs)[0] == es[0] && (es + fs)[1..] == es[1..] + fs;
      RunConcat(s, Step(s, p, es[0]), es[1..], fs);
    }
  }

  /** Over every run, across restarts of the peer: a channel packet that was delivered is delivered again only if its
      channel is not set up any more and no other took its place, or its channel was set up again, or the packet names a
      later start of the peer than is known. */
  lemma DeliveredAgainOnly(s: Setting, p: Pair, es: seq<Event>, i: nat, j: nat)
    requires p.Valid() && s.codec.Shrinks() && (forall e | e in es :: Fits(e)) && i < j < |es|
    requires es[i].OverChannel? && es[j].OverChannel? && es[i].id == es[j].id
    requires es[i].letter.packet.seqno == es[j].letter.packet.seqno > 0
    ensures var pi, pj := Before(s, p, es, i), Before(s, p, es, j);
      Delivers(s, pi, es[i]) && Delivers(s, pj, es[j]) ==>
        || (!pj.channel.inited && pj.channel.inId == es[j].id)
        || SetUps(pj.channel.toTable, es[j].id) > SetUps(pi.channel.toTable, es[i].id)
        || es[j].letter.packet.reinitDate > pj.link.reinitDate
  {
    var pi := Before(s, p, es, i);
    if Delivers(s, pi, es[i]) {
      var n := SetUps(pi.channel.toTable, es[i].id);
      var between := es[i + 1..j];
      assert es[..j] == es[..i] + ([es[i]] + between);
      RunConcat(s, p, es[..i], [es[i]] + between);
      DeliveredIsSpent(s, pi, es[i]);
      assert ([es[i]] + between)[1..] == between;
      RunSpent(s, Step(s, pi, es[i]), between, es[i].id, es[i].letter.packet.seqno, n);
      var pj := Before(s, p, es, j);
      assert Spent(pj, es[j].id, es[j].letter.packet.seqno, n);
      if pj.channel.inited && SetUps(pj.channel.toTable, es[j].id) == n && es[j].letter.packet.reinitDate <= pj.link.reinitDate {
        SpentIsRefused(s, pj, es[j]);
      }
    }
  }

  /** The first case happens to every pair with a channel: the id of the channel is kept when a later start of the peer
      ends it, and packets that come with it are still taken. One that was delivered before is delivered again. */
  lemma LeftOverIdDelivers(s: Setting, p: Pair, e: Event, date: int, now: int)
    requires p.Valid() && s.codec.Shrinks() && Fits(e) && p.channel.inited && Delivers(s, p, e)
    requires e.letter.lists == [] && e.letter.messages == [] && e.letter.packet.seqno > 0
    requires e.letter.packet.reinitDate == e.letter.packet.dstReinitDate == e.letter.packet.confirmSeqno == 0
    requires 0 < p.link.reinitDate < date <= now + PeerLink.CLOCK_SLACK
    ensures var p2 := Step(s, Step(s, p, e), Listed(date, now));
      && Delivers(s, p2, e) && !p2.channel.inited
      && SetUps(p2.channel.toTable, e.id) == SetUps(p.channel.toTable, e.id)
  {
    var p1 := Step(s, p, e);
    assert p1.link.reinitDate == p.link.reinitDate && p1.channel == Channel.FromChannel(p.channel, e.id);
    var p2 := Step(s, p1, Listed(date, now));
    assert [date][1..] == [] && Lists(Reinit(p1, date), [], now) == Reinit(p1, date);
    assert p2 == Reinit(p1, date);
    DroppedSpent(p1.channel, e.id);
    ReceivedIff(p2.link.window, e.letter.packet.seqno);
  }
}
