/** The encrypted channel of a peer pair: how its keys are picked, when it counts as ready, and what the
    peer table is told about it. */
module Channel {
  import opened Options
  import opened PeerStart

  const SECRET_SIZE: nat := 32

  /** The cryptography used: the secret shared by a private and a public key, if any, the public key of a
      private one, whether a cipher can be set up on a key, and the short id of a key. */
  datatype Crypto = Crypto(shared: (int, int) -> Option<seq<int>>, pubOf: int -> int, usable: seq<int> -> bool, shortId: seq<int> -> int) {
    ghost predicate Symmetric() {
      && (forall a, b :: shared(a, pubOf(b)) == shared(b, pubOf(a)))
      && (forall a, k :: shared(a, k).Some? ==> |shared(a, k).value| == SECRET_SIZE)
    }

    ghost predicate DistinctIds() {
      forall x, y | shortId(x) == shortId(y) :: x == y
    }
  }

  /** The key packets are decrypted with, and the one they are encrypted with. */
  datatype Keys = Keys(inKey: seq<int>, outKey: seq<int>)

  ghost predicate Mirror(x: Keys, y: Keys) {
    x.inKey == y.outKey && x.outKey == y.inKey
  }

  function Reversed(s: seq<int>): seq<int> {
    seq(|s|, i requires 0 <= i < |s| => s[|s| - 1 - i])
  }

  /** Which of the secret and its reversal a side reads with depends on the order of the two ids. */
  function Pick(secret: seq<int>, local: int, peer: int): Keys {
    if local < peer then Keys(secret, Reversed(secret))
    else if peer < local then Keys(Reversed(secret), secret)
    else Keys(secret, secret)
  }

  lemma PickMirrors(secret: seq<int>, local: int, peer: int)
    ensures Mirror(Pick(secret, local, peer), Pick(secret, peer, local))
  {
  }

  lemma ReversedTwice(s: seq<int>)
    ensures Reversed(Reversed(s)) == s
  {
  }

  /** One key of a pair determines the other. */
  lemma OneKeyDecides(s: seq<int>, t: seq<int>, local: int, peer: int)
    requires Pick(s, local, peer).inKey == Pick(t, peer, local).outKey
    ensures Mirror(Pick(s, local, peer), Pick(t, peer, local))
  {
    ReversedTwice(s);
    ReversedTwice(t);
  }

  datatype Created = NoSecret | NoCipher(keys: Keys) | Made(keys: Keys)

  function Creates(c: Crypto, priv: int, pub: int, local: int, peer: int): Created {
    var s := c.shared(priv, pub);
    if s.None? then NoSecret
    else
      var keys := Pick(s.value, local, peer);
      if c.usable(keys.outKey) && c.usable(keys.inKey) then Made(keys) else NoCipher(keys)
  }

  method CreateKeys(c: Crypto, priv: int, pub: int, local: int, peer: int) returns (r: Created)
    requires c.Symmetric()
    ensures r == Creates(c, priv, pub, local, peer)
  {
    var shared := c.shared(priv, pub);
    if shared.None? {
      return NoSecret;
    }
    var secret := shared.value;
    var reversed := new int[SECRET_SIZE];
    for i := 0 to SECRET_SIZE
      invariant forall j | 0 <= j < i :: reversed[j] == secret[31 - j]
    {
      reversed[i] := secret[31 - i];
    }
    assert reversed[..] == Reversed(secret);
    var keys := if local < peer then Keys(secret, reversed[..])
                else if peer < local then Keys(reversed[..], secret)
                else Keys(secret, secret);
    if !c.usable(keys.outKey) || !c.usable(keys.inKey) {
      return NoCipher(keys);
    }
    return Made(keys);
  }

  // ---- one side ----

  /** What a pair tells the peer table. */
  datatype TableOp = Register(id: int) | Unregister(id: int)

  /** The channel part of a peer pair. `toTable` is all it told the peer table, in order. */
  datatype Pair = Pair(
    local: int, peer: int, priv: int, pkDate: int,
    peerPub: int, peerDate: int, inited: bool, ready: bool, inId: int, outId: int, keys: Option<Keys>,
    reinitDate: int, toTable: seq<TableOp>)

  function Fresh(local: int, peer: int, priv: int, pkDate: int): Pair {
    Pair(local, peer, priv, pkDate, 0, 0, false, false, 0, 0, None, 0, [])
  }

  /** The channel is given up. */
  function Dropped(p: Pair): Pair {
    if p.inited then p.(toTable := p.toTable + [Unregister(p.inId)], keys := None, inited := false, ready := false) else p
  }

  function Installed(c: Crypto, p: Pair): Pair {
    match Creates(c, p.priv, p.peerPub, p.local, p.peer)
    case NoSecret => p
    case NoCipher(ks) => p.(inId := c.shortId(ks.inKey), outId := c.shortId(ks.outKey))
    case Made(ks) =>
      var id := c.shortId(ks.inKey);
      p.(inId := id, outId := c.shortId(ks.outKey), keys := Some(ks), inited := true, toTable := p.toTable + [Register(id)])
  }

  function CreateChannel(c: Crypto, p: Pair, pub: int, date: int): Pair {
    if p.inited && (p.peerPub == pub || date <= p.peerDate) then p
    else Installed(c, Dropped(p).(peerPub := pub, peerDate := date))
  }

  function Confirmed(c: Crypto, p: Pair, key: int, peerKey: int, date: int): Pair {
    if peerKey != c.pubOf(p.priv) then p
    else
      var q := CreateChannel(c, p, key, date);
      if !q.inited || q.peerPub != key then q else q.(ready := true)
  }

  function FromChannel(p: Pair, id: int): Pair {
    if id == p.inId && p.inited then p.(ready := true) else p
  }

  /** A later start of the peer ends the channel. */
  function Reinit(p: Pair, date: int): Pair {
    if Restarts(p.reinitDate, date) then Dropped(p).(ready := false, reinitDate := date)
    else p.(reinitDate := Learned(p.reinitDate, date))
  }

  function TornDown(p: Pair): Pair {
    if p.inited then p.(toTable := p.toTable + [Unregister(p.inId)]) else p
  }

  class PeerChannel {
    const c: Crypto
    const local: int
    const peer: int
    const priv: int
    const pkDate: int
    var peerPub: int
    var peerDate: int
    var inited: bool
    var ready: bool
    var inId: int
    var outId: int
    var keys: Option<Keys>
    var reinitDate: int
    var toTable: seq<TableOp>

    ghost function State(): Pair
      reads this
    {
      Pair(local, peer, priv, pkDate, peerPub, peerDate, inited, ready, inId, outId, keys, reinitDate, toTable)
    }

    constructor (c: Crypto, local: int, peer: int, priv: int, pkDate: int)
      ensures this.c == c && State() == Fresh(local, peer, priv, pkDate)
    {
      this.c, this.local, this.peer, this.priv, this.pkDate := c, local, peer, priv, pkDate;
      peerPub, peerDate, inited, ready, inId, outId, keys, reinitDate, toTable := 0, 0, false, false, 0, 0, None, 0, [];
    }

    method OnCreateChannel(pub: int, date: int)
      requires c.Symmetric() && (ready ==> inited)
      modifies this
      ensures State() == CreateChannel(c, old(State()), pub, date)
    {
      if inited && peerPub == pub {
        return;
      }
      if inited && date <= peerDate {
        return;
      }
      if inited {
        toTable := toTable + [Unregister(inId)];
        keys, inited, ready := None, false, false;
      }
      // CHECK(!channel_ready_)
      assert !ready;
      peerPub, peerDate := pub, date;
      var r := CreateKeys(c, priv, peerPub, local, peer);
      if !r.NoSecret? {
        inId, outId := c.shortId(r.keys.inKey), c.shortId(r.keys.outKey);
      }
      if r.Made? {
        keys, inited := Some(r.keys), true;
        toTable := toTable + [Register(inId)];
      }
    }

    method OnConfirmChannel(key: int, peerKey: int, date: int)
      requires c.Symmetric() && (ready ==> inited)
      modifies this
      ensures State() == Confirmed(c, old(State()), key, peerKey, date)
    {
      if peerKey != c.pubOf(priv) {
        return;
      }
      OnCreateChannel(key, date);
      if !inited || peerPub != key {
        return;
      }
      ready := true;
    }

    method OnChannelPacket(id: int)
      modifies this
      ensures State() == FromChannel(old(State()), id)
    {
      if id != inId {
        return;
      }
      if inited && !ready {
        ready := true;
      }
    }

    method OnReinit(date: int)
      requires (ready ==> inited) && (!inited ==> keys == None)
      modifies this
      ensures State() == Reinit(old(State()), date)
    {
      if reinitDate == 0 {
        reinitDate := date;
      }
      if reinitDate < date {
        if inited {
          toTable := toTable + [Unregister(inId)];
        }
        ready, inited, keys := false, false, None;
        reinitDate := date;
      }
    }

    method TearDown()
      modifies this
      ensures State() == TornDown(old(State()))
    {
      if inited {
        toTable := toTable + [Unregister(inId)];
      }
    }
  }

  // ---- what the table is told ----

  /** The id left registered by a list of messages in which every registration is undone, with the same id,
      before the next; `None` also if nothing is left. */
  ghost predicate Alternates(ops: seq<TableOp>, open: Option<int>)
    decreases |ops|
  {
    if ops == [] then open == None
    else
      var rest, last := ops[..|ops| - 1], ops[|ops| - 1];
      match last
      case Register(id) => open == Some(id) && Alternates(rest, None)
      case Unregister(id) => open == None && Alternates(rest, Some(id))
  }

  lemma AlternatesNext(ops: seq<TableOp>, open: Option<int>, id: int)
    requires Alternates(ops, open)
    ensures open == None ==> Alternates(ops + [Register(id)], Some(id))
    ensures open == Some(id) ==> Alternates(ops + [Unregister(id)], None)
  {
    assert (ops + [Register(id)])[..|ops|] == ops;
    assert (ops + [Unregister(id)])[..|ops|] == ops;
  }

  /** In every state: ready only when set up; the keys are those of the peer key held; and the table was told
      of at most one channel at a time, the present one if there is one. */
  ghost predicate Sound(c: Crypto, p: Pair) {
    && (p.ready ==> p.inited)
    && (p.inited <==> p.keys.Some?)
    && (p.inited ==>
          && Creates(c, p.priv, p.peerPub, p.local, p.peer) == Made(p.keys.value)
          && p.inId == c.shortId(p.keys.value.inKey) && p.outId == c.shortId(p.keys.value.outKey))
    && Alternates(p.toTable, if p.inited then Some(p.inId) else None)
  }

  lemma DroppedSound(c: Crypto, p: Pair)
    requires Sound(c, p)
    ensures Sound(c, Dropped(p)) && !Dropped(p).inited
  {
    if p.inited { AlternatesNext(p.toTable, Some(p.inId), p.inId); }
  }

  lemma CreateSound(c: Crypto, p: Pair, pub: int, date: int)
    requires Sound(c, p)
    ensures Sound(c, CreateChannel(c, p, pub, date))
    ensures var q := CreateChannel(c, p, pub, date); q.priv == p.priv && q.local == p.local && q.peer == p.peer
    ensures CreateChannel(c, p, pub, date).ready ==> CreateChannel(c, p, pub, date) == p
  {
    if !(p.inited && (p.peerPub == pub || date <= p.peerDate)) {
      DroppedSound(c, p);
      var q := Dropped(p).(peerPub := pub, peerDate := date);
      var r := Creates(c, q.priv, q.peerPub, q.local, q.peer);
      if r.Made? {
        AlternatesNext(q.toTable, None, c.shortId(r.keys.inKey));
      }
    }
  }

  datatype Event =
    | Creating(pub: int, date: int)
    | Confirming(key: int, peerKey: int, date: int)
    | Packet(id: int)
    | Restarting(date: int)

  function Step(c: Crypto, p: Pair, e: Event): Pair {
    match e
    case Creating(pub, date) => CreateChannel(c, p, pub, date)
    case Confirming(key, peerKey, date) => Confirmed(c, p, key, peerKey, date)
    case Packet(id) => FromChannel(p, id)
    case Restarting(date) => Reinit(p, date)
  }

  lemma StepSound(c: Crypto, p: Pair, e: Event)
    requires Sound(c, p)
    ensures Sound(c, Step(c, p, e))
    ensures var q := Step(c, p, e); q.priv == p.priv && q.local == p.local && q.peer == p.peer
  {
    match e {
      case Creating(pub, date) => CreateSound(c, p, pub, date);
      case Confirming(key, peerKey, date) => CreateSound(c, p, key, date);
      case Packet(id) =>
      case Restarting(date) => DroppedSound(c, p);
    }
  }

  function Run(c: Crypto, p: Pair, es: seq<Event>): Pair
    decreases |es|
  {
    if es == [] then p else Run(c, Step(c, p, es[0]), es[1..])
  }

  lemma {:induction false} RunSound(c: Crypto, p: Pair, es: seq<Event>)
    requires Sound(c, p)
    ensures Sound(c, Run(c, p, es))
    decreases |es|
  {
    if es != [] {
      StepSound(c, p, es[0]);
      RunSound(c, Step(c, p, es[0]), es[1..]);
    }
  }

  /** Over every run of a pair: ready implies set up, and that implies ciphers on keys of the ids known; what the table
      is told strictly alternates with matching ids, and after the end nothing stays registered. */
  lemma PairRun(c: Crypto, local: int, peer: int, priv: int, pkDate: int, es: seq<Event>)
    ensures var p := Run(c, Fresh(local, peer, priv, pkDate), es);
      && (p.ready ==> p.inited)
      && (p.inited ==> p.keys.Some? && c.usable(p.keys.value.inKey) && c.usable(p.keys.value.outKey))
      && (p.inited ==> p.inId == c.shortId(p.keys.value.inKey) && p.outId == c.shortId(p.keys.value.outKey))
      && Alternates(p.toTable, if p.inited then Some(p.inId) else None)
      && Alternates(TornDown(p).toTable, None)
  {
    RunSound(c, Fresh(local, peer, priv, pkDate), es);
    var p := Run(c, Fresh(local, peer, priv, pkDate), es);
    if p.inited { AlternatesNext(p.toTable, Some(p.inId), p.inId); }
  }

  // ---- two sides and the network between them ----

  datatype Message =
    | CreateMessage(key: int, date: int)
    | ConfirmMessage(key: int, peerKey: int, date: int)
    | Data(id: int)

  /** A message as sent by one side, with the sender's state at that moment. */
  datatype Sent = Sent(fromA: bool, message: Message, sender: Pair)

  /** Everything ever sent stays deliverable, so loss, repetition and reordering are all covered. */
  datatype Net = Net(a: Pair, b: Pair, sent: set<Sent>) {
    function Side(isA: bool): Pair {
      if isA then a else b
    }

    function With(isA: bool, p: Pair): Net {
      if isA then this.(a := p) else this.(b := p)
    }
  }

  /** The handshake message a side puts into a packet, or a packet on the channel once that is ready. */
  function Says(c: Crypto, p: Pair): Message {
    if !p.inited then CreateMessage(c.pubOf(p.priv), p.pkDate)
    else if !p.ready then ConfirmMessage(c.pubOf(p.priv), p.peerPub, p.pkDate)
    else Data(p.outId)
  }

  function Hears(m: Message): Event {
    match m
    case CreateMessage(key, date) => Creating(key, date)
    case ConfirmMessage(key, peerKey, date) => Confirming(key, peerKey, date)
    case Data(id) => Packet(id)
  }

  datatype Move =
    | Speak(isA: bool)
    | Hear(isA: bool, what: Sent)
    | LearnRestart(isA: bool, date: int)
    | Restart(isA: bool, priv: int, pkDate: int)     // a new process with new keys, knowing nothing

  ghost predicate Enabled(n: Net, m: Move) {
    m.Hear? ==> m.what in n.sent && m.what.fromA != m.isA
  }

  ghost function Moved(c: Crypto, n: Net, m: Move): Net
    requires Enabled(n, m)
  {
    match m
    case Speak(x) => n.(sent := n.sent + {Sent(x, Says(c, n.Side(x)), n.Side(x))})
    case Hear(x, s) => n.With(x, Step(c, n.Side(x), Hears(s.message)))
    case LearnRestart(x, date) => n.With(x, Reinit(n.Side(x), date))
    case Restart(x, priv, pkDate) => n.With(x, Fresh(n.Side(x).local, n.Side(x).peer, priv, pkDate))
  }

  ghost predicate Truthful(c: Crypto, s: Sent, idA: int, idB: int) {
    && Sound(c, s.sender) && s.sender.local == (if s.fromA then idA else idB) && s.sender.peer == (if s.fromA then idB else idA)
    && s.message == Says(c, s.sender)
  }

  /** The other side once sent something while it had a channel on the mirrored keys. */
  ghost predicate Backed(n: Net, isA: bool, keys: Keys) {
    exists s :: s in n.sent && s.fromA != isA && s.sender.inited && s.sender.keys.Some? && Mirror(s.sender.keys.value, keys)
  }

  ghost predicate SideSound(c: Crypto, n: Net, isA: bool, idA: int, idB: int) {
    var p := n.Side(isA);
    && Sound(c, p) && p.local == (if isA then idA else idB) && p.peer == (if isA then idB else idA)
    && (p.ready ==> Backed(n, isA, p.keys.value))
  }

  ghost predicate NetSound(c: Crypto, n: Net, idA: int, idB: int) {
    && (forall s | s in n.sent :: Truthful(c, s, idA, idB))
    && SideSound(c, n, true, idA, idB) && SideSound(c, n, false, idA, idB)
  }

  lemma ConfirmationReady(c: Crypto, p: Pair, s: Sent, idA: int, idB: int)
    requires c.Symmetric() && Truthful(c, s, idA, idB) && Sound(c, p) && s.message.ConfirmMessage?
    requires p.local == s.sender.peer && p.peer == s.sender.local
    ensures var q := Confirmed(c, p, s.message.key, s.message.peerKey, s.message.date);
      q.ready && (!p.ready || q.keys != p.keys) ==> s.sender.inited && Mirror(s.sender.keys.value, q.keys.value)
  {
    var key, date := s.message.key, s.message.date;
    CreateSound(c, p, key, date);
    var q := CreateChannel(c, p, key, date);
    if q.inited && q.peerPub == key && s.message.peerKey == c.pubOf(p.priv) {
      assert c.shared(s.sender.priv, c.pubOf(p.priv)) == c.shared(p.priv, c.pubOf(s.sender.priv));
      PickMirrors(c.shared(p.priv, key).value, p.local, p.peer);
    }
  }

  lemma PacketReady(c: Crypto, p: Pair, s: Sent, idA: int, idB: int)
    requires c.DistinctIds() && Truthful(c, s, idA, idB) && Sound(c, p) && s.message.Data?
    requires p.local == s.sender.peer && p.peer == s.sender.local
    ensures var q := FromChannel(p, s.message.id);
      q.ready && !p.ready ==> s.sender.inited && Mirror(s.sender.keys.value, q.keys.value)
  {
    if s.message.id == p.inId && p.inited {
      OneKeyDecides(c.shared(p.priv, p.peerPub).value, c.shared(s.sender.priv, s.sender.peerPub).value, p.local, p.peer);
    }
  }

  /** A side that becomes ready does so on the mirror image of the channel its peer had when it sent the
      message that arrived. */
  lemma BecomesReady(c: Crypto, p: Pair, s: Sent, idA: int, idB: int)
    requires c.Symmetric() && c.DistinctIds()
    requires Truthful(c, s, idA, idB) && Sound(c, p)
    requires p.local == s.sender.peer && p.peer == s.sender.local
    ensures var q := Step(c, p, Hears(s.message));
      q.ready && (!p.ready || q.keys != p.keys) ==> q.inited && s.sender.inited && Mirror(s.sender.keys.value, q.keys.value)
  {
    StepSound(c, p, Hears(s.message));
    match s.message {
      case CreateMessage(key, date) => CreateSound(c, p, key, date);
      case ConfirmMessage(key, peerKey, date) => ConfirmationReady(c, p, s, idA, idB);
      case Data(id) => PacketReady(c, p, s, idA, idB);
    }
  }

  lemma BackedMore(n: Net, n': Net, isA: bool, keys: Keys)
    requires Backed(n, isA, keys) && n.sent <= n'.sent
    ensures Backed(n', isA, keys)
  {
  }

  lemma SideStays(c: Crypto, n: Net, n': Net, isA: bool, idA: int, idB: int)
    requires SideSound(c, n, isA, idA, idB) && n'.Side(isA) == n.Side(isA) && n.sent <= n'.sent
    ensures SideSound(c, n', isA, idA, idB)
  {
    if n.Side(isA).ready { BackedMore(n, n', isA, n.Side(isA).keys.value); }
  }

  lemma HearSound(c: Crypto, n: Net, isA: bool, s: Sent, idA: int, idB: int)
    requires c.Symmetric() && c.DistinctIds() && NetSound(c, n, idA, idB) && s in n.sent && s.fromA != isA
    ensures NetSound(c, n.With(isA, Step(c, n.Side(isA), Hears(s.message))), idA, idB)
  {
    var p := n.Side(isA);
    var e := Hears(s.message);
    var q := Step(c, p, e);
    var n' := n.With(isA, q);
    assert SideSound(c, n, isA, idA, idB) && SideSound(c, n, !isA, idA, idB);
    StepSound(c, p, e);
    BecomesReady(c, p, s, idA, idB);
    if q.ready {
      if !p.ready || q.keys != p.keys {
        assert Backed(n', isA, q.keys.value);
      } else {
        BackedMore(n, n', isA, q.keys.value);
      }
    }
    SideStays(c, n, n', !isA, idA, idB);
  }

  lemma MoveSound(c: Crypto, n: Net, m: Move, idA: int, idB: int)
    requires c.Symmetric() && c.DistinctIds() && NetSound(c, n, idA, idB) && Enabled(n, m)
    ensures NetSound(c, Moved(c, n, m), idA, idB)
  {
    var n' := Moved(c, n, m);
    match m {
      case Speak(x) =>
        SideStays(c, n, n', true, idA, idB);
        SideStays(c, n, n', false, idA, idB);
      case Hear(x, s) =>
        HearSound(c, n, x, s, idA, idB);
      case LearnRestart(x, date) =>
        StepSound(c, n.Side(x), Restarting(date));
        if n'.Side(x).ready { BackedMore(n, n', x, n.Side(x).keys.value); }
        SideStays(c, n, n', !x, idA, idB);
      case Restart(x, priv, pkDate) =>
        SideStays(c, n, n', !x, idA, idB);
    }
  }

  ghost predicate IsRun(c: Crypto, n: Net, ms: seq<Move>)
    decreases |ms|
  {
    ms == [] || (Enabled(n, ms[0]) && IsRun(c, Moved(c, n, ms[0]), ms[1..]))
  }

  ghost function After(c: Crypto, n: Net, ms: seq<Move>): Net
    requires IsRun(c, n, ms)
    decreases |ms|
  {
    if ms == [] then n else After(c, Moved(c, n, ms[0]), ms[1..])
  }

  lemma {:induction false} NetRunSound(c: Crypto, n: Net, ms: seq<Move>, idA: int, idB: int)
    requires c.Symmetric() && c.DistinctIds() && NetSound(c, n, idA, idB) && IsRun(c, n, ms)
    ensures NetSound(c, After(c, n, ms), idA, idB)
    decreases |ms|
  {
    if ms != [] {
      MoveSound(c, n, ms[0], idA, idB);
      NetRunSound(c, Moved(c, n, ms[0]), ms[1..], idA, idB);
    }
  }

  /** The start of a run: two sides that know nothing. */
  ghost predicate Begins(n: Net, idA: int, idB: int) {
    n.sent == {} && (exists k, d :: n.a == Fresh(idA, idB, k, d)) && (exists k, d :: n.b == Fresh(idB, idA, k, d))
  }

  /** Over every run of two honest sides, with loss, repetition, reordering and restarts: a side whose channel
      is ready was sent a message by a peer that then had a channel on the mirrored keys. */
  lemma ReadyIsMirrored(c: Crypto, n: Net, ms: seq<Move>, idA: int, idB: int, isA: bool)
    requires c.Symmetric() && c.DistinctIds() && Begins(n, idA, idB) && IsRun(c, n, ms)
    ensures var p := After(c, n, ms).Side(isA);
      p.ready ==> p.inited && p.keys.Some? && Backed(After(c, n, ms), isA, p.keys.value)
  {
    NetRunSound(c, n, ms, idA, idB);
    assert SideSound(c, After(c, n, ms), isA, idA, idB);
  }

  /** In every reachable state: when a confirmation arrives and makes a side ready, its sender had at the time of
      sending a channel whose in key is this side's out key, and the reverse. */
  lemma ConfirmationMirrors(c: Crypto, n: Net, ms: seq<Move>, idA: int, idB: int, isA: bool, s: Sent)
    requires c.Symmetric() && c.DistinctIds() && Begins(n, idA, idB) && IsRun(c, n, ms)
    requires Enabled(After(c, n, ms), Hear(isA, s)) && s.message.ConfirmMessage? && !After(c, n, ms).Side(isA).ready
    ensures var q := Moved(c, After(c, n, ms), Hear(isA, s)).Side(isA);
      q.ready ==> s.sender.inited && s.sender.keys.Some? && q.keys.Some? && Mirror(s.sender.keys.value, q.keys.value)
  {
    NetRunSound(c, n, ms, idA, idB);
    var n1 := After(c, n, ms);
    assert SideSound(c, n1, isA, idA, idB) && Truthful(c, s, idA, idB);
    StepSound(c, n1.Side(isA), Hears(s.message));
    BecomesReady(c, n1.Side(isA), s, idA, idB);
  }

  // ---- which key wins ----

  /** A channel that is set up gives way to another key exactly if that is of a later date; otherwise nothing changes. */
  lemma LaterKeyWins(c: Crypto, p: Pair, pub: int, date: int)
    requires p.inited
    ensures var q := CreateChannel(c, p, pub, date);
      if pub != p.peerPub && date > p.peerDate then q.peerPub == pub && q.peerDate == date && !q.ready else q == p
  {
  }

  /** A key that is not ignored decides the ids, even if no cipher can be set up; then there is no channel. */
  lemma KeyDecidesIds(c: Crypto, p: Pair, pub: int, date: int)
    requires c.shared(p.priv, pub).Some? && !(p.inited && (pub == p.peerPub || date <= p.peerDate))
    ensures var q, keys := CreateChannel(c, p, pub, date), Pick(c.shared(p.priv, pub).value, p.local, p.peer);
      && q.inId == c.shortId(keys.inKey) && q.outId == c.shortId(keys.outKey)
      && (q.inited <==> c.usable(keys.inKey) && c.usable(keys.outKey))
  {
  }

  /** The channel is set up before and after every event. */
  ghost predicate StaysUp(c: Crypto, p: Pair, es: seq<Event>)
    decreases |es|
  {
    p.inited && (es == [] || StaysUp(c, Step(c, p, es[0]), es[1..]))
  }

  lemma StepKey(c: Crypto, p: Pair, e: Event)
    requires Sound(c, p) && p.inited && Step(c, p, e).inited
    ensures var q := Step(c, p, e);
      p.peerDate < q.peerDate || (q.peerDate == p.peerDate && q.peerPub == p.peerPub && q.keys == p.keys && (p.ready ==> q.ready))
  {
    match e {
      case Creating(pub, date) => LaterKeyWins(c, p, pub, date);
      case Confirming(key, peerKey, date) => LaterKeyWins(c, p, key, date);
      case Packet(id) =>
      case Restarting(date) =>
    }
  }

  /** Over every run in which the channel stays set up: the date of the peer's key never goes down, and the key, and with it
      the channel, changes only for one of a strictly later date. A channel that is ready and keeps its key stays ready. */
  lemma {:induction false} KeyGetsNewer(c: Crypto, p: Pair, es: seq<Event>)
    requires Sound(c, p) && StaysUp(c, p, es)
    ensures var q := Run(c, p, es);
      p.peerDate < q.peerDate || (q.peerDate == p.peerDate && q.peerPub == p.peerPub && q.keys == p.keys && (p.ready ==> q.ready))
    decreases |es|
  {
    if es != [] {
      StepKey(c, p, es[0]);
      StepSound(c, p, es[0]);
      KeyGetsNewer(c, Step(c, p, es[0]), es[1..]);
    }
  }

  /** Every key heard of while the channel stays set up is the one held then, or is not later than the one held at the end. */
  lemma {:induction false} KeyHeard(c: Crypto, p: Pair, es: seq<Event>, i: nat)
    requires Sound(c, p) && StaysUp(c, p, es) && i < |es| && es[i].Creating?
    ensures es[i].pub == Run(c, p, es[..i]).peerPub || es[i].date <= Run(c, p, es).peerDate
    decreases |es|
  {
    StepSound(c, p, es[0]);
    if i == 0 {
      LaterKeyWins(c, p, es[0].pub, es[0].date);
      assert es[..0] == [];
      KeyGetsNewer(c, Step(c, p, es[0]), es[1..]);
    } else {
      KeyHeard(c, Step(c, p, es[0]), es[1..], i - 1);
      assert es[..i][1..] == es[1..][..i - 1];
    }
  }

  // ---- a handshake completes ----

  /** The other key is new to a side: it has no channel, or one with another key of an earlier date. */
  ghost predicate NewTo(p: Pair, pub: int, date: int) {
    p.inited ==> p.peerPub != pub && p.peerDate < date
  }

  /** The two keys have a secret, and ciphers can be set up on it. */
  ghost predicate Workable(c: Crypto, priv: int, pub: int) {
    var s := c.shared(priv, pub);
    s.Some? && c.usable(s.value) && c.usable(Reversed(s.value))
  }

  lemma FirstMessage(c: Crypto, a: Pair, b: Pair)
    requires c.Symmetric() && Sound(c, a) && NewTo(a, c.pubOf(b.priv), b.pkDate)
    requires Workable(c, a.priv, c.pubOf(b.priv)) && !b.inited
    ensures var a1 := Step(c, a, Hears(Says(c, b)));
      && Sound(c, a1) && a1.inited && !a1.ready && a1.peerPub == c.pubOf(b.priv) && a1.priv == a.priv
      && a1.local == a.local && a1.peer == a.peer && a1.pkDate == a.pkDate
  {
    StepSound(c, a, Hears(Says(c, b)));
  }

  /** From any state of one side, also one set up with an older key, three messages with a peer that just started make both
      ready on mirrored keys. */
  lemma HandshakeCompletes(c: Crypto, a: Pair, b: Pair)
    requires c.Symmetric() && Sound(c, a) && NewTo(a, c.pubOf(b.priv), b.pkDate)
    requires Workable(c, a.priv, c.pubOf(b.priv)) && b == Fresh(a.peer, a.local, b.priv, b.pkDate)
    ensures
      var a1 := Step(c, a, Hears(Says(c, b)));
      var b1 := Step(c, b, Hears(Says(c, a1)));
      var a2 := Step(c, a1, Hears(Says(c, b1)));
      a2.ready && b1.ready && a2.keys.Some? && b1.keys.Some? && Mirror(a2.keys.value, b1.keys.value)
  {
    FirstMessage(c, a, b);
    var s := c.shared(a.priv, c.pubOf(b.priv));
    assert s == c.shared(b.priv, c.pubOf(a.priv));
    PickMirrors(s.value, a.local, a.peer);
    var a1 := Step(c, a, Hears(Says(c, b)));
    var b1 := Step(c, b, Hears(Says(c, a1)));
    assert b1.ready && b1.outId == a1.inId;
  }

  /** A side that holds a key of a date not earlier does not answer a peer that just started: it changes nothing. */
  lemma OlderPeerIsIgnored(c: Crypto, a: Pair, b: Pair)
    requires a.inited && !b.inited && a.peerPub != c.pubOf(b.priv) && b.pkDate <= a.peerDate
    ensures Step(c, a, Hears(Says(c, b))) == a
  {
    LaterKeyWins(c, a, c.pubOf(b.priv), b.pkDate);
  }

  // ---- the table of channels ----

  /** A message of one pair as it reaches the table. */
  datatype Told = Told(pair: int, op: TableOp)

  function OpsOf(log: seq<Told>, pair: int): seq<TableOp>
    decreases |log|
  {
    if log == [] then []
    else
      var rest, last := OpsOf(log[..|log| - 1], pair), log[|log| - 1];
      if last.pair == pair then rest + [last.op] else rest
  }

  /** The channels registered after all messages of a log. */
  function Channels(log: seq<Told>): set<int>
    decreases |log|
  {
    if log == [] then {}
    else
      var rest := Channels(log[..|log| - 1]);
      match log[|log| - 1].op
      case Register(id) => rest + {id}
      case Unregister(id) => rest - {id}
  }

  /** CHECK(success) in `register_channel` and CHECK(erased == 1) in `unregister_channel` hold for all messages. */
  ghost predicate ChecksHold(log: seq<Told>)
    decreases |log|
  {
    log == [] ||
    var rest := log[..|log| - 1];
    ChecksHold(rest) &&
    match log[|log| - 1].op
    case Register(id) => id !in Channels(rest)
    case Unregister(id) => id in Channels(rest)
  }

  ghost predicate Regular(ops: seq<TableOp>) {
    exists open :: Alternates(ops, open)
  }

  lemma RegularLast(ops: seq<TableOp>, op: TableOp)
    requires Regular(ops + [op])
    ensures Regular(ops)
    ensures op.Register? ==> forall x :: !Alternates(ops, Some(x)) && (Alternates(ops + [op], Some(x)) <==> x == op.id)
    ensures op.Unregister? ==> forall x :: (Alternates(ops, Some(x)) <==> x == op.id) && !Alternates(ops + [op], Some(x))
  {
    assert (ops + [op])[..|ops|] == ops;
    var open :| Alternates(ops + [op], open);
    assert Alternates(ops, if op.Register? then None else Some(op.id));
  }

  ghost predicate AllRegular(log: seq<Told>) {
    forall p :: Regular(OpsOf(log, p))
  }

  lemma AllRegularBefore(log: seq<Told>)
    requires log != [] && AllRegular(log)
    ensures AllRegular(log[..|log| - 1])
  {
    var rest, last := log[..|log| - 1], log[|log| - 1];
    forall p ensures Regular(OpsOf(rest, p)) {
      assert Regular(OpsOf(log, p));
      if last.pair == p { RegularLast(OpsOf(rest, p), last.op); }
    }
  }

  ghost predicate OpenFor(log: seq<Told>, pair: int, id: int) {
    Alternates(OpsOf(log, pair), Some(id))
  }

  /** If pairs alternate and an id has one owner, every check of the table holds, in every interleaving, and
      exactly the open channels are registered. */
  lemma {:induction false} TableChecksHold(log: seq<Told>, owner: int -> int)
    requires AllRegular(log) && forall t | t in log :: owner(t.op.id) == t.pair
    ensures ChecksHold(log)
    ensures forall id :: id in Channels(log) <==> OpenFor(log, owner(id), id)
    decreases |log|
  {
    if log != [] {
      var rest, last := log[..|log| - 1], log[|log| - 1];
      AllRegularBefore(log);
      TableChecksHold(rest, owner);
      assert last in log && Regular(OpsOf(log, last.pair));
      RegularLast(OpsOf(rest, last.pair), last.op);
      forall id ensures id in Channels(log) <==> OpenFor(log, owner(id), id) {
        assert id in Channels(rest) <==> OpenFor(rest, owner(id), id);
        if owner(id) != last.pair { assert id != last.op.id; }
      }
      assert last.op.id in Channels(rest) <==> OpenFor(rest, last.pair, last.op.id);
    }
  }

  lemma {:induction false} AlternatesPrefix(ops: seq<TableOp>, open: Option<int>, n: nat)
    requires Alternates(ops, open) && n <= |ops|
    ensures Regular(ops[..n])
    decreases |ops|
  {
    if n == |ops| {
      assert ops[..n] == ops;
    } else {
      var rest := ops[..|ops| - 1];
      assert rest[..n] == ops[..n];
      match ops[|ops| - 1] {
        case Register(id) => AlternatesPrefix(rest, None, n);
        case Unregister(id) => AlternatesPrefix(rest, Some(id), n);
      }
    }
  }

  /** The table sees of every pair a beginning of what it sends: then no check fails. */
  lemma PairsAndTable(log: seq<Told>, owner: int -> int, sent: int -> seq<TableOp>, c: Crypto, start: int -> Pair, events: int -> seq<Event>)
    requires forall t | t in log :: owner(t.op.id) == t.pair
    requires forall p :: start(p) == Fresh(start(p).local, start(p).peer, start(p).priv, start(p).pkDate)
    requires forall p :: sent(p) == TornDown(Run(c, start(p), events(p))).toTable
    requires forall p :: OpsOf(log, p) <= sent(p)
    ensures ChecksHold(log)
  {
    forall p ensures Regular(OpsOf(log, p)) {
      PairRun(c, start(p).local, start(p).peer, start(p).priv, start(p).pkDate, events(p));
      AlternatesPrefix(sent(p), None, |OpsOf(log, p)|);
      assert sent(p)[..|OpsOf(log, p)|] == OpsOf(log, p);
    }
    TableChecksHold(log, owner);
  }

  class ChannelTable {
    /** The pair an id belongs to. */
    ghost const owner: int -> int
    var channels: set<int>
    /** All messages so far. */
    ghost var log: seq<Told>

    ghost predicate Valid()
      reads this
    {
      channels == Channels(log) && forall t | t in log :: owner(t.op.id) == t.pair
    }

    constructor (ghost owner: int -> int)
      ensures Valid() && log == [] && this.owner == owner
    {
      this.owner := owner;
      channels, log := {}, [];
    }

    /** Every pair alternates, and an id belongs to one pair: then CHECK(success) holds. */
    method RegisterChannel(id: int, ghost pair: int)
      requires Valid() && owner(id) == pair && AllRegular(log + [Told(pair, Register(id))])
      modifies this
      ensures Valid() && log == old(log) + [Told(pair, Register(id))]
      ensures id !in old(channels) && channels == old(channels) + {id}
    {
      ghost var log' := log + [Told(pair, Register(id))];
      TableChecksHold(log', owner);
      assert log'[..|log|] == log;
      // CHECK(success)
      assert id !in channels;
      channels := channels + {id};
      log := log';
    }

    /** Likewise CHECK(erased == 1). */
    method UnregisterChannel(id: int, ghost pair: int)
      requires Valid() && owner(id) == pair && AllRegular(log + [Told(pair, Unregister(id))])
      modifies this
      ensures Valid() && log == old(log) + [Told(pair, Unregister(id))]
      ensures id in old(channels) && channels == old(channels) - {id}
    {
      ghost var log' := log + [Told(pair, Unregister(id))];
      TableChecksHold(log', owner);
      assert log'[..|log|] == log;
      // CHECK(erased == 1)
      assert id in channels;
      channels := channels - {id};
      log := log';
    }
  }
}
