/** What becomes of a remote node in a bucket, told from what was heard of it and when it was looked at. */
module NodeLife {
  import opened Bucket
  import opened Keys
  import opened Options

  /** The node announced itself, answered a ping (both make it active) or was mentioned; or the periodic pass came by. */
  datatype Event = Heard(node: DhtNode, now: real, active: bool) | Pass(now: real)

  function Step(r: RemoteNode, e: Event): RemoteNode {
    match e
    case Heard(n, now, active) => r.Refreshed(n, now, active).0
    case Pass(now) => r.Checked(now)
  }

  function Run(r: RemoteNode, es: seq<Event>): RemoteNode {
    if es == [] then r else Step(Run(r, es[..|es| - 1]), es[|es| - 1])
  }

  // ---- the announcement kept ----

  /** An announcement of this node that is signed. */
  ghost predicate Genuine(first: DhtNode, es: seq<Event>, n: DhtNode) {
    n == first || (n.key == first.key && n.validSignature && exists i :: 0 <= i < |es| && es[i].Heard? && es[i].node == n)
  }

  lemma GenuineMore(first: DhtNode, es: seq<Event>, n: DhtNode)
    requires es != []
    ensures Genuine(first, es, n)
      <==> Genuine(first, es[..|es| - 1], n) || (n.key == first.key && n.validSignature && es[|es| - 1].Heard? && es[|es| - 1].node == n)
  {
    var front, last := es[..|es| - 1], |es| - 1;
    if n != first && Genuine(first, es, n) {
      var i :| 0 <= i < |es| && es[i].Heard? && es[i].node == n;
      assert i == last || front[i] == es[i];
    }
    if n != first && Genuine(first, front, n) {
      var i :| 0 <= i < |front| && front[i].Heard? && front[i].node == n;
      assert es[i] == front[i];
    }
  }

  /** Whatever was heard and in whatever order, the announcement kept is a signed one, and no signed one heard is newer. */
  lemma {:induction false} NewestIsKept(first: DhtNode, born: real, es: seq<Event>)
    ensures var r := Run(NewNode(first, born), es);
      r.id == first.key == r.node.key && Genuine(first, es, r.node) && forall n | Genuine(first, es, n) :: n.version <= r.node.version
    decreases |es|
  {
    if es != [] {
      var front := es[..|es| - 1];
      NewestIsKept(first, born, front);
      var r, r' := Run(NewNode(first, born), front), Run(NewNode(first, born), es);
      GenuineMore(first, es, r'.node);
      forall n | Genuine(first, es, n) ensures n.version <= r'.node.version {
        GenuineMore(first, es, n);
      }
    }
  }

  // ---- readiness ----

  /** What was heard tells that the node is alive: it came from the node itself, and is signed or nothing new. */
  predicate Alive(r: RemoteNode, e: Event) {
    e.Heard? && e.active && e.node.key == r.node.key && (e.node.validSignature || e.node.version <= r.node.version)
  }

  /** The time between pings: a minute, and after more than three unanswered ones a tenth more each, up to four hours. */
  function Interval(unanswered: nat): real {
    if unanswered <= 3 then 60.0
    else if Interval(unanswered - 1) * 1.1 < 14400.0 then Interval(unanswered - 1) * 1.1 else 14400.0
  }

  /** Pings sent since the node was last known to be alive. */
  function Unanswered(r: RemoteNode, es: seq<Event>): nat {
    if es == [] then 0
    else
      var front, e := es[..|es| - 1], es[|es| - 1];
      if Alive(Run(r, front), e) then 0
      else Unanswered(r, front) + if e.Pass? && e.now - LastPing(r, front) > Interval(Unanswered(r, front)) then 1 else 0
  }

  /** When the last ping was sent. */
  function LastPing(r: RemoteNode, es: seq<Event>): real {
    if es == [] then 0.0
    else
      var front, e := es[..|es| - 1], es[|es| - 1];
      if e.Pass? && e.now - LastPing(r, front) > Interval(Unanswered(r, front)) then e.now else LastPing(r, front)
  }

  predicate EverAlive(r: RemoteNode, es: seq<Event>) {
    es != [] && (EverAlive(r, es[..|es| - 1]) || Alive(Run(r, es[..|es| - 1]), es[|es| - 1]))
  }

  ghost predicate Timely(es: seq<Event>) {
    forall e | e in es :: e.now > 0.0
  }

  lemma OneStep(r: RemoteNode, e: Event, unanswered: nat, last: real)
    requires r.missed == unanswered && r.lastPingAt == last && r.pingInterval == Interval(unanswered) && r.readyFrom >= 0.0
    requires (r.Ready() ==> unanswered <= 3) && e.now > 0.0
    ensures var r' := Step(r, e);
      var pinged := e.Pass? && e.now - last > Interval(unanswered);
      && r'.missed == (if Alive(r, e) then 0 else if pinged then unanswered + 1 else unanswered)
      && r'.lastPingAt == (if pinged then e.now else last)
      && r'.pingInterval == Interval(r'.missed) && r'.readyFrom >= 0.0
      && (r'.Ready() <==> Alive(r, e) || (r.Ready() && r'.missed <= 3))
      && r'.failedFrom == if r.Ready() && !r'.Ready() then e.now else r.failedFrom
  {
  }

  /** Over every run: a node is ready exactly if it was ever known to be alive and at most three pings were sent since the
      last time; pings are counted and spaced as told. */
  lemma {:induction false} ReadyIff(first: DhtNode, born: real, es: seq<Event>)
    requires Timely(es)
    ensures var n := NewNode(first, born); var r := Run(n, es);
      && (r.Ready() <==> EverAlive(n, es) && Unanswered(n, es) <= 3)
      && r.missed == Unanswered(n, es) && r.lastPingAt == LastPing(n, es) && r.pingInterval == Interval(Unanswered(n, es))
      && r.readyFrom >= 0.0
    decreases |es|
  {
    if es != [] {
      var n, front, e := NewNode(first, born), es[..|es| - 1], es[|es| - 1];
      assert forall x | x in front :: x in es;
      assert e in es;
      ReadyIff(first, born, front);
      OneStep(Run(n, front), e, Unanswered(n, front), LastPing(n, front));
    }
  }

  /** A node that is not ready has been so since it was created or since a fourth ping in a row went unanswered: from then
      on the minute runs after which it may be replaced. */
  lemma FailedSince(first: DhtNode, born: real, es: seq<Event>, e: Event)
    requires Timely(es + [e])
    ensures var n := NewNode(first, born); var r, r' := Run(n, es), Run(n, es + [e]);
      && r'.failedFrom == (if r.Ready() && !r'.Ready() then e.now else r.failedFrom)
      && (r.Ready() && !r'.Ready() <==> EverAlive(n, es) && Unanswered(n, es) == 3 && Unanswered(n, es + [e]) == 4)
  {
    var n := NewNode(first, born);
    assert (es + [e])[..|es|] == es;
    assert (forall x | x in es :: x in es + [e]) && e in es + [e];
    ReadyIff(first, born, es);
    ReadyIff(first, born, es + [e]);
    OneStep(Run(n, es), e, Unanswered(n, es), LastPing(n, es));
  }

  lemma DroppableIff(first: DhtNode, born: real, es: seq<Event>, now: real)
    requires Timely(es)
    ensures var n := NewNode(first, born); var r := Run(n, es);
      r.Droppable(now) <==> !(EverAlive(n, es) && Unanswered(n, es) <= 3) && now - r.failedFrom > 60.0
  {
    ReadyIff(first, born, es);
  }

  // ---- the nodes of a bucket ----

  /** What happens to a bucket: a node announced itself or was mentioned, answered a ping, or the periodic pass came by. */
  datatype BucketEvent =
    | Enter(id: Key, node: DhtNode, now: real, active: bool)
    | Answer(id: Key, node: DhtNode, now: real)
    | Check(now: real)

  type Slots = (seq<Slot>, seq<Slot>)

  ghost predicate Next(s: Slots, e: BucketEvent, s': Slots) {
    match e
    case Enter(id, node, now, active) => Entered(s.0, s.1, s'.0, s'.1, id, node, now, active)
    case Answer(id, node, now) => Answered(s.0, s.1, s'.0, s'.1, id, node, now)
    case Check(now) => Passed(s.0, s.1, s'.0, s'.1, now)
  }

  ghost function Nodes(s: Slots): set<RemoteNode> {
    NodesIn(s.0) + NodesIn(s.1)
  }

  /** What a node of the bucket hears of it. */
  function Told(b: BucketEvent): Event {
    match b
    case Enter(_, node, now, active) => Heard(node, now, active)
    case Answer(_, node, now) => Heard(node, now, true)
    case Check(now) => Pass(now)
  }

  /** Where a node of the bucket comes from: it was there, one that was there heard of the event, or it is new. */
  ghost predicate ComesFrom(s: Slots, e: BucketEvent, n: RemoteNode) {
    || n in Nodes(s)
    || (exists m :: m in Nodes(s) && n == Step(m, Told(e)))
    || (e.Enter? && (n == NewNode(e.node, e.now) || (e.active && n == Step(NewNode(e.node, e.now), Told(e)))))
  }

  lemma PlacedFrom(s: seq<Slot>, s': seq<Slot>, n: RemoteNode, now: real)
    requires Placed(s, s', n, now)
    ensures forall x | x in NodesIn(s') :: x in NodesIn(s) || x == n
  {
    if s' != s {
      var r: nat :| Victim(s, r, now) && s' == s[r := Some(n)];
      forall x | x in NodesIn(s') ensures x in NodesIn(s) || x == n {
        var i :| 0 <= i < |s'| && s'[i] == Some(x);
        if i != r { assert s[i] == Some(x); }
      }
    }
  }

  lemma EnterFrom(s: Slots, e: BucketEvent, s': Slots, n: RemoteNode)
    requires e.Enter? && Next(s, e, s') && n in Nodes(s')
    ensures ComesFrom(s, e, n)
  {
    if e.id in KeysOf(Nodes(s)) {
      var m :| m in Nodes(s) && m.id == e.id;
      assert Nodes(s') == Nodes(s) - {m} + {Step(m, Told(e))};
    } else if e.node.validSignature {
      if !(e.active && Free(s.0) > 0) { PlacedFrom(s.1, s'.1, NewNode(e.node, e.now), e.now); }
    }
  }

  lemma NextFrom(s: Slots, e: BucketEvent, s': Slots, n: RemoteNode)
    requires Next(s, e, s') && n in Nodes(s')
    ensures ComesFrom(s, e, n)
  {
    match e
    case Enter(_, _, _, _) => EnterFrom(s, e, s', n);
    case Answer(id, node, now) =>
      if id in KeysOf(Nodes(s)) {
        var m :| m in Nodes(s) && m.id == id;
        assert Nodes(s') == Nodes(s) - {m} + {Step(m, Told(e))};
      }
    case Check(now) =>
      var m :| m in Nodes(s) && n == m.Checked(now);
      assert n == Step(m, Told(e));
  }

  ghost predicate IsRun(ss: seq<Slots>, es: seq<BucketEvent>) {
    && |ss| == |es| + 1 && Nodes(ss[0]) == {}
    && forall i | 0 <= i < |es| :: Next(ss[i], es[i], ss[i + 1]) && es[i].now > 0.0
  }

  /** All that a node heard was told to the bucket. */
  ghost predicate ToldTo(es: seq<BucketEvent>, h: seq<Event>) {
    forall x | x in h :: x.now > 0.0 && exists b :: b in es && x == Told(b)
  }

  /** The node is what a new one became by what the bucket was told. */
  ghost predicate Lives(es: seq<BucketEvent>, n: RemoteNode, first: DhtNode, born: real, h: seq<Event>) {
    n == Run(NewNode(first, born), h) && ToldTo(es, h)
  }

  ghost predicate HasLived(es: seq<BucketEvent>, n: RemoteNode) {
    exists first, born, h :: Lives(es, n, first, born, h)
  }

  lemma LivesOn(es: seq<BucketEvent>, e: BucketEvent, m: RemoteNode)
    requires HasLived(es, m) && e.now > 0.0
    ensures HasLived(es + [e], m) && HasLived(es + [e], Step(m, Told(e)))
  {
    var first, born, h :| Lives(es, m, first, born, h);
    var all := es + [e];
    assert forall b | b in es :: b in all;
    assert e in all;
    assert Lives(all, m, first, born, h);
    var h' := h + [Told(e)];
    assert h'[..|h'| - 1] == h;
    assert Lives(all, Step(m, Told(e)), first, born, h');
  }

  lemma LivesAnew(es: seq<BucketEvent>, e: BucketEvent)
    requires e.Enter? && e.now > 0.0
    ensures HasLived(es + [e], NewNode(e.node, e.now)) && HasLived(es + [e], Step(NewNode(e.node, e.now), Told(e)))
  {
    assert e in es + [e];
    var none: seq<Event> := [];
    assert Lives(es + [e], NewNode(e.node, e.now), e.node, e.now, none);
    assert [Told(e)][..0] == none;
    assert Lives(es + [e], Step(NewNode(e.node, e.now), Told(e)), e.node, e.now, [Told(e)]);
  }

  /** In every state of every run of a bucket, every node is what a new one became by what the bucket was told. */
  lemma {:induction false} NodesHaveLived(ss: seq<Slots>, es: seq<BucketEvent>, k: nat, n: RemoteNode)
    requires IsRun(ss, es) && k < |ss| && n in Nodes(ss[k])
    ensures HasLived(es[..k], n)
    decreases k
  {
    if k > 0 {
      var s, e := ss[k - 1], es[k - 1];
      assert Next(s, e, ss[k]) && es[..k] == es[..k - 1] + [e];
      NextFrom(s, e, ss[k], n);
      if n in Nodes(s) {
        NodesHaveLived(ss, es, k - 1, n);
        LivesOn(es[..k - 1], e, n);
      } else if m :| m in Nodes(s) && n == Step(m, Told(e)) {
        NodesHaveLived(ss, es, k - 1, m);
        LivesOn(es[..k - 1], e, m);
      } else {
        LivesAnew(es[..k - 1], e);
      }
    }
  }

  /** Hence, in every state of every run, a node is ready only if it announced itself or answered a ping, itself and
      signed, and since then at most three pings were sent to it. */
  lemma ReadyNodesAreAlive(ss: seq<Slots>, es: seq<BucketEvent>, k: nat, n: RemoteNode)
    requires IsRun(ss, es) && k < |ss| && n in Nodes(ss[k])
    ensures exists first, born, h :: (
      && Lives(es[..k], n, first, born, h)
      && (n.Ready() <==> EverAlive(NewNode(first, born), h) && Unanswered(NewNode(first, born), h) <= 3))
  {
    NodesHaveLived(ss, es, k, n);
    var first, born, h :| Lives(es[..k], n, first, born, h);
    ReadyIff(first, born, h);
  }
}
