/** The peer pairs of one local id, and the collection of idle ones. Peers are numbered in the order of their ids;
    times are positive, and 0 stands for never. */
module PeerPairs {
  import opened TtlIndex

  const MAX_IDLE_PEER_PAIRS: nat := 2048

  type Peer = nat

  datatype Pair = Pair(idle: bool, markedIdleAt: real)

  const BUSY := Pair(false, 0.0)

  function Rank(): Peer -> nat {
    (p: Peer) => p
  }

  /** The pairs of a local id, and how often each peer was protected. */
  datatype Peers = Peers(pairs: map<Peer, Pair>, guards: map<Peer, nat>) {
    /** The pairs that may be collected, with the time they became idle. */
    ghost function Idle(): map<Peer, real> {
      map p | p in pairs && pairs[p].idle && p !in guards :: pairs[p].markedIdleAt
    }

    ghost predicate Valid() {
      && (forall p | p in pairs :: if pairs[p].idle then pairs[p].markedIdleAt > 0.0 else pairs[p].markedIdleAt == 0.0)
      && (forall p | p in guards :: guards[p] > 0)
    }

    function Marked(p: Peer, idle: bool, now: real): Peers {
      if p in pairs && pairs[p].idle != idle then this.(pairs := pairs[p := Pair(idle, if idle then now else 0.0)]) else this
    }

    /** The pair of a peer is asked for: it exists now, and is not idle. */
    function Asked(p: Peer): Peers {
      this.(pairs := pairs[p := BUSY])
    }

    function Guard(p: Peer): Peers {
      this.(guards := guards[p := if p in guards then guards[p] + 1 else 1])
    }

    function Unguard(p: Peer): Peers {
      if p !in guards then this
      else if guards[p] > 1 then this.(guards := guards[p := guards[p] - 1])
      else this.(guards := guards - {p})
    }
  }

  function GuardAll(s: Peers, ps: seq<Peer>): Peers {
    if ps == [] then s else GuardAll(s, ps[..|ps| - 1]).Guard(ps[|ps| - 1])
  }

  function UnguardAll(s: Peers, ps: seq<Peer>): Peers {
    if ps == [] then s else UnguardAll(s, ps[..|ps| - 1]).Unguard(ps[|ps| - 1])
  }

  // ---- what may be collected after each change ----

  lemma IndexErase(m: map<Peer, real>, k: Peer, t: real)
    requires k in m ==> m[k] == t
    ensures IndexOf(m - {k}) == IndexOf(m) - {Entry(t, k)}
  {
    if k in m {
      IndexRemove(m, k);
    } else {
      assert m - {k} == m;
    }
  }

  lemma IndexAdd(m: map<Peer, real>, k: Peer, t: real)
    requires k !in m
    ensures IndexOf(m[k := t]) == IndexOf(m) + {Entry(t, k)}
  {
    IndexInsert(m, k, t);
    assert m - {k} == m;
  }

  lemma IdleBusy(s: Peers, p: Peer)
    ensures s.(pairs := s.pairs[p := BUSY]).Idle() == s.Idle() - {p}
  {
  }

  lemma IdleMarked(s: Peers, p: Peer, now: real)
    requires p in s.pairs && !s.pairs[p].idle
    ensures var s' := s.(pairs := s.pairs[p := Pair(true, now)]);
      s'.Idle() == (if p in s.guards then s.Idle() else s.Idle()[p := now]) && p !in s.Idle()
  {
  }

  lemma IdleErased(s: Peers, p: Peer)
    ensures s.(pairs := s.pairs - {p}).Idle() == s.Idle() - {p}
  {
  }

  lemma IdleGuarded(s: Peers, p: Peer)
    ensures s.Guard(p).Idle() == s.Idle() - {p}
  {
  }

  lemma IdleUnguarded(s: Peers, p: Peer)
    ensures var s', m := s.Unguard(p), s.Idle();
      s'.Idle() == if p in s.guards && p !in s'.guards && p in s.pairs && s.pairs[p].idle then m[p := s.pairs[p].markedIdleAt] else m
    ensures p in s.guards ==> p !in s.Idle()
  {
  }

  // ---- collection ----

  ghost function NeverDue(): real -> bool {
    (t: real) => false
  }

  /** `r` is `s` after collecting the longest idle: only idle pairs that nobody protects are gone, all that are left
      became idle later than those, and pairs are gone only if `MAX_IDLE_PEER_PAIRS` idle ones are left. */
  ghost predicate Collects(s: Peers, r: Peers) {
    && r.guards == s.guards
    && (forall p | p in r.pairs :: p in s.pairs && r.pairs[p] == s.pairs[p])
    && (forall p | p in s.pairs && p !in s.Idle() :: p in r.pairs)
    && FrontRemoved(Rank(), NeverDue(), MAX_IDLE_PEER_PAIRS, s.Idle(), r.Idle())
  }

  lemma CollectsNone(s: Peers)
    ensures Collects(s, s)
  {
  }

  lemma CollectsMore(s: Peers, r: Peers, d: Peer)
    requires Collects(s, r) && IsFront(Rank(), r.Idle(), d) && |r.Idle()| > MAX_IDLE_PEER_PAIRS
    ensures Collects(s, r.(pairs := r.pairs - {d}))
    ensures |r.(pairs := r.pairs - {d}).Idle()| < |r.Idle()|
  {
    IdleErased(r, d);
    assert DownwardClosed(NeverDue());
    RemoveFront(Rank(), NeverDue(), MAX_IDLE_PEER_PAIRS, s.Idle(), r.Idle(), d);
    assert d in s.Idle();
  }

  // ---- runs ----

  datatype Event =
    | Ask(peer: Peer)
    | Mark(peer: Peer, idle: bool, now: real)
    | Protect(peers: seq<Peer>)
    | Unprotect(peers: seq<Peer>)

  /** The change an event makes, before collection. */
  function Changed(s: Peers, e: Event): Peers {
    match e
    case Ask(p) => s.Asked(p)
    case Mark(p, idle, now) => s.Marked(p, idle, now)
    case Protect(ps) => GuardAll(s, ps)
    case Unprotect(ps) => UnguardAll(s, ps)
  }

  /** Pairs are collected only after one was marked idle or lost protection. */
  predicate Collecting(s: Peers, e: Event) {
    (e.Mark? && e.idle && e.peer in s.pairs && !s.pairs[e.peer].idle) || e.Unprotect?
  }

  ghost predicate Next(s: Peers, e: Event, s': Peers) {
    if Collecting(s, e) then Collects(Changed(s, e), s') && |s'.Idle()| <= MAX_IDLE_PEER_PAIRS else s' == Changed(s, e)
  }

  ghost predicate Steady(s: Peers) {
    s.Valid() && |s.Idle()| <= MAX_IDLE_PEER_PAIRS
  }

  lemma ShrinksBy(m: map<Peer, real>, p: Peer)
    ensures |m - {p}| <= |m|
  {
    assert (m - {p}).Keys == m.Keys - {p};
    if p in m { assert |m.Keys - {p}| == |m.Keys| - 1; } else { assert m.Keys - {p} == m.Keys; }
  }

  lemma {:induction false} GuardAllKeeps(s: Peers, ps: seq<Peer>)
    requires s.Valid()
    ensures GuardAll(s, ps).Valid() && |GuardAll(s, ps).Idle()| <= |s.Idle()| && GuardAll(s, ps).pairs == s.pairs
  {
    if ps != [] {
      var n := |ps| - 1;
      GuardAllKeeps(s, ps[..n]);
      var g := GuardAll(s, ps[..n]);
      IdleGuarded(g, ps[n]);
      ShrinksBy(g.Idle(), ps[n]);
    }
  }

  lemma {:induction false} UnguardAllKeeps(s: Peers, ps: seq<Peer>)
    requires s.Valid()
    ensures UnguardAll(s, ps).Valid() && UnguardAll(s, ps).pairs == s.pairs
  {
    if ps != [] { UnguardAllKeeps(s, ps[..|ps| - 1]); }
  }

  lemma BusyKeeps(s: Peers, p: Peer)
    requires s.Valid()
    ensures s.Asked(p).Valid() && |s.Asked(p).Idle()| <= |s.Idle()|
  {
    IdleBusy(s, p);
    ShrinksBy(s.Idle(), p);
  }

  lemma ChangedValid(s: Peers, e: Event)
    requires s.Valid() && (e.Mark? ==> e.now > 0.0)
    ensures Changed(s, e).Valid()
    ensures !Collecting(s, e) ==> |Changed(s, e).Idle()| <= |s.Idle()|
  {
    match e {
      case Ask(p) => BusyKeeps(s, p);
      case Mark(p, idle, now) =>
        if p in s.pairs && s.pairs[p].idle && !idle { BusyKeeps(s, p); }
      case Protect(ps) => GuardAllKeeps(s, ps);
      case Unprotect(ps) => UnguardAllKeeps(s, ps);
    }
  }

  lemma NextSteady(s: Peers, e: Event, s': Peers)
    requires Steady(s) && Next(s, e, s') && (e.Mark? ==> e.now > 0.0)
    ensures Steady(s')
  {
    ChangedValid(s, e);
  }

  ghost predicate IsRun(ss: seq<Peers>, es: seq<Event>) {
    && |ss| == |es| + 1 && ss[0] == Peers(map[], map[])
    && forall i | 0 <= i < |es| :: Next(ss[i], es[i], ss[i + 1]) && (es[i].Mark? ==> es[i].now > 0.0)
  }

  /** In every state of every run at most `MAX_IDLE_PEER_PAIRS` pairs may be collected. */
  lemma {:induction false} RunSteady(ss: seq<Peers>, es: seq<Event>, n: nat)
    requires IsRun(ss, es) && n < |ss|
    ensures Steady(ss[n])
    decreases n
  {
    if n == 0 {
      assert ss[0].Idle() == map[];
    } else {
      RunSteady(ss, es, n - 1);
      NextSteady(ss[n - 1], es[n - 1], ss[n]);
    }
  }

  /** A pair that goes was idle and protected by nobody, every idle pair that stays became idle later, and
      `MAX_IDLE_PEER_PAIRS` of those stay. In particular a pair just asked for does not go. */
  lemma OnlyLongestIdleGo(s: Peers, e: Event, s': Peers, p: Peer)
    requires s.Valid() && Next(s, e, s') && p in s.pairs && p !in s'.pairs && (e.Mark? ==> e.now > 0.0)
    ensures Collecting(s, e) && p !in s'.guards && p in Changed(s, e).Idle()
    ensures s.pairs[p].idle || e == Mark(p, true, Changed(s, e).pairs[p].markedIdleAt)
    ensures |s'.Idle()| == MAX_IDLE_PEER_PAIRS
    ensures forall q | q in s'.Idle() ::
      Before(Rank(), Entry(Changed(s, e).Idle()[p], p), Entry(s'.Idle()[q], q))
  {
    var c := Changed(s, e);
    match e {
      case Ask(_) =>
      case Mark(_, _, _) =>
      case Protect(ps) => GuardAllKeeps(s, ps);
      case Unprotect(ps) => UnguardAllKeeps(s, ps);
    }
    assert p in c.Idle() && p !in s'.Idle();
  }

  // ---- protection and idleness, told from what happened ----

  function Occurs(ps: seq<Peer>, p: Peer): nat {
    if ps == [] then 0 else Occurs(ps[..|ps| - 1], p) + if ps[|ps| - 1] == p then 1 else 0
  }

  /** The protections of a peer not yet released, after one more event. */
  function ProtectionsThen(n: nat, e: Event, p: Peer): nat {
    match e
    case Protect(ps) => n + Occurs(ps, p)
    case Unprotect(ps) => if Occurs(ps, p) <= n then n - Occurs(ps, p) else 0
    case _ => n
  }

  /** How often a peer was protected and not released since. A release counts only while the peer is protected. */
  function Protections(es: seq<Event>, p: Peer): nat
    decreases |es|
  {
    if es == [] then 0 else ProtectionsThen(Protections(es[..|es| - 1], p), es[|es| - 1], p)
  }

  /** The time since when a pair is idle, after one more event. */
  function IdleThen(since: real, e: Event, p: Peer): real {
    match e
    case Ask(q) => if q == p then 0.0 else since
    case Mark(q, idle, now) => if q != p then since else if !idle then 0.0 else if since == 0.0 then now else since
    case _ => since
  }

  /** When a pair was last marked idle while it was busy; 0 if it was asked for or marked busy since. */
  function IdleSince(es: seq<Event>, p: Peer): real
    decreases |es|
  {
    if es == [] then 0.0 else IdleThen(IdleSince(es[..|es| - 1], p), es[|es| - 1], p)
  }

  function Held(s: Peers, p: Peer): nat {
    if p in s.guards then s.guards[p] else 0
  }

  lemma {:induction false} GuardAllCounts(s: Peers, ps: seq<Peer>, p: Peer)
    ensures Held(GuardAll(s, ps), p) == Held(s, p) + Occurs(ps, p)
  {
    if ps != [] { GuardAllCounts(s, ps[..|ps| - 1], p); }
  }

  lemma {:induction false} UnguardAllCounts(s: Peers, ps: seq<Peer>, p: Peer)
    requires s.Valid()
    ensures Held(UnguardAll(s, ps), p) == if Occurs(ps, p) <= Held(s, p) then Held(s, p) - Occurs(ps, p) else 0
  {
    if ps != [] {
      UnguardAllCounts(s, ps[..|ps| - 1], p);
      UnguardAllKeeps(s, ps[..|ps| - 1]);
    }
  }

  /** The pair, if there is one, has been idle since then, or is busy. */
  ghost predicate IdleAs(s: Peers, p: Peer, since: real) {
    p in s.pairs ==> s.pairs[p] == Pair(since > 0.0, since)
  }

  lemma NextCounts(s: Peers, e: Event, s': Peers, p: Peer)
    requires s.Valid() && Next(s, e, s')
    ensures Held(s', p) == ProtectionsThen(Held(s, p), e, p)
  {
    match e {
      case Ask(_) =>
      case Mark(_, _, _) =>
      case Protect(ps) => GuardAllCounts(s, ps, p);
      case Unprotect(ps) => UnguardAllCounts(s, ps, p);
    }
  }

  lemma ChangedIdle(s: Peers, e: Event, p: Peer, since: real)
    requires s.Valid() && (e.Mark? ==> e.now > 0.0) && since >= 0.0 && IdleAs(s, p, since)
    ensures IdleAs(Changed(s, e), p, IdleThen(since, e, p))
  {
    match e {
      case Ask(_) =>
      case Mark(_, _, _) =>
      case Protect(ps) => GuardAllKeeps(s, ps);
      case Unprotect(ps) => UnguardAllKeeps(s, ps);
    }
  }

  /** In every state of every run a peer is protected exactly if it was protected more often than released, and the
      difference is the count kept; and every pair is idle since the time the events tell. */
  lemma {:induction false} RunCounts(ss: seq<Peers>, es: seq<Event>, n: nat, p: Peer)
    requires IsRun(ss, es) && n < |ss|
    ensures (p in ss[n].guards <==> Protections(es[..n], p) > 0) && Held(ss[n], p) == Protections(es[..n], p)
    ensures IdleSince(es[..n], p) >= 0.0 && IdleAs(ss[n], p, IdleSince(es[..n], p))
    decreases n
  {
    if n > 0 {
      RunCounts(ss, es, n - 1, p);
      RunSteady(ss, es, n - 1);
      RunSteady(ss, es, n);
      assert es[..n][..n - 1] == es[..n - 1] && es[..n][n - 1] == es[n - 1];
      assert Next(ss[n - 1], es[n - 1], ss[n]);
      NextCounts(ss[n - 1], es[n - 1], ss[n], p);
      ChangedIdle(ss[n - 1], es[n - 1], p, IdleSince(es[..n - 1], p));
    }
  }

  /** Peer `q` is not protected, and became idle after `p`; at equal times the order of ids decides. */
  ghost predicate IdleLater(es: seq<Event>, p: Peer, q: Peer) {
    && Protections(es, q) == 0 && IdleSince(es, q) > 0.0
    && Before(Rank(), Entry(IdleSince(es, p), p), Entry(IdleSince(es, q), q))
  }

  /** Over every run: a pair that is collected was idle, with no protection that was not released, and every pair left that
      could have gone instead was idle for less long (with equal times, has the larger id); 2048 such are left. */
  lemma CollectedOnly(ss: seq<Peers>, es: seq<Event>, n: nat, p: Peer, s': Peers, told: seq<Event>)
    requires IsRun(ss, es) && n < |es| && s' == ss[n + 1] && told == es[..n + 1] && p in ss[n].pairs && p !in s'.pairs
    ensures Protections(told, p) == 0 && IdleSince(told, p) > 0.0
    ensures |s'.Idle()| == MAX_IDLE_PEER_PAIRS
    ensures forall q | q in s'.Idle() :: IdleLater(told, p, q)
  {
    var s, e := ss[n], es[n];
    assert Next(s, e, s');
    RunSteady(ss, es, n);
    OnlyLongestIdleGo(s, e, s', p);
    RunCounts(ss, es, n, p);
    RunCounts(ss, es, n + 1, p);
    ChangedIdle(s, e, p, IdleSince(es[..n], p));
    assert told[..n] == es[..n] && told[n] == e;
    forall q | q in s'.Idle() ensures IdleLater(told, p, q) {
      RunCounts(ss, es, n + 1, q);
      RunSteady(ss, es, n + 1);
    }
  }

  lemma {:induction false} IndexSize(m: map<Peer, real>)
    ensures |IndexOf(m)| == |m|
    decreases |m|
  {
    if m == map[] {
      assert IndexOf(m) == {};
    } else {
      var k :| k in m;
      IndexRemove(m, k);
      assert (m - {k}).Keys == m.Keys - {k};
      IndexSize(m - {k});
    }
  }

  lemma CollectStep(s: Peers, r: Peers, f: Entry<Peer>)
    requires r.Valid() && Collects(s, r) && |r.Idle()| > MAX_IDLE_PEER_PAIRS && IsFirst(Rank(), f, IndexOf(r.Idle()))
    ensures var r' := r.(pairs := r.pairs - {f.key});
      && r'.Valid() && Collects(s, r') && IndexOf(r'.Idle()) == IndexOf(r.Idle()) - {f}
      && |IndexOf(r'.Idle())| == |r'.Idle()| < |r.Idle()|
  {
    FirstIsFront(Rank(), r.Idle(), f);
    CollectsMore(s, r, f.key);
    IdleErased(r, f.key);
    IndexErase(r.Idle(), f.key, f.at);
    IndexSize(r.(pairs := r.pairs - {f.key}).Idle());
  }

  /** Removes the longest idle pairs until at most `MAX_IDLE_PEER_PAIRS` are left. */
  method CollectIdle(pairs: map<Peer, Pair>, order: set<Entry<Peer>>, ghost guards: map<Peer, nat>)
    returns (left: map<Peer, Pair>, order': set<Entry<Peer>>)
    requires var s := Peers(pairs, guards); s.Valid() && order == IndexOf(s.Idle())
    ensures var s, r := Peers(pairs, guards), Peers(left, guards);
      r.Valid() && order' == IndexOf(r.Idle()) && Collects(s, r) && |r.Idle()| <= MAX_IDLE_PEER_PAIRS
  {
    ghost var s := Peers(pairs, guards);
    left, order' := pairs, order;
    ghost var r := s;
    IndexSize(s.Idle());
    CollectsNone(s);
    while |order'| > MAX_IDLE_PEER_PAIRS
      invariant r == Peers(left, guards) && r.Valid() && Collects(s, r) && order' == IndexOf(r.Idle()) && |order'| == |r.Idle()|
      decreases |order'|
    {
      var f := First(Rank(), order');
      CollectStep(s, r, f);
      left := left - {f.key};
      order' := order' - {f};
      r := r.(pairs := r.pairs - {f.key});
    }
  }

  /** What the table keeps for a local id. */
  class LocalPeers {
    var pairs: map<Peer, Pair>
    var gcOrder: set<Entry<Peer>>
    var guards: map<Peer, nat>

    ghost function State(): Peers
      reads this
    {
      Peers(pairs, guards)
    }

    /** The index holds exactly the pairs that may be collected. */
    ghost predicate Valid()
      reads this
    {
      State().Valid() && gcOrder == IndexOf(State().Idle())
    }

    constructor ()
      ensures Valid() && State() == Peers(map[], map[])
    {
      pairs, gcOrder, guards := map[], {}, map[];
    }

    /** The pair for a peer, created if needed; it is not idle afterwards. */
    method GetPeerPair(p: Peer)
      requires Valid()
      modifies this
      ensures Valid() && State() == old(State()).Asked(p)
    {
      if p !in pairs {
        IdleBusy(State(), p);
        assert State().Idle() - {p} == State().Idle();
        pairs := pairs[p := BUSY];
      }
      MarkBusy(p);
    }

    method MarkBusy(p: Peer)
      requires Valid()
      modifies this
      ensures Valid() && State() == old(State()).Marked(p, false, 0.0)
      ensures p in pairs ==> State() == old(State()).Asked(p)
    {
      if p !in pairs || !pairs[p].idle {
        assert p in pairs ==> pairs[p := BUSY] == pairs;
        return;
      }
      IndexErase(State().Idle(), p, pairs[p].markedIdleAt);
      IdleBusy(State(), p);
      gcOrder := gcOrder - {Entry(pairs[p].markedIdleAt, p)};
      pairs := pairs[p := BUSY];
    }

    method MarkIdle(p: Peer, now: real)
      requires Valid() && now > 0.0
      modifies this
      ensures Valid() && Next(old(State()), Mark(p, true, now), State())
    {
      if p !in pairs || pairs[p].idle {
        return;
      }
      ghost var s := State();
      IdleMarked(s, p, now);
      pairs := pairs[p := Pair(true, now)];
      if p !in guards {
        IndexAdd(s.Idle(), p, now);
        gcOrder := gcOrder + {Entry(now, p)};
      }
      assert State() == s.Marked(p, true, now);
      Collect();
    }

    /** Removes the longest idle pairs until at most `MAX_IDLE_PEER_PAIRS` are left. */
    method Collect()
      requires Valid()
      modifies this
      ensures Valid() && Collects(old(State()), State()) && |State().Idle()| <= MAX_IDLE_PEER_PAIRS
    {
      pairs, gcOrder := CollectIdle(pairs, gcOrder, guards);
    }

    method AddProtectedPeers(ps: seq<Peer>)
      requires Valid()
      modifies this
      ensures Valid() && State() == GuardAll(old(State()), ps)
    {
      for i := 0 to |ps|
        invariant Valid() && State() == GuardAll(old(State()), ps[..i])
      {
        assert ps[..i + 1][..i] == ps[..i];
        AddProtectedPeer(ps[i]);
      }
      assert ps[..|ps|] == ps;
    }

    method AddProtectedPeer(p: Peer)
      requires Valid()
      modifies this
      ensures Valid() && State() == old(State()).Guard(p)
    {
      ghost var m := State().Idle();
      IdleGuarded(State(), p);
      if p in guards {
        assert m - {p} == m;
        guards := guards[p := guards[p] + 1];
      } else {
        guards := guards[p := 1];
        if p in pairs && pairs[p].markedIdleAt > 0.0 {
          IndexErase(m, p, pairs[p].markedIdleAt);
          gcOrder := gcOrder - {Entry(pairs[p].markedIdleAt, p)};
        } else {
          assert m - {p} == m;
        }
      }
    }

    method RemoveProtectedPeers(ps: seq<Peer>)
      requires Valid()
      modifies this
      ensures Valid() && Next(old(State()), Unprotect(ps), State())
    {
      for i := 0 to |ps|
        invariant Valid() && State() == UnguardAll(old(State()), ps[..i])
      {
        assert ps[..i + 1][..i] == ps[..i];
        RemoveProtectedPeer(ps[i]);
      }
      assert ps[..|ps|] == ps;
      Collect();
    }

    method RemoveProtectedPeer(p: Peer)
      requires Valid()
      modifies this
      ensures Valid() && State() == old(State()).Unguard(p)
    {
      IdleUnguarded(State(), p);
      ghost var m := State().Idle();
      if p in guards {
        if guards[p] > 1 {
          guards := guards[p := guards[p] - 1];
        } else {
          guards := guards - {p};
          if p in pairs && pairs[p].markedIdleAt > 0.0 {
            IndexAdd(m, p, pairs[p].markedIdleAt);
            gcOrder := gcOrder + {Entry(pairs[p].markedIdleAt, p)};
          }
        }
      }
    }
  }
}
