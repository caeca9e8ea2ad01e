/** The limiters a local id keeps for the addresses packets come from, and their clean-up. */
module LimiterTable {
  import opened Options
  import opened RateLimiter

  const UNIQUE_PEERS_PER_IP_LIMIT: nat := 60
  /** 75 packets at once, then one every 0.33 seconds. */
  const RATE := RateOf(75, 0.33)

  type Address = int
  type Peer = int

  /** One address: its limiter, the packets handed to the keyring, and the peers heard from lately. */
  datatype Inbound = Inbound(readyAt: real, decrypting: nat, peers: set<Peer>)

  const NEW := Inbound(-RATE.emission, 0, {})

  type Table = map<Address, Inbound>

  function Get(t: Table, a: Address): Inbound {
    if a in t then t[a] else NEW
  }

  /** An entry the clean-up erases. */
  predicate Erasable(e: Inbound, now: real) {
    e.decrypting == 0 && IsFull(RATE, e.readyAt, now) && e.peers == {}
  }

  datatype Outcome = Passed | RateExceeded | Undecryptable | TooManyPeers

  /** A packet arrives from an address. */
  function Arrive(t: Table, a: Address, now: real): (Table, Outcome) {
    var e := Get(t, a);
    var e' := e.(readyAt := Take(RATE, e.readyAt, now));
    if Succeeds(RATE, e.readyAt, now) then (t[a := e'.(decrypting := e.decrypting + 1)], Passed) else (t[a := e'], RateExceeded)
  }

  /** The keyring is done with a packet; `from` is the peer it names, if it could be read. */
  function Decrypted(t: Table, a: Address, from: Option<Peer>): (Table, Outcome)
    requires a in t && t[a].decrypting > 0
  {
    var e := t[a].(decrypting := t[a].decrypting - 1);
    if from.None? then (t[a := e], Undecryptable)
    else if |e.peers| >= UNIQUE_PEERS_PER_IP_LIMIT then (t[a := e], if from.value in e.peers then Passed else TooManyPeers)
    else (t[a := e.(peers := e.peers + {from.value})], Passed)
  }

  function ClearPeers<A>(t: map<A, Inbound>): map<A, Inbound> {
    map a | a in t :: t[a].(peers := {})
  }

  function CleanUp<A>(t: map<A, Inbound>, now: real): map<A, Inbound> {
    map a | a in t && !Erasable(t[a], now) :: t[a]
  }

  method ClearAll<A(==)>(t: map<A, Inbound>) returns (r: map<A, Inbound>)
    ensures r == ClearPeers(t)
  {
    r := t;
    var todo := t.Keys;
    while todo != {}
      invariant todo <= r.Keys == t.Keys
      invariant forall a | a in t :: r[a] == if a in todo then t[a] else t[a].(peers := {})
      decreases |todo|
    {
      var a :| a in todo;
      r := r[a := r[a].(peers := {})];
      todo := todo - {a};
    }
  }

  method EraseAll<A(==)>(t: map<A, Inbound>, now: real) returns (r: map<A, Inbound>)
    ensures r == CleanUp(t, now)
  {
    r := t;
    var todo := t.Keys;
    while todo != {}
      invariant todo <= r.Keys <= t.Keys
      invariant forall a | a in t :: a in r <==> a in todo || !Erasable(t[a], now)
      invariant forall a | a in r :: r[a] == t[a]
      decreases |todo|
    {
      var a :| a in todo;
      if Erasable(r[a], now) {
        r := r - {a};
      }
      todo := todo - {a};
    }
  }

  class LocalId {
    var table: Table

    constructor ()
      ensures table == map[]
    {
      table := map[];
    }

    method Receive(a: Address, now: real) returns (o: Outcome)
      modifies this
      ensures (table, o) == Arrive(old(table), a, now)
    {
      var e := if a in table then table[a] else NEW;
      var readyAt := Clamped(RATE, e.readyAt, now);
      if readyAt > now {
        table := table[a := e.(readyAt := readyAt)];
        return RateExceeded;
      }
      table := table[a := e.(readyAt := readyAt + RATE.period, decrypting := e.decrypting + 1)];
      return Passed;
    }

    method Continue(a: Address, from: Option<Peer>) returns (o: Outcome)
      requires a in table && table[a].decrypting > 0
      modifies this
      ensures (table, o) == Decrypted(old(table), a, from)
    {
      var e := table[a].(decrypting := table[a].decrypting - 1);
      table := table[a := e];
      if from.None? {
        return Undecryptable;
      }
      if |e.peers| >= UNIQUE_PEERS_PER_IP_LIMIT {
        if from.value !in e.peers {
          return TooManyPeers;
        }
      } else {
        table := table[a := e.(peers := e.peers + {from.value})];
        assert table == old(table)[a := e.(peers := e.peers + {from.value})];
      }
      return Passed;
    }

    method ClearRecentPeers()
      modifies this
      ensures table == ClearPeers(old(table))
    {
      table := ClearAll(table);
    }

    method CleanUpLimiters(now: real)
      modifies this
      ensures table == CleanUp(old(table), now)
    {
      table := EraseAll(table, now);
    }
  }

  // ---- runs ----

  datatype Event =
    | Arrival(a: Address, now: real)
    | Decryption(a: Address, from: Option<Peer>)
    | Clearing
    | Cleaning(now: real)

  /** The table, and for every address the packets at the keyring. */
  datatype State = State(table: Table, atKeyring: multiset<Address>, time: real)

  /** Time does not go back, and the keyring answers only what it was asked. */
  ghost predicate Enabled(s: State, e: Event) {
    match e
    case Arrival(a, now) => now >= s.time
    case Decryption(a, _) => a in s.atKeyring
    case Clearing => true
    case Cleaning(now) => now >= s.time
  }

  /** No packet at the keyring has lost its entry, and the counters count them. */
  ghost predicate Counted(s: State) {
    forall a :: s.atKeyring[a] == Get(s.table, a).decrypting
  }

  /** One step; `erases` tells whether the clean-up erases. */
  ghost function Next(s: State, e: Event, erases: bool): (State, Option<Outcome>)
    requires Enabled(s, e) && Counted(s)
  {
    match e
    case Arrival(a, now) =>
      var r := Arrive(s.table, a, now);
      (State(r.0, if r.1 == Passed then s.atKeyring + multiset{a} else s.atKeyring, now), Some(r.1))
    case Decryption(a, from) =>
      assert s.atKeyring[a] == Get(s.table, a).decrypting;
      var r := Decrypted(s.table, a, from);
      (State(r.0, s.atKeyring - multiset{a}, s.time), Some(r.1))
    case Clearing => (s.(table := ClearPeers(s.table)), None)
    case Cleaning(now) => (s.(table := if erases then CleanUp(s.table, now) else s.table, time := now), None)
  }

  lemma ArrivalCounted(s: State, a: Address, now: real)
    requires Counted(s) && now >= s.time
    ensures Counted(Next(s, Arrival(a, now), true).0)
  {
    var s' := Next(s, Arrival(a, now), true).0;
    forall b ensures s'.atKeyring[b] == Get(s'.table, b).decrypting {
      assert s.atKeyring[b] == Get(s.table, b).decrypting;
    }
  }

  lemma DecryptionCounted(s: State, a: Address, from: Option<Peer>)
    requires Counted(s) && a in s.atKeyring
    ensures Counted(Next(s, Decryption(a, from), true).0)
  {
    var s' := Next(s, Decryption(a, from), true).0;
    forall b ensures s'.atKeyring[b] == Get(s'.table, b).decrypting {
      assert s.atKeyring[b] == Get(s.table, b).decrypting;
    }
  }

  lemma SameCounted(s: State, t: Table, time: real)
    requires Counted(s) && forall a :: Get(t, a).decrypting == Get(s.table, a).decrypting
    ensures Counted(State(t, s.atKeyring, time))
  {
  }

  /** An entry with packets still decrypting is never erased. */
  lemma NextCounted(s: State, e: Event, erases: bool)
    requires Enabled(s, e) && Counted(s)
    ensures Counted(Next(s, e, erases).0)
  {
    match e {
      case Arrival(a, now) => ArrivalCounted(s, a, now);
      case Decryption(a, from) => DecryptionCounted(s, a, from);
      case Clearing => SameCounted(s, ClearPeers(s.table), s.time);
      case Cleaning(now) => SameCounted(s, if erases then CleanUp(s.table, now) else s.table, now);
    }
  }

  /** The entry would behave like a new one. */
  predicate Inert(e: Inbound, now: real) {
    e.decrypting == 0 && e.peers == {} && (IsFull(RATE, e.readyAt, now) || e.readyAt == -RATE.emission)
  }

  /** The table that erases agrees with the one that does not, but for entries as good as new. */
  ghost predicate Agree(s: State, n: State) {
    && s.time == n.time >= 0.0 && s.atKeyring == n.atKeyring
    && s.table.Keys <= n.table.Keys
    && forall a | a in n.table :: if a in s.table then s.table[a] == n.table[a] else Inert(n.table[a], s.time)
  }

  /** An inert entry lets the same packets through as a new one. */
  lemma InertTakes(e: Inbound, since: real, now: real)
    requires Inert(e, since) && 0.0 <= since <= now
    ensures Clamped(RATE, e.readyAt, now) == Clamped(RATE, NEW.readyAt, now)
    ensures Inert(e, now)
  {
  }

  lemma ArrivalAgrees(s: State, n: State, a: Address, now: real)
    requires Agree(s, n) && Counted(s) && Counted(n) && now >= s.time
    ensures var r, q := Next(s, Arrival(a, now), true), Next(n, Arrival(a, now), false);
      r.1 == q.1 && Agree(r.0, q.0)
  {
    if a in n.table && a !in s.table { InertTakes(n.table[a], s.time, now); }
    forall b | b in n.table && b !in s.table ensures Inert(n.table[b], now) {
      InertTakes(n.table[b], s.time, now);
    }
  }

  lemma DecryptionAgrees(s: State, n: State, a: Address, from: Option<Peer>)
    requires Agree(s, n) && Counted(s) && Counted(n) && a in s.atKeyring
    ensures var r, q := Next(s, Decryption(a, from), true), Next(n, Decryption(a, from), false);
      r.1 == q.1 && Agree(r.0, q.0)
  {
    assert s.atKeyring[a] == Get(s.table, a).decrypting;
  }

  lemma CleaningAgrees(s: State, n: State, now: real)
    requires Agree(s, n) && Counted(s) && Counted(n) && now >= s.time
    ensures Agree(Next(s, Cleaning(now), true).0, Next(n, Cleaning(now), false).0)
  {
    forall b | b in n.table && b !in s.table ensures Inert(n.table[b], now) {
      InertTakes(n.table[b], s.time, now);
    }
  }

  lemma NextAgrees(s: State, n: State, e: Event)
    requires Agree(s, n) && Counted(s) && Counted(n) && Enabled(s, e)
    ensures Enabled(n, e)
    ensures Next(s, e, true).1 == Next(n, e, false).1 && Agree(Next(s, e, true).0, Next(n, e, false).0)
  {
    match e {
      case Arrival(a, now) => ArrivalAgrees(s, n, a, now);
      case Decryption(a, from) => DecryptionAgrees(s, n, a, from);
      case Clearing =>
      case Cleaning(now) => CleaningAgrees(s, n, now);
    }
  }

  ghost predicate IsRun(s: State, es: seq<Event>, erases: bool)
    requires Counted(s)
    decreases |es|
  {
    es == [] || (Enabled(s, es[0]) && (NextCounted(s, es[0], erases); IsRun(Next(s, es[0], erases).0, es[1..], erases)))
  }

  ghost function Results(s: State, es: seq<Event>, erases: bool): seq<Option<Outcome>>
    requires Counted(s) && IsRun(s, es, erases)
    decreases |es|
  {
    if es == [] then []
    else
      NextCounted(s, es[0], erases);
      [Next(s, es[0], erases).1] + Results(Next(s, es[0], erases).0, es[1..], erases)
  }

  lemma {:induction false} RunsAgree(s: State, n: State, es: seq<Event>)
    requires Agree(s, n) && Counted(s) && Counted(n) && IsRun(s, es, true)
    ensures IsRun(n, es, false) && Results(s, es, true) == Results(n, es, false)
    decreases |es|
  {
    if es != [] {
      NextAgrees(s, n, es[0]);
      NextCounted(s, es[0], true);
      NextCounted(n, es[0], false);
      RunsAgree(Next(s, es[0], true).0, Next(n, es[0], false).0, es[1..]);
    }
  }

  const START := State(map[], multiset{}, 0.0)

  /** On every run the table that erases decides every packet like one that never does. */
  lemma ErasingChangesNothing(es: seq<Event>)
    requires IsRun(START, es, true)
    ensures IsRun(START, es, false) && Results(START, es, true) == Results(START, es, false)
  {
    RunsAgree(START, START, es);
  }

  ghost function Last(s: State, es: seq<Event>, erases: bool): State
    requires Counted(s) && IsRun(s, es, erases)
    decreases |es|
  {
    if es == [] then s else NextCounted(s, es[0], erases); Last(Next(s, es[0], erases).0, es[1..], erases)
  }

  lemma {:induction false} LastCounted(s: State, es: seq<Event>, erases: bool)
    requires Counted(s) && IsRun(s, es, erases)
    ensures Counted(Last(s, es, erases))
    decreases |es|
  {
    if es != [] {
      NextCounted(s, es[0], erases);
      LastCounted(Next(s, es[0], erases).0, es[1..], erases);
    }
  }

  /** In every state of every run, an address with packets at the keyring has its entry, and its counter is
      the number of those packets. */
  lemma DecryptingStays(es: seq<Event>, a: Address)
    requires IsRun(START, es, true) && a in Last(START, es, true).atKeyring
    ensures var s := Last(START, es, true); a in s.table && s.table[a].decrypting == s.atKeyring[a] > 0
  {
    LastCounted(START, es, true);
    var s := Last(START, es, true);
    assert s.atKeyring[a] == Get(s.table, a).decrypting;
  }

  // ---- what one address gets ----

  /** When packets come from an address. */
  function Times(es: seq<Event>, a: Address): seq<real>
    decreases |es|
  {
    if es == [] then []
    else (if es[0].Arrival? && es[0].a == a then [es[0].now] else []) + Times(es[1..], a)
  }

  /** Whether each of them is let through. */
  function Lets(es: seq<Event>, rs: seq<Option<Outcome>>, a: Address): seq<bool>
    requires |es| == |rs|
    decreases |es|
  {
    if es == [] then []
    else (if es[0].Arrival? && es[0].a == a then [rs[0] == Some(Passed)] else []) + Lets(es[1..], rs[1..], a)
  }

  lemma {:induction false} ResultsSize(s: State, es: seq<Event>, erases: bool)
    requires Counted(s) && IsRun(s, es, erases)
    ensures |Results(s, es, erases)| == |es|
    decreases |es|
  {
    if es != [] {
      NextCounted(s, es[0], erases);
      ResultsSize(Next(s, es[0], erases).0, es[1..], erases);
    }
  }

  lemma NextOwn(s: State, e: Event, a: Address)
    requires Counted(s) && Enabled(s, e)
    ensures var n, readyAt := Next(s, e, false), Get(s.table, a).readyAt;
      if e.Arrival? && e.a == a
      then Get(n.0.table, a).readyAt == Take(RATE, readyAt, e.now) && (n.1 == Some(Passed) <==> Succeeds(RATE, readyAt, e.now))
      else Get(n.0.table, a).readyAt == readyAt
  {
    match e {
      case Arrival(_, _) =>
      case Decryption(b, _) => assert s.atKeyring[b] == Get(s.table, b).decrypting;
      case Clearing =>
      case Cleaning(_) =>
    }
  }

  lemma LetsMore(es: seq<Event>, rs: seq<Option<Outcome>>, a: Address, readyAt: real, readyAt': real)
    requires |es| == |rs| > 0 && Lets(es[1..], rs[1..], a) == Outcomes(RATE, readyAt', Times(es[1..], a))
    requires if es[0].Arrival? && es[0].a == a
      then readyAt' == Take(RATE, readyAt, es[0].now) && (rs[0] == Some(Passed) <==> Succeeds(RATE, readyAt, es[0].now))
      else readyAt' == readyAt
    ensures Lets(es, rs, a) == Outcomes(RATE, readyAt, Times(es, a))
  {
    if es[0].Arrival? && es[0].a == a {
      assert Times(es, a)[1..] == Times(es[1..], a);
    } else {
      assert Times(es, a) == Times(es[1..], a);
    }
  }

  /** Without erasing, an address is decided by its own limiter alone. */
  lemma {:induction false} OwnLimiter(s: State, es: seq<Event>, a: Address)
    requires Counted(s) && IsRun(s, es, false)
    ensures |Results(s, es, false)| == |es|
    ensures Lets(es, Results(s, es, false), a) == Outcomes(RATE, Get(s.table, a).readyAt, Times(es, a))
    decreases |es|
  {
    ResultsSize(s, es, false);
    if es != [] {
      var n := Next(s, es[0], false);
      NextCounted(s, es[0], false);
      NextOwn(s, es[0], a);
      OwnLimiter(n.0, es[1..], a);
      assert Results(s, es, false)[1..] == Results(n.0, es[1..], false);
      LetsMore(es, Results(s, es, false), a, Get(s.table, a).readyAt, Get(n.0.table, a).readyAt);
    }
  }

  lemma {:induction false} TimesInOrder(s: State, es: seq<Event>, a: Address, erases: bool)
    requires Counted(s) && IsRun(s, es, erases)
    ensures InOrder(Times(es, a)) && forall t | t in Times(es, a) :: t >= s.time
    decreases |es|
  {
    if es != [] {
      NextCounted(s, es[0], erases);
      TimesInOrder(Next(s, es[0], erases).0, es[1..], a, erases);
      var rest := Times(es[1..], a);
      assert forall i | 0 <= i < |rest| :: rest[i] in rest;
      if !(es[0].Arrival? && es[0].a == a) { assert Times(es, a) == rest; }
    }
  }

  /** On every run, whatever other addresses do and whatever is erased, every address is let through exactly as by a
      limiter of its own: at most 75 packets at once, and one more every 0.33 seconds. */
  lemma AddressIsLimited(es: seq<Event>, a: Address)
    requires IsRun(START, es, true)
    ensures |Results(START, es, true)| == |es|
    ensures var ts, lets := Times(es, a), Lets(es, Results(START, es, true), a);
      && lets == Outcomes(RATE, NEW.readyAt, ts)
      && (ts != [] ==> Count(lets) as real <= 75.0 + (ts[|ts| - 1] - ts[0]) / 0.33)
  {
    ErasingChangesNothing(es);
    OwnLimiter(START, es, a);
    TimesInOrder(START, es, a, true);
    if Times(es, a) != [] { TakesAreBounded(75, 0.33, NEW.readyAt, Times(es, a)); }
  }

  function KnownThen(known: set<Peer>, e: Event, r: Option<Outcome>, a: Address): set<Peer> {
    match e
    case Clearing => {}
    case Decryption(b, Some(peer)) => if b == a && r == Some(Passed) then known + {peer} else known
    case _ => known
  }

  lemma DecryptedKnown(t: Table, a: Address, from: Option<Peer>)
    requires a in t && t[a].decrypting > 0 && |t[a].peers| <= 60
    ensures var r := Decrypted(t, a, from); var peers := r.0[a].peers;
      |peers| <= 60 && peers == if from.Some? && r.1 == Passed then t[a].peers + {from.value} else t[a].peers
  {
    if from.Some? && from.value in t[a].peers { assert t[a].peers + {from.value} == t[a].peers; }
  }

  /** The peers let through for an address since the last clearing, going on from `known`. */
  function Known(known: set<Peer>, es: seq<Event>, rs: seq<Option<Outcome>>, a: Address): set<Peer>
    requires |es| == |rs|
    decreases |es|
  {
    if es == [] then known else Known(KnownThen(known, es[0], rs[0], a), es[1..], rs[1..], a)
  }

  lemma NextKnown(s: State, e: Event, erases: bool, a: Address)
    requires Counted(s) && Enabled(s, e) && |Get(s.table, a).peers| <= 60
    ensures var n := Next(s, e, erases);
      Get(n.0.table, a).peers == KnownThen(Get(s.table, a).peers, e, n.1, a) && |Get(n.0.table, a).peers| <= 60
  {
    match e {
      case Arrival(_, _) =>
      case Decryption(b, from) =>
        assert s.atKeyring[b] == Get(s.table, b).decrypting;
        if b == a { DecryptedKnown(s.table, a, from); }
      case Clearing =>
      case Cleaning(_) =>
    }
  }

  lemma {:induction false} RunKnown(s: State, es: seq<Event>, erases: bool, a: Address)
    requires Counted(s) && IsRun(s, es, erases) && |Get(s.table, a).peers| <= 60
    ensures |Results(s, es, erases)| == |es|
    ensures Get(Last(s, es, erases).table, a).peers == Known(Get(s.table, a).peers, es, Results(s, es, erases), a)
    ensures |Get(Last(s, es, erases).table, a).peers| <= 60
    decreases |es|
  {
    ResultsSize(s, es, erases);
    if es != [] {
      var n := Next(s, es[0], erases);
      NextCounted(s, es[0], erases);
      NextKnown(s, es[0], erases, a);
      RunKnown(n.0, es[1..], erases, a);
      assert Results(s, es, erases)[1..] == Results(n.0, es[1..], erases);
    }
  }

  /** On every run at most 60 peers are let through for an address between two clearings. A peer that could be read is
      let through exactly if it was before, or fewer than 60 were. */
  lemma SixtyPeers(es: seq<Event>, a: Address, peer: Peer)
    requires IsRun(START, es, true) && a in Last(START, es, true).atKeyring
    ensures |Results(START, es, true)| == |es| && Counted(Last(START, es, true))
    ensures var known := Known({}, es, Results(START, es, true), a);
      && |known| <= 60
      && Next(Last(START, es, true), Decryption(a, Some(peer)), true).1
         == Some(if peer in known || |known| < 60 then Passed else TooManyPeers)
  {
    LastCounted(START, es, true);
    RunKnown(START, es, true, a);
    var s := Last(START, es, true);
    assert s.atKeyring[a] == Get(s.table, a).decrypting;
  }
}
