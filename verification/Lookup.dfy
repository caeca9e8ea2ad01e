/** The iterative lookup: ask the nearest known nodes, learn nodes from their answers, and stop when
    the `k` nearest that answered are nearer than everything still to ask. Nodes are named by their
    distance from the key looked up. */
module Lookup {
  import opened Options
  import opened Order

  /** `r` holds the `k` least elements of `s`. */
  ghost predicate Nearest(r: set<nat>, s: set<nat>, k: nat) {
    && r <= s
    && |r| == (if k < |s| then k else |s|)
    && forall x, y | x in r && y in s && y !in r :: x < y
  }

  ghost function Below(s: set<nat>, y: nat): set<nat> {
    set z | z in s && z < y
  }

  lemma BelowMonotone(s: set<nat>, t: set<nat>, y: nat)
    requires s <= t
    ensures |Below(s, y)| <= |Below(t, y)|
  {
    assert Below(s, y) <= Below(t, y);
    SubsetSize(Below(s, y), Below(t, y));
  }

  /** Listing the nearest set in order is sorting everything and taking `k`. */
  lemma NearestInOrder(r: set<nat>, s: set<nat>, k: nat)
    requires Nearest(r, s, k)
    ensures Smallest(r, |r|) == Smallest(s, k)
  {
    var l := Smallest(r, |r|);
    SmallestIsSmallest(r, |r|);
    SmallestAll(r, |r|);
    assert IsSmallest(l, s, k);
    SmallestUnique(l, s, k);
  }

  /** One more node answered. */
  lemma NearestInsert(r: set<nat>, s: set<nat>, k: nat, d: nat)
    requires Nearest(r, s, k) && d !in s
    ensures |r| < k ==> Nearest(r + {d}, s + {d}, k)
    ensures |r| == k ==> Nearest(r + {d} - {Max(r + {d})}, s + {d}, k)
  {
    var r' := r + {d};
    assert |r'| == |r| + 1;
    if |r| < k {
      SubsetSize(r, s);
      assert r == s;
    } else {
      var m := Max(r');
      var q := r' - {m};
      assert |q| == k && |s + {d}| == |s| + 1;
      SubsetSize(r, s);
      forall x, y | x in q && y in s + {d} && y !in q ensures x < y {
        assert x in r' && x <= m && x != m;
        if y != m {
          assert y in s && y !in r;
          if x == d { assert m in r && m < y; }
        }
      }
    }
  }

  /** Leaving elements out does not change the `k` least exactly when none of these is left out. */
  lemma SmallestWithout(s: set<nat>, t: set<nat>, k: nat)
    ensures Smallest(s - t, k) == Smallest(s, k) <==> forall y | y in Smallest(s, k) :: y !in t
  {
    var l := Smallest(s, k);
    SmallestIsSmallest(s, k);
    SmallestIsSmallest(s - t, k);
    if forall y | y in l :: y !in t {
      IncreasingSize(l);
      SubsetSize(Elems(l), s - t);
      SubsetSize(s - t, s);
      if |l| < k {
        SubsetSize(Elems(l), s);
        assert s - t == s;
      }
      assert IsSmallest(l, s - t, k);
      SmallestUnique(l, s - t, k);
    }
  }

  /** An element with `k` others below it is not among the `k` least. */
  lemma LeastHasFewBelow(s: set<nat>, k: nat, y: nat)
    requires y in Smallest(s, k)
    ensures |Below(s, y)| < k
  {
    var l := Smallest(s, k);
    SmallestIsSmallest(s, k);
    forall z | z in Below(s, y) ensures z in Elems(l) - {y} {
      assert z in l;
    }
    IncreasingSize(l);
    SubsetSize(Below(s, y), Elems(l) - {y});
    assert |Elems(l) - {y}| == |l| - 1;
  }

  /** Failures take away at most as many nearer nodes as there are failures. */
  lemma BelowWithout(s: set<nat>, t: set<nat>, y: nat)
    ensures |Below(s - t, y)| >= |Below(s, y)| - |t|
  {
    var b := Below(s - t, y);
    assert Below(s, y) <= b + t;
    SubsetSize(Below(s, y), b + t);
    assert |b + t| == |b| + |t| - |b * t|;
  }

  /** Where a known node stands. `Asked` nodes answered with a value and were asked again, for nodes. */
  datatype Phase = Pending | InFlight | Asked | Answered | Failed | Trimmed

  function In(ph: map<nat, Phase>, p: Phase): set<nat> {
    set d | d in ph && ph[d] == p
  }

  /** One node enters phase `p`; the other phases stay as they are. */
  lemma Enter(ph: map<nat, Phase>, d: nat, p: Phase)
    requires d in ph ==> ph[d] != p
    ensures In(ph[d := p], p) == In(ph, p) + {d} && d !in In(ph, p)
    ensures |In(ph[d := p], p)| == |In(ph, p)| + 1
  {
    assert In(ph[d := p], p) == In(ph, p) + {d};
  }

  lemma Leave(ph: map<nat, Phase>, d: nat, p: Phase)
    requires d in ph && ph[d] != p
    ensures In(ph[d := p], ph[d]) == In(ph, ph[d]) - {d} && d in In(ph, ph[d])
    ensures |In(ph[d := p], ph[d])| == |In(ph, ph[d])| - 1
    ensures ph[d := p].Keys == ph.Keys
  {
    assert In(ph[d := p], ph[d]) == In(ph, ph[d]) - {d};
  }

  lemma Stay(ph: map<nat, Phase>, d: nat, p: Phase, q: Phase)
    requires q != p && (d in ph ==> ph[d] != q)
    ensures In(ph[d := p], q) == In(ph, q)
  {
  }

  /** What every step of a lookup keeps: the counter of outstanding queries is exact and bounded, the
      result list holds the nearest that answered, and a trimmed node had `2k` nearer ones. */
  ghost predicate Sound(ph: map<nat, Phase>, result: set<nat>, active: nat, k: nat, a: nat) {
    && active == |In(ph, InFlight)| + |In(ph, Asked)| <= a
    && Nearest(result, In(ph, Answered), k)
    && (forall y | y in In(ph, Trimmed) :: |Below(ph.Keys, y)| >= 2 * k)
  }

  lemma Learned(ph: map<nat, Phase>, result: set<nat>, active: nat, k: nat, a: nat, d: nat)
    requires Sound(ph, result, active, k, a) && d !in ph
    ensures Sound(ph[d := Pending], result, active, k, a)
  {
    var ph' := ph[d := Pending];
    Stay(ph, d, Pending, InFlight); Stay(ph, d, Pending, Asked); Stay(ph, d, Pending, Answered); Stay(ph, d, Pending, Trimmed);
    forall y | y in In(ph', Trimmed) ensures |Below(ph'.Keys, y)| >= 2 * k {
      BelowMonotone(ph.Keys, ph'.Keys, y);
    }
  }

  lemma MaxHasBelow(s: set<nat>, t: set<nat>, d: nat)
    requires IsMax(d, s) && s <= t
    ensures |Below(t, d)| >= |s| - 1
  {
    assert s - {d} <= Below(t, d);
    SubsetSize(s - {d}, Below(t, d));
  }

  lemma Trims(ph: map<nat, Phase>, result: set<nat>, active: nat, k: nat, a: nat, d: nat)
    requires Sound(ph, result, active, k, a) && |In(ph, Pending)| > 2 * k && IsMax(d, In(ph, Pending))
    ensures Sound(ph[d := Trimmed], result, active, k, a)
  {
    Leave(ph, d, Trimmed);
    Stay(ph, d, Trimmed, InFlight); Stay(ph, d, Trimmed, Asked); Stay(ph, d, Trimmed, Answered);
    MaxHasBelow(In(ph, Pending), ph.Keys, d);
    Enter(ph, d, Trimmed);
  }

  lemma Sends(ph: map<nat, Phase>, result: set<nat>, active: nat, k: nat, a: nat, d: nat)
    requires Sound(ph, result, active, k, a) && d in In(ph, Pending) && active < a
    ensures Sound(ph[d := InFlight], result, active + 1, k, a)
  {
    Leave(ph, d, InFlight);
    Enter(ph, d, InFlight);
    Stay(ph, d, InFlight, Asked); Stay(ph, d, InFlight, Answered); Stay(ph, d, InFlight, Trimmed);
  }

  ghost predicate Outstanding(ph: map<nat, Phase>, d: nat) {
    d in ph && (ph[d] == InFlight || ph[d] == Asked)
  }

  /** An outstanding query is over, or becomes a query for nodes. */
  lemma Ends(ph: map<nat, Phase>, d: nat, p: Phase)
    requires Outstanding(ph, d) && (p == Answered || p == Failed)
    ensures var ph' := ph[d := p];
      && |In(ph', InFlight)| + |In(ph', Asked)| == |In(ph, InFlight)| + |In(ph, Asked)| - 1
      && ph'.Keys == ph.Keys && In(ph', Trimmed) == In(ph, Trimmed) && In(ph', Pending) == In(ph, Pending)
      && In(ph', p) == In(ph, p) + {d} && d !in In(ph, p)
      && (p == Failed ==> In(ph', Answered) == In(ph, Answered))
  {
    Leave(ph, d, p);
    Enter(ph, d, p);
    Stay(ph, d, p, Trimmed); Stay(ph, d, p, Pending);
    Stay(ph, d, p, if ph[d] == InFlight then Asked else InFlight);
    if p == Failed { Stay(ph, d, p, Answered); }
  }

  /** The result list after one more answer. */
  function Kept(result: set<nat>, d: nat, k: nat): set<nat> {
    var r := result + {d};
    if |r| > k then r - {Max(r)} else r
  }

  lemma Answers(ph: map<nat, Phase>, result: set<nat>, active: nat, k: nat, a: nat, d: nat)
    requires Sound(ph, result, active, k, a) && Outstanding(ph, d)
    ensures active > 0 && Sound(ph[d := Answered], Kept(result, d, k), active - 1, k, a)
  {
    Ends(ph, d, Answered);
    NearestInsert(result, In(ph, Answered), k, d);
    assert |result + {d}| == |result| + 1;
  }

  lemma Fails(ph: map<nat, Phase>, result: set<nat>, active: nat, k: nat, a: nat, d: nat)
    requires Sound(ph, result, active, k, a) && Outstanding(ph, d)
    ensures active > 0 && Sound(ph[d := Failed], result, active - 1, k, a)
  {
    Ends(ph, d, Failed);
  }

  lemma AsksAgain(ph: map<nat, Phase>, result: set<nat>, active: nat, k: nat, a: nat, d: nat)
    requires Sound(ph, result, active, k, a) && d in In(ph, InFlight)
    ensures Sound(ph[d := Asked], result, active, k, a)
  {
    Leave(ph, d, Asked);
    Enter(ph, d, Asked);
    Stay(ph, d, Asked, Answered); Stay(ph, d, Asked, Trimmed);
  }

  /** All known nodes that neither failed nor were trimmed. */
  ghost function Usable(ph: map<nat, Phase>): set<nat> {
    ph.Keys - In(ph, Failed) - In(ph, Trimmed)
  }

  lemma NearestMore(r: set<nat>, s: set<nat>, more: set<nat>, k: nat)
    requires Nearest(r, s, k) && (more == {} || (|r| == k && forall x, y | x in r && y in more :: x < y))
    ensures Nearest(r, s + more, k)
  {
    SubsetSize(s, s + more);
    if more == {} { assert s + more == s; }
  }

  lemma Covered(ph: map<nat, Phase>)
    requires |In(ph, InFlight)| == 0 && |In(ph, Asked)| == 0
    ensures forall d | d in ph :: d in In(ph, Pending) || d in In(ph, Answered) || d in In(ph, Failed) || d in In(ph, Trimmed)
  {
    forall d | d in ph ensures ph[d] != InFlight && ph[d] != Asked {
      assert d in In(ph, ph[d]);
    }
  }

  /** When nothing is outstanding and nothing waiting is near enough, the result list holds the nearest of all nodes
      that neither failed nor were trimmed. */
  lemma Stops(ph: map<nat, Phase>, result: set<nat>, k: nat, a: nat)
    requires Sound(ph, result, 0, k, a)
    requires In(ph, Pending) == {} || (|result| == k && forall x, y | x in result && y in In(ph, Pending) :: x < y)
    ensures Nearest(result, Usable(ph), k)
  {
    Covered(ph);
    NearestMore(result, In(ph, Answered), In(ph, Pending), k);
    assert Usable(ph) == In(ph, Answered) + In(ph, Pending);
  }

  function Age(p: Phase): nat {
    match p
    case Pending => 0
    case InFlight => 1
    case Asked => 2
    case _ => 3
  }

  /** Nodes are only added, and never go back: so none is sent the lookup query, or asked for nodes
      after a value, more than once. */
  ghost predicate Advances(ph: map<nat, Phase>, ph': map<nat, Phase>) {
    forall d | d in ph :: d in ph' && (ph'[d] == ph[d] || Age(ph[d]) < Age(ph'[d]))
  }

  ghost function Load(ph: map<nat, Phase>): nat {
    3 * |In(ph, Pending)| + 2 * |In(ph, InFlight)| + |In(ph, Asked)|
  }

  /** The work left, over a finite universe of nodes. */
  ghost function Work(ph: map<nat, Phase>, universe: set<nat>): nat {
    4 * |universe - ph.Keys| + Load(ph)
  }

  /** A lookup in progress: bounds, where every known node stands, the result list, the number of
      outstanding queries, and the distances of the list given to `finish` once it was called. */
  datatype Query = Query(k: nat, a: nat, phase: map<nat, Phase>, result: set<nat>, active: nat, output: Option<seq<nat>>, stopped: bool)
  {
    function Waiting(): set<nat> {
      In(phase, Pending)
    }

    predicate TooMany() {
      |Waiting()| > 2 * k
    }

    /** The nearest waiting node is to be asked now. */
    predicate CanSend() {
      Waiting() != {} && active < a && !(result != {} && |result| == k && Max(result) < Min(Waiting()))
    }

    ghost predicate Inv() {
      k > 0 && a > 0 && Sound(phase, result, active, k, a) && (output.Some? ==> stopped)
    }
  }

  ghost function Trim(q: Query): Query
    decreases |q.Waiting()|
  {
    if q.TooMany() then
      Leave(q.phase, Max(q.Waiting()), Trimmed);
      Trim(q.(phase := q.phase[Max(q.Waiting()) := Trimmed]))
    else q
  }

  ghost function Send(q: Query): Query
    decreases |q.Waiting()|
  {
    if q.CanSend() then
      Leave(q.phase, Min(q.Waiting()), InFlight);
      Send(q.(phase := q.phase[Min(q.Waiting()) := InFlight], active := q.active + 1))
    else q
  }

  ghost function Finish(q: Query): Query {
    if q.active == 0 then q.(output := Some(Smallest(q.result, |q.result|)), stopped := true) else q
  }

  ghost function SendQueries(q: Query): Query {
    Finish(Send(Trim(q)))
  }

  /** What trimming and sending do. */
  ghost predicate Progress(ph: map<nat, Phase>, ph': map<nat, Phase>) {
    Advances(ph, ph') && ph'.Keys == ph.Keys && In(ph', Failed) == In(ph, Failed) && Load(ph') <= Load(ph)
  }

  lemma ProgressStep(ph: map<nat, Phase>, d: nat, p: Phase)
    requires d in ph && ph[d] == Pending && (p == Trimmed || p == InFlight)
    ensures Progress(ph, ph[d := p])
  {
    Leave(ph, d, p);
    Enter(ph, d, p);
    Stay(ph, d, p, Failed); Stay(ph, d, p, Asked);
    if p == Trimmed { Stay(ph, d, p, InFlight); }
  }

  lemma ProgressTrans(p: map<nat, Phase>, q: map<nat, Phase>, r: map<nat, Phase>)
    requires Progress(p, q) && Progress(q, r)
    ensures Progress(p, r)
  {
  }

  lemma {:induction false} TrimKeeps(q: Query)
    requires q.Inv()
    ensures var q' := Trim(q);
      q'.Inv() && Progress(q.phase, q'.phase) && q' == q.(phase := q'.phase) && !q'.TooMany()
    decreases |q.Waiting()|
  {
    if q.TooMany() {
      var d := Max(q.Waiting());
      Trims(q.phase, q.result, q.active, q.k, q.a, d);
      Leave(q.phase, d, Trimmed);
      ProgressStep(q.phase, d, Trimmed);
      var q1 := q.(phase := q.phase[d := Trimmed]);
      TrimKeeps(q1);
      ProgressTrans(q.phase, q1.phase, Trim(q1).phase);
    }
  }

  lemma {:induction false} SendKeeps(q: Query)
    requires q.Inv()
    ensures var q' := Send(q);
      q'.Inv() && Progress(q.phase, q'.phase) && q' == q.(phase := q'.phase, active := q'.active) && !q'.CanSend()
    decreases |q.Waiting()|
  {
    if q.CanSend() {
      var d := Min(q.Waiting());
      Sends(q.phase, q.result, q.active, q.k, q.a, d);
      Leave(q.phase, d, InFlight);
      ProgressStep(q.phase, d, InFlight);
      var q1 := q.(phase := q.phase[d := InFlight], active := q.active + 1);
      SendKeeps(q1);
      ProgressTrans(q.phase, q1.phase, Send(q1).phase);
    }
  }

  /** The list is the `k` nearest of all known nodes that did not fail, in order. */
  ghost predicate IsNearestList(q: Query, list: seq<nat>) {
    list == Smallest(q.phase.Keys - In(q.phase, Failed), q.k)
  }

  /** A lookup after its first step: it goes on only with queries outstanding, finishes only with none, and then with
      the nearest of all nodes that neither failed nor were trimmed. */
  ghost predicate Settled(q: Query) {
    && q.Inv()
    && (q.output.Some? ==> q.output.value == Smallest(Usable(q.phase), q.k))
    && (!q.stopped ==> q.active > 0)
    && (q.output.Some? ==> q.active == 0)
  }

  lemma SendQueriesKeeps(q: Query)
    requires q.Inv() && !q.stopped
    ensures Settled(SendQueries(q)) && Progress(q.phase, SendQueries(q).phase)
    ensures SendQueries(q).k == q.k && SendQueries(q).a == q.a
    ensures SendQueries(q).stopped <==> SendQueries(q).active == 0
  {
    TrimKeeps(q);
    var t := Trim(q);
    SendKeeps(t);
    var s := Send(t);
    ProgressTrans(q.phase, t.phase, s.phase);
    if s.active == 0 {
      Stops(s.phase, s.result, s.k, s.a);
      NearestInOrder(s.result, Usable(s.phase), s.k);
    }
  }

  /** The list at the end is the nearest of all nodes that did not fail exactly when none of these was trimmed. */
  lemma RightIff(q: Query)
    requires Settled(q) && q.output.Some?
    ensures IsNearestList(q, q.output.value)
       <==> forall y | y in Smallest(q.phase.Keys - In(q.phase, Failed), q.k) :: y !in In(q.phase, Trimmed)
  {
    SmallestWithout(q.phase.Keys - In(q.phase, Failed), In(q.phase, Trimmed), q.k);
  }

  /** A trimmed node had `2k` nearer ones, so after at most `k` failures it is not among the `k` nearest. */
  lemma RightWhenFew(q: Query)
    requires Settled(q) && q.output.Some? && |In(q.phase, Failed)| <= q.k
    ensures IsNearestList(q, q.output.value)
  {
    var lost := In(q.phase, Failed);
    forall y | y in In(q.phase, Trimmed) ensures y !in Smallest(q.phase.Keys - lost, q.k) {
      BelowWithout(q.phase.Keys, lost, y);
      if y in Smallest(q.phase.Keys - lost, q.k) { LeastHasFewBelow(q.phase.Keys - lost, q.k, y); }
    }
    RightIff(q);
  }

  /** How one outstanding query ends. */
  datatype Reply =
    | NoAnswer                  // timeout, or an answer that counts as a failure
    | Nodes(list: seq<nat>)     // an answer, with the nodes it mentions
    | MoreNodes                 // a value that does not end the lookup: the node is asked for nodes
    | Stop                      // the value that ends the lookup

  /** All nodes of a list enter, unless already known. */
  ghost function Learn(ph: map<nat, Phase>, list: seq<nat>): map<nat, Phase> {
    if list == [] then ph
    else
      var m := Learn(ph, list[..|list| - 1]);
      var d := list[|list| - 1];
      if d in m then m else m[d := Pending]
  }

  ghost function Start(k: nat, a: nat, list: seq<nat>): Query {
    SendQueries(Query(k, a, Learn(map[], list), {}, 0, None, false))
  }

  /** A reply arrives for an outstanding query. A node that failed is not asked again, `MAX_ATTEMPTS`
      being 1. */
  ghost predicate Enabled(q: Query, d: nat, r: Reply) {
    !q.stopped && Outstanding(q.phase, d) && (r.MoreNodes? || r.Stop? ==> q.phase[d] == InFlight)
  }

  /** The state of a query right after a reply, before new queries go out. */
  ghost function Noted(q: Query, d: nat, r: Reply): Query
    requires q.Inv() && Enabled(q, d, r) && (r.NoAnswer? || r.Nodes?)
  {
    Fails(q.phase, q.result, q.active, q.k, q.a, d);
    if r.NoAnswer? then q.(phase := q.phase[d := Failed], active := q.active - 1)
    else q.(phase := Learn(q.phase, r.list)[d := Answered], result := Kept(q.result, d, q.k), active := q.active - 1)
  }

  ghost function OnReply(q: Query, d: nat, r: Reply): Query
    requires q.Inv() && Enabled(q, d, r)
  {
    match r
    case MoreNodes => q.(phase := q.phase[d := Asked])
    case Stop => q.(stopped := true)
    case _ => SendQueries(Noted(q, d, r))
  }

  /** Learning moves nodes from unseen to waiting. */
  lemma {:induction false} LearnKeeps(ph: map<nat, Phase>, list: seq<nat>, result: set<nat>, active: nat, k: nat, a: nat)
    requires Sound(ph, result, active, k, a)
    ensures var ph' := Learn(ph, list);
      && Sound(ph', result, active, k, a)
      && ph'.Keys == ph.Keys + Elems(list) && (forall d | d in ph :: ph'[d] == ph[d])
      && In(ph', Failed) == In(ph, Failed)
  {
    if list != [] {
      var n := |list| - 1;
      LearnKeeps(ph, list[..n], result, active, k, a);
      var m, d := Learn(ph, list[..n]), list[n];
      assert Elems(list) == Elems(list[..n]) + {d};
      if d !in m {
        Learned(m, result, active, k, a, d);
        Stay(m, d, Pending, Failed);
      }
    }
  }

  lemma LearningIsWork(ph: map<nat, Phase>, d: nat, universe: set<nat>)
    requires d !in ph && d in universe
    ensures Work(ph[d := Pending], universe) == Work(ph, universe) - 1
  {
    Enter(ph, d, Pending);
    Stay(ph, d, Pending, InFlight); Stay(ph, d, Pending, Asked);
    assert universe - ph[d := Pending].Keys == universe - ph.Keys - {d};
  }

  lemma {:induction false} LearnWork(ph: map<nat, Phase>, list: seq<nat>, universe: set<nat>)
    requires Elems(list) <= universe
    ensures Work(Learn(ph, list), universe) <= Work(ph, universe)
  {
    if list != [] {
      var n := |list| - 1;
      var m, d := Learn(ph, list[..n]), list[n];
      assert Elems(list) == Elems(list[..n]) + {d};
      LearnWork(ph, list[..n], universe);
      if d !in m { LearningIsWork(m, d, universe); }
    }
  }

  /** The nodes a reply mentions. */
  ghost function Mentions(r: Reply): set<nat> {
    if r.Nodes? then Elems(r.list) else {}
  }

  lemma EndsWork(ph: map<nat, Phase>, d: nat, p: Phase, universe: set<nat>)
    requires Outstanding(ph, d) && (p == Answered || p == Failed || (p == Asked && ph[d] == InFlight))
    ensures Work(ph[d := p], universe) < Work(ph, universe) && Advances(ph, ph[d := p])
  {
    Leave(ph, d, p);
    Stay(ph, d, p, Pending);
    if p == Asked {
      Enter(ph, d, p);
    } else {
      Stay(ph, d, p, if ph[d] == InFlight then Asked else InFlight);
    }
  }

  /** The nodes known and failed after a reply, and the order of phases. */
  ghost predicate Recorded(ph: map<nat, Phase>, d: nat, r: Reply, ph': map<nat, Phase>) {
    && Advances(ph, ph')
    && (forall x :: x in ph' <==> x in ph || x in Mentions(r))
    && (forall x :: x in In(ph', Failed) <==> x in In(ph, Failed) || (x == d && r.NoAnswer?))
  }

  lemma NotedFailure(q: Query, d: nat, universe: set<nat>)
    requires q.Inv() && Enabled(q, d, NoAnswer)
    ensures var q' := Noted(q, d, NoAnswer);
      q'.Inv() && Recorded(q.phase, d, NoAnswer, q'.phase) && Work(q'.phase, universe) < Work(q.phase, universe)
  {
    Fails(q.phase, q.result, q.active, q.k, q.a, d);
    EndsWork(q.phase, d, Failed, universe);
  }

  lemma LearnRecorded(ph: map<nat, Phase>, ph': map<nat, Phase>, d: nat, list: seq<nat>)
    requires ph'.Keys == ph.Keys + Elems(list) && Outstanding(ph, d)
    requires forall x | x in ph :: ph'[x] == ph[x]
    requires In(ph', Failed) == In(ph, Failed)
    ensures Recorded(ph, d, Nodes(list), ph'[d := Answered])
  {
  }

  lemma NotedAnswer(q: Query, d: nat, list: seq<nat>, universe: set<nat>)
    requires q.Inv() && Enabled(q, d, Nodes(list)) && Elems(list) <= universe
    ensures var q' := Noted(q, d, Nodes(list));
      q'.Inv() && Recorded(q.phase, d, Nodes(list), q'.phase) && Work(q'.phase, universe) < Work(q.phase, universe)
  {
    var ph := Learn(q.phase, list);
    LearnKeeps(q.phase, list, q.result, q.active, q.k, q.a);
    LearnWork(q.phase, list, universe);
    Answers(ph, q.result, q.active, q.k, q.a, d);
    EndsWork(ph, d, Answered, universe);
    LearnRecorded(q.phase, ph, d, list);
  }

  lemma ProgressWork(ph: map<nat, Phase>, ph': map<nat, Phase>, universe: set<nat>)
    requires Progress(ph, ph')
    ensures Work(ph', universe) <= Work(ph, universe)
  {
  }

  lemma AdvancesTrans(p: map<nat, Phase>, q: map<nat, Phase>, r: map<nat, Phase>)
    requires Advances(p, q) && Advances(q, r)
    ensures Advances(p, r)
  {
  }

  lemma RecordedTrans(p: map<nat, Phase>, q: map<nat, Phase>, r: map<nat, Phase>, d: nat, m: Reply)
    requires Recorded(p, d, m, q) && Progress(q, r)
    ensures Recorded(p, d, m, r)
  {
    AdvancesTrans(p, q, r);
  }

  ghost predicate Effect(q: Query, d: nat, r: Reply, q': Query) {
    Settled(q') && q'.k == q.k && q'.a == q.a && Recorded(q.phase, d, r, q'.phase)
  }

  lemma QueryEnds(q: Query, d: nat, r: Reply, universe: set<nat>)
    requires q.Inv() && Enabled(q, d, r) && (r.NoAnswer? || r.Nodes?) && Mentions(r) <= universe
    ensures Effect(q, d, r, OnReply(q, d, r)) && Work(OnReply(q, d, r).phase, universe) < Work(q.phase, universe)
  {
    var n := Noted(q, d, r);
    assert n.Inv() && Recorded(q.phase, d, r, n.phase) && Work(n.phase, universe) < Work(q.phase, universe) by {
      if r.NoAnswer? { NotedFailure(q, d, universe); } else { NotedAnswer(q, d, r.list, universe); }
    }
    SendQueriesKeeps(n);
    var q' := SendQueries(n);
    ProgressWork(n.phase, q'.phase, universe);
    RecordedTrans(q.phase, n.phase, q'.phase, d, r);
  }

  lemma QueryGoesOn(q: Query, d: nat, universe: set<nat>)
    requires q.Inv() && Enabled(q, d, MoreNodes)
    ensures Effect(q, d, MoreNodes, OnReply(q, d, MoreNodes))
    ensures Work(OnReply(q, d, MoreNodes).phase, universe) < Work(q.phase, universe)
  {
    Fails(q.phase, q.result, q.active, q.k, q.a, d);
    AsksAgain(q.phase, q.result, q.active, q.k, q.a, d);
    EndsWork(q.phase, d, Asked, universe);
  }

  /** What every reply keeps; each but the one that stops strictly reduces the work left. */
  lemma ReplyKeeps(q: Query, d: nat, r: Reply, universe: set<nat>)
    requires q.Inv() && Enabled(q, d, r) && Mentions(r) <= universe
    ensures Effect(q, d, r, OnReply(q, d, r))
    ensures OnReply(q, d, r).stopped || Work(OnReply(q, d, r).phase, universe) < Work(q.phase, universe)
  {
    match r {
      case MoreNodes => QueryGoesOn(q, d, universe);
      case Stop =>
      case _ => QueryEnds(q, d, r, universe);
    }
  }

  datatype Event = Event(node: nat, reply: Reply)

  /** The replies of a run, in order, each to a query then outstanding. */
  ghost predicate IsRun(q: Query, es: seq<Event>)
    decreases |es|
  {
    es == [] || (q.Inv() && Enabled(q, es[0].node, es[0].reply) && IsRun(OnReply(q, es[0].node, es[0].reply), es[1..]))
  }

  ghost function After(q: Query, es: seq<Event>): Query
    requires IsRun(q, es)
    decreases |es|
  {
    if es == [] then q else After(OnReply(q, es[0].node, es[0].reply), es[1..])
  }

  /** A node some reply mentions, and one that failed. */
  ghost predicate Heard(es: seq<Event>, x: nat) {
    exists i :: 0 <= i < |es| && x in Mentions(es[i].reply)
  }

  ghost predicate Lost(es: seq<Event>, x: nat) {
    exists i :: 0 <= i < |es| && es[i] == Event(x, NoAnswer)
  }

  lemma HeardFirst(es: seq<Event>)
    requires es != []
    ensures forall x :: Heard(es, x) <==> x in Mentions(es[0].reply) || Heard(es[1..], x)
    ensures forall x :: Lost(es, x) <==> es[0] == Event(x, NoAnswer) || Lost(es[1..], x)
  {
    assert es == [es[0]] + es[1..];
    forall x | Heard(es, x) ensures x in Mentions(es[0].reply) || Heard(es[1..], x) {
      var i :| 0 <= i < |es| && x in Mentions(es[i].reply);
      if i > 0 { assert es[1..][i - 1] == es[i]; }
    }
    forall x | Lost(es, x) ensures es[0] == Event(x, NoAnswer) || Lost(es[1..], x) {
      var i :| 0 <= i < |es| && es[i] == Event(x, NoAnswer);
      if i > 0 { assert es[1..][i - 1] == es[i]; }
    }
  }

  lemma {:induction false} RunKeeps(q: Query, es: seq<Event>, universe: set<nat>)
    requires Settled(q) && IsRun(q, es) && forall x | Heard(es, x) :: x in universe
    ensures var q' := After(q, es);
      && Settled(q') && q'.k == q.k && q'.a == q.a && Advances(q.phase, q'.phase)
      && (forall x :: x in q'.phase <==> x in q.phase || Heard(es, x))
      && (forall x :: x in In(q'.phase, Failed) <==> x in In(q.phase, Failed) || Lost(es, x))
    ensures |es| <= Work(q.phase, universe) + (if q.stopped then 0 else 1)
    decreases |es|
  {
    if es != [] {
      var e, rest := es[0], es[1..];
      var q1 := OnReply(q, e.node, e.reply);
      HeardFirst(es);
      ReplyKeeps(q, e.node, e.reply, universe);
      RunKeeps(q1, rest, universe);
      AdvancesTrans(q.phase, q1.phase, After(q1, rest).phase);
    }
  }

  /** A lookup that has learned its first nodes and sent nothing yet. */
  lemma Fresh(k: nat, a: nat, list: seq<nat>, universe: set<nat>)
    requires k > 0 && a > 0 && Elems(list) <= universe
    ensures var q := Query(k, a, Learn(map[], list), {}, 0, None, false);
      q.Inv() && q.phase.Keys == Elems(list) && In(q.phase, Failed) == {} && Work(q.phase, universe) <= 4 * |universe|
  {
    var none: map<nat, Phase> := map[];
    assert In(none, Failed) == {} && universe - none.Keys == universe;
    LearnKeeps(none, list, {}, 0, k, a);
    LearnWork(none, list, universe);
  }

  lemma StartKeeps(k: nat, a: nat, list: seq<nat>, universe: set<nat>)
    requires k > 0 && a > 0 && Elems(list) <= universe
    ensures var q := Start(k, a, list);
      && Settled(q) && q.k == k && q.a == a && q.phase.Keys == Elems(list) && In(q.phase, Failed) == {}
      && Work(q.phase, universe) <= 4 * |universe| && (q.stopped <==> q.active == 0)
  {
    var q := Query(k, a, Learn(map[], list), {}, 0, None, false);
    Fresh(k, a, list, universe);
    SendQueriesKeeps(q);
    ProgressWork(q.phase, SendQueries(q).phase, universe);
  }

  /** `known` are all nodes a lookup has heard of, `lost` all that failed it. */
  ghost predicate Tells(list: seq<nat>, es: seq<Event>, known: set<nat>, lost: set<nat>) {
    && (forall x :: x in known <==> x in Elems(list) || Heard(es, x))
    && (forall x :: x in lost <==> Lost(es, x))
  }

  lemma RunFrom(q: Query, list: seq<nat>, es: seq<Event>, known: set<nat>, lost: set<nat>, universe: set<nat>)
    requires Settled(q) && q.phase.Keys == Elems(list) && In(q.phase, Failed) == {}
    requires IsRun(q, es) && Tells(list, es, known, lost) && known <= universe
    ensures var q' := After(q, es);
      Settled(q') && q'.k == q.k && q'.a == q.a && q'.phase.Keys == known && In(q'.phase, Failed) == lost
    ensures |es| <= Work(q.phase, universe) + 1
  {
    RunKeeps(q, es, universe);
    var ph := After(q, es).phase;
    assert forall x :: x in ph.Keys <==> x in known;
    assert forall x :: x in In(ph, Failed) <==> x in lost;
  }

  /** What holds after every run. */
  lemma RunFromStart(k: nat, a: nat, list: seq<nat>, es: seq<Event>, known: set<nat>, lost: set<nat>, universe: set<nat>)
    requires k > 0 && a > 0 && IsRun(Start(k, a, list), es) && Tells(list, es, known, lost) && known <= universe
    ensures var q := After(Start(k, a, list), es);
      Settled(q) && q.k == k && q.a == a && q.phase.Keys == known && In(q.phase, Failed) == lost
    ensures |es| <= 4 * |universe| + 1
  {
    StartKeeps(k, a, list, universe);
    RunFrom(Start(k, a, list), list, es, known, lost, universe);
  }

  /** In every run, however many nodes fail, the list given at the end is exactly the `k` nearest of all nodes heard of
      that neither failed nor were trimmed, nearest first. It is the `k` nearest of all that did not fail exactly when
      none of those was trimmed. */
  lemma LookupFindsUsable(k: nat, a: nat, list: seq<nat>, es: seq<Event>, known: set<nat>, lost: set<nat>)
    requires k > 0 && a > 0 && IsRun(Start(k, a, list), es) && Tells(list, es, known, lost)
    ensures var q := After(Start(k, a, list), es);
      q.output.Some? ==>
        && q.output.value == Smallest(known - lost - In(q.phase, Trimmed), k)
        && (q.output.value == Smallest(known - lost, k) <==> forall y | y in Smallest(known - lost, k) :: y !in In(q.phase, Trimmed))
  {
    RunFromStart(k, a, list, es, known, lost, known);
    var q := After(Start(k, a, list), es);
    if q.output.Some? { RightIff(q); }
  }

  /** In every run in which at most `k` nodes fail, the list given at the end is exactly the `k` nearest
      of all nodes heard of that did not fail, nearest first. */
  lemma LookupFindsNearest(k: nat, a: nat, list: seq<nat>, es: seq<Event>, known: set<nat>, lost: set<nat>)
    requires k > 0 && a > 0 && IsRun(Start(k, a, list), es) && Tells(list, es, known, lost)
    ensures var q := After(Start(k, a, list), es);
      q.output.Some? && |lost| <= k ==> q.output.value == Smallest(known - lost, k)
  {
    RunFromStart(k, a, list, es, known, lost, known);
    var q := After(Start(k, a, list), es);
    if q.output.Some? && |lost| <= k { RightWhenFew(q); }
  }

  lemma SomeOutstanding(q: Query)
    requires q.Inv() && q.active > 0
    ensures exists d :: Outstanding(q.phase, d)
  {
    var s := if In(q.phase, InFlight) != {} then In(q.phase, InFlight) else In(q.phase, Asked);
    var d :| d in s;
    assert Outstanding(q.phase, d);
  }

  /** Every lookup over a finite universe ends: a run has at most `4 * |universe| + 1` replies, and while it
      has not stopped at least one and at most `a` queries are outstanding. */
  lemma LookupEnds(k: nat, a: nat, list: seq<nat>, es: seq<Event>, known: set<nat>, lost: set<nat>, universe: set<nat>)
    requires k > 0 && a > 0 && IsRun(Start(k, a, list), es) && Tells(list, es, known, lost) && known <= universe
    ensures |es| <= 4 * |universe| + 1
    ensures var q := After(Start(k, a, list), es);
      && q.active == |In(q.phase, InFlight)| + |In(q.phase, Asked)| <= a
      && (q.stopped || exists d :: Outstanding(q.phase, d))
      && (q.output.Some? ==> q.stopped && q.active == 0)
  {
    RunFromStart(k, a, list, es, known, lost, universe);
    var q := After(Start(k, a, list), es);
    if !q.stopped {
      SomeOutstanding(q);
    }
  }

  lemma RunCons(q: Query, e: Event, es: seq<Event>)
    requires q.Inv() && Enabled(q, e.node, e.reply) && IsRun(OnReply(q, e.node, e.reply), es)
    ensures IsRun(q, [e] + es) && After(q, [e] + es) == After(OnReply(q, e.node, e.reply), es)
  {
    assert ([e] + es)[1..] == es;
  }

  /** A run that has not ended. */
  ghost predicate Going(q: Query, es: seq<Event>) {
    IsRun(q, es) && !After(q, es).stopped && After(q, es).output.None?
  }

  lemma GoingOn(q: Query, e: Event, q1: Query, es: seq<Event>)
    requires q.Inv() && Enabled(q, e.node, e.reply) && q1 == OnReply(q, e.node, e.reply) && Going(q1, es)
    ensures Going(q, [e] + es)
  {
    RunCons(q, e, es);
  }

  lemma ReplyInv(q: Query, d: nat, r: Reply)
    requires q.Inv() && Enabled(q, d, r)
    ensures OnReply(q, d, r).Inv()
  {
    ReplyKeeps(q, d, r, Mentions(r));
  }

  lemma {:induction false} BeforeTheEnd(q: Query, es: seq<Event>, n: nat)
    requires q.Inv() && IsRun(q, es) && n < |es|
    ensures Going(q, es[..n])
    decreases n
  {
    if n == 0 {
      assert es[..n] == [];
    } else {
      var e, rest := es[0], es[1..];
      var q1 := OnReply(q, e.node, e.reply);
      ReplyInv(q, e.node, e.reply);
      BeforeTheEnd(q1, rest, n - 1);
      GoingOn(q, e, q1, rest[..n - 1]);
      assert es[..n] == [e] + rest[..n - 1];
    }
  }

  /** In every run no reply is taken after `finish`, or after a value ended the lookup: the list is given at most once,
      and only in the last state. */
  lemma FinishOnce(k: nat, a: nat, list: seq<nat>, es: seq<Event>, n: nat)
    requires k > 0 && a > 0 && IsRun(Start(k, a, list), es) && n < |es|
    ensures IsRun(Start(k, a, list), es[..n])
    ensures var q := After(Start(k, a, list), es[..n]); !q.stopped && q.output.None?
  {
    StartKeeps(k, a, list, Elems(list));
    BeforeTheEnd(Start(k, a, list), es, n);
  }

  // ---- what ends a lookup ----

  lemma NotedInv(q: Query, d: nat, r: Reply)
    requires q.Inv() && Enabled(q, d, r) && (r.NoAnswer? || r.Nodes?)
    ensures Noted(q, d, r).Inv()
  {
    if r.NoAnswer? { NotedFailure(q, d, {}); } else { NotedAnswer(q, d, r.list, Elems(r.list)); }
  }

  lemma SendQueriesEnds(q: Query)
    requires q.Inv() && !q.stopped
    ensures SendQueries(q).stopped <==> SendQueries(q).output.Some?
  {
    TrimKeeps(q);
    SendKeeps(Trim(q));
  }

  /** A reply ends a lookup exactly if it brings the value looked for, and then there is no list, or if the list is given. */
  lemma ReplyEnds(q: Query, d: nat, r: Reply)
    requires q.Inv() && Enabled(q, d, r)
    ensures var q' := OnReply(q, d, r);
      && (q'.stopped <==> r.Stop? || q'.output.Some?)
      && (r.Stop? ==> q'.output.None?)
  {
    match r {
      case MoreNodes =>
      case Stop =>
      case _ =>
        NotedInv(q, d, r);
        SendQueriesEnds(Noted(q, d, r));
    }
  }

  /** The reply that brings the value looked for. */
  ghost predicate EndsWithValue(es: seq<Event>) {
    es != [] && es[|es| - 1].reply.Stop?
  }

  ghost predicate EndedBy(es: seq<Event>, q: Query) {
    (q.stopped <==> EndsWithValue(es) || q.output.Some?) && (EndsWithValue(es) ==> q.output.None?)
  }

  lemma {:induction false} RunEnds(q: Query, es: seq<Event>)
    requires q.Inv() && IsRun(q, es) && es != []
    ensures EndedBy(es, After(q, es)) && forall i | 0 <= i < |es| - 1 :: !es[i].reply.Stop?
    decreases |es|
  {
    var e, rest := es[0], es[1..];
    ReplyEnds(q, e.node, e.reply);
    ReplyInv(q, e.node, e.reply);
    if rest != [] {
      RunEnds(OnReply(q, e.node, e.reply), rest);
      assert rest[|rest| - 1] == es[|es| - 1] && forall i | 0 < i < |es| :: es[i] == rest[i - 1];
    }
  }

  /** Over every run: the value looked for can only come with the last reply, and then the lookup has stopped and given no
      list. A lookup stops only so or with a list. */
  lemma ValueEnds(k: nat, a: nat, list: seq<nat>, es: seq<Event>)
    requires k > 0 && a > 0 && IsRun(Start(k, a, list), es)
    ensures forall i | 0 <= i < |es| && es[i].reply.Stop? :: i == |es| - 1
    ensures var q := After(Start(k, a, list), es);
      && (EndsWithValue(es) ==> q.stopped && q.output.None?)
      && (q.stopped ==> EndsWithValue(es) || q.output.Some?)
  {
    StartKeeps(k, a, list, Elems(list));
    if es == [] {
      Fresh(k, a, list, Elems(list));
      SendQueriesEnds(Query(k, a, Learn(map[], list), {}, 0, None, false));
    } else {
      RunEnds(Start(k, a, list), es);
    }
  }

  // ---- whom a lookup asks ----

  /** Every node newly asked is nearer than every node still waiting. */
  ghost predicate AsksNearest(q: Query, q': Query) {
    forall x, y | x in In(q'.phase, InFlight) && x !in In(q.phase, InFlight) && y in q'.Waiting() :: x < y
  }

  lemma {:induction false} SendAsksNearest(q: Query)
    requires q.Inv()
    ensures AsksNearest(q, Send(q)) && Send(q).Waiting() <= q.Waiting()
    decreases |q.Waiting()|
  {
    if q.CanSend() {
      var d := Min(q.Waiting());
      Sends(q.phase, q.result, q.active, q.k, q.a, d);
      Leave(q.phase, d, InFlight);
      Enter(q.phase, d, InFlight);
      var q1 := q.(phase := q.phase[d := InFlight], active := q.active + 1);
      SendAsksNearest(q1);
      forall x, y | x in In(Send(q).phase, InFlight) && x !in In(q.phase, InFlight) && y in Send(q).Waiting() ensures x < y {
        if x == d { assert y in q.Waiting() && y != d; } else { assert x !in In(q1.phase, InFlight); }
      }
    }
  }

  lemma {:induction false} TrimAsksNobody(q: Query)
    requires q.Inv()
    ensures In(Trim(q).phase, InFlight) == In(q.phase, InFlight)
    decreases |q.Waiting()|
  {
    if q.TooMany() {
      var d := Max(q.Waiting());
      Trims(q.phase, q.result, q.active, q.k, q.a, d);
      Leave(q.phase, d, Trimmed);
      Stay(q.phase, d, Trimmed, InFlight);
      TrimAsksNobody(q.(phase := q.phase[d := Trimmed]));
    }
  }

  lemma SendQueriesAsksNearest(q: Query)
    requires q.Inv()
    ensures var q' := SendQueries(q);
      AsksNearest(q, q') && !q'.CanSend() && q'.active <= q'.a && q'.k == q.k && q'.a == q.a
  {
    TrimKeeps(q);
    TrimAsksNobody(q);
    SendKeeps(Trim(q));
    SendAsksNearest(Trim(q));
  }

  lemma {:induction false} LearnAsksNobody(ph: map<nat, Phase>, list: seq<nat>)
    ensures In(Learn(ph, list), InFlight) == In(ph, InFlight)
  {
    if list != [] { LearnAsksNobody(ph, list[..|list| - 1]); }
  }

  lemma NotedAsksNobody(q: Query, d: nat, r: Reply)
    requires q.Inv() && Enabled(q, d, r) && (r.NoAnswer? || r.Nodes?)
    ensures In(Noted(q, d, r).phase, InFlight) <= In(q.phase, InFlight)
  {
    Fails(q.phase, q.result, q.active, q.k, q.a, d);
    if r.Nodes? { LearnAsksNobody(q.phase, r.list); }
  }

  lemma ReplyAsksNearest(q: Query, d: nat, r: Reply)
    requires q.Inv() && Enabled(q, d, r)
    ensures var q' := OnReply(q, d, r);
      && AsksNearest(q, q')
      && (!q'.stopped && (r.NoAnswer? || r.Nodes?) ==> !q'.CanSend() && q'.active <= q'.a && q'.k == q.k && q'.a == q.a)
  {
    if r.NoAnswer? || r.Nodes? {
      var n := Noted(q, d, r);
      NotedInv(q, d, r);
      NotedAsksNobody(q, d, r);
      SendQueriesAsksNearest(n);
    }
  }

  /** In every run, after every reply: whoever is asked next is nearer than all who wait, and the lookup stops asking only
      with `a` queries outstanding, nobody waiting, or `k` answers that are all nearer. */
  lemma AsksInOrder(k: nat, a: nat, list: seq<nat>, es: seq<Event>, d: nat, r: Reply)
    requires k > 0 && a > 0 && IsRun(Start(k, a, list), es) && Enabled(After(Start(k, a, list), es), d, r)
    ensures After(Start(k, a, list), es).Inv()
    ensures var q := After(Start(k, a, list), es); var q' := OnReply(q, d, r);
      && AsksNearest(q, q')
      && (!q'.stopped && (r.NoAnswer? || r.Nodes?) ==>
            q'.active == a || q'.Waiting() == {} || (|q'.result| == k && forall x, y | x in q'.result && y in q'.Waiting() :: x < y))
  {
    var heard := set i, x | 0 <= i < |es| && x in Mentions(es[i].reply) :: x;
    StartKeeps(k, a, list, Elems(list) + heard);
    RunKeeps(Start(k, a, list), es, Elems(list) + heard);
    var q := After(Start(k, a, list), es);
    ReplyAsksNearest(q, d, r);
  }

  // ---- CHECK(active_queries_ <= k_) ----

  /** The counter a reply leaves behind passes the check in `finish_query`. */
  ghost predicate CheckPasses(q: Query) {
    forall d, r | Enabled(q, d, r) :: q.active - 1 <= q.k
  }

  /** Everything waiting is near enough to be asked. */
  ghost predicate AllNear(q: Query) {
    |q.result| < q.k || forall x, y | x in q.result && y in q.Waiting() :: y < x
  }

  lemma {:induction false} SendFills(q: Query)
    requires q.Inv() && AllNear(q)
    ensures Send(q).active == if q.active + |q.Waiting()| < q.a then q.active + |q.Waiting()| else q.a
    ensures |Send(q).Waiting()| == |q.Waiting()| - (Send(q).active - q.active)
    decreases |q.Waiting()|
  {
    if q.CanSend() {
      var d := Min(q.Waiting());
      Sends(q.phase, q.result, q.active, q.k, q.a, d);
      Leave(q.phase, d, InFlight);
      SendFills(q.(phase := q.phase[d := InFlight], active := q.active + 1));
    }
  }

  lemma {:induction false} LearnPending(ph: map<nat, Phase>, list: seq<nat>)
    ensures forall x :: x in In(Learn(ph, list), Pending) <==> x in In(ph, Pending) || (x in list && x !in ph)
    ensures forall x :: x in Learn(ph, list) <==> x in ph || x in list
  {
    if list != [] {
      var n := |list| - 1;
      LearnPending(ph, list[..n]);
      assert list == list[..n] + [list[n]];
    }
  }

  lemma StartFills(k: nat, a: nat, list: seq<nat>)
    requires k > 0 && a > 0 && |Elems(list)| <= 2 * k
    ensures Start(k, a, list).active == if |Elems(list)| < a then |Elems(list)| else a
    ensures |Elems(list)| <= a ==> Start(k, a, list).Waiting() == {}
    ensures Start(k, a, list).result == {}
  {
    var none: map<nat, Phase> := map[];
    var q := Query(k, a, Learn(none, list), {}, 0, None, false);
    LearnKeeps(none, list, {}, 0, k, a);
    LearnPending(none, list);
    assert q.Waiting() == Elems(list) && Trim(q) == q;
    SendFills(q);
    SendKeeps(q);
  }

  lemma TooManyOutstanding(q: Query)
    requires q.Inv() && !q.stopped && q.active > q.k + 1
    ensures !CheckPasses(q)
  {
    SomeOutstanding(q);
    var d: nat :| Outstanding(q.phase, d);
    assert Enabled(q, d, NoAnswer);
  }

  /** A lookup is given the `2k` nearest nodes its maker knows, or fewer. */
  ghost predicate IsGiven(list: seq<nat>, k: nat) {
    |list| <= 2 * k
  }

  ghost predicate AlwaysPasses(k: nat, a: nat) {
    forall list: seq<nat>, es: seq<Event> | IsGiven(list, k) && IsRun(Start(k, a, list), es) :: CheckPasses(After(Start(k, a, list), es))
  }

  lemma CheckFails(k: nat, a: nat)
    requires k >= 2 && a > k + 1
    ensures !AlwaysPasses(k, a)
  {
    var list := seq(k + 2, i requires 0 <= i < k + 2 => i as nat);
    IncreasingSize(list);
    StartFills(k, a, list);
    StartKeeps(k, a, list, Elems(list));
    var q, es: seq<Event> := Start(k, a, list), [];
    TooManyOutstanding(q);
    assert IsRun(q, es) && After(q, es) == q;
  }

  lemma OneReply(q: Query, d: nat, r: Reply)
    requires q.Inv() && Enabled(q, d, r)
    ensures IsRun(q, [Event(d, r)]) && After(q, [Event(d, r)]) == OnReply(q, d, r)
  {
    var es := [Event(d, r)];
    assert es[1..] == [];
    assert IsRun(OnReply(q, d, r), []);
  }

  lemma FillsUp(n: Query, d: nat)
    requires n.Inv() && !n.stopped && n.k == 1 && n.a > 2 && n.active == 1 && n.Waiting() == {1, 2} && n.result == {d} && d > 2
    ensures SendQueries(n).Inv() && !SendQueries(n).stopped && SendQueries(n).k == 1 && SendQueries(n).active == 3
  {
    assert Trim(n) == n;
    SendFills(n);
    SendQueriesKeeps(n);
  }

  lemma TwoNearer(ph: map<nat, Phase>, d: nat)
    requires In(ph, Pending) == {} && ph.Keys == {10, 11} && d in ph
    ensures In(Learn(ph, [1, 2])[d := Answered], Pending) == {1, 2}
  {
    assert [1, 2][..1] == [1] && [1][..0] == [];
    assert Learn(ph, []) == ph && Learn(ph, [1]) == ph[1 := Pending];
    assert Learn(ph, [1, 2]) == ph[1 := Pending][2 := Pending];
    assert forall x | x in ph :: x !in In(ph, Pending);
  }

  lemma SecondActive(q: Query, d: nat)
    requires q.Inv() && !q.stopped && q.k == 1 && q.a > 2 && q.active == 2 && Outstanding(q.phase, d)
    requires q.Waiting() == {} && q.result == {} && q.phase.Keys == {10, 11}
    ensures var q' := OnReply(q, d, Nodes([1, 2]));
      q'.Inv() && !q'.stopped && q'.k == 1 && q'.active == 3
  {
    var two: seq<nat> := [1, 2];
    var n := Noted(q, d, Nodes(two));
    NotedAnswer(q, d, two, Elems(two));
    TwoNearer(q.phase, d);
    assert n.result == {d} by { assert {} + {d} == {d}; }
    FillsUp(n, d);
  }

  lemma SecondAnswer(q: Query)
    requires Settled(q) && !q.stopped && q.k == 1 && q.a > 2 && q.active == 2
    requires q.Waiting() == {} && q.result == {} && q.phase.Keys == {10, 11}
    ensures exists es: seq<Event> :: IsRun(q, es) && !CheckPasses(After(q, es))
  {
    SomeOutstanding(q);
    var d: nat :| Outstanding(q.phase, d);
    SecondActive(q, d);
    OneReply(q, d, Nodes([1, 2]));
    TooManyOutstanding(OnReply(q, d, Nodes([1, 2])));
  }

  /** With `k == 1` it takes one answer that names two nearer nodes. */
  lemma CheckFailsForOne(a: nat)
    requires a > 2
    ensures !AlwaysPasses(1, a)
  {
    var list := [10, 11];
    assert Elems(list) == {10, 11};
    StartFills(1, a, list);
    StartKeeps(1, a, list, {10, 11});
    SecondAnswer(Start(1, a, list));
  }

  lemma CheckPassesAlways(k: nat, a: nat, list: seq<nat>, es: seq<Event>)
    requires 0 < a <= k + 1 && k > 0 && IsRun(Start(k, a, list), es)
    ensures CheckPasses(After(Start(k, a, list), es))
  {
    var heard := set i, x | 0 <= i < |es| && x in Mentions(es[i].reply) :: x;
    StartKeeps(k, a, list, Elems(list) + heard);
    RunKeeps(Start(k, a, list), es, Elems(list) + heard);
  }

  /** The check never fails in any run, from any list a lookup may be given, exactly when `a <= k + 1`. */
  lemma CheckPassesIff(k: nat, a: nat)
    requires k > 0 && a > 0
    ensures AlwaysPasses(k, a) <==> a <= k + 1
  {
    if a <= k + 1 {
      forall list: seq<nat>, es: seq<Event> | IsRun(Start(k, a, list), es) ensures CheckPasses(After(Start(k, a, list), es)) {
        CheckPassesAlways(k, a, list, es);
      }
    } else if k == 1 {
      CheckFailsForOne(a);
    } else {
      CheckFails(k, a);
    }
  }

  // ---- how many failures a lookup stands ----

  lemma {:induction false} TrimCount(q: Query)
    ensures |Trim(q).Waiting()| == if q.TooMany() then 2 * q.k else |q.Waiting()|
    decreases |q.Waiting()|
  {
    if q.TooMany() {
      var d := Max(q.Waiting());
      Leave(q.phase, d, Trimmed);
      TrimCount(q.(phase := q.phase[d := Trimmed]));
    }
  }

  /** Everything waiting is sent, as far as `a` allows, before the lookup ends. */
  ghost predicate Open(q: Query) {
    && q.Inv() && AllNear(q) && |q.Waiting()| <= 2 * q.k
    && (q.stopped <==> q.active == 0)
    && (q.stopped ==> q.Waiting() == {} && q.output == Some(Smallest(q.result, |q.result|)))
  }

  ghost function Remaining(q: Query): nat {
    |q.Waiting()| + q.active
  }

  lemma WaitingShrinks(ph: map<nat, Phase>, ph': map<nat, Phase>)
    requires Progress(ph, ph')
    ensures In(ph', Pending) <= In(ph, Pending)
  {
  }

  lemma SendOpensTrimmed(t: Query)
    requires t.Inv() && !t.stopped && AllNear(t) && !t.TooMany()
    ensures var q' := Finish(Send(t));
      Open(q') && q'.result == t.result && q'.k == t.k && q'.a == t.a && Remaining(q') == Remaining(t)
  {
    SendFills(t);
    SendKeeps(t);
    WaitingShrinks(t.phase, Send(t).phase);
  }

  lemma SendOpens(q: Query)
    requires q.Inv() && !q.stopped && AllNear(q)
    ensures Open(SendQueries(q)) && SendQueries(q).result == q.result && SendQueries(q).k == q.k && SendQueries(q).a == q.a
    ensures Remaining(SendQueries(q)) == if q.TooMany() then 2 * q.k + q.active else Remaining(q)
  {
    TrimKeeps(q);
    TrimCount(q);
    WaitingShrinks(q.phase, Trim(q).phase);
    SendOpensTrimmed(Trim(q));
  }

  /** A failure, or an answer that names nobody. */
  ghost function Dull(fails: bool): Reply {
    if fails then NoAnswer else Nodes([])
  }

  lemma DullNoted(q: Query, d: nat, fails: bool)
    requires Open(q) && Enabled(q, d, Dull(fails)) && (!fails ==> |q.result| < q.k)
    ensures var n := Noted(q, d, Dull(fails));
      && n.Inv() && !n.stopped && n.k == q.k && n.active == q.active - 1 && n.Waiting() == q.Waiting()
      && |n.result| == |q.result| + (if fails then 0 else 1) && q.result <= n.result && (fails ==> n.result == q.result)
  {
    if fails {
      NotedFailure(q, d, {});
      Ends(q.phase, d, Failed);
    } else {
      NotedAnswer(q, d, [], {});
      Ends(q.phase, d, Answered);
      assert d !in q.result;
    }
  }

  lemma DullReply(q: Query, d: nat, fails: bool)
    requires Open(q) && Enabled(q, d, Dull(fails))
    requires !fails ==> |q.result| + 1 < q.k || (|q.result| + 1 == q.k && q.Waiting() == {})
    ensures var q' := OnReply(q, d, Dull(fails));
      && Open(q') && q'.k == q.k && Remaining(q') == Remaining(q) - 1
      && |q'.result| == |q.result| + (if fails then 0 else 1) && q.result <= q'.result
  {
    DullNoted(q, d, fails);
    SendOpens(Noted(q, d, Dull(fails)));
  }

  lemma FailedCount(ph: map<nat, Phase>, d: nat, fails: bool, ph': map<nat, Phase>)
    requires Outstanding(ph, d) && Recorded(ph, d, Dull(fails), ph')
    ensures ph'.Keys == ph.Keys && |In(ph', Failed)| == |In(ph, Failed)| + if fails then 1 else 0
  {
    var f, f' := In(ph, Failed), In(ph', Failed);
    assert d !in f;
    if fails {
      assert f' == f + {d};
    } else {
      assert f' == f;
    }
  }

  lemma DullRecorded(q: Query, d: nat, fails: bool)
    requires Open(q) && Enabled(q, d, Dull(fails))
    ensures var q' := OnReply(q, d, Dull(fails));
      q'.phase.Keys == q.phase.Keys && |In(q'.phase, Failed)| == |In(q.phase, Failed)| + if fails then 1 else 0
  {
    ReplyKeeps(q, d, Dull(fails), {});
    FailedCount(q.phase, d, fails, OnReply(q, d, Dull(fails)).phase);
  }

  /** A run that lets the first `f` queries fail and has the others answered with nothing new. */
  lemma {:induction false} RunOut(q: Query, f: nat, n: nat) returns (es: seq<Event>)
    requires Open(q) && Remaining(q) == f + n && |q.result| + n <= q.k
    ensures IsRun(q, es)
    ensures var q' := After(q, es);
      && q'.output == Some(Smallest(q'.result, |q'.result|)) && q'.k == q.k && q'.phase.Keys == q.phase.Keys
      && q.result <= q'.result && |In(q'.phase, Failed)| == |In(q.phase, Failed)| + f && q'.Inv()
    decreases f + n
  {
    if q.active == 0 {
      es := [];
    } else {
      SomeOutstanding(q);
      var d: nat :| Outstanding(q.phase, d);
      var fails := f > 0;
      DullReply(q, d, fails);
      DullRecorded(q, d, fails);
      var rest := RunOut(OnReply(q, d, Dull(fails)), if fails then f - 1 else f, if fails then n else n - 1);
      es := [Event(d, Dull(fails))] + rest;
      assert es[1..] == rest;
    }
  }

  /** The distances below `n`. */
  function UpTo(n: nat): (s: seq<nat>)
    ensures |s| == n && forall i | 0 <= i < n :: s[i] == i
  {
    seq(n, i requires 0 <= i < n => i as nat)
  }

  lemma InUpTo(n: nat)
    ensures forall x: nat :: x in UpTo(n) <==> x < n
  {
    forall x: nat ensures x in UpTo(n) <==> x < n {
      if x < n { assert UpTo(n)[x] == x; }
    }
  }

  lemma UpToSize(s: set<nat>, n: nat)
    requires forall x: nat :: x in s <==> x < n
    ensures |s| == n && s == Elems(UpTo(n))
  {
    InUpTo(n);
    assert s == Elems(UpTo(n));
    IncreasingSize(UpTo(n));
  }

  /** A lookup given one node, at distance `far`, waits for its answer. */
  ghost predicate AsksOne(q: Query, far: nat) {
    && Settled(q) && !q.stopped && q.active == 1 && q.result == {} && q.Waiting() == {}
    && q.phase.Keys == {far} && In(q.phase, Failed) == {} && Outstanding(q.phase, far)
  }

  lemma StartsWithOne(k: nat, a: nat, far: nat)
    requires k > 0 && a > 0
    ensures AsksOne(Start(k, a, [far]), far) && Start(k, a, [far]).k == k
  {
    assert Elems([far]) == {far};
    StartKeeps(k, a, [far], {far});
    StartFills(k, a, [far]);
    SomeOutstanding(Start(k, a, [far]));
  }

  lemma NamesNearer(ph: map<nat, Phase>, far: nat, ph': map<nat, Phase>)
    requires ph.Keys == {far} && In(ph, Pending) == {} && ph' == Learn(ph, UpTo(far))[far := Answered]
    ensures forall x: nat :: x in In(ph', Pending) <==> x < far
  {
    LearnPending(ph, UpTo(far));
    InUpTo(far);
  }

  /** The answer names all nearer distances. */
  lemma FirstNoted(q: Query, far: nat)
    requires AsksOne(q, far)
    ensures var n := Noted(q, far, Nodes(UpTo(far)));
      && n.Inv() && !n.stopped && n.k == q.k && n.active == 0 && n.result == {far}
      && (forall x: nat :: x in n.Waiting() <==> x < far) && |n.Waiting()| == far
  {
    var n := Noted(q, far, Nodes(UpTo(far)));
    NotedAnswer(q, far, UpTo(far), Elems(UpTo(far)));
    NamesNearer(q.phase, far, n.phase);
    UpToSize(n.Waiting(), far);
    assert {} + {far} == {far};
  }

  /** If these are `2k + 1`, the farthest of them is trimmed. */
  lemma FirstReply(q: Query, far: nat)
    requires AsksOne(q, far) && far == 2 * q.k + 1
    ensures var q' := OnReply(q, far, Nodes(UpTo(far)));
      Open(q') && q'.k == q.k && Remaining(q') == 2 * q.k && q'.result == {far}
  {
    FirstNoted(q, far);
    var n := Noted(q, far, Nodes(UpTo(far)));
    assert AllNear(n) && n.TooMany();
    SendOpens(n);
  }

  lemma FirstRecorded(q: Query, far: nat)
    requires AsksOne(q, far)
    ensures var q' := OnReply(q, far, Nodes(UpTo(far)));
      (forall x: nat :: x in q'.phase <==> x <= far) && In(q'.phase, Failed) == {}
  {
    var l := UpTo(far);
    ReplyKeeps(q, far, Nodes(l), Elems(l));
    InUpTo(far);
    assert In(OnReply(q, far, Nodes(l)).phase, Failed) == {};
  }

  ghost predicate Right(q: Query, f: nat) {
    q.output.Some? && |In(q.phase, Failed)| <= f ==> IsNearestList(q, q.output.value)
  }

  /** In every run with at most `f` failures the list given at the end is the right one. */
  ghost predicate Stands(k: nat, a: nat, f: nat) {
    forall list: seq<nat>, es: seq<Event> | IsGiven(list, k) && IsRun(Start(k, a, list), es) :: Right(After(Start(k, a, list), es), f)
  }

  lemma TooFar(all: set<nat>, lost: set<nat>, far: nat, k: nat)
    requires lost <= all && |all| == 2 * k + 2 && |lost| == k + 1 && IsMax(far, all) && far !in lost
    ensures far !in Smallest(all - lost, k)
  {
    var left := all - lost;
    assert |left| == |all| - |lost|;
    assert Below(left, far) == left - {far};
    if far in Smallest(left, k) { LeastHasFewBelow(left, k, far); }
  }

  lemma HoldsTheFarthest(q: Query, far: nat)
    requires q.Inv() && far == 2 * q.k + 1 && (forall x: nat :: x in q.phase <==> x <= far) && far in q.result
    requires q.output == Some(Smallest(q.result, |q.result|)) && |In(q.phase, Failed)| == q.k + 1
    ensures !IsNearestList(q, q.output.value)
  {
    SmallestAll(q.result, |q.result|);
    UpToSize(q.phase.Keys, far + 1);
    assert far !in In(q.phase, Failed);
    TooFar(q.phase.Keys, In(q.phase, Failed), far, q.k);
  }

  /** One node names `2k + 1` nearer ones; the farthest of these is trimmed, `k + 1` fail and the others answer. The list
      then holds the first node in place of the one trimmed. */
  lemma RunThatMisses(q: Query, far: nat) returns (es: seq<Event>)
    requires AsksOne(q, far) && far == 2 * q.k + 1
    ensures IsRun(q, es)
    ensures var q' := After(q, es); q'.output.Some? && |In(q'.phase, Failed)| == q.k + 1 && !IsNearestList(q', q'.output.value)
  {
    var e := Event(far, Nodes(UpTo(far)));
    FirstReply(q, far);
    FirstRecorded(q, far);
    var q1 := OnReply(q, far, e.reply);
    var rest := RunOut(q1, q.k + 1, q.k - 1);
    HoldsTheFarthest(After(q1, rest), far);
    RunCons(q, e, rest);
    es := [e] + rest;
  }

  lemma FailsBeyond(k: nat, a: nat, f: nat)
    requires k > 0 && a > 0 && f > k
    ensures !Stands(k, a, f)
  {
    var list := [2 * k + 1];
    StartsWithOne(k, a, 2 * k + 1);
    var es := RunThatMisses(Start(k, a, list), 2 * k + 1);
    assert IsGiven(list, k) && !Right(After(Start(k, a, list), es), f);
  }

  lemma StandsUpTo(k: nat, a: nat, f: nat)
    requires k > 0 && a > 0 && f <= k
    ensures Stands(k, a, f)
  {
    forall list: seq<nat>, es: seq<Event> | IsRun(Start(k, a, list), es) ensures Right(After(Start(k, a, list), es), f) {
      var heard := set i, x | 0 <= i < |es| && x in Mentions(es[i].reply) :: x;
      StartKeeps(k, a, list, Elems(list) + heard);
      RunKeeps(Start(k, a, list), es, Elems(list) + heard);
      var q := After(Start(k, a, list), es);
      if q.output.Some? && |In(q.phase, Failed)| <= f { RightWhenFew(q); }
    }
  }

  /** The list is the `k` nearest of the nodes heard of that did not fail, in all runs with at most `f` failures, exactly
      when `f <= k`. */
  lemma StandsIff(k: nat, a: nat, f: nat)
    requires k > 0 && a > 0
    ensures Stands(k, a, f) <==> f <= k
  {
    if f <= k {
      StandsUpTo(k, a, f);
    } else {
      FailsBeyond(k, a, f);
    }
  }
}
