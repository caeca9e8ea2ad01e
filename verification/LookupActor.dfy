/** The actor that runs a lookup, keeping `nodes_`, `pending_queries_`, `result_list_` and the counter of
    outstanding queries in step with the state of module `Lookup`. */
module LookupActor {
  import opened Keys
  import opened Options
  import opened Order
  import opened Lookup

  /** Trimming and sending lose no node. */
  lemma {:induction false} TrimKnown(q: Query)
    ensures Trim(q).phase.Keys == q.phase.Keys && Trim(q) == q.(phase := Trim(q).phase)
    decreases |q.Waiting()|
  {
    if q.TooMany() {
      Leave(q.phase, Max(q.Waiting()), Trimmed);
      TrimKnown(q.(phase := q.phase[Max(q.Waiting()) := Trimmed]));
    }
  }

  lemma {:induction false} SendKnown(q: Query)
    ensures Send(q).phase.Keys == q.phase.Keys && Send(q) == q.(phase := Send(q).phase, active := Send(q).active)
    decreases |q.Waiting()|
  {
    if q.CanSend() {
      Leave(q.phase, Min(q.Waiting()), InFlight);
      SendKnown(q.(phase := q.phase[Min(q.Waiting()) := InFlight], active := q.active + 1));
    }
  }

  /** The distances of a list of nodes. */
  ghost function Metrics(metric: Key -> nat, list: seq<Key>): seq<nat> {
    seq(|list|, i requires 0 <= i < |list| => metric(list[i]))
  }

  lemma LearnStep(ph: map<nat, Phase>, metric: Key -> nat, list: seq<Key>, i: nat)
    requires i < |list|
    ensures Learn(ph, Metrics(metric, list[..i + 1]))
         == var m := Learn(ph, Metrics(metric, list[..i]));
            if metric(list[i]) in m then m else m[metric(list[i]) := Pending]
  {
    assert Metrics(metric, list[..i + 1])[..i] == Metrics(metric, list[..i]);
  }

  /** Learning first does not disturb the query that was answered. */
  lemma AnswerNoted(q: Query, d: nat, list: seq<nat>)
    requires q.Inv() && Enabled(q, d, Nodes(list))
    ensures Outstanding(Learn(q.phase, list), d) && q.active > 0
    ensures Noted(q, d, Nodes(list))
         == q.(phase := Learn(q.phase, list)[d := Answered], result := Kept(q.result, d, q.k), active := q.active - 1)
  {
    Fails(q.phase, q.result, q.active, q.k, q.a, d);
    LearnKeeps(q.phase, list, q.result, q.active, q.k, q.a);
  }

  class DhtQuery {
    /** The distance from the key looked up. */
    const metric: Key -> nat
    const k: nat
    const a: nat
    var nodes: map<nat, Key>
    var pending: set<nat>
    var result: set<nat>
    var active: nat
    var stopped: bool
    /** The list given to `finish`, once it was called. */
    var output: Option<seq<Key>>
    /** Where every known node stands. */
    ghost var phase: map<nat, Phase>

    ghost predicate Valid()
      reads this
    {
      && k > 0 && a > 0
      && nodes.Keys == phase.Keys && result <= nodes.Keys && |result| <= k
      && (!stopped ==> pending == In(phase, Pending))
      && (forall d | d in nodes :: metric(nodes[d]) == d)
    }

    ghost function State(): Query
      reads this
    {
      Query(k, a, phase, result, active, if output.Some? then Some(Metrics(metric, output.value)) else None, stopped)
    }

    constructor (key: Key, k: nat, a: nat)
      requires k > 0 && a > 0
      ensures forall x :: metric(x) == Dist(key, x)
      ensures Valid() && State() == Query(k, a, map[], {}, 0, None, false)
    {
      this.metric, this.k, this.a := (x: Key) => Dist(key, x), k, a;
      nodes, pending, result, active, stopped, output, phase := map[], {}, {}, 0, false, None, map[];
    }

    /** Learns one node, unless it is known. */
    method AddNode(x: Key)
      requires Valid() && !stopped
      modifies this`nodes, this`pending, this`phase
      ensures Valid()
      ensures phase == if metric(x) in old(phase) then old(phase) else old(phase)[metric(x) := Pending]
    {
      var d := metric(x);
      if d !in nodes {
        Enter(phase, d, Pending);
        nodes := nodes[d := x];
        pending := pending + {d};
        phase := phase[d := Pending];
      }
    }

    /** Learns the nodes an answer mentions. */
    method AddNodes(list: seq<Key>)
      requires Valid() && !stopped
      modifies this`nodes, this`pending, this`phase
      ensures Valid() && State() == old(State()).(phase := Learn(old(phase), Metrics(metric, list)))
    {
      for i := 0 to |list|
        invariant Valid() && phase == Learn(old(phase), Metrics(metric, list[..i]))
      {
        LearnStep(old(phase), metric, list, i);
        AddNode(list[i]);
      }
      assert list[..|list|] == list;
    }

    static method TrimPending(pending: set<nat>, k: nat, ghost q: Query) returns (p: set<nat>, ghost q': Query)
      requires pending == q.Waiting() && k == q.k
      ensures q' == Trim(q) && p == q'.Waiting()
    {
      p, q' := pending, q;
      while |p| > 2 * k
        invariant p == q'.Waiting() && q'.k == k && Trim(q') == Trim(q)
        decreases |p|
      {
        var d := Max(p);
        Leave(q'.phase, d, Trimmed);
        p := p - {d};
        q' := q'.(phase := q'.phase[d := Trimmed]);
      }
    }

    static method SendPending(pending: set<nat>, result: set<nat>, active: nat, k: nat, a: nat, ghost q: Query)
      returns (p: set<nat>, n: nat, ghost q': Query)
      requires pending == q.Waiting() && result == q.result && active == q.active && k == q.k && a == q.a
      ensures q' == Send(q) && p == q'.Waiting() && n == q'.active
    {
      p, n, q' := pending, active, q;
      while p != {} && n < a
        invariant p == q'.Waiting() && n == q'.active && q' == q.(phase := q'.phase, active := n) && Send(q') == Send(q)
        decreases |p|
      {
        var d := Min(p);
        if result != {} && |result| == k && Max(result) < d {
          break;
        }
        Leave(q'.phase, d, InFlight);
        n := n + 1;
        p := p - {d};
        q' := q'.(phase := q'.phase[d := InFlight], active := n);
      }
    }

    /** Trims what waits and sends queries to the nearest. */
    method Dispatch()
      requires Valid() && !stopped
      modifies this`pending, this`active, this`phase
      ensures Valid() && State() == Send(Trim(old(State())))
    {
      ghost var q := State();
      TrimKnown(q);
      SendKnown(Trim(q));
      ghost var t, s;
      pending, t := TrimPending(pending, k, q);
      pending, active, s := SendPending(pending, result, active, k, a, t);
      phase := s.phase;
    }

    /** Trims, sends, and finishes when nothing is outstanding. */
    method SendQueries()
      requires Valid() && !stopped
      modifies this`pending, this`active, this`output, this`stopped, this`phase
      ensures Valid() && State() == Lookup.SendQueries(old(State()))
    {
      Dispatch();
      if active == 0 {
        pending := {};
        var ds := TakeInOrder(result, |result|);
        SmallestIsSmallest(result, |result|);
        var list := ListNodes(ds);
        // CHECK(list.size() <= k_)
        assert |list| <= k;
        output, stopped := Some(list), true;
      }
    }

    method ListNodes(ds: seq<nat>) returns (list: seq<Key>)
      requires forall d | d in ds :: d in nodes && metric(nodes[d]) == d
      ensures Metrics(metric, list) == ds
    {
      list := [];
      for i := 0 to |ds|
        invariant Metrics(metric, list) == ds[..i]
      {
        // CHECK(it != nodes_.end())
        assert ds[i] in ds;
        ghost var before := list;
        list := list + [nodes[ds[i]]];
        assert Metrics(metric, list) == Metrics(metric, before) + [ds[i]];
      }
    }

    static method KeepNearest(result: set<nat>, d: nat, k: nat) returns (r: set<nat>)
      requires |result| <= k
      ensures r == Kept(result, d, k) && |r| <= k && forall x | x in r :: x == d || x in result
    {
      r := result + {d};
      if |r| > k {
        r := r - {Max(r)};
      }
    }

    method NoteAnswer(d: nat)
      requires Valid() && !stopped && Outstanding(phase, d) && active > 0
      modifies this`active, this`phase, this`result
      ensures Valid()
      ensures State() == old(State()).(phase := old(phase)[d := Answered], result := Kept(old(result), d, k), active := old(active) - 1)
    {
      active := active - 1;
      result := KeepNearest(result, d, k);
      Stay(phase, d, Answered, Pending);
      assert phase[d := Answered].Keys == phase.Keys;
      phase := phase[d := Answered];
    }

    /** `MAX_ATTEMPTS` is 1: a node that failed is not asked again. */
    method NoteFailure(d: nat)
      requires Valid() && !stopped && Outstanding(phase, d) && active > 0
      modifies this`active, this`phase
      ensures Valid()
      ensures State() == old(State()).(phase := old(phase)[d := Failed], active := old(active) - 1)
    {
      active := active - 1;
      Stay(phase, d, Failed, Pending);
      assert phase[d := Failed].Keys == phase.Keys;
      phase := phase[d := Failed];
    }

    /** An outstanding query is over. */
    method FinishQuery(d: nat, success: bool)
      requires Valid() && !stopped && Outstanding(phase, d) && active > 0
      modifies this`pending, this`active, this`output, this`stopped, this`phase, this`result
      ensures Valid()
      ensures State() == Lookup.SendQueries(
        var q := old(State()).(phase := old(phase)[d := if success then Answered else Failed], active := old(active) - 1);
        if success then q.(result := Kept(old(result), d, k)) else q)
    {
      if success {
        NoteAnswer(d);
      } else {
        NoteFailure(d);
      }
      SendQueries();
    }

    /** A query failed. */
    method OnNoAnswer(d: nat)
      requires Valid() && State().Inv() && Enabled(State(), d, NoAnswer)
      modifies this
      ensures Valid() && State() == OnReply(old(State()), d, NoAnswer)
    {
      Fails(phase, result, active, k, a, d);
      FinishQuery(d, false);
    }

    method LearnAndFinish(d: nat, list: seq<Key>)
      requires Valid() && !stopped && active > 0 && Outstanding(Learn(phase, Metrics(metric, list)), d)
      modifies this
      ensures Valid()
      ensures State() == Lookup.SendQueries(old(State()).(
        phase := Learn(old(phase), Metrics(metric, list))[d := Answered], result := Kept(old(result), d, k), active := old(active) - 1))
    {
      AddNodes(list);
      FinishQuery(d, true);
    }

    /** A query was answered with nodes. */
    method OnNodes(d: nat, list: seq<Key>)
      requires Valid() && State().Inv() && Enabled(State(), d, Nodes(Metrics(metric, list)))
      modifies this
      ensures Valid() && State() == OnReply(old(State()), d, Nodes(Metrics(metric, list)))
    {
      AnswerNoted(State(), d, Metrics(metric, list));
      LearnAndFinish(d, list);
    }

    /** A query was answered with a value, which ends the lookup or not. */
    method OnValue(d: nat, ends: bool)
      requires Valid() && State().Inv() && Enabled(State(), d, if ends then Stop else MoreNodes)
      modifies this
      ensures Valid() && State() == OnReply(old(State()), d, if ends then Stop else MoreNodes)
    {
      if ends {
        stopped := true;
      } else {
        AskAgain(d);
      }
    }

    method AskAgain(d: nat)
      requires Valid() && !stopped && d in phase && phase[d] == InFlight
      modifies this`phase
      ensures Valid() && State() == old(State()).(phase := old(phase)[d := Asked])
    {
      Stay(phase, d, Asked, Pending);
      assert phase[d := Asked].Keys == phase.Keys;
      phase := phase[d := Asked];
    }
  }

  /** A lookup begins with the nodes its maker knows. */
  method Begin(key: Key, k: nat, a: nat, list: seq<Key>) returns (q: DhtQuery)
    requires k > 0 && a > 0
    ensures fresh(q) && q.Valid() && (forall x :: q.metric(x) == Dist(key, x))
    ensures q.State() == Start(k, a, Metrics(q.metric, list))
  {
    q := new DhtQuery(key, k, a);
    q.AddNodes(list);
    q.SendQueries();
  }
}
