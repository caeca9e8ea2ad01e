/** Values stored in the DHT and how a newer one replaces them, by update rule. */
module Values {
  import opened Keys
  import Overlay

  datatype UpdateRule = Signature | Anybody | OverlayNodes

  /** `key` is the id of the key description; `data` stands for the bytes of a value that is not a
      node list, `nodes` for the node list of one under `OverlayNodes`. `signed` says whether the
      description's signature and the checks of the rule on keys and signatures pass. */
  datatype DhtValue = DhtValue(key: Key, rule: UpdateRule, data: seq<int>, nodes: seq<Overlay.OverlayNode>, ttl: nat, signed: bool)
  {
    /** `DhtValue::check` */
    predicate Checks() {
      && signed
      && if rule.OverlayNodes? then
           Overlay.ListSize(nodes) <= Overlay.MAX_VALUE_SIZE && forall n | n in nodes :: n.wellFormed
         else |data| <= Overlay.MAX_VALUE_SIZE
    }

    predicate Expired(now: real) {
      ttl as real < now
    }
  }

  ghost predicate Supersedes(v: DhtValue, n: DhtValue, r: DhtValue) {
    && r.key == v.key && r.rule == v.rule
    && if !n.Checks() || n.rule != v.rule then r == v
       else match v.rule
         case Signature => r == if n.ttl > v.ttl then n else v
         case Anybody => r == v.(data := n.data, nodes := n.nodes, ttl := n.ttl)
         case OverlayNodes =>
           && r.ttl == (if v.ttl < n.ttl then n.ttl else v.ttl)
           && (forall x | x in r.nodes :: x in Overlay.Merged(v.nodes + n.nodes))
           && (Overlay.ListSize(Overlay.Merged(v.nodes + n.nodes)) <= Overlay.MAX_VALUE_SIZE ==>
                 r.nodes == Overlay.Merged(v.nodes + n.nodes))
  }

  /** `DhtValue::update` */
  method Update(v: DhtValue, n: DhtValue) returns (r: DhtValue)
    requires v.Checks() && v.key == n.key
    ensures Supersedes(v, n, r) && r.Checks()
    ensures v.rule != Anybody ==> r.ttl >= v.ttl
  {
    if !n.Checks() || n.rule != v.rule {
      return v;
    }
    match v.rule {
      case Signature =>
        r := if n.ttl > v.ttl then n else v;
      case Anybody =>
        r := v.(data := n.data, nodes := n.nodes, ttl := n.ttl);
      case OverlayNodes =>
        var u := Overlay.UpdateValue(v.nodes, n.nodes);
        Overlay.MergedKeepsNewest(v.nodes + n.nodes);
        r := v.(nodes := u.nodes, ttl := if v.ttl < n.ttl then n.ttl else v.ttl);
    }
  }

  // ---- runs ----

  ghost predicate Follows(v: DhtValue, n: DhtValue, r: DhtValue) {
    n.key == v.key && Supersedes(v, n, r) && r.Checks()
  }

  /** The value kept under a key, from the first one on, as others arrive. */
  ghost predicate IsRun(vs: seq<DhtValue>, ns: seq<DhtValue>) {
    && |vs| == |ns| + 1 && vs[0].Checks()
    && forall i | 0 <= i < |ns| :: Follows(vs[i], ns[i], vs[i + 1])
  }

  /** A value that arrived and is taken into account. */
  ghost predicate Counts(vs: seq<DhtValue>, ns: seq<DhtValue>, i: nat)
    requires IsRun(vs, ns) && i < |ns|
  {
    ns[i].Checks() && ns[i].rule == vs[0].rule
  }

  lemma {:induction false} RuleStays(vs: seq<DhtValue>, ns: seq<DhtValue>, n: nat)
    requires IsRun(vs, ns) && n < |vs|
    ensures vs[n].rule == vs[0].rule && vs[n].key == vs[0].key
    decreases n
  {
    if n > 0 {
      RuleStays(vs, ns, n - 1);
      assert Follows(vs[n - 1], ns[n - 1], vs[n]);
    }
  }

  /** Of signed values one lives longest, and none that lives as long came before it. */
  ghost predicate FirstOfLongest(vs: seq<DhtValue>, ns: seq<DhtValue>, n: nat, i: nat)
    requires IsRun(vs, ns) && i < n < |vs|
  {
    Counts(vs, ns, i) && vs[0].ttl < ns[i].ttl && forall j: nat | j < i && Counts(vs, ns, j) :: ns[j].ttl < ns[i].ttl
  }

  /** Signed values: the one kept lives longest of all that arrived, in whatever order they came; of those that live
      equally long it is the first. */
  lemma {:induction false} LongestLivedIsKept(vs: seq<DhtValue>, ns: seq<DhtValue>, n: nat)
    requires IsRun(vs, ns) && n < |vs| && vs[0].rule == Signature
    ensures vs[n] == vs[0] || exists i: nat :: i < n && FirstOfLongest(vs, ns, n, i) && vs[n] == ns[i]
    ensures vs[0].ttl <= vs[n].ttl && forall i: nat | i < n && Counts(vs, ns, i) :: ns[i].ttl <= vs[n].ttl
    decreases n
  {
    if n > 0 {
      LongestLivedIsKept(vs, ns, n - 1);
      RuleStays(vs, ns, n - 1);
      assert Follows(vs[n - 1], ns[n - 1], vs[n]);
      assert Counts(vs, ns, n - 1) <==> ns[n - 1].Checks() && ns[n - 1].rule == Signature;
      if vs[n] == vs[n - 1] {
        if vs[n] != vs[0] {
          var i: nat :| i < n - 1 && FirstOfLongest(vs, ns, n - 1, i) && vs[n - 1] == ns[i];
          assert FirstOfLongest(vs, ns, n, i);
        }
      } else {
        assert FirstOfLongest(vs, ns, n, n - 1);
      }
    }
  }

  /** Values that anybody may set: the last one that arrived is kept. */
  lemma {:induction false} LastIsKept(vs: seq<DhtValue>, ns: seq<DhtValue>, n: nat, i: nat)
    requires IsRun(vs, ns) && i < n < |vs| && vs[0].rule == Anybody
    requires Counts(vs, ns, i) && forall j: nat | i < j < n :: !Counts(vs, ns, j)
    ensures vs[n].data == ns[i].data && vs[n].nodes == ns[i].nodes && vs[n].ttl == ns[i].ttl
    decreases n
  {
    RuleStays(vs, ns, n - 1);
    assert Follows(vs[n - 1], ns[n - 1], vs[n]);
    if i < n - 1 {
      LastIsKept(vs, ns, n - 1, i);
      assert !Counts(vs, ns, n - 1);
    }
  }

  /** All nodes announced by the first value and those that arrived. */
  ghost function Announced(vs: seq<DhtValue>, ns: seq<DhtValue>, n: nat): map<Overlay.Id, int>
    requires IsRun(vs, ns) && n < |vs|
  {
    if n == 0 then Overlay.Versions(vs[0].nodes)
    else if !Counts(vs, ns, n - 1) then Announced(vs, ns, n - 1)
    else Overlay.Join(Announced(vs, ns, n - 1), Overlay.Versions(ns[n - 1].nodes))
  }

  ghost predicate NothingEvicted(vs: seq<DhtValue>, ns: seq<DhtValue>, n: nat)
    requires IsRun(vs, ns) && n < |vs|
  {
    forall i: nat | i < n && Counts(vs, ns, i) ::
      Overlay.ListSize(Overlay.Merged(vs[i].nodes + ns[i].nodes)) <= Overlay.MAX_VALUE_SIZE
  }

  /** Node lists, as long as nothing has to be evicted: for every node announced its newest version is kept, in whatever
      order the lists came; and the value lives as long as the longest-lived of them. */
  lemma {:induction false} AllNodesAreKept(vs: seq<DhtValue>, ns: seq<DhtValue>, n: nat)
    requires IsRun(vs, ns) && n < |vs| && vs[0].rule == OverlayNodes && NothingEvicted(vs, ns, n)
    ensures Overlay.Versions(vs[n].nodes) == Announced(vs, ns, n)
    ensures vs[0].ttl <= vs[n].ttl && forall i: nat | i < n && Counts(vs, ns, i) :: ns[i].ttl <= vs[n].ttl
    decreases n
  {
    if n > 0 {
      AllNodesAreKept(vs, ns, n - 1);
      RuleStays(vs, ns, n - 1);
      assert Follows(vs[n - 1], ns[n - 1], vs[n]);
      if Counts(vs, ns, n - 1) {
        Overlay.MergeJoins(vs[n - 1].nodes, ns[n - 1].nodes);
      }
    }
  }
}
