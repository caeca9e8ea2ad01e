/** `DhtUpdateRuleOverlayNodes`: merging two announced node lists into one value of at most 768 bytes. */
module Overlay {
  /** ADNL short ids; the merge only compares them. */
  type Id = int

  const MAX_VALUE_SIZE: nat := 768
  /** Constructor tag and vector length of the serialized list. */
  const LIST_HEADER: nat := 8

  /** `size` is the node's serialized size, `wellFormed` whether its public key parses. */
  datatype OverlayNode = OverlayNode(id: Id, version: int, size: nat, wellFormed: bool)

  function Raise(m: map<Id, int>, id: Id, v: int): map<Id, int> {
    if id in m && v <= m[id] then m else m[id := v]
  }

  /** What a list announces: for every id its largest version. */
  function Versions(l: seq<OverlayNode>): map<Id, int> {
    if l == [] then map[] else Raise(Versions(l[..|l| - 1]), l[|l| - 1].id, l[|l| - 1].version)
  }

  /** The pointwise maximum. */
  function Join(a: map<Id, int>, b: map<Id, int>): map<Id, int> {
    map id | id in a.Keys + b.Keys ::
      if id !in b then a[id] else if id !in a then b[id] else if a[id] < b[id] then b[id] else a[id]
  }

  lemma JoinRaise(a: map<Id, int>, b: map<Id, int>, id: Id, v: int)
    ensures Join(a, Raise(b, id, v)) == Raise(Join(a, b), id, v)
  {
  }

  lemma {:induction false} VersionsConcat(a: seq<OverlayNode>, b: seq<OverlayNode>)
    ensures Versions(a + b) == Join(Versions(a), Versions(b))
  {
    if b == [] {
      assert a + b == a;
    } else {
      var n := |b| - 1;
      VersionsConcat(a, b[..n]);
      assert (a + b)[..|a + b| - 1] == a + b[..n];
      JoinRaise(Versions(a), Versions(b[..n]), b[n].id, b[n].version);
    }
  }

  ghost predicate OnePerId(l: seq<OverlayNode>) {
    forall i, j | 0 <= i < j < |l| :: l[i].id != l[j].id
  }

  function IndexOf(res: seq<OverlayNode>, id: Id): (i: nat)
    ensures i <= |res|
    ensures i < |res| ==> res[i].id == id
    ensures forall j | 0 <= j < i :: res[j].id != id
  {
    if res == [] then 0 else if res[0].id == id then 0 else 1 + IndexOf(res[1..], id)
  }

  /** One step of the merge: keep the newer of two entries for an id, append a new id. */
  function Insert(res: seq<OverlayNode>, n: OverlayNode): seq<OverlayNode> {
    var i := IndexOf(res, n.id);
    if i == |res| then res + [n] else if res[i].version < n.version then res[i := n] else res
  }

  function Merged(l: seq<OverlayNode>): seq<OverlayNode> {
    if l == [] then [] else Insert(Merged(l[..|l| - 1]), l[|l| - 1])
  }

  /** With one entry per id, `Versions` lists the entries themselves. */
  lemma {:induction false} VersionsOfOnePerId(l: seq<OverlayNode>)
    requires OnePerId(l)
    ensures Versions(l).Keys == set n | n in l :: n.id
    ensures forall n | n in l :: Versions(l)[n.id] == n.version
  {
    if l != [] {
      var k := |l| - 1;
      VersionsOfOnePerId(l[..k]);
      assert l == l[..k] + [l[k]];
    }
  }

  lemma VersionsAt(l: seq<OverlayNode>, i: nat)
    requires OnePerId(l) && i < |l|
    ensures l[i].id in Versions(l) && Versions(l)[l[i].id] == l[i].version
  {
    VersionsOfOnePerId(l);
    assert l[i] in l;
  }

  lemma InsertOnePerId(res: seq<OverlayNode>, n: OverlayNode)
    requires OnePerId(res)
    ensures OnePerId(Insert(res, n))
    ensures forall m | m in Insert(res, n) :: m in res || m == n
  {
  }

  lemma RaiseOther(m: map<Id, int>, id: Id, v: int, id': Id, v': int)
    requires id != id'
    ensures Raise(m[id' := v'], id, v) == Raise(m, id, v)[id' := v']
  {
  }

  lemma {:induction false} AbsentId(l: seq<OverlayNode>, id: Id)
    requires forall j | 0 <= j < |l| :: l[j].id != id
    ensures id !in Versions(l)
  {
    if l != [] {
      AbsentId(l[..|l| - 1], id);
    }
  }

  lemma {:induction false} ReplaceVersion(res: seq<OverlayNode>, i: nat, n: OverlayNode)
    requires i < |res| && res[i].id == n.id
    requires forall j | 0 <= j < |res| && j != i :: res[j].id != n.id
    ensures Versions(res[i := n]) == Versions(res)[n.id := n.version]
  {
    var k := |res| - 1;
    var pre := res[..k];
    if i == k {
      AbsentId(pre, n.id);
      assert res[i := n][..k] == pre;
    } else {
      ReplaceVersion(pre, i, n);
      assert res[i := n][..k] == pre[i := n];
      RaiseOther(Versions(pre), res[k].id, res[k].version, n.id, n.version);
    }
  }

  lemma InsertVersions(res: seq<OverlayNode>, n: OverlayNode)
    requires OnePerId(res)
    ensures Versions(Insert(res, n)) == Raise(Versions(res), n.id, n.version)
  {
    var i := IndexOf(res, n.id);
    if i == |res| {
      assert (res + [n])[..|res|] == res;
    } else {
      VersionsAt(res, i);
      if res[i].version < n.version {
        ReplaceVersion(res, i, n);
      }
    }
  }

  /** The merged list has one entry per id, each the entry of the input with the largest version. */
  lemma {:induction false} MergedKeepsNewest(l: seq<OverlayNode>)
    ensures OnePerId(Merged(l))
    ensures forall n | n in Merged(l) :: n in l
    ensures Versions(Merged(l)) == Versions(l)
  {
    if l != [] {
      var k := |l| - 1;
      MergedKeepsNewest(l[..k]);
      InsertOnePerId(Merged(l[..k]), l[k]);
      InsertVersions(Merged(l[..k]), l[k]);
    }
  }

  lemma JoinCommutes(a: map<Id, int>, b: map<Id, int>)
    ensures Join(a, b) == Join(b, a)
  {
  }

  lemma JoinAssociates(a: map<Id, int>, b: map<Id, int>, c: map<Id, int>)
    ensures Join(Join(a, b), c) == Join(a, Join(b, c))
  {
  }

  lemma MergeJoins(a: seq<OverlayNode>, b: seq<OverlayNode>)
    ensures Versions(Merged(a + b)) == Join(Versions(a), Versions(b))
  {
    MergedKeepsNewest(a + b);
    VersionsConcat(a, b);
  }

  lemma MergeCommutes(a: seq<OverlayNode>, b: seq<OverlayNode>)
    ensures Versions(Merged(a + b)) == Versions(Merged(b + a))
  {
    MergeJoins(a, b);
    MergeJoins(b, a);
    JoinCommutes(Versions(a), Versions(b));
  }

  lemma MergeAssociates(a: seq<OverlayNode>, b: seq<OverlayNode>, c: seq<OverlayNode>, ab: seq<OverlayNode>, bc: seq<OverlayNode>)
    requires ab == Merged(a + b) && bc == Merged(b + c)
    ensures Versions(Merged(ab + c)) == Versions(Merged(a + bc))
  {
    MergeJoins(a, b);
    MergeJoins(b, c);
    MergeJoins(ab, c);
    MergeJoins(a, bc);
    JoinAssociates(Versions(a), Versions(b), Versions(c));
  }

  lemma MergeAgain(a: seq<OverlayNode>, b: seq<OverlayNode>, ab: seq<OverlayNode>)
    requires ab == Merged(a + b)
    ensures Versions(Merged(ab + b)) == Versions(ab)
  {
    MergeJoins(a, b);
    MergeJoins(ab, b);
    JoinAssociates(Versions(a), Versions(b), Versions(b));
    assert Join(Versions(b), Versions(b)) == Versions(b);
  }

  /** While nothing has to be evicted, updates commute, associate and may be repeated. */
  lemma MergeIsAJoin(a: seq<OverlayNode>, b: seq<OverlayNode>, c: seq<OverlayNode>)
    ensures Versions(Merged(a + b)) == Versions(Merged(b + a))
    ensures Versions(Merged(Merged(a + b) + c)) == Versions(Merged(a + Merged(b + c)))
    ensures Versions(Merged(Merged(a + b) + b)) == Versions(Merged(a + b))
  {
    MergeCommutes(a, b);
    MergeAssociates(a, b, c, Merged(a + b), Merged(b + c));
    MergeAgain(a, b, Merged(a + b));
  }

  /** The serialized size of a list. */
  function ListSize(l: seq<OverlayNode>): nat {
    if l == [] then LIST_HEADER else ListSize(l[..|l| - 1]) + l[|l| - 1].size
  }

  lemma {:induction false} ListSizeUpdate(l: seq<OverlayNode>, i: nat, n: OverlayNode)
    requires i < |l|
    ensures ListSize(l[i := n]) == ListSize(l) - l[i].size + n.size
  {
    var k := |l| - 1;
    if i < k {
      ListSizeUpdate(l[..k], i, n);
      assert l[i := n][..k] == l[..k][i := n];
    } else {
      assert l[i := n][..k] == l[..k];
    }
  }

  /** Overwriting an entry with the last one and shrinking removes exactly that entry. */
  lemma SwapAndShrink(l: seq<OverlayNode>, i: nat)
    requires OnePerId(l) && i < |l|
    ensures var l' := l[i := l[|l| - 1]][..|l| - 1];
      && OnePerId(l') && ListSize(l') == ListSize(l) - l[i].size && l[i] !in l'
      && forall n | n in l' :: n in l
  {
    ListSizeUpdate(l, i, l[|l| - 1]);
  }

  /** The map from id to position that the merge keeps beside the list. */
  ghost predicate Indexes(index: map<Id, nat>, res: seq<OverlayNode>) {
    && OnePerId(res)
    && (forall id | id in index :: index[id] < |res| && res[index[id]].id == id)
    && (forall i | 0 <= i < |res| :: res[i].id in index)
  }

  method MergeNode(acc: seq<OverlayNode>, index: map<Id, nat>, n: OverlayNode)
    returns (res: seq<OverlayNode>, index': map<Id, nat>)
    requires Indexes(index, acc)
    ensures res == Insert(acc, n) && Indexes(index', res)
  {
    res, index' := acc, index;
    ghost var i := IndexOf(acc, n.id);
    if n.id in index {
      assert i == index[n.id];
      if res[index[n.id]].version < n.version {
        res := res[index[n.id] := n];
      }
    } else {
      assert i == |acc|;
      index' := index[n.id := |res|];
      res := res + [n];
    }
  }

  lemma MergedNext(seen: seq<OverlayNode>, nodes: seq<OverlayNode>, i: nat)
    requires i < |nodes|
    ensures Merged(seen + nodes[..i + 1]) == Insert(Merged(seen + nodes[..i]), nodes[i])
  {
    var l := seen + nodes[..i + 1];
    assert l[..|l| - 1] == seen + nodes[..i] && l[|l| - 1] == nodes[i];
  }

  method MergeNodes(acc: seq<OverlayNode>, index: map<Id, nat>, nodes: seq<OverlayNode>, ghost seen: seq<OverlayNode>)
    returns (ok: bool, res: seq<OverlayNode>, index': map<Id, nat>)
    requires acc == Merged(seen) && Indexes(index, acc)
    ensures ok <==> forall n | n in nodes :: n.wellFormed
    ensures ok ==> res == Merged(seen + nodes) && Indexes(index', res)
  {
    res, index' := acc, index;
    assert seen + nodes[..0] == seen;
    for i := 0 to |nodes|
      invariant res == Merged(seen + nodes[..i]) && Indexes(index', res)
      invariant forall j | 0 <= j < i :: nodes[j].wellFormed
    {
      var n := nodes[i];
      if !n.wellFormed {
        assert n in nodes;
        return false, res, index';
      }
      MergedNext(seen, nodes, i);
      res, index' := MergeNode(res, index', n);
    }
    assert nodes[..|nodes|] == nodes;
    ok := true;
  }

  datatype UpdateResult = Updated(nodes: seq<OverlayNode>) | BadValue

  method Evict(res: seq<OverlayNode>) returns (vec: seq<OverlayNode>)
    requires OnePerId(res)
    ensures OnePerId(vec) && ListSize(vec) <= MAX_VALUE_SIZE && forall n | n in vec :: n in res
    ensures ListSize(res) <= MAX_VALUE_SIZE ==> vec == res
    ensures ListSize(res) > MAX_VALUE_SIZE ==>
      exists n :: n in res && n !in vec && ListSize(vec) + n.size > MAX_VALUE_SIZE
  {
    vec := [];
    var size := LIST_HEADER;
    for i := 0 to |res|
      invariant vec == res[..i] && size == ListSize(vec)
    {
      vec := vec + [res[i]];
      assert vec[..i] == res[..i];
      size := size + res[i].size;
    }
    assert vec == res;
    while size > MAX_VALUE_SIZE
      invariant OnePerId(vec) && size == ListSize(vec) && forall n | n in vec :: n in res
      invariant ListSize(res) <= MAX_VALUE_SIZE ==> vec == res
      invariant vec == res || exists n :: n in res && n !in vec && size + n.size > MAX_VALUE_SIZE
      decreases |vec|
    {
      // CHECK(v.size() > 0)
      assert |vec| > 0;
      var idx :| 0 <= idx < |vec|;
      SwapAndShrink(vec, idx);
      size := size - vec[idx].size;
      vec := vec[idx := vec[|vec| - 1]][..|vec| - 1];
    }
  }

  method UpdateValue(nodes: seq<OverlayNode>, newNodes: seq<OverlayNode>) returns (r: UpdateResult)
    ensures r.Updated? <==> forall n | n in nodes + newNodes :: n.wellFormed
    ensures r.Updated? ==>
      var merged := Merged(nodes + newNodes);
      && OnePerId(r.nodes) && ListSize(r.nodes) <= MAX_VALUE_SIZE
      && (forall n | n in r.nodes :: n in merged)
      && (ListSize(merged) <= MAX_VALUE_SIZE ==> r.nodes == merged)
      // nothing is evicted without need
      && (ListSize(merged) > MAX_VALUE_SIZE ==>
            exists n :: n in merged && n !in r.nodes && ListSize(r.nodes) + n.size > MAX_VALUE_SIZE)
  {
    var ok, res, index := MergeNodes([], map[], nodes, []);
    assert [] + nodes == nodes;
    if !ok {
      return BadValue;
    }
    ok, res, index := MergeNodes(res, index, newNodes, nodes);
    if !ok {
      return BadValue;
    }
    var vec := Evict(res);
    r := Updated(vec);
  }
}
