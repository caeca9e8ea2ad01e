/** One routing bucket: `k` active slots and `k` backup slots of remote nodes.
    Slots own their node, so nodes are values. The clock is a parameter. */
module Bucket {
  import opened Keys
  import opened Options
  import opened Order

  datatype Status = Ok | Error

  /** A node announcement; its ADNL id is identified with its hash, the key. */
  datatype DhtNode = DhtNode(key: Key, version: int, validSignature: bool)

  const MAX_MISSED_PINGS: nat := 3
  const PING_INTERVAL_DEFAULT: real := 60.0
  const PING_INTERVAL_MULTIPLIER: real := 1.1
  const PING_INTERVAL_MAX: real := 14400.0
  const DROP_AFTER: real := 60.0

  datatype RemoteNode = RemoteNode(
    id: Key, node: DhtNode, missed: nat, lastPingAt: real, readyFrom: real, failedFrom: real, pingInterval: real)
  {
    predicate Ready() {
      readyFrom > 0.0
    }

    /** `DhtRemoteNode::receive_ping()` */
    function Pinged(now: real): RemoteNode {
      this.(missed := 0, pingInterval := PING_INTERVAL_DEFAULT, readyFrom := if readyFrom == 0.0 then now else readyFrom)
    }

    /** `DhtRemoteNode::update_value` */
    function Updated(n: DhtNode): (RemoteNode, Status) {
      if n.key != node.key then (this, Error)
      else if n.version <= node.version then (this, Ok)
      else if !n.validSignature then (this, Error)
      else (this.(node := n), Ok)
    }

    /** `DhtRemoteNode::receive_ping(node)` */
    function PingedWith(n: DhtNode, now: real): (RemoteNode, Status) {
      var (u, st) := Updated(n);
      if st.Ok? then (u.Pinged(now), Ok) else (this, Error)
    }

    function Refreshed(n: DhtNode, now: real, setActive: bool): (RemoteNode, Status) {
      if setActive then PingedWith(n, now) else Updated(n)
    }

    /** `DhtRemoteNode::send_ping` */
    function PingSent(now: real): RemoteNode {
      var n := this.(missed := missed + 1, lastPingAt := now);
      if n.missed <= MAX_MISSED_PINGS then n
      else
        var interval := pingInterval * PING_INTERVAL_MULTIPLIER;
        var n' := n.(pingInterval := if interval < PING_INTERVAL_MAX then interval else PING_INTERVAL_MAX);
        if readyFrom > 0.0 then n'.(readyFrom := 0.0, failedFrom := now) else n'
    }

    predicate PingDue(now: real) {
      now - lastPingAt > pingInterval
    }

    /** What one `check` pass at time `now` does to a node. */
    function Checked(now: real): RemoteNode {
      if PingDue(now) then PingSent(now) else this
    }

    lemma CheckedOnce(now: real)
      requires Sound()
      ensures Checked(now).Checked(now) == Checked(now)
      ensures Checked(now).Ready() ==> Ready()
    {
    }

    /** A failed node that may be replaced. */
    predicate Droppable(now: real) {
      readyFrom == 0.0 && failedFrom + DROP_AFTER < now
    }

    /** What every node keeps: its key is its announcement's, and a ready node has not missed too much. */
    ghost predicate Sound() {
      && id == node.key
      && readyFrom >= 0.0
      && pingInterval >= PING_INTERVAL_DEFAULT
      && (Ready() ==> missed <= MAX_MISSED_PINGS)
    }
  }

  function NewNode(n: DhtNode, now: real): RemoteNode {
    RemoteNode(n.key, n, 0, 0.0, 0.0, now, PING_INTERVAL_DEFAULT)
  }

  type Slot = Option<RemoteNode>

  predicate CanDrop(s: Slot, now: real) {
    s.Some? && s.value.Droppable(now)
  }

  /** The number of empty slots. */
  function Free(s: seq<Slot>): nat {
    if s == [] then 0 else Free(s[..|s| - 1]) + if s[|s| - 1].None? then 1 else 0
  }

  lemma {:induction false} FreeUpdate(s: seq<Slot>, i: nat, v: Slot)
    requires i < |s|
    ensures Free(s[i := v]) == Free(s) - (if s[i].None? then 1 else 0) + (if v.None? then 1 else 0)
  {
    var n := |s| - 1;
    if i == n {
      assert s[i := v][..n] == s[..n];
    } else {
      assert s[i := v][..n] == s[..n][i := v];
      FreeUpdate(s[..n], i, v);
    }
  }

  lemma {:induction false} FreeIffSomeEmpty(s: seq<Slot>)
    ensures Free(s) > 0 <==> exists i :: 0 <= i < |s| && s[i].None?
  {
    if s != [] {
      var n := |s| - 1;
      FreeIffSomeEmpty(s[..n]);
      if i :| 0 <= i < |s| && s[i].None? {
        assert i == n || s[..n][i].None?;
      }
    }
  }

  ghost function NodesIn(s: seq<Slot>): set<RemoteNode> {
    set i | 0 <= i < |s| && s[i].Some? :: s[i].value
  }

  ghost predicate Holds(s: seq<Slot>, d: DhtNode) {
    exists n :: n in NodesIn(s) && n.node == d
  }

  ghost function KeysOf(ns: set<RemoteNode>): set<Key> {
    set n | n in ns :: n.id
  }

  ghost function KeysIn(s: seq<Slot>): set<Key> {
    KeysOf(NodesIn(s))
  }

  ghost function ReadyIn(s: seq<Slot>): set<RemoteNode> {
    set n | n in NodesIn(s) && n.Ready()
  }

  ghost function Content(s: Slot): set<RemoteNode> {
    if s.Some? then {s.value} else {}
  }

  ghost predicate Distinct(s: seq<Slot>) {
    forall i, j | 0 <= i < j < |s| && s[i].Some? && s[j].Some? :: s[i].value.id != s[j].value.id
  }

  lemma UpdateNodes(s: seq<Slot>, i: nat, v: Slot)
    requires i < |s| && Distinct(s)
    ensures NodesIn(s[i := v]) == NodesIn(s) - Content(s[i]) + Content(v)
  {
    var s' := s[i := v];
    forall x | x in NodesIn(s) - Content(s[i]) + Content(v) ensures x in NodesIn(s') {
      if x in Content(v) {
        assert s'[i] == Some(x);
      } else {
        var j :| 0 <= j < |s| && s[j] == Some(x);
        assert s'[j] == Some(x);
      }
    }
    forall x | x in NodesIn(s') ensures x in NodesIn(s) - Content(s[i]) + Content(v) {
      var j :| 0 <= j < |s| && s'[j] == Some(x);
      if j != i { assert s[j] == Some(x); }
    }
  }

  ghost predicate AllSound(s: seq<Slot>) {
    forall i | 0 <= i < |s| && s[i].Some? :: s[i].value.Sound()
  }

  ghost predicate AllReady(s: seq<Slot>) {
    forall i | 0 <= i < |s| && s[i].Some? :: s[i].value.Ready()
  }

  ghost predicate Disjoint(a: seq<Slot>, b: seq<Slot>) {
    forall i, j | 0 <= i < |a| && 0 <= j < |b| && a[i].Some? && b[j].Some? :: a[i].value.id != b[j].value.id
  }

  /** Replacing a node by a refreshed version of itself. */
  lemma ReplaceNode(s: seq<Slot>, t: seq<Slot>, i: nat, n: RemoteNode)
    requires Distinct(s) && AllSound(s) && Disjoint(s, t)
    requires i < |s| && s[i].Some? && n.id == s[i].value.id && n.Sound()
    ensures var s' := s[i := Some(n)];
      && Distinct(s') && AllSound(s') && Disjoint(s', t) && Disjoint(t, s')
      && Free(s') == Free(s) && KeysIn(s') == KeysIn(s)
      && NodesIn(s') == NodesIn(s) - {s[i].value} + {n} && s[i].value in NodesIn(s)
  {
    var s' := s[i := Some(n)];
    FreeUpdate(s, i, Some(n));
    UpdateNodes(s, i, Some(n));
    assert s[i].value in NodesIn(s);
    forall x | x in KeysIn(s') ensures x in KeysIn(s) {
      var m :| m in NodesIn(s') && m.id == x;
    }
    forall x | x in KeysIn(s) ensures x in KeysIn(s') {
      var m :| m in NodesIn(s) && m.id == x;
      assert m == s[i].value || m in NodesIn(s');
      assert n in NodesIn(s');
    }
  }

  lemma KeysOfUnion(a: set<RemoteNode>, b: set<RemoteNode>)
    ensures KeysOf(a + b) == KeysOf(a) + KeysOf(b)
  {
  }

  lemma RefreshedSound(n: RemoteNode, d: DhtNode, now: real, setActive: bool)
    requires n.Sound() && now > 0.0
    ensures var (n', st) := n.Refreshed(d, now, setActive);
      n'.Sound() && n'.id == n.id && (n.Ready() ==> n'.Ready()) && (setActive && st.Ok? ==> n'.Ready())
      && (!(setActive && st.Ok?) ==> n'.Ready() == n.Ready())
  {
  }

  /** No backup slot is empty or holds a node that failed long ago. */
  ghost predicate Full(s: seq<Slot>, now: real) {
    Free(s) == 0 && forall j | 0 <= j < |s| :: !CanDrop(s[j], now)
  }

  /** An empty slot, or if there is none the one whose node failed first of those that failed long ago. */
  ghost predicate Victim(s: seq<Slot>, r: nat, now: real) {
    r < |s|
    && (s[r].None? ||
        (Free(s) == 0 && CanDrop(s[r], now) && forall j | 0 <= j < |s| && CanDrop(s[j], now) :: s[r].value.failedFrom <= s[j].value.failedFrom))
  }

  /** A node takes such a slot, unless there is none. */
  ghost predicate Placed(s: seq<Slot>, s': seq<Slot>, n: RemoteNode, now: real) {
    if Full(s, now) then s' == s else exists r: nat :: Victim(s, r, now) && s' == s[r := Some(n)]
  }

  /** How an unknown node enters: into a free active slot if it announced itself, else into an empty
      backup slot or in place of a long failed backup, else not at all. */
  ghost predicate Added(
    active: seq<Slot>, backup: seq<Slot>, active': seq<Slot>, backup': seq<Slot>,
    newnode: DhtNode, now: real, setActive: bool, st: Status)
  {
    var n := NewNode(newnode, now);
    && st == (if newnode.validSignature then Ok else Error)
    && (if st.Error? then active' == active && backup' == backup
        else if setActive && Free(active) > 0 then
          NodesIn(active') == NodesIn(active) + {n.Pinged(now)} && backup' == backup
        else active' == active && Placed(backup, backup', n, now))
  }

  /** What a bucket holds after a node announced itself or was mentioned: a known node is refreshed, an unknown one
      enters as `Added` tells. */
  ghost predicate Entered(
    active: seq<Slot>, backup: seq<Slot>, active': seq<Slot>, backup': seq<Slot>, id: Key, newnode: DhtNode, now: real, setActive: bool)
  {
    var ns, ns' := NodesIn(active) + NodesIn(backup), NodesIn(active') + NodesIn(backup');
    && (forall n | n in ns && n.id == id :: ns' == ns - {n} + {n.Refreshed(newnode, now, setActive).0})
    && (id !in KeysOf(ns) ==>
          Added(active, backup, active', backup', newnode, now, setActive, if newnode.validSignature then Ok else Error))
  }

  /** What it holds after an answer to a ping. */
  ghost predicate Answered(active: seq<Slot>, backup: seq<Slot>, active': seq<Slot>, backup': seq<Slot>, id: Key, result: DhtNode, now: real) {
    var ns, ns' := NodesIn(active) + NodesIn(backup), NodesIn(active') + NodesIn(backup');
    && (forall n | n in ns && n.id == id :: ns' == ns - {n} + {n.PingedWith(result, now).0})
    && (id !in KeysOf(ns) ==> active' == active && backup' == backup)
  }

  /** An active slot after one `check` pass. */
  ghost function PassActive(s: Slot, now: real): Slot {
    if s.Some? && s.value.Checked(now).Ready() then Some(s.value.Checked(now)) else None
  }

  /** A node is what the periodic pass makes of one of `ns`. */
  ghost predicate Came(n: RemoteNode, ns: set<RemoteNode>, now: real) {
    exists m :: m in ns && n == m.Checked(now)
  }

  /** What the first half of the pass, over the active slots, leaves. */
  ghost predicate ActivePassed(active: seq<Slot>, backup: seq<Slot>, active': seq<Slot>, backup': seq<Slot>, now: real) {
    && (forall n | n in NodesIn(active') :: Came(n, NodesIn(active), now))
    && (forall m | m in NodesIn(active) && m.Checked(now).Ready() :: m.Checked(now) in NodesIn(active'))
    && (forall n | n in NodesIn(backup') :: n in NodesIn(backup) || Came(n, NodesIn(active), now))
    && ReadyIn(backup') == ReadyIn(backup)
  }

  lemma SlotsPassed(s: seq<Slot>, t: seq<Slot>, now: real)
    requires |s| == |t| && forall j | 0 <= j < |s| :: t[j] == PassActive(s[j], now)
    ensures forall n | n in NodesIn(t) :: Came(n, NodesIn(s), now)
    ensures forall m | m in NodesIn(s) && m.Checked(now).Ready() :: m.Checked(now) in NodesIn(t)
  {
    forall m | m in NodesIn(s) && m.Checked(now).Ready() ensures m.Checked(now) in NodesIn(t) {
      var j :| 0 <= j < |s| && s[j] == Some(m);
      assert t[j].value == m.Checked(now);
    }
    forall n | n in NodesIn(t) ensures Came(n, NodesIn(s), now) {
      var j :| 0 <= j < |t| && t[j] == Some(n);
      assert s[j].value in NodesIn(s);
    }
  }

  /** What it holds after the periodic pass: every node left went through its step, ready backups stay, and only nodes
      that are not ready go. */
  ghost predicate Passed(active: seq<Slot>, backup: seq<Slot>, active': seq<Slot>, backup': seq<Slot>, now: real) {
    var ns, ns' := NodesIn(active) + NodesIn(backup), NodesIn(active') + NodesIn(backup');
    && (forall n | n in ns' :: exists m :: m in ns && n == m.Checked(now))
    && KeysOf(ReadyIn(backup)) <= KeysOf(ns') <= KeysOf(ns)
    && (forall m | m in ns && m.id !in KeysOf(ns') :: !m.Checked(now).Ready())
  }

  lemma PassedKeys(a: seq<Slot>, b: seq<Slot>, a': seq<Slot>, b': seq<Slot>, now: real)
    requires Passed(a, b, a', b', now)
    ensures KeysOf(NodesIn(a') + NodesIn(b')) <= KeysOf(NodesIn(a) + NodesIn(b))
  {
  }

  lemma NodesAreSound(a: seq<Slot>, b: seq<Slot>, m: RemoteNode)
    requires AllSound(a) && AllSound(b) && m in NodesIn(a) + NodesIn(b)
    ensures m.Sound()
  {
  }

  lemma CameTwice(n: RemoteNode, a0: seq<Slot>, b0: seq<Slot>, a1: seq<Slot>, b1: seq<Slot>, now: real)
    requires AllSound(a0) && ActivePassed(a0, b0, a1, b1, now) && (n in NodesIn(a1) || Came(n, NodesIn(b1), now))
    ensures Came(n, NodesIn(a0) + NodesIn(b0), now)
  {
    if n in NodesIn(a1) {
      var m :| m in NodesIn(a0) && n == m.Checked(now);
    } else {
      var m1 :| m1 in NodesIn(b1) && n == m1.Checked(now);
      if m1 !in NodesIn(b0) {
        var m :| m in NodesIn(a0) && m1 == m.Checked(now);
        m.CheckedOnce(now);
      }
    }
  }

  /** The two halves of the periodic pass together. */
  lemma PassComposes(
    a0: seq<Slot>, b0: seq<Slot>, a1: seq<Slot>, b1: seq<Slot>, a2: seq<Slot>, b2: seq<Slot>, now: real)
    requires AllSound(a0) && AllSound(b0) && ActivePassed(a0, b0, a1, b1, now)
    requires forall n | n in NodesIn(a2) + NodesIn(b2) :: n in NodesIn(a1) || Came(n, NodesIn(b1), now)
    requires KeysOf(NodesIn(a2) + NodesIn(b2)) == KeysOf(NodesIn(a1) + NodesIn(b1))
    ensures Passed(a0, b0, a2, b2, now)
  {
    var n0, n1, n2 := NodesIn(a0) + NodesIn(b0), NodesIn(a1) + NodesIn(b1), NodesIn(a2) + NodesIn(b2);
    forall n | n in n2 ensures Came(n, n0, now) {
      CameTwice(n, a0, b0, a1, b1, now);
    }
    assert KeysOf(n2) <= KeysOf(n0) && KeysOf(ReadyIn(b0)) <= KeysOf(n1);
    forall m | m in n0 && m.Checked(now).Ready() ensures m.id in KeysOf(n2) {
      NodesAreSound(a0, b0, m);
      m.CheckedOnce(now);
      if m in NodesIn(a0) {
        assert m.Checked(now) in n1;
      } else {
        assert m in ReadyIn(b0) && m in n1;
      }
    }
  }

  /** The distances of listed nodes from `id`. */
  function Dists(id: Key, vec: seq<DhtNode>): seq<nat> {
    seq(|vec|, i requires 0 <= i < |vec| => Dist(id, vec[i].key))
  }

  function Room(m: nat, n: nat): nat {
    if n < m then m - n else 0
  }

  lemma CountOne(s: seq<Slot>, i: nat)
    requires i < |s| && Distinct(s)
    ensures |KeysIn(s[..i + 1])| == |KeysIn(s[..i])| + if s[i].Some? then 1 else 0
  {
    var t, t' := s[..i], s[..i + 1];
    forall x | x in NodesIn(t) + Content(s[i]) ensures x in NodesIn(t') {
      if x in NodesIn(t) {
        var j :| 0 <= j < i && t[j] == Some(x);
        assert t'[j] == Some(x);
      } else {
        assert t'[i] == Some(x);
      }
    }
    assert NodesIn(t') == NodesIn(t) + Content(s[i]);
    if s[i].Some? {
      assert KeysIn(t') == KeysIn(t) + {s[i].value.id};
    } else {
      assert NodesIn(t') == NodesIn(t);
    }
  }

  class DhtBucket {
    const k: nat
    var active: seq<Slot>
    var backup: seq<Slot>

    constructor (k: nat)
      ensures this.k == k && Valid() && Keys() == {}
    {
      this.k := k;
      active := seq(k, _ => None);
      backup := seq(k, _ => None);
    }

    /** What holds even in the middle of `check`. */
    ghost predicate Sane()
      reads this
    {
      && |active| == k && |backup| == k
      && Distinct(active) && Distinct(backup) && Disjoint(active, backup)
      && AllSound(active) && AllSound(backup)
    }

    ghost predicate Valid()
      reads this
    {
      && Sane()
      && AllReady(active)
      && (Free(active) > 0 ==> ReadyIn(backup) == {})
    }

    ghost function Keys(): set<Key>
      reads this
    {
      KeysOf(Nodes())
    }

    ghost function Nodes(): set<RemoteNode>
      reads this
    {
      NodesIn(active) + NodesIn(backup)
    }

    /** Index of an empty backup slot, else of the replaceable node that failed first, else `k`. */
    method SelectBackupNodeToDrop(now: real) returns (r: nat)
      requires Sane()
      ensures r <= k
      ensures if Full(backup, now) then r == k else Victim(backup, r, now)
    {
      r := k;
      for idx := 0 to k
        invariant r == k || (r < idx && backup[r].Some? && backup[r].value.Droppable(now))
        invariant forall j | 0 <= j < idx :: backup[j].Some?
        invariant forall j | 0 <= j < idx && backup[j].value.Droppable(now) ::
          r < k && backup[r].value.failedFrom <= backup[j].value.failedFrom
      {
        if backup[idx].None? {
          FreeIffSomeEmpty(backup);
          return idx;
        }
        var node := backup[idx].value;
        if node.Droppable(now) {
          if r == k || node.failedFrom < backup[r].value.failedFrom {
            r := idx;
          }
        }
      }
      FreeIffSomeEmpty(backup);
    }

    /** Moves an active node to the backup slots, or forgets it when none can take it. */
    method DemoteNode(i: nat, now: real)
      requires Sane() && i < k && active[i].Some? && !active[i].value.Ready()
      modifies this
      ensures Sane()
      ensures active == old(active)[i := None]
      ensures Placed(old(backup), backup, old(active[i].value), now)
      ensures ReadyIn(backup) == old(ReadyIn(backup))
      ensures forall j | 0 <= j < k :: backup[j] == old(backup[j]) || backup[j] == old(active[i])
      ensures forall n | n in old(NodesIn(backup)) && n !in NodesIn(backup) :: n.Droppable(now)
    {
      var r := SelectBackupNodeToDrop(now);
      if r < k {
        UpdateNodes(backup, r, active[i]);
        backup := backup[r := active[i]];
      }
      active := active[i := None];
    }

    /** Moves a ready backup node into the first empty active slot, if there is one. */
    method PromoteNode(i: nat)
      requires Sane() && AllReady(active) && i < k && backup[i].Some? && backup[i].value.Ready()
      modifies this
      ensures Sane() && AllReady(active)
      ensures old(Free(active)) == 0 ==> active == old(active) && backup == old(backup)
      ensures old(Free(active)) > 0 ==> backup == old(backup)[i := None] && Free(active) == old(Free(active)) - 1
      ensures old(Free(active)) > 0 ==> exists j :: 0 <= j < k && old(active[j]).None? && active == old(active)[j := old(backup[i])]
      ensures Nodes() == old(Nodes())
    {
      ghost var a0, b0 := active, backup;
      for j := 0 to k
        invariant active == a0 && backup == b0
        invariant forall l | 0 <= l < j :: active[l].Some?
      {
        if active[j].None? {
          FreeUpdate(a0, j, backup[i]);
          FreeIffSomeEmpty(a0);
          active := active[j := backup[i]];
          backup := backup[i := None];
          UpdateNodes(a0, j, b0[i]);
          UpdateNodes(b0, i, None);
          return;
        }
        // CHECK(node->is_ready())
        assert active[j].value.Ready();
      }
      FreeIffSomeEmpty(a0);
    }

    /** A node announced itself (`setActive`) or was mentioned by another one. */
    method AddFullNode(id: Key, newnode: DhtNode, now: real, setActive: bool) returns (st: Status)
      requires Valid() && now > 0.0
      modifies this
      // a node under a key that is not its own might otherwise enter a second time
      ensures id in old(Keys()) || newnode.key !in old(Keys()) ==> Valid()
      // a known node is only refreshed
      ensures forall n | n in old(Nodes()) && n.id == id ::
        var (n', st') := n.Refreshed(newnode, now, setActive);
        st == st' && Nodes() == old(Nodes()) - {n} + {n'}
      // a ready node is active unless no slot is free
      ensures setActive && st.Ok? && id == newnode.key && id !in KeysIn(active) ==> Free(active) == 0
      ensures id !in old(Keys()) ==> Added(old(active), old(backup), active, backup, newnode, now, setActive, st)
      ensures KeysOf(old(ReadyIn(backup))) <= Keys() <= old(Keys()) + {newnode.key}
      ensures id in old(Keys()) ==> Keys() == old(Keys())
      ensures Entered(old(active), old(backup), active, backup, id, newnode, now, setActive)
    {
      var i := FindSlot(active, id);
      if i < k {
        UniqueNode(active[i].value);
        st := RefreshActive(i, newnode, now, setActive);
        return;
      }
      i := FindSlot(backup, id);
      if i < k {
        UniqueNode(backup[i].value);
        st := RefreshBackup(i, newnode, now, setActive);
        return;
      }
      st := AddUnknown(newnode, now, setActive);
    }

    lemma UniqueNode(n: RemoteNode)
      requires Sane() && n in Nodes()
      ensures forall m | m in Nodes() && m.id == n.id :: m == n
    {
    }

    method AddUnknown(newnode: DhtNode, now: real, setActive: bool) returns (st: Status)
      requires Valid() && now > 0.0
      modifies this
      ensures newnode.key !in old(Keys()) ==> Valid()
      ensures Added(old(active), old(backup), active, backup, newnode, now, setActive, st)
      ensures setActive && old(Free(active)) == 0 ==> Free(active) == 0
      ensures KeysOf(old(ReadyIn(backup))) <= Keys() <= old(Keys()) + {newnode.key}
    {
      if !newnode.validSignature {
        return Error;
      }
      if setActive {
        var i := FirstFree(active);
        if i < k {
          var n := NewNode(newnode, now);
          n := n.Pinged(now);
          UpdateNodes(active, i, Some(n));
          active := active[i := Some(n)];
          return Ok;
        }
      }
      AddToBackup(newnode, now);
      return Ok;
    }

    /** A node that is not ready goes to an empty backup slot, or replaces a node that failed long ago. */
    method AddToBackup(newnode: DhtNode, now: real)
      requires Valid() && now > 0.0
      modifies this`backup
      ensures newnode.key !in old(Keys()) ==> Valid()
      ensures Placed(old(backup), backup, NewNode(newnode, now), now)
      ensures KeysOf(old(ReadyIn(backup))) <= Keys() <= old(Keys()) + {newnode.key}
    {
      var r := SelectBackupNodeToDrop(now);
      if r < k {
        var n := NewNode(newnode, now);
        UpdateNodes(backup, r, Some(n));
        backup := backup[r := Some(n)];
      }
    }

    /** The first slot holding a node, or the number of slots. */
    static method FindSlot(s: seq<Slot>, id: Key) returns (i: nat)
      ensures i <= |s|
      ensures i < |s| ==> s[i].Some? && s[i].value.id == id
      ensures i == |s| ==> id !in KeysIn(s)
    {
      i := 0;
      while i < |s| && !(s[i].Some? && s[i].value.id == id)
        invariant i <= |s|
        invariant forall j | 0 <= j < i && s[j].Some? :: s[j].value.id != id
      {
        i := i + 1;
      }
    }

    /** The first empty slot, or the number of slots. */
    static method FirstFree(s: seq<Slot>) returns (i: nat)
      ensures i <= |s|
      ensures i < |s| <==> Free(s) > 0
      ensures i < |s| ==> s[i].None?
    {
      i := 0;
      while i < |s| && s[i].Some?
        invariant i <= |s|
        invariant forall j | 0 <= j < i :: s[j].Some?
      {
        i := i + 1;
      }
      FreeIffSomeEmpty(s);
    }

    method RefreshActive(i: nat, newnode: DhtNode, now: real, setActive: bool) returns (st: Status)
      requires Valid() && i < k && active[i].Some? && now > 0.0
      modifies this`active
      ensures Valid()
      ensures var n := old(active[i].value);
        var (n', st') := n.Refreshed(newnode, now, setActive);
        st == st' && active == old(active)[i := Some(n')] && Nodes() == old(Nodes()) - {n} + {n'}
      ensures KeysIn(active) == old(KeysIn(active)) && Keys() == old(Keys())
    {
      var (n, s) := active[i].value.Refreshed(newnode, now, setActive);
      RefreshedSound(active[i].value, newnode, now, setActive);
      ReplaceNode(active, backup, i, n);
      KeysOfUnion(NodesIn(active), NodesIn(backup));
      active := active[i := Some(n)];
      KeysOfUnion(NodesIn(active), NodesIn(backup));
      assert old(active[i].value) !in NodesIn(backup);
      st := s;
    }

    /** A backup node answered or was mentioned; it becomes active as soon as it is ready and there is room. */
    method RefreshBackup(i: nat, newnode: DhtNode, now: real, setActive: bool) returns (st: Status)
      requires Valid() && i < k && backup[i].Some? && now > 0.0
      modifies this
      ensures Valid()
      ensures var n := old(backup[i].value);
        var (n', st') := n.Refreshed(newnode, now, setActive);
        st == st' && Nodes() == old(Nodes()) - {n} + {n'}
      ensures setActive && st.Ok? && old(backup[i].value.id) !in KeysIn(active) ==> Free(active) == 0
      ensures Keys() == old(Keys())
    {
      var (n, s) := backup[i].value.Refreshed(newnode, now, setActive);
      RefreshedSound(backup[i].value, newnode, now, setActive);
      ReplaceNode(backup, active, i, n);
      KeysOfUnion(NodesIn(active), NodesIn(backup));
      assert backup[i].value !in NodesIn(active);
      backup := backup[i := Some(n)];
      KeysOfUnion(NodesIn(active), NodesIn(backup));
      st := s;
      if setActive && st.Ok? && n.Ready() {
        PromoteNode(i);
      }
    }

    /** The answer to a ping. */
    method ReceivePing(id: Key, result: DhtNode, now: real)
      requires Valid() && now > 0.0
      modifies this
      ensures Valid() && Keys() == old(Keys())
      ensures Answered(old(active), old(backup), active, backup, id, result, now)
      ensures id in Keys() && result.key == id && result.validSignature && id !in KeysIn(active) ==> Free(active) == 0
    {
      var i := FindSlot(active, id);
      if i < k {
        UniqueNode(active[i].value);
        var _ := RefreshActive(i, result, now, true);
        return;
      }
      i := FindSlot(backup, id);
      if i < k {
        UniqueNode(backup[i].value);
        var _ := RefreshBackup(i, result, now, true);
      }
    }

    /** The periodic pass: ping what is due, demote what stopped answering, promote into the room there is. */
    method Check(now: real)
      requires Valid() && now > 0.0
      modifies this
      ensures Valid() && Passed(old(active), old(backup), active, backup, now)
    {
      ghost var a0, b0 := active, backup;
      var haveSpace := PingActive(now);
      ghost var a1, b1 := active, backup;
      PingBackups(haveSpace, now);
      PassComposes(a0, b0, a1, b1, active, backup, now);
    }

    ghost function ActiveKeys(): set<Key>
      reads this
    {
      KeysIn(active)
    }

    /** Active slots indexed by distance from `id`. */
    method IndexByDistance(id: Key) returns (list: map<nat, nat>)
      requires Sane()
      ensures list.Keys == DistSet(id, ActiveKeys())
      ensures forall d | d in list :: list[d] < k && active[list[d]].Some? && d == Dist(id, active[list[d]].value.id)
    {
      list := map[];
      for i := 0 to |active|
        invariant forall d | d in list :: list[d] < i && active[list[d]].Some? && d == Dist(id, active[list[d]].value.id)
        invariant forall j | 0 <= j < i && active[j].Some? :: Dist(id, active[j].value.id) in list
      {
        if active[i].Some? {
          var d := Dist(id, active[i].value.id);
          if d !in list {
            list := list[d := i];
          }
        }
      }
      forall d | d in list.Keys ensures d in DistSet(id, ActiveKeys()) {
        assert active[list[d]].value in NodesIn(active);
      }
    }

    /** Appends the active nodes nearest to `id`, nearest first, until `vec` holds `m` nodes. */
    method GetNearestNodes(id: Key, vec: seq<DhtNode>, m: nat) returns (r: seq<DhtNode>)
      requires Sane()
      ensures vec <= r && forall i | |vec| <= i < |r| :: Holds(active, r[i])
      ensures Dists(id, r) == Dists(id, vec) + Smallest(DistSet(id, ActiveKeys()), Room(m, |vec|))
    {
      var list := IndexByDistance(id);
      var ds := TakeInOrder(list.Keys, Room(m, |vec|));
      SmallestIsSmallest(list.Keys, Room(m, |vec|));
      r := AppendNodes(active, list, id, ds, vec);
    }

    static method AppendNodes(slots: seq<Slot>, list: map<nat, nat>, id: Key, ds: seq<nat>, vec: seq<DhtNode>)
      returns (r: seq<DhtNode>)
      requires forall d | d in ds :: d in list && list[d] < |slots| && slots[list[d]].Some? && d == Dist(id, slots[list[d]].value.node.key)
      ensures vec <= r && forall i | |vec| <= i < |r| :: Holds(slots, r[i])
      ensures Dists(id, r) == Dists(id, vec) + ds
    {
      r := vec;
      for i := 0 to |ds|
        invariant vec <= r && forall j | |vec| <= j < |r| :: Holds(slots, r[j])
        invariant Dists(id, r) == Dists(id, vec) + ds[..i]
      {
        assert ds[i] in ds;
        var n := slots[list[ds[i]]].value;
        assert n in NodesIn(slots);
        assert Dists(id, r + [n.node]) == Dists(id, r) + [ds[i]];
        r := r + [n.node];
        assert ds[..i + 1] == ds[..i] + [ds[i]];
      }
      assert ds[..|ds|] == ds;
    }

    /** The number of active nodes. */
    method ActiveCnt() returns (cnt: nat)
      requires Sane()
      ensures cnt == |ActiveKeys()|
    {
      cnt := 0;
      for i := 0 to |active|
        invariant cnt == |KeysIn(active[..i])|
      {
        CountOne(active, i);
        if active[i].Some? {
          cnt := cnt + 1;
        }
      }
      assert active[..|active|] == active;
    }

    method PingActive(now: real) returns (haveSpace: nat)
      requires Valid() && now > 0.0
      modifies this
      ensures Sane() && AllReady(active) && haveSpace == Free(active)
      ensures ActivePassed(old(active), old(backup), active, backup, now)
    {
      haveSpace := 0;
      ghost var a0, b0 := active, backup;
      for i := 0 to k
        invariant Sane() && AllReady(active)
        invariant haveSpace == Free(active[..i])
        invariant forall j | i <= j < k :: active[j] == a0[j]
        invariant forall j | 0 <= j < i :: active[j] == PassActive(a0[j], now)
        invariant forall n | n in NodesIn(backup) :: n in NodesIn(b0) || Came(n, NodesIn(a0), now)
        invariant ReadyIn(backup) == ReadyIn(b0)
      {
        PingActiveSlot(i, now, a0);
        if active[i].None? {
          haveSpace := haveSpace + 1;
        }
        assert active[..i + 1][..i] == active[..i];
      }
      assert active[..k] == active;
      SlotsPassed(a0, active, now);
    }

    method PingActiveSlot(i: nat, now: real, ghost a0: seq<Slot>)
      requires Sane() && AllReady(active) && i < k && now > 0.0 && |a0| == k && a0[i] == active[i]
      modifies this
      ensures Sane() && AllReady(active)
      ensures active == old(active)[i := PassActive(old(active[i]), now)]
      ensures forall n | n in NodesIn(backup) :: n in old(NodesIn(backup)) || Came(n, NodesIn(a0), now)
      ensures ReadyIn(backup) == old(ReadyIn(backup))
    {
      if active[i].Some? && active[i].value.PingDue(now) {
        assert a0[i].value in NodesIn(a0);
        active := active[i := Some(active[i].value.PingSent(now))];
        if active[i].value.readyFrom == 0.0 {
          DemoteNode(i, now);
        }
      }
    }

    method PingBackups(space: nat, now: real)
      requires Sane() && AllReady(active) && space == Free(active) && now > 0.0
      modifies this
      ensures Valid() && Keys() == old(Keys())
      ensures forall n | n in Nodes() :: n in old(NodesIn(active)) || Came(n, old(NodesIn(backup)), now)
    {
      var haveSpace := space;
      ghost var a0, b0 := active, backup;
      for i := 0 to k
        invariant Sane() && AllReady(active)
        invariant haveSpace == Free(active)
        invariant haveSpace > 0 ==> forall j | 0 <= j < i && backup[j].Some? :: !backup[j].value.Ready()
        invariant forall j | i <= j < k :: backup[j] == b0[j]
        invariant forall j | 0 <= j < i && backup[j].Some? :: b0[j].Some? && backup[j].value == b0[j].value.Checked(now)
        invariant forall n | n in NodesIn(active) :: n in NodesIn(a0) || Came(n, NodesIn(b0), now)
        invariant Keys() == old(Keys())
      {
        haveSpace := PingBackupSlot(i, haveSpace, now, b0);
      }
      forall n | n in NodesIn(backup) ensures Came(n, NodesIn(b0), now) {
        var j :| 0 <= j < k && backup[j] == Some(n);
        assert b0[j].value in NodesIn(b0);
      }
    }

    method PingBackupSlot(i: nat, space: nat, now: real, ghost b0: seq<Slot>) returns (haveSpace: nat)
      requires Sane() && AllReady(active) && i < k && space == Free(active) && now > 0.0 && |b0| == k && b0[i] == backup[i]
      modifies this
      ensures Sane() && AllReady(active) && haveSpace == Free(active) && haveSpace <= space
      ensures forall j | 0 <= j < k && j != i :: backup[j] == old(backup[j])
      ensures backup[i].Some? ==> old(backup[i]).Some? && backup[i].value == old(backup[i].value).Checked(now)
      ensures backup[i].Some? && haveSpace > 0 ==> !backup[i].value.Ready()
      ensures forall n | n in NodesIn(active) :: n in old(NodesIn(active)) || Came(n, NodesIn(b0), now)
      ensures Keys() == old(Keys())
    {
      haveSpace := space;
      PingBackup(i, now);
      assert b0[i].Some? ==> b0[i].value in NodesIn(b0);
      if backup[i].Some? && haveSpace > 0 && backup[i].value.Ready() {
        PromoteNode(i);
        haveSpace := haveSpace - 1;
      }
    }

    method PingBackup(i: nat, now: real)
      requires Sane() && i < k && now > 0.0
      modifies this`backup
      ensures Sane() && Keys() == old(Keys())
      ensures backup == old(backup)[i := if old(backup[i]).Some? then Some(old(backup[i].value).Checked(now)) else None]
    {
      if backup[i].Some? && backup[i].value.PingDue(now) {
        ReplaceNode(backup, active, i, backup[i].value.PingSent(now));
        KeysOfUnion(NodesIn(active), NodesIn(backup));
        backup := backup[i := Some(backup[i].value.PingSent(now))];
        KeysOfUnion(NodesIn(active), NodesIn(backup));
      }
    }
  }
}
