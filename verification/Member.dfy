/** A DHT node: its routing table, the values it stores with their expiry index, and the reverse
    connections it knows. Clocks and signature checks are inputs. */
module Member {
  import opened Keys
  import opened Order
  import opened Bucket
  import opened Routing
  import opened TtlIndex
  import opened Values

  const MAX_VALUES: nat := 100000
  const MAX_REVERSE_CONNECTIONS: nat := 100000
  const MAX_TTL: nat := 3660

  datatype ReverseConnection = ReverseConnection(dhtNode: Key, ttl: real)

  class DhtMember {
    const values: ExpiringTable<Key, DhtValue>
    var lastCheckKey: Key
    const reverseConnections: ExpiringTable<Key, ReverseConnection>

    const key: Key
    const k: nat
    const buckets: seq<DhtBucket>

    /** 256 separate sound buckets, every node in the bucket of its first differing bit. */
    ghost predicate Routed()
      reads buckets
    {
      && |buckets| == KEY_BITS
      && (forall b | 0 <= b < KEY_BITS :: buckets[b].k == k && buckets[b].Valid())
      && (forall b, c | 0 <= b < c < KEY_BITS :: buckets[b] != buckets[c])
      && (forall b, x | 0 <= b < KEY_BITS && x in buckets[b].Keys() :: InBucket(key, b, x))
    }

    ghost function Active(): (t: Table)
      requires Routed()
      reads buckets
      ensures WellPlaced(key, t) && forall b | 0 <= b < KEY_BITS :: t[b] == buckets[b].ActiveKeys()
    {
      var t := seq(KEY_BITS, b requires 0 <= b < KEY_BITS && |buckets| == KEY_BITS reads buckets => buckets[b].ActiveKeys());
      forall b, x | 0 <= b < KEY_BITS && x in t[b] ensures InBucket(key, b, x) {
        assert x in buckets[b].Keys();
      }
      t
    }

    constructor (key: Key, k: nat)
      ensures this.key == key && this.k == k && Routed() && Stored()
      ensures forall b | 0 <= b < |buckets| :: buckets[b].Keys() == {}
      ensures values.table == map[] && reverseConnections.table == map[]
      ensures fresh(buckets) && fresh(values) && fresh(reverseConnections)
    {
      this.key := key;
      this.k := k;
      RankInjective();
      var bs := EmptyBuckets(k);
      buckets := bs;
      values := new ExpiringTable(Rank(), (v: DhtValue) => v.ttl as real);
      lastCheckKey := seq(KEY_BITS, _ => false);
      reverseConnections := new ExpiringTable(Rank(), (c: ReverseConnection) => c.ttl);
    }

    static method EmptyBuckets(k: nat) returns (bs: seq<DhtBucket>)
      ensures |bs| == KEY_BITS && fresh(bs)
      ensures forall b | 0 <= b < KEY_BITS :: bs[b].k == k && bs[b].Valid() && bs[b].Keys() == {}
      ensures forall b, c | 0 <= b < c < KEY_BITS :: bs[b] != bs[c]
    {
      bs := [];
      for i := 0 to KEY_BITS
        invariant |bs| == i && fresh(bs)
        invariant forall b | 0 <= b < i :: bs[b].k == k && bs[b].Valid() && bs[b].Keys() == {}
        invariant forall b, c | 0 <= b < c < i :: bs[b] != bs[c]
      {
        var bucket := new DhtBucket(k);
        bs := bs + [bucket];
      }
    }

    /** Only one bucket changed, and it is sound and holds only nodes that belong there. */
    twostate lemma StillRouted(i: nat)
      requires old(Routed()) && i < KEY_BITS && (forall b | 0 <= b < KEY_BITS && b != i :: unchanged(buckets[b]))
      requires buckets[i].Valid() && forall x | x in buckets[i].Keys() :: InBucket(key, i, x)
      ensures Routed()
    {
      forall b, x | 0 <= b < KEY_BITS && x in buckets[b].Keys() ensures InBucket(key, b, x) {
        if b != i { assert x in old(buckets[b].Keys()); }
      }
    }

    /** What the slots of all buckets hold. */
    ghost function Slots(): (s: seq<(seq<Slot>, seq<Slot>)>)
      requires |buckets| == KEY_BITS
      reads buckets
      ensures |s| == KEY_BITS && forall b | 0 <= b < KEY_BITS :: s[b] == (buckets[b].active, buckets[b].backup)
    {
      seq(KEY_BITS, b requires 0 <= b < KEY_BITS && |buckets| == KEY_BITS reads buckets => (buckets[b].active, buckets[b].backup))
    }

    twostate lemma SlotsKept(i: nat)
      requires |buckets| == KEY_BITS && i < KEY_BITS && (forall b | 0 <= b < KEY_BITS && b != i :: unchanged(buckets[b]))
      ensures forall b | 0 <= b < KEY_BITS && b != i :: Slots()[b] == old(Slots())[b]
    {
    }

    /** A node announced itself or was mentioned; it goes to the bucket of its first differing bit. Under a key that is
        not its own it could enter a bucket where it does not belong. */
    method AddFullNode(id: Key, node: DhtNode, now: real, setActive: bool)
      requires Routed() && now > 0.0
      modifies buckets
      ensures id == node.key || (forall b | 0 <= b < KEY_BITS && InBucket(key, b, id) :: id in old(buckets[b].Keys())) ==> Routed()
      ensures forall b | 0 <= b < KEY_BITS && !InBucket(key, b, id) :: unchanged(buckets[b])
      ensures forall b | 0 <= b < KEY_BITS && InBucket(key, b, id) ::
        Entered(old(buckets[b].active), old(buckets[b].backup), buckets[b].active, buckets[b].backup, id, node, now, setActive)
    {
      var bit := CommonPrefix(id, key);
      if bit < KEY_BITS {
        OneBucket(id, bit);
        AddToBucket(bit, id, node, now, setActive);
      } else {
        // CHECK(key == key_)
        assert id == key;
      }
    }

    method AddToBucket(bit: nat, id: Key, node: DhtNode, now: real, setActive: bool)
      requires Routed() && now > 0.0 && bit < KEY_BITS && InBucket(key, bit, id)
      modifies buckets[bit]
      ensures id == node.key || id in old(buckets[bit].Keys()) ==> Routed()
      ensures Entered(old(buckets[bit].active), old(buckets[bit].backup), buckets[bit].active, buckets[bit].backup, id, node, now, setActive)
    {
      var bucket := buckets[bit];
      var _ := bucket.AddFullNode(id, node, now, setActive);
      if id == node.key || id in old(bucket.Keys()) {
        StillRouted(bit);
      }
    }

    lemma OneBucket(id: Key, bit: nat)
      requires bit < KEY_BITS && InBucket(key, bit, id)
      ensures forall b | 0 <= b < KEY_BITS && InBucket(key, b, id) :: b == bit
    {
      forall b | 0 <= b < KEY_BITS && InBucket(key, b, id) ensures b == bit {
        SameBucket(key, id, b, bit);
      }
    }

    method ReceivePing(id: Key, result: DhtNode, now: real)
      requires Routed() && now > 0.0
      modifies buckets
      ensures Routed()
      ensures forall b | 0 <= b < KEY_BITS && !InBucket(key, b, id) :: unchanged(buckets[b])
      ensures forall b | 0 <= b < KEY_BITS && InBucket(key, b, id) ::
        Answered(old(buckets[b].active), old(buckets[b].backup), buckets[b].active, buckets[b].backup, id, result, now)
    {
      var bit := CommonPrefix(id, key);
      if bit < KEY_BITS {
        OneBucket(id, bit);
        PingBucket(bit, id, result, now);
      } else {
        assert id == key;
      }
    }

    method PingBucket(bit: nat, id: Key, result: DhtNode, now: real)
      requires Routed() && now > 0.0 && bit < KEY_BITS
      modifies buckets[bit]
      ensures Routed()
      ensures Answered(old(buckets[bit].active), old(buckets[bit].backup), buckets[bit].active, buckets[bit].backup, id, result, now)
    {
      buckets[bit].ReceivePing(id, result, now);
      StillRouted(bit);
    }

    /** The first `n` buckets went through the periodic pass, the others are as they were. */
    static ghost predicate PassedUpTo(s: seq<(seq<Slot>, seq<Slot>)>, t: seq<(seq<Slot>, seq<Slot>)>, n: nat, now: real) {
      && |s| == |t| && n <= |s|
      && (forall b | 0 <= b < n :: Passed(s[b].0, s[b].1, t[b].0, t[b].1, now))
      && (forall b | n <= b < |s| :: t[b] == s[b])
    }

    static lemma PassedNext(
      s: seq<(seq<Slot>, seq<Slot>)>, t: seq<(seq<Slot>, seq<Slot>)>, t': seq<(seq<Slot>, seq<Slot>)>, n: nat, now: real)
      requires PassedUpTo(s, t, n, now) && n < |s| && |t'| == |t| && (forall b | 0 <= b < |t| && b != n :: t'[b] == t[b])
      requires Passed(t[n].0, t[n].1, t'[n].0, t'[n].1, now)
      ensures PassedUpTo(s, t', n + 1, now)
    {
    }

    /** The pass over all buckets in `check`. */
    method CheckBuckets(now: real)
      requires Routed() && now > 0.0
      modifies buckets
      ensures Routed() && PassedUpTo(old(Slots()), Slots(), KEY_BITS, now)
    {
      ghost var before := Slots();
      for i := 0 to KEY_BITS
        invariant Routed() && PassedUpTo(before, Slots(), i, now)
      {
        CheckNext(i, now, before);
      }
    }

    method CheckNext(i: nat, now: real, ghost before: seq<(seq<Slot>, seq<Slot>)>)
      requires Routed() && i < KEY_BITS && now > 0.0 && PassedUpTo(before, Slots(), i, now)
      modifies buckets[i]
      ensures Routed() && PassedUpTo(before, Slots(), i + 1, now)
    {
      CheckBucket(i, now);
      SlotsKept(i);
      PassedNext(before, old(Slots()), Slots(), i, now);
    }

    method CheckBucket(i: nat, now: real)
      requires Routed() && i < KEY_BITS && now > 0.0
      modifies buckets[i]
      ensures Routed()
      ensures Passed(old(buckets[i].active), old(buckets[i].backup), buckets[i].active, buckets[i].backup, now)
    {
      var bucket := buckets[i];
      bucket.Check(now);
      PassedKeys(old(bucket.active), old(bucket.backup), bucket.active, bucket.backup, now);
      assert forall x | x in bucket.Keys() :: x in old(bucket.Keys());
      StillRouted(i);
    }

    ghost predicate IsActive(n: DhtNode)
      reads buckets
    {
      exists b :: 0 <= b < |buckets| && Holds(buckets[b].active, n)
    }

    /** `t` lists the active keys of the buckets. */
    ghost predicate Shows(t: Table)
      reads buckets
    {
      && WellPlaced(key, t)
      && |buckets| == KEY_BITS
      && forall b | 0 <= b < KEY_BITS :: buckets[b].Sane() && t[b] == buckets[b].ActiveKeys()
    }

    /** `vec` lists the `m` nearest keys of the buckets the walk has visited. */
    ghost predicate Walked(t: Table, id: Key, vec: seq<DhtNode>, m: nat, n: nat, c: nat) {
      Dists(id, vec) == Smallest(DistSet(id, Visited(t, Xor(id, key), n, c)), m)
    }

    /** The `m` active nodes nearest to `id`, nearest first. */
    method GetNearestNodes(id: Key, m: nat) returns (vec: seq<DhtNode>)
      requires Routed()
      ensures Dists(id, vec) == Smallest(DistSet(id, All(Active())), m)
      ensures forall i | 0 <= i < |vec| :: IsActive(vec[i])
    {
      ghost var t, n := Active(), 0;
      vec, n := WalkSetBits(id, m, t);
      forall i | 0 <= i < |vec| ensures Dist(id, vec[i].key) < Dist(id, key) {
        // CHECK((el.get_key() ^ id) < id_xor)
        WalkedCloser(t, id, vec, m, n, i);
      }
      if |vec| < m {
        vec := WalkClearBits(id, vec, m, t);
      } else {
        EnoughVisited(key, id, t, n, KEY_BITS, m);
      }
      // CHECK(vec.size() <= k)
      SmallestIsSmallest(DistSet(id, All(t)), m);
      assert |vec| == |Dists(id, vec)| <= m;
    }

    lemma WalkedCloser(t: Table, id: Key, vec: seq<DhtNode>, m: nat, n: nat, i: nat)
      requires WellPlaced(key, t) && Walked(t, id, vec, m, n, KEY_BITS) && i < |vec|
      ensures Dist(id, vec[i].key) < Dist(id, key)
    {
      var v := Visited(t, Xor(id, key), n, KEY_BITS);
      SmallestIsSmallest(DistSet(id, v), m);
      assert Dists(id, vec)[i] in Smallest(DistSet(id, v), m);
      var x :| x in v && Dist(id, x) == Dists(id, vec)[i];
      var b :| 0 <= b < KEY_BITS && x in t[b] && Xor(id, key)[b];
      SetBitIffCloser(key, id, b, x);
    }

    /** Set bits of `id ^ key` upwards: the buckets closer than this node, nearest first. */
    method WalkSetBits(id: Key, m: nat, ghost t: Table) returns (vec: seq<DhtNode>, ghost n: nat)
      requires Shows(t)
      ensures n <= KEY_BITS && Walked(t, id, vec, m, n, KEY_BITS)
      ensures |vec| < m ==> n == KEY_BITS
      ensures forall i | 0 <= i < |vec| :: IsActive(vec[i])
    {
      vec, n := [], 0;
      AllVisited(key, id, t);
      var idXor := Xor(id, key);
      for bit := 0 to KEY_BITS
        invariant n == bit && Walked(t, id, vec, m, n, KEY_BITS)
        invariant forall i | 0 <= i < |vec| :: IsActive(vec[i])
      {
        if idXor[bit] {
          vec := Visit(id, vec, m, bit, t, bit, KEY_BITS, bit + 1, KEY_BITS);
          if |vec| >= m {
            return vec, bit + 1;
          }
        } else {
          assert Visited(t, idXor, bit, KEY_BITS) == Visited(t, idXor, bit + 1, KEY_BITS);
        }
        n := bit + 1;
      }
    }

    /** Clear bits downwards: the buckets farther than this node, nearest first. */
    method WalkClearBits(id: Key, vec: seq<DhtNode>, m: nat, ghost t: Table) returns (r: seq<DhtNode>)
      requires Shows(t) && Walked(t, id, vec, m, KEY_BITS, KEY_BITS)
      requires forall i | 0 <= i < |vec| :: IsActive(vec[i])
      ensures Dists(id, r) == Smallest(DistSet(id, All(t)), m)
      ensures forall i | 0 <= i < |r| :: IsActive(r[i])
    {
      r := vec;
      var idXor := Xor(id, key);
      for bit := KEY_BITS downto 0
        invariant Walked(t, id, r, m, KEY_BITS, bit)
        invariant forall i | 0 <= i < |r| :: IsActive(r[i])
      {
        if !idXor[bit] {
          r := Visit(id, r, m, bit, t, KEY_BITS, bit + 1, KEY_BITS, bit);
          if |r| >= m {
            EnoughVisited(key, id, t, KEY_BITS, bit, m);
            return;
          }
        } else {
          assert Visited(t, idXor, KEY_BITS, bit) == Visited(t, idXor, KEY_BITS, bit + 1);
        }
      }
      AllVisited(key, id, t);
    }

    /** Reads one bucket. */
    method Visit(id: Key, vec: seq<DhtNode>, m: nat, bit: nat, ghost t: Table, ghost n: nat, ghost c: nat, ghost n': nat, ghost c': nat)
      returns (r: seq<DhtNode>)
      requires Shows(t) && Walked(t, id, vec, m, n, c) && bit < KEY_BITS && (n >= KEY_BITS || c >= KEY_BITS)
      requires if Xor(id, key)[bit] then n == bit && n' == bit + 1 && c == c' else c == bit + 1 && c' == bit && n == n'
      requires forall i | 0 <= i < |vec| :: IsActive(vec[i])
      ensures Walked(t, id, r, m, n', c')
      ensures forall i | 0 <= i < |r| :: IsActive(r[i])
    {
      VisitBucket(key, id, t, n, c, n', c', bit, m);
      r := buckets[bit].GetNearestNodes(id, vec, m);
      assert |Dists(id, vec)| == |vec|;
      forall i | 0 <= i < |r| ensures IsActive(r[i]) {
        assert i < |vec| ==> r[i] == vec[i];
      }
    }

    /** How many active nodes are closer to `id` than this node, capped at `maxValue`. */
    method Distance(id: Key, maxValue: nat) returns (d: nat)
      requires Routed()
      ensures var max := if maxValue == 0 then 2 * k else maxValue;
        var closer := |CloserThanSelf(key, id, Active())|;
        d == if closer < max then closer else max
    {
      var max := if maxValue == 0 then 2 * k else maxValue;
      d := 0;
      var idXor := Xor(id, key);
      ghost var t := Active();
      AllVisited(key, id, t);
      SetBitsAreCloser(key, id, t);
      for bit := 0 to KEY_BITS
        invariant d == |Visited(t, idXor, bit, KEY_BITS)|
        invariant d < max || d == 0
      {
        CountBucket(key, id, t, bit);
        if idXor[bit] {
          var cnt := buckets[bit].ActiveCnt();
          d := d + cnt;
          if d >= max {
            SubsetSize(Visited(t, idXor, bit + 1, KEY_BITS), Visited(t, idXor, KEY_BITS, KEY_BITS));
            return max;
          }
        }
      }
    }

    /** Both indexes list exactly the tables they belong to; stored values are checked. */
    ghost predicate Stored()
      reads values, reverseConnections
    {
      && values.rank == Rank() && reverseConnections.rank == Rank()
      && (forall v :: values.timeOf(v) == v.ttl as real)
      && (forall c :: reverseConnections.timeOf(c) == c.ttl)
      && values.Valid() && reverseConnections.Valid()
      && (forall x | x in values.table :: values.table[x].key == x && values.table[x].Checks())
    }

    /** Stores a value, or drops it when it is expired or too remote. */
    method StoreIn(value: DhtValue, now: real) returns (st: Status)
      requires Routed() && Stored() && now >= 0.0
      modifies values
      ensures Stored()
      ensures st.Error? <==> value.ttl > now.Floor + MAX_TTL || (!value.Expired(now) && !value.Checks())
      ensures var kept := st.Ok? && !value.Expired(now) && |CloserThanSelf(key, value.key, old(Active()))| < k + 10;
        if kept then Replaced(old(values.table), value, values.table) else values.table == old(values.table)
    {
      if value.ttl > now.Floor + MAX_TTL {
        return Error;
      }
      if value.Expired(now) {
        return Ok;
      }
      if !value.Checks() {
        return Error;
      }
      var remote := IsRemote(value.key);
      if !remote {
        PutValue(value);
      }
      return Ok;
    }

    /** Too many active nodes are closer to a key than this node. */
    method IsRemote(id: Key) returns (remote: bool)
      requires Routed()
      ensures remote == (|CloserThanSelf(key, id, Active())| >= k + 10)
    {
      var dist := Distance(id, k + 10);
      remote := dist >= k + 10;
    }

    method PutValue(value: DhtValue)
      requires Stored() && value.Checks()
      modifies values
      ensures Stored() && Replaced(old(values.table), value, values.table)
    {
      var v := value;
      if value.key in values.table {
        v := Update(values.table[value.key], value);
      }
      values.Put(value.key, v);
    }

    /** `m'` is `m` with `value` added, or merged into the value already there. */
    static ghost predicate Replaced(m: map<Key, DhtValue>, value: DhtValue, m': map<Key, DhtValue>) {
      && value.key in m' && m' == m[value.key := m'[value.key]]
      && if value.key in m then Supersedes(m[value.key], value, m'[value.key]) else m'[value.key] == value
    }

    /** Drops values from the front of the index while the first has expired or there are too many. */
    method ExpireValues(now: real)
      requires Stored()
      modifies values
      ensures Stored()
      ensures forall x | x in values.table :: !values.table[x].Expired(now)
      ensures |values.table| <= MAX_VALUES
      ensures forall x | x in values.table :: x in old(values.table) && values.table[x] == old(values.table)[x]
      ensures FrontRemoved(Rank(), (t: real) => t < now, MAX_VALUES, old(values.Times()), values.Times())
    {
      values.Expire((t: real) => t < now, MAX_VALUES);
    }

    /** `x` is the key after `last`, going round. */
    static ghost predicate IsNext(s: set<Key>, last: Key, x: Key) {
      && x in s
      && (forall y | y in s && Value(last) < Value(y) :: Value(last) < Value(x) <= Value(y))
      && ((forall y | y in s :: Value(y) <= Value(last)) ==> forall y | y in s :: Value(x) <= Value(y))
    }

    static method NextKey(s: set<Key>, last: Key) returns (x: Key)
      requires s != {}
      ensures IsNext(s, last, x)
    {
      RankInjective();
      var later := set y | y in s && Value(last) < Value(y);
      var from := if later != {} then later else s;
      ghost var y0 :| y0 in from;
      var entries: set<Entry<Key>> := set y | y in from :: Entry(0.0, y);
      assert Entry(0.0, y0) in entries;
      var e := First<Key>(Rank(), entries);
      x := e.key;
      forall y: Key | y in from ensures Value(x) <= Value(y) {
        assert Entry(0.0, y) in entries;
      }
      forall y: Key | y in s && Value(last) < Value(y) ensures Value(last) < Value(x) <= Value(y) {
        assert y in later;
      }
    }

    /** A value that lives another minute is dropped if it has become too remote. */
    method DropIfRemote(x: Key, now: real)
      requires Routed() && Stored() && x in values.table
      modifies values
      ensures Stored()
      ensures values.table ==
        if old(values.table)[x].ttl as real > now + 60.0 && |CloserThanSelf(key, x, old(Active()))| >= k + 10
        then old(values.table) - {x} else old(values.table)
    {
      if values.table[x].ttl as real > now + 60.0 {
        var remote := IsRemote(x);
        if remote {
          values.Remove(x);
        }
      }
    }

    /** Looks at one stored value, in turn, and drops it if it has become too remote. */
    method CheckOneValue(now: real)
      requires Routed() && Stored()
      modifies this`lastCheckKey, values
      ensures Stored()
      ensures old(values.table) == map[] ==> values.table == map[] && lastCheckKey == old(lastCheckKey)
      ensures old(values.table) != map[] ==>
        && IsNext(old(values.table).Keys, old(lastCheckKey), lastCheckKey)
        && values.table ==
           if lastCheckKey != old(lastCheckKey) && old(values.table)[lastCheckKey].ttl as real > now + 60.0
              && |CloserThanSelf(key, lastCheckKey, old(Active()))| >= k + 10
           then old(values.table) - {lastCheckKey} else old(values.table)
    {
      if values.table == map[] {
        return;
      }
      var x := NextKey(values.table.Keys, lastCheckKey);
      if x != lastCheckKey {
        lastCheckKey := x;
        DropIfRemote(x, now);
      }
    }

    /** A client asks to be reachable through `src`; the entry lives at most five minutes. */
    method RegisterReverseConnection(client: Key, src: Key, ttl: nat, now: nat, validSignature: bool) returns (st: Status)
      requires Stored()
      modifies reverseConnections
      ensures Stored()
      ensures st == if ttl > now && validSignature then Ok else Error
      ensures reverseConnections.table ==
        if st.Ok? then old(reverseConnections.table)[client := ReverseConnection(src, (if ttl < now + 300 then ttl else now + 300) as real)]
        else old(reverseConnections.table)
    {
      if ttl <= now || !validSignature {
        return Error;
      }
      reverseConnections.Put(client, ReverseConnection(src, (if ttl < now + 300 then ttl else now + 300) as real));
      return Ok;
    }

    method ExpireReverseConnections(now: real)
      requires Stored()
      modifies reverseConnections
      ensures Stored()
      ensures |reverseConnections.table| <= MAX_REVERSE_CONNECTIONS
      ensures forall x | x in reverseConnections.table :: reverseConnections.table[x].ttl > now
      ensures FrontRemoved(Rank(), (t: real) => t <= now, MAX_REVERSE_CONNECTIONS,
        old(reverseConnections.Times()), reverseConnections.Times())
    {
      reverseConnections.Expire((t: real) => t <= now, MAX_REVERSE_CONNECTIONS);
    }
  }
}
