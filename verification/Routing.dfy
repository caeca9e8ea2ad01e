/** The routing table of a DHT node: 256 buckets, bucket `b` holding the nodes that share exactly
    `b` leading bits with the node's own key. */
module Routing {
  import opened Keys
  import opened Order
  import opened Bucket

  ghost predicate InBucket(self: Key, b: nat, x: Key) {
    b < KEY_BITS && x[..b] == self[..b] && x[b] != self[b]
  }

  type Table = t: seq<set<Key>> | |t| == KEY_BITS witness seq(KEY_BITS, _ => {})

  ghost predicate WellPlaced(self: Key, t: Table) {
    forall b, x | 0 <= b < KEY_BITS && x in t[b] :: InBucket(self, b, x)
  }

  ghost function All(t: Table): set<Key> {
    set b, x | 0 <= b < KEY_BITS && x in t[b] :: x
  }

  /** The buckets read after the walk has passed set bits below `n` and clear bits from `m` on. */
  ghost function Visited(t: Table, idXor: Key, n: nat, m: nat): set<Key> {
    set b, x | 0 <= b < KEY_BITS && x in t[b] && (if idXor[b] then b < n else m <= b) :: x
  }

  /** A bucket's keys agree with `id ^ self` up to its bit, and differ there. */
  lemma XorInBucket(self: Key, id: Key, b: nat, x: Key)
    requires InBucket(self, b, x)
    ensures Xor(id, x)[..b] == Xor(id, self)[..b] && Xor(id, x)[b] != Xor(id, self)[b]
  {
    forall i | 0 <= i < b ensures Xor(id, x)[i] == Xor(id, self)[i] {
      assert x[i] == x[..b][i] && self[i] == self[..b][i];
    }
  }

  /** Set bits of `id ^ self` mark the buckets closer to `id` than the node itself. */
  lemma SetBitIffCloser(self: Key, id: Key, b: nat, x: Key)
    requires InBucket(self, b, x)
    ensures if Xor(id, self)[b] then Dist(id, x) < Dist(id, self) else Dist(id, self) < Dist(id, x)
  {
    XorInBucket(self, id, b, x);
    if Xor(id, self)[b] {
      FirstDifferenceDecides(Xor(id, x), Xor(id, self), b);
    } else {
      FirstDifferenceDecides(Xor(id, self), Xor(id, x), b);
    }
  }

  /** Among buckets of equal bit, the earlier is closer when set and farther when clear. */
  lemma BucketOrder(self: Key, id: Key, b: nat, x: Key, c: nat, y: Key)
    requires InBucket(self, b, x) && InBucket(self, c, y) && b < c
    ensures if Xor(id, self)[b] then Dist(id, x) < Dist(id, y) else Dist(id, y) < Dist(id, x)
  {
    XorInBucket(self, id, b, x);
    XorInBucket(self, id, c, y);
    var p, q, s := Xor(id, x), Xor(id, y), Xor(id, self);
    assert q[..b] == q[..c][..b] && s[..b] == s[..c][..b];
    assert q[b] == q[..c][b] && s[b] == s[..c][b];
    if s[b] {
      FirstDifferenceDecides(p, q, b);
    } else {
      FirstDifferenceDecides(q, p, b);
    }
  }

  /** Everything visited is closer to `id` than everything not yet visited. */
  lemma VisitedFirst(self: Key, id: Key, t: Table, n: nat, m: nat)
    requires WellPlaced(self, t) && (n >= KEY_BITS || m >= KEY_BITS)
    ensures forall x, y | x in Visited(t, Xor(id, self), n, m) && y in All(t) - Visited(t, Xor(id, self), n, m) ::
      Dist(id, x) < Dist(id, y)
  {
    var s := Xor(id, self);
    forall x, y | x in Visited(t, s, n, m) && y in All(t) - Visited(t, s, n, m) ensures Dist(id, x) < Dist(id, y) {
      var b :| 0 <= b < KEY_BITS && x in t[b] && (if s[b] then b < n else m <= b);
      var c :| 0 <= c < KEY_BITS && y in t[c];
      SetBitIffCloser(self, id, b, x);
      SetBitIffCloser(self, id, c, y);
      if s[b] == s[c] {
        if b < c { BucketOrder(self, id, b, x, c, y); } else { BucketOrder(self, id, c, y, b, x); }
      }
    }
  }

  lemma DistSetSplit(id: Key, a: set<Key>, b: set<Key>)
    ensures DistSet(id, a + b) == DistSet(id, a) + DistSet(id, b)
  {
  }

  /** Continuing a list of the nearest with keys that are all farther. */
  lemma Extend(id: Key, a: set<Key>, b: set<Key>, k: nat)
    requires forall x, y | x in a && y in b :: Dist(id, x) < Dist(id, y)
    ensures var l := Smallest(DistSet(id, a), k);
      Smallest(DistSet(id, a + b), k) == l + Smallest(DistSet(id, b), Room(k, |l|))
  {
    var x, y := DistSet(id, a), DistSet(id, b);
    DistSetSplit(id, a, b);
    assert Precedes(x, y);
    SmallestConcat(x, y, DistSet(id, a + b), k);
    SmallestIsSmallest(x, k);
  }

  lemma SameBucket(self: Key, x: Key, b: nat, c: nat)
    requires InBucket(self, b, x) && InBucket(self, c, x)
    ensures b == c
  {
    assert forall i | 0 <= i < b :: x[i] == x[..b][i] && self[i] == self[..b][i];
    assert forall i | 0 <= i < c :: x[i] == x[..c][i] && self[i] == self[..c][i];
  }

  /** One more bucket of the walk. */
  lemma VisitBucket(self: Key, id: Key, t: Table, n: nat, m: nat, n': nat, m': nat, b: nat, k: nat)
    requires WellPlaced(self, t) && (n >= KEY_BITS || m >= KEY_BITS) && b < KEY_BITS
    requires if Xor(id, self)[b] then n == b && n' == b + 1 && m == m' else m == b + 1 && m' == b && n == n'
    ensures var s := Xor(id, self);
      var l := Smallest(DistSet(id, Visited(t, s, n, m)), k);
      Smallest(DistSet(id, Visited(t, s, n', m')), k) == l + Smallest(DistSet(id, t[b]), Room(k, |l|))
  {
    var s := Xor(id, self);
    var v, v' := Visited(t, s, n, m), Visited(t, s, n', m');
    forall x | x in v' ensures x in v + t[b] {
      var c :| 0 <= c < KEY_BITS && x in t[c] && (if s[c] then c < n' else m' <= c);
      assert c == b || (if s[c] then c < n else m <= c);
    }
    forall x | x in t[b] ensures x in All(t) - v {
      if x in v {
        var c :| 0 <= c < KEY_BITS && x in t[c] && (if s[c] then c < n else m <= c);
        SameBucket(self, x, b, c);
      }
    }
    assert v' == v + t[b];
    VisitedFirst(self, id, t, n, m);
    Extend(id, v, t[b], k);
  }

  /** A full list needs no further bucket. */
  lemma EnoughVisited(self: Key, id: Key, t: Table, n: nat, m: nat, k: nat)
    requires WellPlaced(self, t) && (n >= KEY_BITS || m >= KEY_BITS)
    requires |Smallest(DistSet(id, Visited(t, Xor(id, self), n, m)), k)| >= k
    ensures Smallest(DistSet(id, All(t)), k) == Smallest(DistSet(id, Visited(t, Xor(id, self), n, m)), k)
  {
    var v := Visited(t, Xor(id, self), n, m);
    VisitedFirst(self, id, t, n, m);
    assert v + (All(t) - v) == All(t);
    Extend(id, v, All(t) - v, k);
  }

  lemma AllVisited(self: Key, id: Key, t: Table)
    ensures Visited(t, Xor(id, self), KEY_BITS, 0) == All(t)
    ensures Visited(t, Xor(id, self), 0, KEY_BITS) == {}
  {
  }

  /** The keys closer to `id` than the node itself. */
  ghost function CloserThanSelf(self: Key, id: Key, t: Table): set<Key> {
    set x | x in All(t) && Dist(id, x) < Dist(id, self)
  }

  lemma SetBitsAreCloser(self: Key, id: Key, t: Table)
    requires WellPlaced(self, t)
    ensures Visited(t, Xor(id, self), KEY_BITS, KEY_BITS) == CloserThanSelf(self, id, t)
  {
    var s := Xor(id, self);
    forall x | x in All(t) ensures x in Visited(t, s, KEY_BITS, KEY_BITS) <==> Dist(id, x) < Dist(id, self) {
      var b :| 0 <= b < KEY_BITS && x in t[b];
      SetBitIffCloser(self, id, b, x);
      if x in Visited(t, s, KEY_BITS, KEY_BITS) {
        var c :| 0 <= c < KEY_BITS && x in t[c] && s[c];
        SetBitIffCloser(self, id, c, x);
      }
    }
  }

  lemma CountBucket(self: Key, id: Key, t: Table, b: nat)
    requires WellPlaced(self, t) && b < KEY_BITS
    ensures var s := Xor(id, self);
      |Visited(t, s, b + 1, KEY_BITS)| == |Visited(t, s, b, KEY_BITS)| + if s[b] then |t[b]| else 0
  {
    var s := Xor(id, self);
    var v, v' := Visited(t, s, b, KEY_BITS), Visited(t, s, b + 1, KEY_BITS);
    if s[b] {
      forall x | x in v' ensures x in v + t[b] {
        var c :| 0 <= c < KEY_BITS && x in t[c] && (if s[c] then c < b + 1 else KEY_BITS <= c);
        assert c == b || c < b;
      }
      forall x | x in t[b] ensures x !in v {
        if x in v {
          var c :| 0 <= c < KEY_BITS && x in t[c] && (if s[c] then c < b else KEY_BITS <= c);
          SameBucket(self, x, b, c);
        }
      }
      assert v' == v + t[b];
    } else {
      assert v' == v;
    }
  }
}
