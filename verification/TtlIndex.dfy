/** A table with an index of its entries ordered by (time, key), and removal from the front of it.
    `rank` is the number a key stands for; keys compare as these numbers. */
module TtlIndex {

  datatype Entry<K> = Entry(at: real, key: K)

  ghost predicate Ranking<K(!new)>(rank: K -> nat) {
    forall a, b :: rank(a) == rank(b) ==> a == b
  }

  predicate Before<K>(rank: K -> nat, a: Entry<K>, b: Entry<K>) {
    a.at < b.at || (a.at == b.at && rank(a.key) < rank(b.key))
  }

  ghost predicate IsFirst<K>(rank: K -> nat, e: Entry<K>, s: set<Entry<K>>) {
    e in s && forall y | y in s :: y == e || Before(rank, e, y)
  }

  lemma {:induction false} FirstExists<K(!new)>(rank: K -> nat, s: set<Entry<K>>)
    requires s != {} && Ranking(rank)
    ensures exists e :: IsFirst(rank, e, s)
    decreases |s|
  {
    var x :| x in s;
    if s == {x} {
      assert IsFirst(rank, x, s);
    } else {
      FirstExists(rank, s - {x});
      var m :| IsFirst(rank, m, s - {x});
      var e := if Before(rank, x, m) then x else m;
      forall y | y in s ensures y == e || Before(rank, e, y) {
        assert y == x || y in s - {x};
      }
      assert IsFirst(rank, e, s);
    }
  }

  /** `*order.begin()` */
  method First<K(!new, ==)>(rank: K -> nat, s: set<Entry<K>>) returns (e: Entry<K>)
    requires s != {} && Ranking(rank)
    ensures IsFirst(rank, e, s)
  {
    FirstExists(rank, s);
    e :| e in s && forall y | y in s :: y == e || Before(rank, e, y);
  }

  ghost function IndexOf<K>(m: map<K, real>): set<Entry<K>> {
    set k | k in m :: Entry(m[k], k)
  }

  lemma EmptyIndex<K>(m: map<K, real>)
    requires IndexOf(m) == {}
    ensures m == map[]
  {
    assert forall k | k in m :: Entry(m[k], k) in IndexOf(m);
  }

  /** `d` comes before everything in `m` that is left. */
  ghost predicate IsFront<K>(rank: K -> nat, m: map<K, real>, d: K) {
    d in m && forall k | k in m && k != d :: Before(rank, Entry(m[d], d), Entry(m[k], k))
  }

  lemma FirstIsFront<K(!new)>(rank: K -> nat, m: map<K, real>, e: Entry<K>)
    requires IsFirst(rank, e, IndexOf(m))
    ensures IsFront(rank, m, e.key) && m[e.key] == e.at
  {
    assert forall k | k in m :: Entry(m[k], k) in IndexOf(m);
  }

  lemma IndexInsert<K>(m: map<K, real>, k: K, t: real)
    ensures IndexOf(m[k := t]) == IndexOf(m - {k}) + {Entry(t, k)}
    ensures forall a :: Entry(a, k) !in IndexOf(m - {k})
  {
    var m', r := m[k := t], m - {k};
    forall e | e in IndexOf(m') ensures e in IndexOf(r) + {Entry(t, k)} {
      var j :| j in m' && e == Entry(m'[j], j);
      if j != k { assert j in r && r[j] == m'[j]; }
    }
    forall e | e in IndexOf(r) + {Entry(t, k)} ensures e in IndexOf(m') {
      if e != Entry(t, k) {
        var j :| j in r && e == Entry(r[j], j);
        assert j in m' && m'[j] == r[j];
      } else {
        assert k in m' && e == Entry(m'[k], k);
      }
    }
  }

  lemma IndexRemove<K>(m: map<K, real>, k: K)
    requires k in m
    ensures Entry(m[k], k) in IndexOf(m)
    ensures IndexOf(m - {k}) == IndexOf(m) - {Entry(m[k], k)}
  {
    var r := m - {k};
    forall e | e in IndexOf(m) - {Entry(m[k], k)} ensures e in IndexOf(r) {
      var j :| j in m && e == Entry(m[j], j);
      assert j in r && r[j] == m[j];
    }
  }

  ghost predicate DownwardClosed(due: real -> bool) {
    forall s, t | s <= t && due(t) :: due(s)
  }

  /** `r` is `m` after removing entries from the front, each because it was due or there were more
      than `max`: what is left comes after all that is gone, and something not due is gone only if
      `max` entries are left. */
  ghost predicate FrontRemoved<K>(rank: K -> nat, due: real -> bool, max: nat, m: map<K, real>, r: map<K, real>) {
    && (forall k | k in r :: k in m && r[k] == m[k])
    && (forall d, k | d in m && d !in r && k in r :: Before(rank, Entry(m[d], d), Entry(m[k], k)))
    && (forall d | d in m && d !in r :: due(m[d]) || |r| >= max)
  }

  lemma RemoveFront<K(!new)>(rank: K -> nat, due: real -> bool, max: nat, m: map<K, real>, r: map<K, real>, d: K)
    requires DownwardClosed(due)
    requires FrontRemoved(rank, due, max, m, r) && IsFront(rank, r, d) && (due(r[d]) || |r| > max)
    ensures FrontRemoved(rank, due, max, m, r - {d}) && |r - {d}| == |r| - 1
  {
    assert (r - {d}).Keys == r.Keys - {d};
  }

  /** Stopping when the front is not due and at most `max` are left. */
  lemma FrontStays<K(!new)>(rank: K -> nat, due: real -> bool, max: nat, m: map<K, real>)
    requires DownwardClosed(due) && Ranking(rank) && |m| <= max
    requires m == map[] || exists e :: IsFirst(rank, e, IndexOf(m)) && !due(e.at)
    ensures forall k | k in m :: !due(m[k])
  {
    if m != map[] {
      var e :| IsFirst(rank, e, IndexOf(m)) && !due(e.at);
      FirstIsFront(rank, m, e);
    }
  }

  /** A map from keys to values, each with a time, and the index of (time, key). */
  class ExpiringTable<K(!new, ==), V(!new)> {
    const rank: K -> nat
    const timeOf: V -> real
    var table: map<K, V>
    var order: set<Entry<K>>

    constructor (rank: K -> nat, timeOf: V -> real)
      requires Ranking(rank)
      ensures this.rank == rank && this.timeOf == timeOf && table == map[] && Valid()
    {
      this.rank := rank;
      this.timeOf := timeOf;
      table, order := map[], {};
    }

    ghost function Times(): map<K, real>
      reads this
    {
      map k | k in table :: timeOf(table[k])
    }

    /** The index holds exactly the entries of the table. */
    ghost predicate Valid()
      reads this
    {
      Ranking(rank) && order == IndexOf(Times())
    }

    method Put(k: K, v: V)
      requires Valid()
      modifies this
      ensures Valid() && table == old(table)[k := v]
    {
      ghost var m := Times();
      if k in table {
        // CHECK(order.erase({ttl, key}))
        IndexRemove(m, k);
        assert Entry(timeOf(table[k]), k) in order;
        order := order - {Entry(timeOf(table[k]), k)};
      } else {
        assert m - {k} == m;
      }
      // CHECK(order.insert({ttl, key}).second)
      IndexInsert(m, k, timeOf(v));
      assert Entry(timeOf(v), k) !in order;
      table := table[k := v];
      order := order + {Entry(timeOf(v), k)};
      assert Times() == m[k := timeOf(v)];
    }

    method Remove(k: K)
      requires Valid() && k in table
      modifies this
      ensures Valid() && table == old(table) - {k}
    {
      ghost var m := Times();
      IndexRemove(m, k);
      assert Entry(timeOf(table[k]), k) in order;
      order := order - {Entry(timeOf(table[k]), k)};
      table := table - {k};
      assert Times() == m - {k};
    }

    /** Removes entries from the front of the index while the first is due or there are more than `max`. */
    method Expire(due: real -> bool, max: nat)
      requires Valid() && DownwardClosed(due)
      modifies this
      ensures Valid()
      ensures forall k | k in table :: k in old(table) && table[k] == old(table)[k] && !due(timeOf(table[k]))
      ensures |table| <= max
      ensures FrontRemoved(rank, due, max, old(Times()), Times())
    {
      ghost var m0 := Times();
      var more := true;
      while more
        invariant Valid() && FrontRemoved(rank, due, max, m0, Times())
        invariant forall k | k in table :: k in old(table) && table[k] == old(table)[k]
        invariant !more ==> |table| <= max && forall k | k in table :: !due(timeOf(table[k]))
        decreases more, |table|
      {
        ghost var m := Times();
        var removed := ExpireFirst(due, max);
        more := removed != [];
        if more {
          RemoveFront(rank, due, max, m0, m, removed[0].key);
        }
      }
    }

    /** One step of `Expire`, returning the entry removed, if any. */
    method ExpireFirst(due: real -> bool, max: nat) returns (removed: seq<Entry<K>>)
      requires Valid() && DownwardClosed(due)
      modifies this
      ensures Valid()
      ensures |removed| <= 1
      ensures removed != [] ==>
        var e := removed[0];
        && IsFront(rank, old(Times()), e.key) && (due(e.at) || |old(Times())| > max) && old(Times())[e.key] == e.at
        && table == old(table) - {e.key} && Times() == old(Times()) - {e.key} && |table| < |old(table)|
      ensures removed == [] ==> table == old(table) && |table| <= max && forall k | k in table :: !due(timeOf(table[k]))
    {
      ghost var m := Times();
      assert m.Keys == table.Keys;
      if order == {} {
        EmptyIndex(m);
        return [];
      }
      var f := First(rank, order);
      FirstIsFront(rank, m, f);
      if due(f.at) || |table| > max {
        // CHECK(table.erase(it->second))
        assert f.key in table;
        Remove(f.key);
        assert table.Keys == old(table).Keys - {f.key};
        return [f];
      }
      FrontStays(rank, due, max, m);
      return [];
    }
  }
}
