/** Finite sets of naturals read in increasing order, the way `std::set` and
    `std::map` iterate: least element, greatest element, the `k` least. */
module Order {
  predicate IsMin(m: nat, s: set<nat>) {
    m in s && forall y | y in s :: m <= y
  }

  predicate IsMax(m: nat, s: set<nat>) {
    m in s && forall y | y in s :: y <= m
  }

  lemma {:induction false} MinExists(s: set<nat>)
    requires s != {}
    ensures exists m :: IsMin(m, s)
    decreases |s|
  {
    var x :| x in s;
    if s == {x} {
      assert IsMin(x, s);
    } else {
      MinExists(s - {x});
      var m :| IsMin(m, s - {x});
      var l := if x < m then x else m;
      forall y | y in s ensures l <= y {
        assert y == x || y in s - {x};
      }
      assert IsMin(l, s);
    }
  }

  lemma {:induction false} MaxExists(s: set<nat>)
    requires s != {}
    ensures exists m :: IsMax(m, s)
    decreases |s|
  {
    var x :| x in s;
    if s == {x} {
      assert IsMax(x, s);
    } else {
      MaxExists(s - {x});
      var m :| IsMax(m, s - {x});
      var g := if m < x then x else m;
      forall y | y in s ensures y <= g {
        assert y == x || y in s - {x};
      }
      assert IsMax(g, s);
    }
  }

  /** `*s.begin()` */
  function Min(s: set<nat>): (m: nat)
    requires s != {}
    ensures IsMin(m, s)
  {
    MinExists(s);
    var m :| m in s && IsMin(m, s);
    m
  }

  /** `*s.rbegin()` */
  function Max(s: set<nat>): (m: nat)
    requires s != {}
    ensures IsMax(m, s)
  {
    MaxExists(s);
    var m :| m in s && IsMax(m, s);
    m
  }

  /** Sort `s` increasingly and keep the first `k`. */
  function Smallest(s: set<nat>, k: nat): seq<nat>
    decreases |s|
  {
    if s == {} || k == 0 then [] else [Min(s)] + Smallest(s - {Min(s)}, k - 1)
  }

  ghost predicate Increasing(r: seq<nat>) {
    forall i, j | 0 <= i < j < |r| :: r[i] < r[j]
  }

  /** `r` lists, in increasing order, `min(k, |s|)` elements of `s`, and everything left out is larger
      than everything listed. */
  ghost predicate IsSmallest(r: seq<nat>, s: set<nat>, k: nat) {
    && Increasing(r)
    && |r| == (if k < |s| then k else |s|)
    && (forall x | x in r :: x in s)
    && (forall x, y | x in r && y in s && y !in r :: x < y)
  }

  lemma {:induction false} SmallestIsSmallest(s: set<nat>, k: nat)
    ensures IsSmallest(Smallest(s, k), s, k)
    decreases |s|
  {
    if s != {} && k != 0 {
      var m := Min(s);
      SmallestIsSmallest(s - {m}, k - 1);
      var t := Smallest(s - {m}, k - 1);
      var r := Smallest(s, k);
      assert r == [m] + t;
      forall i, j | 0 <= i < j < |r| ensures r[i] < r[j] {
        assert r[j] == t[j - 1] && t[j - 1] in t;
      }
      forall x, y | x in r && y in s && y !in r ensures x < y {
        assert y in s - {m};
      }
    }
  }

  lemma {:induction false} SubsetSize<T>(a: set<T>, b: set<T>)
    requires a <= b
    ensures |a| <= |b|
    ensures |a| == |b| ==> a == b
  {
    assert b == a + (b - a);
    assert |b| == |a| + |b - a|;
    if |a| == |b| { assert b - a == {}; }
  }

  /** Only one list satisfies `IsSmallest`. */
  lemma {:induction false} SmallestUnique(r: seq<nat>, s: set<nat>, k: nat)
    requires IsSmallest(r, s, k)
    ensures r == Smallest(s, k)
    decreases |s|
  {
    if s != {} && k != 0 {
      var m := Min(s);
      assert r[0] in r;
      assert m in r;
      assert r[0] == m;
      var t := r[1..];
      assert r == [m] + t;
      assert IsSmallest(t, s - {m}, k - 1) by {
        forall x | x in t ensures x in s - {m} { var i :| 0 <= i < |t| && t[i] == x; assert r[i + 1] == x; }
        forall x, y | x in t && y in s - {m} && y !in t ensures x < y { assert x in r && y !in r; }
      }
      SmallestUnique(t, s - {m}, k - 1);
    } else {
      assert r == [];
    }
  }

  ghost predicate Precedes(a: set<nat>, b: set<nat>) {
    forall x, y | x in a && y in b :: x < y
  }

  lemma MinOfUnion(a: set<nat>, b: set<nat>)
    requires a != {} && Precedes(a, b)
    ensures Min(a + b) == Min(a) && Precedes(a - {Min(a)}, b)
    ensures a + b - {Min(a)} == (a - {Min(a)}) + b
  {
    var m := Min(a);
    forall y | y in a + b ensures m <= y {
      assert y in a || y in b;
    }
    assert IsMin(m, a + b);
  }

  lemma ConcatAssociates<T>(x: seq<T>, y: seq<T>, z: seq<T>)
    ensures x + (y + z) == (x + y) + z
  {
  }

  /** Listing a set whose elements all precede those of another. */
  lemma {:induction false} SmallestConcat(a: set<nat>, b: set<nat>, u: set<nat>, k: nat)
    requires Precedes(a, b) && u == a + b
    ensures Smallest(u, k) == Smallest(a, k) + Smallest(b, if |a| < k then k - |a| else 0)
    decreases |a|
  {
    if a == {} {
      assert u == b;
    } else if k != 0 {
      var m := Min(a);
      MinOfUnion(a, b);
      SmallestConcat(a - {m}, b, u - {m}, k - 1);
      ConcatAssociates([m], Smallest(a - {m}, k - 1), Smallest(b, if |a| < k then k - |a| else 0));
    }
  }

  function Elems<T(==)>(r: seq<T>): set<T> {
    set x | x in r
  }

  lemma {:induction false} IncreasingSize(r: seq<nat>)
    requires Increasing(r)
    ensures |Elems(r)| == |r|
  {
    if r != [] {
      var n := |r| - 1;
      IncreasingSize(r[..n]);
      assert Elems(r) == Elems(r[..n]) + {r[n]};
    }
  }

  /** Listing all of `s` lists every element. */
  lemma SmallestAll(s: set<nat>, k: nat)
    requires |s| <= k
    ensures forall x :: x in Smallest(s, k) <==> x in s
    ensures |Smallest(s, k)| == |s|
  {
    SmallestIsSmallest(s, k);
    var r := Smallest(s, k);
    IncreasingSize(r);
    SubsetSize(Elems(r), s);
  }

  /** Iterating a set in order, at most `k` elements of it. */
  method TakeInOrder(s: set<nat>, k: nat) returns (r: seq<nat>)
    ensures r == Smallest(s, k)
  {
    r := [];
    var rest := s;
    while rest != {} && |r| < k
      invariant |r| <= k && r + Smallest(rest, k - |r|) == Smallest(s, k)
      decreases |rest|
    {
      var m := Min(rest);
      ConcatAssociates(r, [m], Smallest(rest - {m}, k - |r| - 1));
      r := r + [m];
      rest := rest - {m};
    }
  }
}
