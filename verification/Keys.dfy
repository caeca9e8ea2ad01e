/** 256-bit DHT keys, most significant bit first, with the XOR metric. */
module Keys {
  const KEY_BITS: nat := 256

  type Key = b: seq<bool> | |b| == KEY_BITS witness seq(KEY_BITS, _ => false)

  function Xor(a: Key, b: Key): Key {
    seq(KEY_BITS, i requires 0 <= i < KEY_BITS => a[i] != b[i])
  }

  /** The bits read as a big-endian number; keys compare as these numbers. */
  function Value(b: seq<bool>): nat {
    if b == [] then 0 else 2 * Value(b[..|b| - 1]) + if b[|b| - 1] then 1 else 0
  }

  function Dist(a: Key, b: Key): nat {
    Value(Xor(a, b))
  }

  /** Comparing numbers is comparing bits from the most significant one down. */
  lemma {:induction false} FirstDifferenceDecides(a: seq<bool>, b: seq<bool>, i: nat)
    requires |a| == |b| && i < |a|
    requires a[..i] == b[..i] && !a[i] && b[i]
    ensures Value(a) < Value(b)
  {
    var n := |a| - 1;
    var a', b' := a[..n], b[..n];
    if i == n {
      assert a' == b';
    } else {
      assert a'[..i] == a[..i] && b'[..i] == b[..i];
      FirstDifferenceDecides(a', b', i);
    }
  }

  lemma {:induction false} ValueInjective(a: seq<bool>, b: seq<bool>)
    requires |a| == |b| && Value(a) == Value(b)
    ensures a == b
  {
    if a != [] {
      var n := |a| - 1;
      ValueInjective(a[..n], b[..n]);
      assert a == a[..n] + [a[n]] && b == b[..n] + [b[n]];
    }
  }

  /** No two keys are equally far from a third. */
  lemma DistInjective(id: Key, a: Key, b: Key)
    requires Dist(id, a) == Dist(id, b)
    ensures a == b
  {
    ValueInjective(Xor(id, a), Xor(id, b));
    forall i | 0 <= i < KEY_BITS ensures a[i] == b[i] {
      assert Xor(id, a)[i] == Xor(id, b)[i];
    }
  }

  /** The order of keys in ordered tables. */
  function Rank(): Key -> nat {
    (k: Key) => Value(k)
  }

  lemma RankInjective()
    ensures forall a, b :: Rank()(a) == Rank()(b) ==> a == b
  {
    forall a: Key, b: Key | Rank()(a) == Rank()(b) ensures a == b {
      ValueInjective(a, b);
    }
  }

  /** The distances from `id` to a set of keys. */
  function DistSet(id: Key, s: set<Key>): set<nat> {
    set x | x in s :: Dist(id, x)
  }

  lemma {:induction false} DistSetSize(id: Key, s: set<Key>)
    ensures |DistSet(id, s)| == |s|
    decreases |s|
  {
    if s != {} {
      var x :| x in s;
      DistSetSize(id, s - {x});
      forall y | y in s - {x} ensures Dist(id, y) != Dist(id, x) {
        if Dist(id, y) == Dist(id, x) { DistInjective(id, y, x); }
      }
      assert DistSet(id, s) == DistSet(id, s - {x}) + {Dist(id, x)};
    }
  }

  /** The first bit where two keys differ: `(a ^ b).count_leading_zeroes()`. */
  method CommonPrefix(a: Key, b: Key) returns (n: nat)
    ensures n <= KEY_BITS && a[..n] == b[..n]
    ensures n < KEY_BITS ==> a[n] != b[n]
    ensures n == KEY_BITS <==> a == b
  {
    n := 0;
    while n < KEY_BITS && a[n] == b[n]
      invariant n <= KEY_BITS && a[..n] == b[..n]
    {
      n := n + 1;
    }
    if n == KEY_BITS {
      assert a == a[..n] && b == b[..n];
    }
  }
}
