/** Receive windows: the highest packet number seen and a register of 64 bits below it. */
module Window {
  const BITS: nat := 64
  const WRAP: nat := 0x1_0000_0000_0000_0000
  const INT64_MAX: nat := 0x7FFF_FFFF_FFFF_FFFF

  /** A 64-bit register, least significant bit first. */
  type Bits = b: seq<bool> | |b| == BITS witness seq(BITS, _ => false)

  function NoBits(): (b: Bits)
    ensures forall i | 0 <= i < BITS :: !b[i]
  {
    seq(BITS, _ => false)
  }

  /** `b << n`, for `n < 64`. */
  function ShiftLeft(b: Bits, n: nat): (r: Bits)
    requires n < BITS
    ensures forall i | 0 <= i < BITS :: r[i] <==> i >= n && b[i - n]
  {
    seq(n, _ => false) + b[..BITS - n]
  }

  datatype Window = Window(last: nat, mask: Bits) {
    /** At or below the highest number, and either marked or out of the register. */
    predicate Seen(s: nat) {
      s <= last && (last - s >= BITS || mask[last - s])
    }

    function Add(s: nat): Window
      requires !Seen(s)
    {
      if s <= last then Window(last, mask[last - s := true])
      else if s - last >= BITS then Window(s, NoBits()[0 := true])
      else Window(s, ShiftLeft(mask, s - last)[0 := true])
    }
  }

  const EMPTY := Window(0, NoBits())

  // ---- the set of accepted numbers ----

  /** The window stands for a set of accepted numbers. */
  ghost predicate Stands(w: Window, accepted: set<nat>) {
    && (forall s | s in accepted :: 0 < s <= w.last)
    && (w.last > 0 ==> w.last in accepted)
    && (forall s | 0 < s <= w.last < s + BITS :: w.mask[w.last - s] <==> s in accepted)
  }

  /** What "delivered" means: accepted already, or 64 or more behind the highest accepted. */
  ghost predicate Delivered(accepted: set<nat>, s: nat) {
    s in accepted || exists m :: m in accepted && s + BITS <= m
  }

  lemma SeenMeansDelivered(w: Window, accepted: set<nat>, s: nat)
    requires Stands(w, accepted) && s > 0
    ensures w.Seen(s) <==> Delivered(accepted, s)
  {
    if s + BITS <= w.last { assert w.last in accepted; }
  }

  lemma AddStands(w: Window, accepted: set<nat>, s: nat)
    requires Stands(w, accepted) && s > 0 && !w.Seen(s)
    ensures s !in accepted && Stands(w.Add(s), accepted + {s})
  {
    SeenMeansDelivered(w, accepted, s);
    var w' := w.Add(s);
    forall t | 0 < t <= w'.last < t + BITS ensures w'.mask[w'.last - t] <==> t in accepted + {s} {
      if s > w.last && t <= w.last {
        assert w'.mask[w'.last - t] == w.mask[w.last - t];
      }
    }
  }

  // ---- AdnlReceivedMask ----

  /** One packet number against the mask: the new state, and whether it was recorded now. */
  function Deliver(w: Window, s: int): (Window, bool) {
    if s <= 0 || w.Seen(s) then (w, false) else (w.Add(s), true)
  }

  /** The receiver that remembers every number accepted. */
  ghost function Remember(accepted: set<nat>, s: int): (set<nat>, bool) {
    if s <= 0 || Delivered(accepted, s) then (accepted, false) else (accepted + {s}, true)
  }

  function Decisions(w: Window, ss: seq<int>): seq<bool>
    decreases |ss|
  {
    if ss == [] then [] else [Deliver(w, ss[0]).1] + Decisions(Deliver(w, ss[0]).0, ss[1..])
  }

  ghost function Remembered(accepted: set<nat>, ss: seq<int>): seq<bool>
    decreases |ss|
  {
    if ss == [] then [] else [Remember(accepted, ss[0]).1] + Remembered(Remember(accepted, ss[0]).0, ss[1..])
  }

  lemma {:induction false} WindowRefinesSet(w: Window, accepted: set<nat>, ss: seq<int>)
    requires Stands(w, accepted)
    ensures Decisions(w, ss) == Remembered(accepted, ss)
    decreases |ss|
  {
    if ss != [] {
      var s := ss[0];
      if s > 0 {
        SeenMeansDelivered(w, accepted, s);
        if !w.Seen(s) { AddStands(w, accepted, s); }
      }
      WindowRefinesSet(Deliver(w, s).0, Remember(accepted, s).0, ss[1..]);
    }
  }

  lemma {:induction false} RememberedSize(accepted: set<nat>, ss: seq<int>)
    ensures |Remembered(accepted, ss)| == |ss|
    decreases |ss|
  {
    if ss != [] { RememberedSize(Remember(accepted, ss[0]).0, ss[1..]); }
  }

  lemma {:induction false} NeverAgain(accepted: set<nat>, ss: seq<int>, j: nat)
    requires j < |ss| && ss[j] in accepted
    ensures |Remembered(accepted, ss)| == |ss| && !Remembered(accepted, ss)[j]
    decreases |ss|
  {
    RememberedSize(accepted, ss);
    if j > 0 { NeverAgain(Remember(accepted, ss[0]).0, ss[1..], j - 1); }
  }

  lemma {:induction false} AcceptedOnceFrom(accepted: set<nat>, ss: seq<int>, i: nat, j: nat)
    requires i < j < |ss| && ss[i] == ss[j]
    ensures |Remembered(accepted, ss)| == |ss| && !(Remembered(accepted, ss)[i] && Remembered(accepted, ss)[j])
    decreases |ss|
  {
    RememberedSize(accepted, ss);
    var next := Remember(accepted, ss[0]);
    if i > 0 {
      AcceptedOnceFrom(next.0, ss[1..], i - 1, j - 1);
    } else if next.1 {
      NeverAgain(next.0, ss[1..], j - 1);
    }
  }

  /** No number is accepted twice between two resets, in any order of arrival. */
  lemma AcceptedOnce(ss: seq<int>, i: nat, j: nat)
    requires i < j < |ss| && ss[i] == ss[j]
    ensures |Decisions(EMPTY, ss)| == |ss| && !(Decisions(EMPTY, ss)[i] && Decisions(EMPTY, ss)[j])
  {
    WindowRefinesSet(EMPTY, {}, ss);
    AcceptedOnceFrom({}, ss, i, j);
  }

  /** What a receiver accepts that delivers whatever the query does not call delivered. */
  function Asked(w: Window, ss: seq<int>): seq<bool>
    decreases |ss|
  {
    if ss == [] then [] else [!(ss[0] > 0 && w.Seen(ss[0]))] + Asked(Deliver(w, ss[0]).0, ss[1..])
  }

  lemma {:induction false} AskedAre(w: Window, ss: seq<int>)
    ensures |Asked(w, ss)| == |Decisions(w, ss)| == |ss|
    ensures forall i | 0 <= i < |ss| :: Asked(w, ss)[i] <==> ss[i] <= 0 || Decisions(w, ss)[i]
    decreases |ss|
  {
    if ss != [] { AskedAre(Deliver(w, ss[0]).0, ss[1..]); }
  }

  /** Such a receiver accepts every number that is not positive every time, and every other at most once between two
      resets. */
  lemma AskedTwiceIff(ss: seq<int>, i: nat, j: nat)
    requires i < j < |ss| && ss[i] == ss[j]
    ensures |Asked(EMPTY, ss)| == |ss|
    ensures if ss[i] > 0 then !(Asked(EMPTY, ss)[i] && Asked(EMPTY, ss)[j]) else Asked(EMPTY, ss)[i] && Asked(EMPTY, ss)[j]
  {
    AskedAre(EMPTY, ss);
    AcceptedOnce(ss, i, j);
  }

  class ReceivedMask {
    var seqno: nat
    var mask: Bits

    ghost function State(): Window
      reads this
    {
      Window(seqno, mask)
    }

    constructor ()
      ensures State() == EMPTY
    {
      seqno, mask := 0, NoBits();
    }

    method Reset()
      modifies this
      ensures State() == EMPTY
    {
      seqno, mask := 0, NoBits();
    }

    method PacketIsDelivered(s: int) returns (r: bool)
      ensures r <==> s > 0 && State().Seen(s)
    {
      if s <= 0 {
        return false;
      }
      if s > seqno {
        return false;
      }
      var diff := seqno - s;
      if diff >= BITS {
        return true;
      }
      return mask[diff];
    }

    method DeliverPacket(s: int)
      modifies this
      ensures State() == Deliver(old(State()), s).0
    {
      if s <= 0 {
        return;
      }
      var done := PacketIsDelivered(s);
      if done {
        return;
      }
      if s <= seqno {
        mask := mask[seqno - s := true];
      } else {
        var before := seqno;
        seqno := s;
        mask := if seqno - before >= BITS then NoBits() else ShiftLeft(mask, seqno - before);
        mask := mask[0 := true];
      }
    }
  }

  // ---- AdnlReceivedMaskVersion ----

  /** The numbers a version can record. */
  predicate Recordable(s: nat) {
    0 < s <= INT64_MAX
  }

  datatype Versioned = Versioned(utime: int, window: Window) {
    predicate Seen(u: int, s: nat) {
      u < utime || (u == utime && Recordable(s) && window.Seen(s))
    }
  }

  function DeliverVersion(v: Versioned, u: int, s: nat): (Versioned, bool) {
    if u < v.utime || !Recordable(s) then (v, false)
    else
      var d := Deliver(if u == v.utime then v.window else EMPTY, s);
      (Versioned(u, d.0), d.1)
  }

  /** The packets of one time. */
  ghost function Epoch(accepted: set<(int, nat)>, u: int): set<nat> {
    set p | p in accepted && p.0 == u :: p.1
  }

  ghost predicate VersionStands(v: Versioned, accepted: set<(int, nat)>) {
    && (forall p | p in accepted :: p.0 <= v.utime)
    && Stands(v.window, Epoch(accepted, v.utime))
  }

  /** A packet counts as delivered when a later time was seen, or by the window of its own time. */
  lemma VersionSeen(v: Versioned, accepted: set<(int, nat)>, u: int, s: nat)
    requires VersionStands(v, accepted)
    ensures v.Seen(u, s) <==> u < v.utime || (u == v.utime && Recordable(s) && Delivered(Epoch(accepted, u), s))
    ensures (u, s) in accepted && Recordable(s) ==> v.Seen(u, s)
  {
    if u == v.utime && s > 0 { SeenMeansDelivered(v.window, Epoch(accepted, u), s); }
    if (u, s) in accepted { assert s in Epoch(accepted, u); }
  }

  lemma VersionKeeps(v: Versioned, accepted: set<(int, nat)>, u: int, s: nat)
    requires VersionStands(v, accepted)
    ensures var d := DeliverVersion(v, u, s);
      && d.1 == (Recordable(s) && !v.Seen(u, s))
      && VersionStands(d.0, if d.1 then accepted + {(u, s)} else accepted)
      && d.0.utime >= v.utime && (d.1 ==> (u, s) !in accepted)
  {
    var d := DeliverVersion(v, u, s);
    if Recordable(s) && u >= v.utime {
      var w := if u == v.utime then v.window else EMPTY;
      assert Stands(w, Epoch(accepted, u));
      VersionSeen(v, accepted, u, s);
      if d.1 {
        AddStands(w, Epoch(accepted, u), s);
        assert Epoch(accepted + {(u, s)}, u) == Epoch(accepted, u) + {s};
      }
    }
  }

  function VersionDecisions(v: Versioned, ps: seq<(int, nat)>): seq<bool>
    decreases |ps|
  {
    if ps == [] then []
    else [DeliverVersion(v, ps[0].0, ps[0].1).1] + VersionDecisions(DeliverVersion(v, ps[0].0, ps[0].1).0, ps[1..])
  }

  lemma {:induction false} VersionNeverAgain(v: Versioned, accepted: set<(int, nat)>, ps: seq<(int, nat)>, j: nat)
    requires VersionStands(v, accepted) && j < |ps| && ps[j] in accepted
    ensures |VersionDecisions(v, ps)| > j && !VersionDecisions(v, ps)[j]
    decreases |ps|
  {
    var d := DeliverVersion(v, ps[0].0, ps[0].1);
    VersionKeeps(v, accepted, ps[0].0, ps[0].1);
    if j > 0 {
      VersionNeverAgain(d.0, if d.1 then accepted + {ps[0]} else accepted, ps[1..], j - 1);
    }
  }

  lemma {:induction false} VersionDecisionsSize(v: Versioned, ps: seq<(int, nat)>)
    ensures |VersionDecisions(v, ps)| == |ps|
    decreases |ps|
  {
    if ps != [] { VersionDecisionsSize(DeliverVersion(v, ps[0].0, ps[0].1).0, ps[1..]); }
  }

  lemma {:induction false} VersionAcceptedOnceFrom(v: Versioned, accepted: set<(int, nat)>, ps: seq<(int, nat)>, i: nat, j: nat)
    requires VersionStands(v, accepted) && i < j < |ps| && ps[i] == ps[j]
    ensures |VersionDecisions(v, ps)| > j && !(VersionDecisions(v, ps)[i] && VersionDecisions(v, ps)[j])
    decreases |ps|
  {
    var d := DeliverVersion(v, ps[0].0, ps[0].1);
    VersionKeeps(v, accepted, ps[0].0, ps[0].1);
    var accepted' := if d.1 then accepted + {ps[0]} else accepted;
    if i > 0 {
      VersionAcceptedOnceFrom(d.0, accepted', ps[1..], i - 1, j - 1);
    } else if d.1 {
      VersionNeverAgain(d.0, accepted', ps[1..], j - 1);
    } else {
      VersionDecisionsSize(d.0, ps[1..]);
    }
  }

  /** Over all times of a run, no packet is accepted twice. */
  lemma VersionAcceptedOnce(ps: seq<(int, nat)>, i: nat, j: nat)
    requires i < j < |ps| && ps[i] == ps[j]
    ensures var ds := VersionDecisions(Versioned(0, EMPTY), ps); |ds| > j && !(ds[i] && ds[j])
  {
    assert Epoch({}, 0) == {};
    VersionAcceptedOnceFrom(Versioned(0, EMPTY), {}, ps, i, j);
  }

  /** What a receiver accepts that delivers whatever the query does not call delivered. */
  function VersionAsked(v: Versioned, ps: seq<(int, nat)>): seq<bool>
    decreases |ps|
  {
    if ps == [] then [] else [!v.Seen(ps[0].0, ps[0].1)] + VersionAsked(DeliverVersion(v, ps[0].0, ps[0].1).0, ps[1..])
  }

  /** Time `u` is not before `t` nor before that of any packet with a number that is recorded, among the first `n`. */
  ghost predicate NoneLater(t: int, ps: seq<(int, nat)>, n: nat, u: int)
    requires n <= |ps|
  {
    t <= u && forall m | 0 <= m < n && Recordable(ps[m].1) :: ps[m].0 <= u
  }

  lemma NoneLaterFirst(v: Versioned, ps: seq<(int, nat)>, n: nat, u: int)
    requires 0 < n <= |ps|
    ensures NoneLater(DeliverVersion(v, ps[0].0, ps[0].1).0.utime, ps[1..], n - 1, u) <==> NoneLater(v.utime, ps, n, u)
  {
    assert forall m | 0 < m < n :: ps[1..][m - 1] == ps[m];
  }

  lemma {:induction false} VersionAskedSize(v: Versioned, ps: seq<(int, nat)>)
    ensures |VersionAsked(v, ps)| == |ps|
    decreases |ps|
  {
    if ps != [] { VersionAskedSize(DeliverVersion(v, ps[0].0, ps[0].1).0, ps[1..]); }
  }

  lemma {:induction false} VersionAskedAre(v: Versioned, accepted: set<(int, nat)>, ps: seq<(int, nat)>, n: nat)
    requires VersionStands(v, accepted) && n < |ps|
    ensures |VersionAsked(v, ps)| == |VersionDecisions(v, ps)| == |ps|
    ensures VersionAsked(v, ps)[n] <==> if Recordable(ps[n].1) then VersionDecisions(v, ps)[n] else NoneLater(v.utime, ps, n, ps[n].0)
    decreases n
  {
    var d := DeliverVersion(v, ps[0].0, ps[0].1);
    VersionKeeps(v, accepted, ps[0].0, ps[0].1);
    VersionDecisionsSize(v, ps);
    VersionAskedSize(v, ps);
    if n > 0 {
      VersionAskedAre(d.0, if d.1 then accepted + {ps[0]} else accepted, ps[1..], n - 1);
      NoneLaterFirst(v, ps, n, ps[n].0);
    }
  }

  /** Such a receiver accepts a packet number from 1 to 2^63-1 at most once for its time. Any other it accepts, however
      often, exactly if the time is not negative and no earlier packet with a number from 1 to 2^63-1 had a later one. */
  lemma VersionAskedTwiceIff(ps: seq<(int, nat)>, i: nat, j: nat)
    requires i < j < |ps| && ps[i] == ps[j]
    ensures var v := Versioned(0, EMPTY); var asked := VersionAsked(v, ps);
      && |asked| == |ps|
      && (if 0 < ps[i].1 < 0x8000_0000_0000_0000 then !(asked[i] && asked[j])
          else (asked[i] <==> NoneLater(0, ps, i, ps[i].0)) && (asked[j] <==> NoneLater(0, ps, j, ps[j].0)))
  {
    var v := Versioned(0, EMPTY);
    assert Epoch({}, 0) == {};
    VersionAskedAre(v, {}, ps, i);
    VersionAskedAre(v, {}, ps, j);
    VersionAcceptedOnce(ps, i, j);
  }

  class ReceivedMaskVersion {
    const mask: ReceivedMask
    var utime: int

    ghost function State(): Versioned
      reads this, mask
    {
      Versioned(utime, mask.State())
    }

    constructor ()
      ensures fresh(mask) && State() == Versioned(0, EMPTY)
    {
      mask := new ReceivedMask();
      utime := 0;
    }

    method PacketIsDelivered(u: int, s: nat) returns (r: bool)
      ensures r <==> State().Seen(u, s)
    {
      if u < utime {
        r := true;
      } else if u == utime {
        if s == 0 || s > INT64_MAX {
          return false;
        }
        r := mask.PacketIsDelivered(s);
      } else {
        r := false;
      }
    }

    method DeliverPacket(u: int, s: nat)
      modifies this, mask
      ensures State() == DeliverVersion(old(State()), u, s).0
    {
      if u < utime {
        return;
      }
      if s == 0 || s > INT64_MAX {
        return;
      }
      if u == utime {
        mask.DeliverPacket(s);
      } else {
        utime := u;
        mask.Reset();
        mask.DeliverPacket(s);
      }
    }
  }

  // ---- received_packet: 64-bit unsigned arithmetic ----

  lemma SumWraps(s: nat)
    requires s < WRAP
    ensures (s + BITS) % WRAP == if s + BITS >= WRAP then s + BITS - WRAP else s + BITS
  {
  }

  /** The peer pair's query, with the sum `seqno + 64` taken in 64 bits. */
  predicate Received(w: Window, s: nat)
    requires 0 < s < WRAP && w.last < WRAP
  {
    SumWraps(s);
    if (s + BITS) % WRAP <= w.last then true
    else if s > w.last then false
    else w.mask[w.last - s]
  }

  /** The sum wraps around, and its small value is at or below the highest number. */
  predicate WrapsBelow(w: Window, s: nat) {
    s + BITS >= WRAP && s + BITS - WRAP <= w.last
  }

  /** The peer pair's answer differs from the window's exactly for an unseen number in the last 64 whose
      wrapped sum is at or below the highest number: that packet is taken for a repeated one. */
  lemma ReceivedIff(w: Window, s: nat)
    requires 0 < s < WRAP && w.last < WRAP
    ensures Received(w, s) <==> w.Seen(s) || WrapsBelow(w, s)
    ensures s + BITS < WRAP ==> (Received(w, s) <==> w.Seen(s))
  {
    SumWraps(s);
  }

  /** A fresh number the peer pair refuses. */
  lemma FreshButRefused()
    ensures var w := Window(100, NoBits()[0 := true]); !w.Seen(WRAP - 1) && Received(w, WRAP - 1)
  {
    SumWraps(WRAP - 1);
  }
}
