/** The handshake messages a peer pair puts into its packets are those of the channel. */
module Handshake {
  import opened Options
  import Channel
  import Fragments
  import PeerQueue

  /** Packing goes by the present state of the channel. */
  ghost predicate Describes(plan: PeerQueue.Plan, c: Channel.Crypto, p: Channel.Pair) {
    && plan.inited == p.inited && plan.ready == p.ready
    && plan.key == c.pubOf(p.priv) && plan.peerKey == p.peerPub && plan.date == p.pkDate
  }

  /** A packet is read on the other side: one on a channel by the id it came with, then its handshake message. */
  function Reads(c: Channel.Crypto, p: Channel.Pair, x: PeerQueue.Packet, id: int): Channel.Pair {
    var q := if x.viaChannel then Channel.FromChannel(p, id) else p;
    match x.handshake
    case Some(CreateChannel(key, date)) => Channel.CreateChannel(c, q, key, date)
    case Some(ConfirmChannel(key, peerKey, date)) => Channel.Confirmed(c, q, key, peerKey, date)
    case _ => q
  }

  /** A packet that introduces its sender says what the channel has to say, and so does every packet with room for it. A
      packet on the channel that does not introduce its sender is the confirmation of one that is ready. */
  lemma PacketSays(c: Channel.Crypto, p: Channel.Pair, plan: PeerQueue.Plan, pass: nat, q: seq<PeerQueue.Out>, seqno: nat, to: Channel.Pair)
    requires Describes(plan, c, p) && Channel.Sound(c, p)
    ensures var x, m := PeerQueue.PacketOf(plan, pass, q, seqno), Channel.Says(c, p);
      && (x.viaChannel ==> m.Data?)
      && (x.viaChannel || (!m.Data? && (x.first || x.handshake.Some?)) ==>
            Reads(c, to, x, p.outId) == Channel.Step(c, to, Channel.Hears(m)))
      && (!x.viaChannel && x.handshake.None? ==> Reads(c, to, x, p.outId) == to)
  {
  }

  /** From any state of one side, also one set up with an older key, and a peer that just started: a packet that introduces
      the peer, one that introduces this side, and one on the channel make both ready on mirrored keys, whatever
      else they carry. */
  lemma PacketsComplete(
    c: Channel.Crypto, a: Channel.Pair, b: Channel.Pair, p1: PeerQueue.Plan, p2: PeerQueue.Plan, p3: PeerQueue.Plan,
    x1: PeerQueue.Packet, x2: PeerQueue.Packet, x3: PeerQueue.Packet,
    q1: seq<PeerQueue.Out>, q2: seq<PeerQueue.Out>, q3: seq<PeerQueue.Out>, n: nat, pass: nat)
    requires c.Symmetric() && Channel.Sound(c, a) && Channel.NewTo(a, c.pubOf(b.priv), b.pkDate)
    requires Channel.Workable(c, a.priv, c.pubOf(b.priv)) && b == Channel.Fresh(a.peer, a.local, b.priv, b.pkDate)
    requires Describes(p1, c, b) && p1.introduce && x1 == PeerQueue.PacketOf(p1, 0, q1, n)
    requires var a1 := Reads(c, a, x1, b.outId);
      && Describes(p2, c, a1) && p2.introduce && x2 == PeerQueue.PacketOf(p2, 0, q2, n)
      && Describes(p3, c, Reads(c, b, x2, a1.outId)) && !p3.startOver(pass) && x3 == PeerQueue.PacketOf(p3, pass, q3, n)
    ensures
      var a1 := Reads(c, a, x1, b.outId);
      var b1 := Reads(c, b, x2, a1.outId);
      var a2 := Reads(c, a1, x3, b1.outId);
      a2.ready && b1.ready && a2.keys.Some? && b1.keys.Some? && Channel.Mirror(a2.keys.value, b1.keys.value)
  {
    Channel.HandshakeCompletes(c, a, b);
    Channel.FirstMessage(c, a, b);
    var a1 := Channel.Step(c, a, Channel.Hears(Channel.Says(c, b)));
    PacketSays(c, b, p1, 0, q1, n, a);
    PacketSays(c, a1, p2, 0, q2, n, b);
    var b1 := Channel.Step(c, b, Channel.Hears(Channel.Says(c, a1)));
    Channel.StepSound(c, b, Channel.Hears(Channel.Says(c, a1)));
    PacketSays(c, b1, p3, pass, q3, n, a1);
  }
}
