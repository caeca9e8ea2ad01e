/** One end of an encrypted TCP connection. */
module ExtConnection {
  import opened Options
  import opened Order
  import opened Framing

  const INIT_PACKET: nat := 256

  /** The decrypted bytes that no packet was made of yet: the length field, if it was read, and the input. */
  ghost function View(s: Stream, pos: nat, header: Bytes, input: Bytes): Bytes {
    header + Crypt(s, pos, input)
  }

  lemma ReadsLength(s: Stream, pos: nat, input: Bytes)
    requires |input| >= 4
    ensures View(s, pos + 4, Crypt(s, pos, input[..4]), input[4..]) == View(s, pos, [], input)
  {
    CryptCut(s, pos, input, 4);
  }

  lemma ReadsBody(s: Stream, pos: nat, header: Bytes, input: Bytes, n: nat)
    requires |header| == 4 && |input| >= n
    ensures var v := View(s, pos, header, input);
      && |v| >= 4 + n && v[..4] == header && v[4..4 + n] == Crypt(s, pos, input[..n])
      && View(s, pos + n, [], input[n..]) == v[4 + n..]
  {
    CryptCut(s, pos, input, n);
    var c := Crypt(s, pos, input);
    var v := View(s, pos, header, input);
    assert v[4..4 + n] == c[..n] && v[4 + n..] == c[n..];
  }

  ghost predicate AgreesAt(head: Heading, rules: Rules, k: nat, p: Bytes) {
    head(k, p) == HeadOf(rules, k, p)
  }

  /** `head` tells packets apart by the rules. */
  ghost predicate Agrees(head: Heading, rules: Rules) {
    Stable(head) && forall k: nat, p: Bytes :: AgreesAt(head, rules, k, p)
  }

  lemma HeadsAgree(rules: Rules)
    ensures Agrees(Heads(rules), rules)
  {
    HeadsStable(rules);
    forall k: nat, p: Bytes ensures AgreesAt(Heads(rules), rules, k, p) {
    }
  }

  lemma BadHead(rules: Rules, head: Heading, k: nat, v: Bytes)
    requires Agrees(head, rules) && |v| >= 4 && BadLength(Value(v[..4]))
    ensures head(k, v) == Broken
  {
    assert AgreesAt(head, rules, k, v);
  }

  lemma PartialHead(rules: Rules, head: Heading, k: nat, v: Bytes)
    requires Agrees(head, rules)
    requires |v| < 4 || (!BadLength(Value(v[..4])) && |v| < 4 + Value(v[..4]))
    ensures head(k, v) == Partial
  {
    assert AgreesAt(head, rules, k, v);
  }

  lemma WholeHead(rules: Rules, head: Heading, k: nat, v: Bytes, n: nat)
    requires Agrees(head, rules) && |v| >= 4 + n && Value(v[..4]) == n && !BadLength(n)
    ensures var m := Open(rules, k, v[4..4 + n]); head(k, v) == if m.None? then Broken else Whole(m.value, 4 + n)
  {
    assert AgreesAt(head, rules, k, v);
  }

  /** What was received so far, and what the bytes at hand will add to it. */
  ghost function Outlook(head: Heading, events: seq<Event>, failed: bool, view: Bytes): Scanned
    requires Stable(head)
  {
    if failed then Scanned(events, [], true)
    else var t := Scan(head, |events|, view); Scanned(events + t.events, t.rest, t.failed)
  }

  lemma OutlookBroken(head: Heading, events: seq<Event>, view: Bytes, any: Bytes)
    requires Stable(head) && head(|events|, view) == Broken
    ensures Outlook(head, events, true, any) == Outlook(head, events, false, view)
  {
    assert events + [] == events;
  }

  lemma OutlookWhole(head: Heading, events: seq<Event>, view: Bytes, e: Event, n: nat)
    requires Stable(head) && head(|events|, view) == Whole(e, n)
    ensures n <= |view| && Outlook(head, events + [e], false, view[n..]) == Outlook(head, events, false, view)
  {
    assert StableAt(head, |events|, view, []);
    ConcatAssociates(events, [e], Scan(head, |events| + 1, view[n..]).events);
  }

  lemma OutlookThen(head: Heading, events: seq<Event>, failed: bool, view: Bytes, more: Bytes, o: Scanned)
    requires Stable(head) && Outlook(head, events, failed, view) == o
    ensures Outlook(head, events, failed, view + more) == Then(o, Scan(head, |o.events|, o.rest + more))
  {
    if !failed {
      ScanConcat(head, |events|, view, more);
      var s := Scan(head, |events|, view);
      ConcatAssociates(events, s.events, Scan(head, |events| + |s.events|, s.rest + more).events);
    }
  }

  lemma ScanMore(head: Heading, k: nat, a: Bytes, b: Bytes, s: Scanned, n: nat)
    requires Stable(head) && s == Scan(head, k, a) && n == k + |s.events|
    ensures Scan(head, k, a + b) == Then(s, Scan(head, n, s.rest + b))
  {
    ScanConcat(head, k, a, b);
  }

  lemma OutlookMore(head: Heading, events: seq<Event>, failed: bool, view: Bytes, total: Bytes, more: Bytes)
    requires Stable(head) && Outlook(head, events, failed, view) == Scan(head, 0, total)
    ensures Outlook(head, events, failed, view + more) == Scan(head, 0, total + more)
  {
    var s := Scan(head, 0, total);
    var t := Scan(head, |s.events|, s.rest + more);
    assert Outlook(head, events, failed, view + more) == Then(s, t) by {
      OutlookThen(head, events, failed, view, more, s);
    }
    ScanMore(head, 0, total, more, s, |s.events|);
  }

  /** What the bytes that arrived hold is what was received and what is still to be read: it does not matter in
      what pieces they arrived. */
  ghost predicate Good(
    head: Heading, s: Stream, pos: nat, header: Bytes, input: Bytes, events: seq<Event>, failed: bool, received: Bytes)
    requires Stable(head)
  {
    && pos + |input| == |received|
    && Outlook(head, events, failed, View(s, pos, header, input)) == Scan(head, 0, Crypt(s, 0, received))
  }

  /** Nothing more can be read from the bytes that arrived, after `k` packets. */
  ghost predicate Waits(head: Heading, k: nat, s: Stream, pos: nat, header: Bytes, input: Bytes) {
    head(k, View(s, pos, header, input)) == Partial
  }

  lemma LengthStep(
    rules: Rules, head: Heading, s: Stream, pos: nat, input: Bytes, events: seq<Event>, received: Bytes, x: Bytes)
    requires Agrees(head, rules) && Good(head, s, pos, [], input, events, false, received)
    requires |input| >= 4 && x == Crypt(s, pos, input[..4])
    ensures Good(head, s, pos + 4, x, input[4..], events, BadLength(Value(x)), received)
  {
    var v := View(s, pos, [], input);
    ReadsLength(s, pos, input);
    if BadLength(Value(x)) {
      assert View(s, pos + 4, x, input[4..])[..4] == x;
      BadHead(rules, head, |events|, v);
      OutlookBroken(head, events, v, v);
    }
  }

  lemma BodyRead(
    rules: Rules, head: Heading, s: Stream, pos: nat, header: Bytes, input: Bytes, len: nat, k: nat, e: Option<Event>)
    requires Agrees(head, rules) && |header| == 4 && Value(header) == len && !BadLength(len) && |input| >= len
    requires e == Open(rules, k, Crypt(s, pos, input[..len]))
    ensures var v := View(s, pos, header, input);
      && head(k, v) == (if e.None? then Broken else Whole(e.value, 4 + len))
      && |v| >= 4 + len && View(s, pos + len, [], input[len..]) == v[4 + len..]
  {
    ReadsBody(s, pos, header, input, len);
    WholeHead(rules, head, k, View(s, pos, header, input), len);
  }

  lemma BodyStep(
    rules: Rules, head: Heading, s: Stream, pos: nat, header: Bytes, input: Bytes, len: nat, events: seq<Event>, received: Bytes,
    e: Option<Event>)
    requires Agrees(head, rules) && Good(head, s, pos, header, input, events, false, received)
    requires |header| == 4 && Value(header) == len && !BadLength(len) && |input| >= len
    requires e == Open(rules, |events|, Crypt(s, pos, input[..len]))
    ensures e.None? ==> Good(head, s, pos + len, [], input[len..], events, true, received)
    ensures e.Some? ==> Good(head, s, pos + len, [], input[len..], events + [e.value], false, received)
  {
    var v, v' := View(s, pos, header, input), View(s, pos + len, [], input[len..]);
    BodyRead(rules, head, s, pos, header, input, len, |events|, e);
    if e.None? {
      OutlookBroken(head, events, v, v');
    } else {
      OutlookWhole(head, events, v, e.value, 4 + len);
    }
  }

  lemma ViewMore(s: Stream, pos: nat, header: Bytes, input: Bytes, chunk: Bytes)
    ensures View(s, pos, header, input + chunk) == View(s, pos, header, input) + Crypt(s, pos + |input|, chunk)
  {
    CryptConcat(s, pos, input, chunk);
    ConcatAssociates(header, Crypt(s, pos, input), Crypt(s, pos + |input|, chunk));
  }

  lemma ArrivalStep(
    head: Heading, s: Stream, pos: nat, header: Bytes, input: Bytes, events: seq<Event>, failed: bool, received: Bytes, chunk: Bytes)
    requires Stable(head) && Good(head, s, pos, header, input, events, failed, received)
    ensures Good(head, s, pos, header, input + chunk, events, failed, received + chunk)
  {
    ViewMore(s, pos, header, input, chunk);
    CryptConcat(s, 0, received, chunk);
    OutlookMore(head, events, failed, View(s, pos, header, input), Crypt(s, 0, received), Crypt(s, |received|, chunk));
  }

  lemma ShortLength(rules: Rules, head: Heading, k: nat, s: Stream, pos: nat, input: Bytes)
    requires Agrees(head, rules) && |input| < 4
    ensures Waits(head, k, s, pos, [], input)
  {
    PartialHead(rules, head, k, View(s, pos, [], input));
  }

  lemma ShortBody(rules: Rules, head: Heading, k: nat, s: Stream, pos: nat, header: Bytes, input: Bytes, len: nat)
    requires Agrees(head, rules) && |header| == 4 && Value(header) == len && !BadLength(len) && |input| < len
    ensures Waits(head, k, s, pos, header, input)
  {
    var v := View(s, pos, header, input);
    assert v[..4] == header;
    PartialHead(rules, head, k, v);
  }

  /** The receiving half: the position in the key stream, the bytes not yet read, the length of the packet being read
      once it is known, the packets received, and whether the other side broke the protocol. */
  datatype Inbound = Inbound(pos: nat, input: Bytes, readLen: bool, len: nat, events: seq<Event>, failed: bool)

  ghost predicate Sound(head: Heading, s: Stream, i: Inbound, header: Bytes, received: Bytes)
    requires Stable(head)
  {
    && (i.readLen ==> |header| == 4 && Value(header) == i.len && !BadLength(i.len))
    && (!i.readLen && !i.failed ==> header == [])
    && Good(head, s, i.pos, header, i.input, i.events, i.failed, received)
  }

  /** Bytes that arrived before the keys were set are the beginning of the stream. */
  lemma FirstBytes(head: Heading, s: Stream, i: Inbound)
    requires Stable(head) && i == Inbound(0, i.input, false, 0, [], false)
    ensures Sound(head, s, i, [], i.input)
  {
    var t := Scan(head, 0, Crypt(s, 0, i.input));
    assert [] + t.events == t.events;
    assert View(s, 0, [], i.input) == Crypt(s, 0, i.input);
  }

  ghost predicate Settled(head: Heading, s: Stream, i: Inbound, header: Bytes) {
    i.failed || Waits(head, |i.events|, s, i.pos, header, i.input)
  }

  /** Reads the length of the next packet, if it is there. */
  method ReceiveLength(rules: Rules, ghost head: Heading, s: Stream, i: Inbound, ghost header: Bytes, ghost received: Bytes)
    returns (i': Inbound, exit: bool, ghost header': Bytes)
    requires Agrees(head, rules) && Sound(head, s, i, header, received) && !i.failed && !i.readLen
    ensures Sound(head, s, i', header', received) && |i'.input| <= |i.input|
    ensures if exit then Settled(head, s, i', header') && i' == i else i'.readLen || i'.failed
  {
    if |i.input| < 4 {
      ShortLength(rules, head, |i.events|, s, i.pos, i.input);
      return i, true, header;
    }
    var x := Crypt(s, i.pos, i.input[..4]);
    LengthStep(rules, head, s, i.pos, i.input, i.events, received, x);
    var len := Value(x);
    var bad := len > MAX_PACKET || len < MIN_PACKET;
    return Inbound(i.pos + 4, i.input[4..], !bad, len, i.events, bad), false, x;
  }

  /** The contents of a packet: a keepalive if empty, otherwise handed on, which may be an error. */
  method ReceivePacket(rules: Rules, k: nat, data: Bytes) returns (e: Option<Event>)
    requires |data| >= MIN_PACKET
    ensures e == Open(rules, k, data)
  {
    var n := |data| - 32;
    if rules.sha(data[..n]) != data[n..] {
      return None;
    }
    var payload := data[..n][32..];
    assert payload == data[32..n];
    if |payload| == 0 {
      return Some(KeepAlive);
    }
    if !rules.handles(k, payload) {
      return None;
    }
    return Some(Packet(payload));
  }

  lemma BodySound(
    rules: Rules, head: Heading, s: Stream, i: Inbound, header: Bytes, received: Bytes, e: Option<Event>, i': Inbound)
    requires Agrees(head, rules) && Sound(head, s, i, header, received) && !i.failed && i.readLen && |i.input| >= i.len
    requires e == Open(rules, |i.events|, Crypt(s, i.pos, i.input[..i.len]))
    requires i' == Inbound(i.pos + i.len, i.input[i.len..], false, 0, if e.None? then i.events else i.events + [e.value], e.None?)
    ensures Sound(head, s, i', [], received)
  {
    BodyStep(rules, head, s, i.pos, header, i.input, i.len, i.events, received, e);
  }

  /** Reads a packet whose length is known, if all of it is there. */
  method ReceiveBody(rules: Rules, ghost head: Heading, s: Stream, i: Inbound, ghost header: Bytes, ghost received: Bytes)
    returns (i': Inbound, exit: bool, ghost header': Bytes)
    requires Agrees(head, rules) && Sound(head, s, i, header, received) && !i.failed && i.readLen
    ensures Sound(head, s, i', header', received)
    ensures if exit then Settled(head, s, i', header') && i' == i else |i'.input| < |i.input|
  {
    if |i.input| < i.len {
      ShortBody(rules, head, |i.events|, s, i.pos, header, i.input, i.len);
      return i, true, header;
    }
    var data := Crypt(s, i.pos, i.input[..i.len]);
    var e := ReceivePacket(rules, |i.events|, data);
    var events := if e.None? then i.events else i.events + [e.value];
    i', exit, header' := Inbound(i.pos + i.len, i.input[i.len..], false, 0, events, e.None?), false, [];
    BodySound(rules, head, s, i, header, received, e, i');
  }

  // ---- the main result ----

  lemma FramesScanFor(head: Heading, rules: Rules, os: seq<Outgoing>)
    requires Agrees(head, rules) && IsHash(rules.sha) && forall o | o in os :: o.Valid()
    ensures var m := Handled(rules, 0, os);
      Scan(head, 0, Frames(rules.sha, os)) == Scanned(EventsOf(os[..m]), [], m < |os|)
  {
    forall k: nat, o: Outgoing, more: Bytes | o.Valid() ensures FramedAt(head, rules, k, o, more) {
      assert AgreesAt(head, rules, k, Frame(rules.sha, o.nonce, o.payload) + more);
      FrameIsWhole(rules, k, o, more);
    }
    forall k: nat ensures Blank(head, k) {
      assert AgreesAt(head, rules, k, []);
    }
    FramesScan(head, rules, 0, os);
  }

  /** A connection that read all it could expects nothing but what it received. */
  lemma SettledOutlook(head: Heading, s: Stream, i: Inbound, header: Bytes)
    requires Stable(head) && Settled(head, s, i, header)
    ensures var v := View(s, i.pos, header, i.input);
      Outlook(head, i.events, i.failed, v) == Scanned(i.events, if i.failed then [] else v, i.failed)
  {
    assert i.events + [] == i.events;
  }

  /** The receiver has exactly the payloads up to the first that is not handled, empty ones as keepalives and the others
      handed on; if all are handled it is done. */
  ghost predicate Brought(rules: Rules, i: Inbound, os: seq<Outgoing>) {
    var m := Handled(rules, 0, os);
    && i.events == EventsOf(os[..m]) && Contents(i.events) == NotEmpty(os[..m])
    && (i.failed <==> m < |os|)
    && (m == |os| ==> i.input == [] && !i.readLen && i.pos == |Frames(rules.sha, os)|)
  }

  /** However they were cut into pieces, the bytes of the frames sent bring exactly the payloads sent up to the first
      that is not handled, empty ones as keepalives. If all are handled, nothing is left over, and both ends are at the
      same position of the key stream. */
  lemma PiecesBringPackets(rules: Rules, head: Heading, s: Stream, i: Inbound, header: Bytes, os: seq<Outgoing>)
    requires Agrees(head, rules) && IsHash(rules.sha) && (forall o | o in os :: o.Valid())
    requires Sound(head, s, i, header, Crypt(s, 0, Frames(rules.sha, os))) && Settled(head, s, i, header)
    ensures Brought(rules, i, os)
  {
    CryptTwice(s, 0, Frames(rules.sha, os));
    FramesScanFor(head, rules, os);
    SettledOutlook(head, s, i, header);
    ContentsAre(os[..Handled(rules, 0, os)]);
    var v := View(s, i.pos, header, i.input);
    assert |v| == |header| + |i.input|;
  }

  /** The keys: the client reads with the first key and vector and writes with the second, the server the other way. */
  datatype Keys = Keys(inKey: Bytes, inVector: Bytes, outKey: Bytes, outVector: Bytes)

  function InitKeys(isClient: bool, d: Bytes): Option<Keys> {
    if |d| < 96 then None
    else if isClient then Some(Keys(d[..32], d[64..80], d[32..64], d[80..96]))
    else Some(Keys(d[32..64], d[80..96], d[..32], d[64..80]))
  }

  lemma KeysMirror(d: Bytes)
    ensures InitKeys(true, d).Some? <==> InitKeys(false, d).Some?
    ensures InitKeys(true, d).Some? ==>
      var c, s := InitKeys(true, d).value, InitKeys(false, d).value;
      c.inKey == s.outKey && c.inVector == s.outVector && c.outKey == s.inKey && c.outVector == s.inVector
  {
  }

  /** The first bytes from the client, once they were cut off. */
  function Hello(p: Option<Bytes>): Bytes {
    if p.Some? then p.value else []
  }

  class Connection {
    const isClient: bool
    const rules: Rules
    /** The key stream of a key and an initial vector. */
    const keystream: (Bytes, Bytes) -> Stream
    /** The form of packets. */
    ghost const head: Heading
    var inited: bool
    var stopRead: bool
    var inStream: Stream
    var reading: Inbound
    /** The first bytes from the client, from which the server learns the keys. */
    var initPacket: Option<Bytes>
    var outStream: Stream
    var outPos: nat
    var output: Bytes
    /** The length field being read, all encrypted bytes that arrived, and all bytes that arrived. */
    ghost var header: Bytes
    ghost var received: Bytes
    ghost var arrived: Bytes
    /** What went out before the keys were set, and what went out encrypted. */
    ghost var clear: Bytes
    ghost var plain: Bytes

    /** Every byte that arrived is in the first packet, was read as part of the encrypted stream, or waits. Before the keys
        are set a connection stops reading exactly when it has the first packet. */
    ghost predicate Reads()
      reads this`inited, this`stopRead, this`inStream, this`reading, this`header, this`received, this`arrived, this`initPacket
    {
      && Agrees(head, rules)
      && arrived == Hello(initPacket) + (if inited then received else reading.input)
      && (initPacket.Some? ==> |initPacket.value| == INIT_PACKET)
      && (inited ==> Sound(head, inStream, reading, header, received))
      && (!inited ==> reading == Inbound(0, reading.input, false, 0, [], false) && header == [] && (stopRead <==> initPacket.Some?))
    }

    /** Nothing can be done before more bytes arrive or reading is resumed. */
    ghost predicate Idle()
      reads this`inited, this`stopRead, this`inStream, this`reading, this`header
    {
      stopRead || if inited then Settled(head, inStream, reading, header) else |reading.input| < INIT_PACKET
    }

    ghost predicate Writes()
      reads this`output, this`outStream, this`outPos, this`clear, this`plain
    {
      output == clear + Crypt(outStream, 0, plain) && outPos == |plain|
    }

    /** The key streams are those of `d`. */
    ghost predicate HasKeys(d: Bytes)
      reads this`inStream, this`outStream
    {
      && InitKeys(isClient, d).Some?
      && var k := InitKeys(isClient, d).value;
        inStream == keystream(k.inKey, k.inVector) && outStream == keystream(k.outKey, k.outVector)
    }

    /** Nothing arrived yet and nothing was sent yet. */
    ghost predicate New()
      reads this
    {
      Reads() && Writes() && !inited && !stopRead && arrived == [] && plain == []
    }

    constructor (isClient: bool, rules: Rules, keystream: (Bytes, Bytes) -> Stream)
      ensures New() && this.isClient == isClient && this.rules == rules && this.keystream == keystream
    {
      this.isClient, this.rules, this.keystream, this.head := isClient, rules, keystream, Heads(rules);
      inited, stopRead, initPacket, reading := false, false, None, Inbound(0, [], false, 0, [], false);
      inStream, outStream, outPos, output := _ => 0, _ => 0, 0, [];
      header, received, arrived, clear, plain := [], [], [], [], [];
      HeadsAgree(rules);
    }

    /** Both directions get their key stream; bytes that wait already belong to it. */
    method InitCrypto(d: Bytes) returns (ok: bool)
      requires Reads() && Writes() && !inited && plain == []
      modifies this`inited, this`inStream, this`outStream, this`received, this`clear
      ensures Reads() && Writes() && ok == inited == (|d| >= 96) && (ok ==> HasKeys(d) && clear == output && received == reading.input)
      ensures !ok ==> inStream == old(inStream) && outStream == old(outStream)
    {
      if |d| < 96 {
        return false;
      }
      var s1, s2, v1, v2 := d[..32], d[32..][..32], d[64..][..16], d[80..][..16];
      assert s2 == d[32..64] && v1 == d[64..80] && v2 == d[80..96];
      if isClient {
        inStream, outStream := keystream(s1, v1), keystream(s2, v2);
      } else {
        inStream, outStream := keystream(s2, v2), keystream(s1, v1);
      }
      inited := true;
      received := reading.input;
      clear := output;
      assert output + [] == output;
      FirstBytes(head, inStream, reading);
      return true;
    }

    /** One packet, or the first packet of a client, is read if all of it is there. */
    method Receive() returns (exit: bool)
      requires Reads() && !reading.failed && (!inited ==> !isClient)
      modifies this`reading, this`header, this`initPacket, this`stopRead
      ensures Reads()
      ensures old(stopRead) ==> exit && reading == old(reading)
      ensures exit ==> !reading.failed && Idle() && stopRead == old(stopRead) && initPacket == old(initPacket)
      ensures !exit ==> !old(stopRead) && (reading.failed || |reading.input| < |old(reading).input|)
      ensures inited || old(stopRead) ==> stopRead == old(stopRead) && initPacket == old(initPacket)
    {
      if stopRead {
        return true;
      }
      if inited {
        exit := false;
        if !reading.readLen {
          reading, exit, header := ReceiveLength(rules, head, inStream, reading, header, received);
        }
        if !exit && !reading.failed {
          reading, exit, header := ReceiveBody(rules, head, inStream, reading, header, received);
        }
      } else {
        if |reading.input| < INIT_PACKET {
          return true;
        }
        initPacket := Some(reading.input[..INIT_PACKET]);
        reading := reading.(input := reading.input[INIT_PACKET..]);
        stopRead := true;
        exit := false;
      }
    }

    /** Reads all there is to read. It ends because every round but the last consumes input. */
    method Loop()
      requires Reads() && !reading.failed && (!inited ==> !isClient)
      modifies this`reading, this`header, this`initPacket, this`stopRead
      ensures Reads() && Idle()
      ensures inited || old(stopRead) ==> stopRead == old(stopRead) && initPacket == old(initPacket)
    {
      var exit := false;
      while !exit && !reading.failed
        invariant Reads() && (exit ==> Idle())
        invariant inited || old(stopRead) ==> stopRead == old(stopRead) && initPacket == old(initPacket)
        decreases !exit, !reading.failed, |reading.input|
      {
        exit := Receive();
      }
    }

    /** Bytes arrive from the network. A connection that failed is closed. */
    method OnNet(chunk: Bytes)
      requires Reads() && (!inited ==> !isClient)
      modifies this`reading, this`header, this`initPacket, this`stopRead, this`received, this`arrived
      ensures Reads() && Idle() && arrived == old(arrived) + chunk
      ensures inited || old(stopRead) ==> stopRead == old(stopRead) && initPacket == old(initPacket)
    {
      ConcatAssociates(Hello(initPacket), if inited then received else reading.input, chunk);
      if inited {
        ArrivalStep(head, inStream, reading.pos, header, reading.input, reading.events, reading.failed, received, chunk);
        received := received + chunk;
      }
      arrived := arrived + chunk;
      reading := reading.(input := reading.input + chunk);
      if !reading.failed {
        Loop();
      }
    }

    method ResumeRead()
      requires Reads() && inited
      modifies this`stopRead
      ensures Reads() && !stopRead
    {
      stopRead := false;
    }

    method SendUninit(data: Bytes)
      requires Writes() && plain == []
      modifies this`output, this`clear
      ensures Writes() && output == clear == old(output) + data
    {
      output := output + data;
      clear := output;
      assert output + [] == output;
    }

    /** Sends one packet; a payload that is too large is dropped. */
    method Send(nonce: Bytes, data: Bytes)
      requires Writes() && inited && |nonce| == NONCE && |data| < WORD
      modifies this`output, this`outPos, this`plain
      ensures Writes()
      ensures plain == if Accepts(|data|) then old(plain) + Frame(rules.sha, nonce, data) else old(plain)
      ensures Accepts(|data|) ==> output == old(output) + Crypt(outStream, old(outPos), Frame(rules.sha, nonce, data))
      ensures !Accepts(|data|) ==> output == old(output)
    {
      var dataSize := (|data| + 32 + 32) % WORD;
      if dataSize < 32 || dataSize > MAX_PACKET {
        return;
      }
      var d := Little(dataSize) + (nonce + data + rules.sha(nonce + data));
      var e := Crypt(outStream, outPos, d);
      CryptConcat(outStream, 0, plain, d);
      ConcatAssociates(clear, Crypt(outStream, 0, plain), e);
      output := output + e;
      outPos := outPos + |d|;
      plain := plain + d;
    }
    method SendKeepAlive(nonce: Bytes)
      requires Writes() && inited && |nonce| == NONCE
      modifies this`output, this`outPos, this`plain
      ensures Writes() && plain == old(plain) + Frame(rules.sha, nonce, [])
    {
      AcceptsIff(0);
      Send(nonce, []);
    }

    /** The first packet was decrypted, or could not be: the keys are set, a keepalive goes out and reading goes on. */
    method InitedCrypto(r: Option<Bytes>, nonce: Bytes) returns (ok: bool)
      requires Reads() && Writes() && !inited && plain == [] && |nonce| == NONCE
      modifies this`inited, this`stopRead, this`inStream, this`outStream, this`received, this`clear, this`output, this`outPos, this`plain
      ensures Reads() && Writes() && ok == inited == (r.Some? && |r.value| >= 96)
      ensures ok ==> HasKeys(r.value) && !stopRead && received == reading.input
      ensures ok ==> clear == old(output) && plain == old(plain) + Frame(rules.sha, nonce, [])
    {
      if r.None? {
        return false;
      }
      ok := InitCrypto(r.value);
      if !ok {
        return;
      }
      SendKeepAlive(nonce);
      ResumeRead();
    }
  }

  /** Packets are sent one after the other. */
  method SendAll(c: Connection, os: seq<Outgoing>)
    requires c.Writes() && c.inited && forall o | o in os :: o.Valid()
    modifies c`output, c`outPos, c`plain
    ensures c.Writes() && c.plain == old(c.plain) + Frames(c.rules.sha, os)
  {
    assert c.plain + [] == c.plain;
    for n := 0 to |os|
      invariant c.Writes() && c.plain == old(c.plain) + Frames(c.rules.sha, os[..n])
    {
      var o := os[n];
      assert o in os && o.Valid();
      AcceptsIff(|o.payload|);
      assert os[..n + 1] == os[..n] + [o];
      FramesMore(c.rules.sha, os[..n], o);
      ConcatAssociates(old(c.plain), Frames(c.rules.sha, os[..n]), Frame(c.rules.sha, o.nonce, o.payload));
      c.Send(o.nonce, o.payload);
    }
    assert os[..|os|] == os;
  }

  function Joined(chunks: seq<Bytes>): Bytes {
    if chunks == [] then [] else Joined(chunks[..|chunks| - 1]) + chunks[|chunks| - 1]
  }

  /** Bytes arrive piece by piece. */
  method Arrive(c: Connection, chunks: seq<Bytes>)
    requires c.Reads() && c.Idle() && (!c.inited ==> !c.isClient)
    modifies c`reading, c`header, c`initPacket, c`stopRead, c`received, c`arrived
    ensures c.Reads() && c.Idle() && c.arrived == old(c.arrived) + Joined(chunks)
    ensures c.inited || old(c.stopRead) ==> c.stopRead == old(c.stopRead) && c.initPacket == old(c.initPacket)
  {
    assert c.arrived + [] == c.arrived;
    for n := 0 to |chunks|
      invariant c.Reads() && c.Idle() && c.arrived == old(c.arrived) + Joined(chunks[..n])
      invariant c.inited || old(c.stopRead) ==> c.stopRead == old(c.stopRead) && c.initPacket == old(c.initPacket)
    {
      assert chunks[..n + 1][..n] == chunks[..n];
      ConcatAssociates(old(c.arrived), Joined(chunks[..n]), chunks[n]);
      c.OnNet(chunks[n]);
    }
    assert chunks[..|chunks|] == chunks;
  }

  /** A client and a server with the same hash and cipher. */
  ghost predicate Paired(client: Connection, server: Connection) {
    && client != server && client.isClient && !server.isClient
    && client.rules.sha == server.rules.sha && client.keystream == server.keystream && IsHash(client.rules.sha)
  }

  /** What one end of a pair encrypts the other decrypts. */
  lemma KeysMeet(client: Connection, server: Connection, d: Bytes)
    requires Paired(client, server) && client.HasKeys(d) && server.HasKeys(d)
    ensures client.inStream == server.outStream && client.outStream == server.inStream
  {
    KeysMirror(d);
  }

  lemma FramesFirst(sha: Bytes -> Bytes, o: Outgoing, os: seq<Outgoing>)
    ensures Frames(sha, [o] + os) == [] + Frame(sha, o.nonce, o.payload) + Frames(sha, os)
  {
    assert ([o] + os)[1..] == os;
  }

  lemma TailOf(a: Bytes, b: Bytes, c: Bytes)
    ensures (a + b + c)[|a|..] == b + c
  {
  }

  /** A server gets its keys and sends a keepalive and then packets. */
  method ServerSends(a: Connection, d: Bytes, nonce: Bytes, os: seq<Outgoing>) returns (ok: bool, wire: Bytes)
    requires a.Reads() && a.Writes() && !a.inited && a.plain == [] && |nonce| == NONCE && forall o | o in os :: o.Valid()
    modifies a
    ensures ok <==> |d| >= 96
    ensures ok ==> var plain := Frames(a.rules.sha, [Outgoing(nonce, [])] + os);
      a.HasKeys(d) && wire == Crypt(a.outStream, 0, plain) && a.outPos == |plain|
  {
    var before := |a.output|;
    ok := a.InitedCrypto(Some(d), nonce);
    if !ok {
      return ok, [];
    }
    SendAll(a, os);
    wire := a.output[before..];
    FramesFirst(a.rules.sha, Outgoing(nonce, []), os);
    TailOf(old(a.output), [], Crypt(a.outStream, 0, a.plain));
  }

  /** A client gets its keys, sends its first packet and then others. */
  method ClientSends(a: Connection, d: Bytes, hello: Bytes, os: seq<Outgoing>) returns (ok: bool, wire: Bytes)
    requires a.New() && forall o | o in os :: o.Valid()
    modifies a
    ensures ok <==> |d| >= 96
    ensures ok ==> var plain := Frames(a.rules.sha, os);
      a.HasKeys(d) && wire == hello + Crypt(a.outStream, 0, plain) && a.outPos == |plain|
  {
    var before := |a.output|;
    ok := a.InitCrypto(d);
    if !ok {
      return ok, [];
    }
    a.SendUninit(hello);
    SendAll(a, os);
    wire := a.output[before..];
    assert a.plain == Frames(a.rules.sha, os);
    TailOf(old(a.output), hello, Crypt(a.outStream, 0, a.plain));
  }

  /** Of the encrypted stream of frames some bytes wait already and the others arrive piece by piece. */
  method ArriveFrames(b: Connection, chunks: seq<Bytes>, ghost os: seq<Outgoing>)
    requires b.Reads() && b.Idle() && b.inited && !b.stopRead && IsHash(b.rules.sha) && forall o | o in os :: o.Valid()
    requires b.received + Joined(chunks) == Crypt(b.inStream, 0, Frames(b.rules.sha, os))
    modifies b`reading, b`header, b`initPacket, b`stopRead, b`received, b`arrived
    ensures Brought(b.rules, b.reading, os) && b.initPacket == old(b.initPacket)
  {
    ConcatAssociates(Hello(b.initPacket), b.received, Joined(chunks));
    Arrive(b, chunks);
    assert b.received == b.arrived[|Hello(b.initPacket)|..];
    PiecesBringPackets(b.rules, b.head, b.inStream, b.reading, b.header, os);
  }

  /** A client and a server set up from the same bytes, the server by the first packet it got before. The server sends, the
      client receives what the network makes of it, any pieces in order: a keepalive and then exactly the payloads sent.
      Too few bytes are an error on both ends. */
  method TransferToClient(a: Connection, b: Connection, d: Bytes, nonce: Bytes, os: seq<Outgoing>, cut: Bytes -> seq<Bytes>)
    returns (ok: bool)
    requires Paired(b, a) && a.Reads() && a.Writes() && !a.inited && a.plain == [] && b.New()
    requires |nonce| == NONCE && (forall o | o in os :: o.Valid()) && forall w: Bytes :: Joined(cut(w)) == w
    modifies a, b
    ensures ok <==> |d| >= 96
    ensures ok ==> Brought(b.rules, b.reading, [Outgoing(nonce, [])] + os)
    ensures ok && !b.reading.failed ==> b.reading.pos == a.outPos
  {
    var wire;
    ok, wire := ServerSends(a, d, nonce, os);
    var ok' := b.InitCrypto(d);
    if !ok {
      return;
    }
    KeysMeet(b, a, d);
    ShortLength(b.rules, b.head, 0, b.inStream, 0, []);
    ArriveFrames(b, cut(wire), [Outgoing(nonce, [])] + os);
  }

  lemma SameCut(p: Bytes, input: Bytes, rest: Bytes, hello: Bytes, wire: Bytes)
    requires p + input + rest == hello + wire && |p| == |hello|
    ensures p == hello && input + rest == wire
  {
    assert p == (p + input + rest)[..|p|] && hello == (hello + wire)[..|p|];
    assert input + rest == (p + input + rest)[|p|..] && wire == (hello + wire)[|p|..];
  }

  /** The server cuts off the first packet of a client, whatever the pieces it arrives in, and stops reading. */
  method ArriveHello(b: Connection, chunks: seq<Bytes>, ghost hello: Bytes, ghost wire: Bytes, ghost rest: Bytes)
    requires !b.isClient && b.New() && |hello| == INIT_PACKET
    requires Joined(chunks) + rest == hello + wire && |Joined(chunks)| >= INIT_PACKET
    modifies b`reading, b`header, b`initPacket, b`stopRead, b`received, b`arrived
    ensures b.Reads() && b.stopRead && b.initPacket == Some(hello) && b.reading.input + rest == wire
  {
    Arrive(b, chunks);
    assert b.arrived == Joined(chunks);
    assert b.stopRead;
    SameCut(b.initPacket.value, b.reading.input, rest, hello, wire);
  }

  /** The stream is cut into pieces, those that arrive before the server gets its keys and those that arrive later. The
      first packet is complete before. */
  ghost predicate Cuts(cut: Bytes -> (seq<Bytes>, seq<Bytes>), w: Bytes) {
    && Joined(cut(w).0) + Joined(cut(w).1) == w
    && (|w| >= INIT_PACKET ==> |Joined(cut(w).0)| >= INIT_PACKET)
  }

  /** The server gets its keys when it has the first packet, and reads what waits already and what comes later. */
  method ServerResumes(b: Connection, r: Option<Bytes>, nonce: Bytes, chunks: seq<Bytes>, ghost s: Stream, ghost os: seq<Outgoing>)
    returns (ok: bool)
    requires b.Reads() && b.Writes() && !b.inited && b.plain == [] && |nonce| == NONCE
    requires IsHash(b.rules.sha) && forall o | o in os :: o.Valid()
    requires r.Some? && |r.value| >= 96 ==> var k := InitKeys(b.isClient, r.value).value; s == b.keystream(k.inKey, k.inVector)
    requires b.reading.input + Joined(chunks) == Crypt(s, 0, Frames(b.rules.sha, os))
    modifies b
    ensures ok <==> r.Some? && |r.value| >= 96
    ensures ok ==> b.initPacket == old(b.initPacket) && Brought(b.rules, b.reading, os)
  {
    ok := b.InitedCrypto(r, nonce);
    if !ok {
      return;
    }
    b.Loop();
    ArriveFrames(b, chunks, os);
  }

  /** A client sends its first packet and then frames; the server receives what the network makes of it, any pieces in
      order. It gets the keys some time after the first packet is complete, when part of the frames may wait already, and
      the rest comes later. It ends up with the client's first packet and exactly the payloads sent. Too few bytes for the
      keys are an error on both ends. */
  method TransferToServer(
    a: Connection, b: Connection, d: Bytes, hello: Bytes, decrypt: Bytes -> Option<Bytes>, nonce: Bytes, os: seq<Outgoing>,
    cut: Bytes -> (seq<Bytes>, seq<Bytes>))
    returns (ok: bool)
    requires Paired(a, b) && a.New() && b.New()
    requires |hello| == INIT_PACKET && decrypt(hello[32..]) == Some(d)
    requires |nonce| == NONCE && (forall o | o in os :: o.Valid()) && forall w: Bytes :: Cuts(cut, w)
    modifies a, b
    ensures ok <==> |d| >= 96
    ensures ok ==> b.initPacket == Some(hello) && Brought(b.rules, b.reading, os)
    ensures ok && !b.reading.failed ==> b.reading.pos == a.outPos
  {
    var wire;
    ok, wire := ClientSends(a, d, hello, os);
    if !ok {
      return;
    }
    var pieces := cut(wire);
    assert Cuts(cut, wire);
    ArriveHello(b, pieces.0, hello, Crypt(a.outStream, 0, Frames(a.rules.sha, os)), Joined(pieces.1));
    KeysMirror(d);
    ok := ServerResumes(b, decrypt(b.initPacket.value[32..]), nonce, pieces.1, a.outStream, os);
  }
}
