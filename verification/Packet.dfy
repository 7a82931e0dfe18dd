/** The pool's wire protocol: packets written as bytes, and the reader that rebuilds them a few bytes
    at a time from whatever has arrived. */
module Packet {
  import opened Bytes
  import opened Words

  datatype Packet = Packet(header: Byte, length: Uint, data: seq<Byte>) {
    predicate IsNull() {
      header == 255
    }

    predicate HeaderRead() {
      (header < 128 && length > 0) || (128 <= header < 255 && length == 0)
    }

    predicate Complete() {
      HeaderRead() && |data| == length
    }

    function GetBytes(): seq<Byte> {
      [header] + if header < 128 then Uint2Bytes(length) + data else []
    }
  }

  const NULL := Packet(255, 0, [])

  /** What one side may write: a data packet with as many bytes as it says and at least one, or a
      request that carries nothing. */
  predicate WellFormed(p: Packet) {
    p.Complete()
  }

  // ---------------------------------------------------------------- one call of the reader

  function HeaderTaken(p: Packet, socket: seq<Byte>): (Packet, seq<Byte>) {
    if |socket| > 0 && p.IsNull() then (p.(header := socket[0]), socket[1..]) else (p, socket)
  }

  function LengthTaken(p: Packet, socket: seq<Byte>): (Packet, seq<Byte>) {
    if |socket| >= 4 && p.length == 0 then (p.(length := Bytes2Uint(socket[..4], 0)), socket[4..]) else (p, socket)
  }

  function DataTaken(p: Packet, socket: seq<Byte>): (Packet, seq<Byte>) {
    if |socket| > 0 && p.length > 0 && |p.data| < p.length then
      var n := Min(|socket|, p.length - |p.data|);
      (p.(data := p.data + socket[..n]), socket[n..])
    else (p, socket)
  }

  function Received(p: Packet, socket: seq<Byte>): (Packet, seq<Byte>) {
    var (q, s) := HeaderTaken(p, socket);
    if q.IsNull() || q.Complete() then (q, s)
    else
      var (r, t) := LengthTaken(q, s);
      DataTaken(r, t)
  }

  class Connection {
    var incoming: Packet
    var socket: seq<Byte>

    constructor ()
      ensures incoming == NULL && socket == []
    {
      incoming, socket := NULL, [];
    }

    method Read(n: nat) returns (bytes: seq<Byte>)
      requires n <= |socket|
      modifies this`socket
      ensures bytes == old(socket)[..n] && socket == old(socket)[n..]
    {
      bytes := socket[..n];
      socket := socket[n..];
    }

    method SetNull()
      modifies this`incoming
      ensures incoming == NULL
    {
      incoming := incoming.(header := 255, length := 0);
      incoming := incoming.(data := []);
    }

    method SetLength(bytes: seq<Byte>)
      requires |bytes| == 4
      modifies this`incoming
      ensures incoming == old(incoming).(length := Bytes2Uint(bytes, 0))
    {
      incoming := incoming.(length := Bytes2Uint(bytes, 0));
    }

    method ReadPacket()
      modifies this
      ensures (incoming, socket) == Received(old(incoming), old(socket))
    {
      hide Bytes2Uint;
      if |socket| > 0 && incoming.IsNull() {
        var bytes := Read(1);
        incoming := incoming.(header := bytes[0]);
      }
      if !incoming.IsNull() && !incoming.Complete() {
        if |socket| >= 4 && incoming.length == 0 {
          var bytes := Read(4);
          SetLength(bytes);
        }
        var available := |socket|;
        if available > 0 && incoming.length > 0 && |incoming.data| < incoming.length {
          var bytes := Read(Min(available, incoming.length - |incoming.data|));
          incoming := incoming.(data := incoming.data + bytes);
        }
      }
    }
  }

  // ---------------------------------------------------------------- a whole run

  datatype World = World(written: seq<Packet>, flight: seq<Byte>, socket: seq<Byte>, incoming: Packet, emitted: seq<Packet>)

  /** A packet is written; some bytes in flight arrive; the reader is called; a packet found complete
      is taken and the reader reset. */
  datatype Event = Send(packet: Packet) | Arrive(n: nat) | Read | Take

  const START := World([], [], [], NULL, [])

  function Step(w: World, e: Event): World {
    match e
    case Send(p) => w.(written := w.written + [p], flight := w.flight + p.GetBytes())
    case Arrive(n) =>
      var m := Min(n, |w.flight|);
      w.(socket := w.socket + w.flight[..m], flight := w.flight[m..])
    case Read =>
      var (p, s) := Received(w.incoming, w.socket);
      w.(incoming := p, socket := s)
    case Take =>
      if w.incoming.Complete() then w.(emitted := w.emitted + [w.incoming], incoming := NULL) else w
  }

  function Run(w: World, events: seq<Event>): World
    decreases |events|
  {
    if events == [] then w else Run(Step(w, events[0]), events[1..])
  }

  function Stream(packets: seq<Packet>): seq<Byte> {
    if packets == [] then [] else packets[0].GetBytes() + Stream(packets[1..])
  }

  lemma {:induction false} StreamSplit(a: seq<Packet>, b: seq<Packet>)
    ensures Stream(a + b) == Stream(a) + Stream(b)
    decreases |a|
  {
    if a == [] {
      assert a + b == b;
    } else {
      assert (a + b)[0] == a[0] && (a + b)[1..] == a[1..] + b;
      StreamSplit(a[1..], b);
    }
  }

  /** The bytes already used for the packet being read. */
  function Used(p: Packet): seq<Byte> {
    if p.IsNull() then []
    else if p.header >= 128 || p.length == 0 then [p.header]
    else [p.header] + Uint2Bytes(p.length) + p.data
  }

  /** The packet being read is the beginning of some packet. */
  predicate Begins(p: Packet, whole: Packet) {
    || p == NULL
    || (p.header == whole.header && p.length == 0 && p.data == [])
    || (p.header == whole.header && p.length == whole.length && p.data <= whole.data)
  }

  /** What is emitted is what was written, in order; the packet being read begins the next one; and
      every byte is used once, waiting, or in flight. */
  predicate Inv(w: World) {
    && |w.emitted| <= |w.written| && w.emitted == w.written[..|w.emitted|]
    && (forall i :: 0 <= i < |w.written| ==> WellFormed(w.written[i]))
    && (w.incoming == NULL || (|w.emitted| < |w.written| && Begins(w.incoming, w.written[|w.emitted|])))
    && Used(w.incoming) + w.socket + w.flight == Stream(w.written[|w.emitted|..])
  }

  /** Where a packet that begins another stands: how many of its bytes are used. */
  lemma UsedIsPrefix(p: Packet, whole: Packet)
    requires WellFormed(whole) && Begins(p, whole)
    ensures Used(p) <= whole.GetBytes()
    ensures p.Complete() <==> Used(p) == whole.GetBytes()
    ensures p.Complete() ==> p == whole
  {
    var b := whole.GetBytes();
    if p != NULL {
      if p.header < 128 && p.length > 0 {
        assert b[..5 + |p.data|] == Used(p);
        assert |b| == 5 + |whole.data|;
      } else {
        assert b[..1] == Used(p);
      }
    }
  }

  /** What one call finds when the waiting bytes start with the rest of the packet, or with part of it. */
  lemma ReceivedIs(p: Packet, whole: Packet, socket: seq<Byte>, after: seq<Byte>, rest: seq<Byte>)
    requires WellFormed(whole) && Begins(p, whole)
    requires Used(p) + socket + rest == whole.GetBytes() + after
    ensures var (q, s) := Received(p, socket);
            && Begins(q, whole) && Used(q) + s == Used(p) + socket
            && (q.Complete() <==> |Used(p)| + |socket| >= |whole.GetBytes()|)
  {
    if p.IsNull() {
      if |socket| > 0 {
        FirstByte(whole, socket, after, rest);
        HeaderIn(whole, socket[1..], after, rest);
        hide Packet.GetBytes, Used, Begins;
        assert Received(p, socket) == Received(Packet(whole.header, 0, []), socket[1..]);
      }
    } else if p.length == 0 {
      HeaderIn(whole, socket, after, rest);
    } else {
      DataIn(p, whole, socket, after, rest);
    }
  }

  /** The header byte is in; the length and the data may follow. */
  lemma HeaderIn(whole: Packet, socket: seq<Byte>, after: seq<Byte>, rest: seq<Byte>)
    requires WellFormed(whole)
    requires [whole.header] + socket + rest == whole.GetBytes() + after
    ensures var p := Packet(whole.header, 0, []);
            var (q, s) := Received(p, socket);
            && Begins(q, whole) && Used(q) + s == [whole.header] + socket
            && (q.Complete() <==> 1 + |socket| >= |whole.GetBytes()|)
  {
    var p := Packet(whole.header, 0, []);
    if whole.header < 128 && |socket| >= 4 {
      hide Uint2Bytes, Bytes2Uint;
      Cancel([whole.header], socket + rest, Uint2Bytes(whole.length) + (whole.data + after)) by {
        assert [whole.header] + (socket + rest) == [whole.header] + socket + rest;
        assert whole.GetBytes() + after == [whole.header] + (Uint2Bytes(whole.length) + (whole.data + after));
      }
      assert socket[..4] == (socket + rest)[..4] == Uint2Bytes(whole.length);
      assert socket[..4][0..0 + 4] == socket[..4];
      UintRoundTrip(socket[..4], 0, whole.length);
      var r := Packet(whole.header, whole.length, []);
      assert Used(r) == [whole.header] + Uint2Bytes(whole.length);
      assert [whole.header] + socket == Used(r) + socket[4..];
      DataIn(r, whole, socket[4..], after, rest);
      assert Received(p, socket) == Received(r, socket[4..]);
    }
  }

  lemma FirstByte(whole: Packet, socket: seq<Byte>, after: seq<Byte>, rest: seq<Byte>)
    requires |socket| > 0 && socket + rest == whole.GetBytes() + after
    ensures socket[0] == whole.header && socket == [whole.header] + socket[1..]
  {
    assert (socket + rest)[0] == socket[0];
  }

  lemma Cancel(a: seq<Byte>, x: seq<Byte>, y: seq<Byte>)
    requires a + x == a + y
    ensures x == y
  {
    assert x == (a + x)[|a|..];
    assert y == (a + y)[|a|..];
  }

  /** Header and length are in. */
  lemma DataIn(p: Packet, whole: Packet, socket: seq<Byte>, after: seq<Byte>, rest: seq<Byte>)
    requires WellFormed(whole) && whole.header < 128
    requires p.header == whole.header && p.length == whole.length && p.data <= whole.data
    requires Used(p) + socket + rest == whole.GetBytes() + after
    ensures var (q, s) := Received(p, socket);
            && Begins(q, whole) && Used(q) + s == Used(p) + socket
            && (q.Complete() <==> |Used(p)| + |socket| >= |whole.GetBytes()|)
  {
    hide *;
    PartlyIn(p, whole);
    MinIs(|socket|, p.length - |p.data|);
    var n := Min(|socket|, p.length - |p.data|);
    var m := |p.data| + n;
    var head := [p.header] + Uint2Bytes(p.length);
    ReceivedData(p, socket);
    NextPart(head, p.data, socket, rest, whole.data, after, n);
    PartlyIn(p.(data := whole.data[..m]), whole);
    assert head + (p.data + socket[..n]) + socket[n..] == head + p.data + socket;
  }

  /** A data packet with part of its data in. */
  lemma PartlyIn(p: Packet, whole: Packet)
    requires WellFormed(whole) && whole.header < 128
    requires p.header == whole.header && p.length == whole.length && p.data <= whole.data
    ensures Begins(p, whole) && 0 < p.length == |whole.data|
    ensures Used(p) == [p.header] + Uint2Bytes(p.length) + p.data
    ensures whole.GetBytes() == [p.header] + Uint2Bytes(p.length) + whole.data
    ensures p.Complete() <==> |p.data| == |whole.data|
  {
    hide Uint2Bytes;
  }

  /** With header and length in, a call takes as much data as is there and wanted. */
  lemma ReceivedData(p: Packet, socket: seq<Byte>)
    requires p.header < 128 && 0 < p.length && |p.data| <= p.length
    ensures var n := Min(|socket|, p.length - |p.data|);
            Received(p, socket) == (p.(data := p.data + socket[..n]), socket[n..])
  {
    hide Bytes2Uint;
    if |socket| == 0 || |p.data| == p.length {
      assert p.data + socket[..0] == p.data;
    }
  }

  /** The next bytes of a stream continue the part of it that is already in. */
  lemma NextPart(head: seq<Byte>, done: seq<Byte>, socket: seq<Byte>, rest: seq<Byte>, data: seq<Byte>, after: seq<Byte>, n: nat)
    requires head + done + socket + rest == head + data + after
    requires n <= |socket| && |done| + n <= |data|
    ensures done + socket[..n] == data[..|done| + n]
  {
    assert head + done + socket + rest == head + (done + socket + rest);
    assert head + data + after == head + (data + after);
    Cancel(head, done + socket + rest, data + after);
    assert done + socket[..n] == (done + socket + rest)[..|done| + n] == (data + after)[..|done| + n];
  }

  // ---------------------------------------------------------------- every schedule

  lemma StepSend(w: World, p: Packet)
    requires Inv(w) && WellFormed(p)
    ensures Inv(Step(w, Send(p)))
  {
    hide Packet.GetBytes, Used;
    var k := |w.emitted|;
    assert (w.written + [p])[k..] == w.written[k..] + [p];
    StreamSplit(w.written[k..], [p]);
    assert Stream([p]) == p.GetBytes();
    assert Used(w.incoming) + w.socket + (w.flight + p.GetBytes()) == Used(w.incoming) + w.socket + w.flight + p.GetBytes();
  }

  lemma StepArrive(w: World, n: nat)
    requires Inv(w)
    ensures Inv(Step(w, Arrive(n)))
  {
    hide Packet.GetBytes, Used;
    var m := Min(n, |w.flight|);
    assert Used(w.incoming) + (w.socket + w.flight[..m]) + w.flight[m..] == Used(w.incoming) + w.socket + w.flight;
  }

  lemma NextStream(w: World)
    requires |w.emitted| < |w.written|
    ensures Stream(w.written[|w.emitted|..]) == w.written[|w.emitted|].GetBytes() + Stream(w.written[|w.emitted| + 1..])
  {
    var k := |w.emitted|;
    assert w.written[k..][1..] == w.written[k + 1..];
  }

  /** A call of the reader keeps the invariant, and the packet at hand is complete afterwards exactly
      when all of its bytes had arrived. */
  lemma StepRead(w: World)
    requires Inv(w)
    ensures Inv(Step(w, Read))
    ensures var done := Step(w, Read).incoming.Complete();
            done <==> |w.emitted| < |w.written| && |Used(w.incoming)| + |w.socket| >= |w.written[|w.emitted|].GetBytes()|
  {
    if |w.emitted| < |w.written| {
      var whole := w.written[|w.emitted|];
      NextStream(w);
      ReceivedIs(w.incoming, whole, w.socket, Stream(w.written[|w.emitted| + 1..]), w.flight);
    } else {
      assert Stream(w.written[|w.emitted|..]) == [];
      assert w.socket == [];
    }
  }

  lemma StepTake(w: World)
    requires Inv(w)
    ensures Inv(Step(w, Take))
  {
    if w.incoming.Complete() {
      var k := |w.emitted|;
      var whole := w.written[k];
      UsedIsPrefix(w.incoming, whole);
      NextStream(w);
      var rest := w.socket + w.flight;
      assert Used(w.incoming) + rest == whole.GetBytes() + Stream(w.written[k + 1..]);
      Cancel(whole.GetBytes(), rest, Stream(w.written[k + 1..]));
      assert Used(NULL) + w.socket + w.flight == rest;
      assert w.written[..k + 1] == w.written[..k] + [whole];
    }
  }

  /** After any schedule the packets emitted are the first of those written. */
  lemma {:induction false} RunKeeps(w: World, events: seq<Event>)
    requires Inv(w) && forall i :: 0 <= i < |events| && events[i].Send? ==> WellFormed(events[i].packet)
    ensures Inv(Run(w, events))
    decreases |events|
  {
    if events != [] {
      hide Inv, Step;
      match events[0] {
        case Send(p) => StepSend(w, p);
        case Arrive(n) => StepArrive(w, n);
        case Read => StepRead(w);
        case Take => StepTake(w);
      }
      assert forall i :: 0 <= i < |events[1..]| ==> events[1..][i] == events[i + 1];
      RunKeeps(Step(w, events[0]), events[1..]);
    }
  }

  lemma StartHolds()
    ensures Inv(START)
  {
  }

  /** From the start, under every schedule: emitted packets are a prefix of the written ones, and the
      bytes written are those of the emitted packets, then those of the packet being read, then those
      waiting, then those in flight. */
  lemma Delivery(events: seq<Event>)
    requires forall i :: 0 <= i < |events| && events[i].Send? ==> WellFormed(events[i].packet)
    ensures var w := Run(START, events);
            && w.emitted <= w.written
            && Stream(w.written) == Stream(w.emitted) + Used(w.incoming) + w.socket + w.flight
  {
    StartHolds();
    RunKeeps(START, events);
    hide Run, Inv;
    Delivered(Run(START, events));
  }

  lemma Delivered(w: World)
    requires Inv(w)
    ensures w.emitted <= w.written
    ensures Stream(w.written) == Stream(w.emitted) + Used(w.incoming) + w.socket + w.flight
  {
    hide Used, Packet.GetBytes, Stream, WellFormed;
    var k := |w.emitted|;
    var used := Used(w.incoming);
    assert w.written == w.written[..k] + w.written[k..];
    StreamSplit(w.written[..k], w.written[k..]);
    assert Stream(w.emitted) + (used + w.socket + w.flight) == Stream(w.emitted) + used + w.socket + w.flight;
  }

  /** From nothing, with all its bytes waiting, a well-formed packet is read whole and no byte more. */
  lemma ReadWhole(p: Packet, after: seq<Byte>)
    requires WellFormed(p)
    ensures Received(NULL, p.GetBytes() + after) == (p, after)
  {
    hide Packet.GetBytes, Received, Used, Begins;
    NothingUsed(p);
    assert [] + (p.GetBytes() + after) + [] == p.GetBytes() + after;
    ReceivedIs(NULL, p, p.GetBytes() + after, after, []);
    var (q, s) := Received(NULL, p.GetBytes() + after);
    UsedIsPrefix(q, p);
    assert p.GetBytes() + s == p.GetBytes() + after;
    Cancel(p.GetBytes(), s, after);
  }

  lemma NothingUsed(p: Packet)
    ensures Used(NULL) == [] && Begins(NULL, p)
  {
  }

  /** Of all packets there are, exactly the well-formed ones are completed by the reader, as written
      and at their last byte. */
  lemma CompletedExactly(p: Packet, after: seq<Byte>)
    ensures var (q, s) := Received(NULL, p.GetBytes() + after);
            (q, s) == (p, after) && q.Complete() <==> WellFormed(p)
  {
    if WellFormed(p) {
      ReadWhole(p, after);
    }
  }

  /** A data packet that says how much data it holds is completed at its last byte exactly when it
      holds some, and a request exactly when it claims no length, holds no data and is not the null
      packet. */
  lemma DeliveredExactly(p: Packet, after: seq<Byte>)
    ensures var (q, s) := Received(NULL, p.GetBytes() + after);
            && (p.header < 128 && p.length == |p.data| ==>
                  ((q, s) == (p, after) && q.Complete() <==> p.length > 0))
            && (p.header >= 128 ==>
                  ((q, s) == (p, after) && q.Complete() <==> p.header != 255 && p.length == 0 && p.data == []))
  {
    CompletedExactly(p, after);
    hide Received, Packet.GetBytes;
  }

  /** A data packet without data is not well formed for a reason: its zero length does not register,
      and the four bytes that follow it are taken for its length. */
  lemma EmptyDataPacketMisleads(header: Byte, next: seq<Byte>)
    requires header < 128 && |next| == 4
    ensures var p := Packet(header, 0, []);
            var (q, s) := Received(NULL, p.GetBytes() + next);
            q == p && !q.Complete() && s == next
            && Received(q, s) == (p.(length := Bytes2Uint(next, 0)), [])
  {
    hide Uint2Bytes, Bytes2Uint;
    var p := Packet(header, 0, []);
    var socket := p.GetBytes() + next;
    var length := Uint2Bytes(0);
    assert socket[0] == header && socket[1..] == length + next;
    assert socket[1..][..4] == length && socket[1..][4..] == next;
    assert length[0..0 + 4] == length;
    UintRoundTrip(length, 0, 0);
    assert LengthTaken(p, socket[1..]) == (p, next);
    assert DataTaken(p, next) == (p, next);
    assert Received(NULL, socket) == (p, next);
    assert next[..4] == next && next[4..] == [];
  }

  /** A packet on the wire: header, four length bytes, data; a request is its header alone. */
  lemma OnTheWire()
    ensures Packet(2, 3, [7, 8, 9]).GetBytes() == [2, 0, 0, 0, 3, 7, 8, 9]
    ensures Packet(129, 0, []).GetBytes() == [129]
    ensures Packet(127, 1, [7]).Complete() && Packet(128, 0, []).Complete() && Packet(254, 0, []).Complete()
    ensures !Packet(127, 0, []).Complete() && !Packet(128, 1, [7]).Complete() && !Packet(255, 0, []).Complete()
  {
  }
}
