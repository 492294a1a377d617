/**
 * What one call of the pipe code does, as functions of the state: the sender of
 * source/jd_opipe.c and the receiver of source/jd_ipipe.c. Frames are bytes; the packets in them
 * are what `FrameWalk` packs and finds there.
 */
module PipeSpec {
  import opened Bytes
  import W = FrameWalk

  const OK := 0
  const TRY_AGAIN := 1
  const TIMEOUT := -1
  const ERROR := -2
  const MAX_RETRIES := 4
  const PAYLOAD := W.PAYLOAD
  const COUNTERS := 32
  const PORTS := 512
  const STREAM: byte := 0x3e

  type Port = p: nat | p < PORTS
  type Counter = c: nat | c < COUNTERS

  /** A stream packet; `port`, `meta`, `close` and `counter` are the fields of its 16-bit command. */
  datatype Packet = Packet(port: Port, counter: Counter, meta: bool, close: bool, data: seq<byte>)

  datatype Status = Free | Open | ClosedUnsent | ClosedWaiting | Dropped

  /**
   * An output pipe: `retry` is 0 while the frame is being filled; `crc` is set when it is flushed.
   * A reset of the frame leaves the bytes in `buf`.
   */
  datatype Sender = Sender(status: Status, port: Port, counter: Counter, retry: nat, buf: W.Buffer, size: W.Fill, crc: nat)

  datatype Event = Data(data: seq<byte>) | Meta(data: seq<byte>) | Eof

  /** An input pipe and everything it has handed to its handlers. */
  datatype Receiver = Receiver(open: bool, port: Port, counter: Counter, log: seq<Event>)

  // ---------------------------------------------------------------- packets as bytes

  function Command(p: Packet): (c: nat)
    ensures c < 0x1_0000
  {
    p.port * 128 + (if p.meta then 64 else 0) + (if p.close then 32 else 0) + p.counter
  }

  function OnWire(p: Packet): W.Packet {
    W.Packet(STREAM, Command(p), p.data)
  }

  function OffWire(w: W.Packet): Packet
    requires w.cmd < 0x1_0000
  {
    Packet(w.cmd / 128, w.cmd % COUNTERS, w.cmd / 64 % 2 == 1, w.cmd / 32 % 2 == 1, w.data)
  }

  lemma OffOnWire(p: Packet)
    ensures OffWire(OnWire(p)) == p
  {
    var c := Command(p);
    assert c / 32 == p.port * 4 + (if p.meta then 2 else 0) + if p.close then 1 else 0;
    assert c / 64 == p.port * 2 + if p.meta then 1 else 0;
  }

  function Wire(ps: seq<Packet>): (ws: seq<W.Packet>)
    ensures |ws| == |ps| && forall i :: 0 <= i < |ps| ==> ws[i] == OnWire(ps[i])
  {
    seq(|ps|, i requires 0 <= i < |ps| => OnWire(ps[i]))
  }

  /** The stream packets among the packets of a frame; the pipes do not look at others. */
  function Streams(ws: seq<W.Packet>): seq<Packet> {
    if ws == [] then []
    else (if ws[0].index == STREAM && ws[0].cmd < 0x1_0000 then [OffWire(ws[0])] else []) + Streams(ws[1..])
  }

  lemma {:induction false} StreamsOfWire(ps: seq<Packet>)
    ensures Streams(Wire(ps)) == ps
  {
    if ps != [] {
      StreamsOfWire(ps[1..]);
      OffOnWire(ps[0]);
      assert Wire(ps)[1..] == Wire(ps[1..]);
    }
  }

  /** Bytes that a packet takes in a frame: header, payload and padding. */
  function PacketSize(len: nat): nat {
    W.Align(len + 4)
  }

  function FrameSize(ps: seq<Packet>): nat {
    W.Pos(Wire(ps), |ps|)
  }

  lemma FrameSizeSnoc(ps: seq<Packet>, p: Packet)
    ensures FrameSize(ps + [p]) == FrameSize(ps) + PacketSize(|p.data|)
    ensures Wire(ps + [p]) == Wire(ps) + [OnWire(p)]
  {
    assert Wire(ps + [p]) == Wire(ps) + [OnWire(p)];
    W.PosSnoc(Wire(ps), OnWire(p), |ps|);
  }

  // ---------------------------------------------------------------- the sender

  const Blank: W.Buffer := Zeros(W.BUFFER)

  function Opened(port: Port): Sender {
    Sender(Open, port, 0, 0, Blank, 0, 0)
  }

  const Cleared := Sender(Free, 0, 0, 0, Blank, 0, 0)

  function Flushed(s: Sender, crcOf: seq<byte> -> nat): Sender
    requires s.retry == 0
  {
    s.(crc := crcOf(s.buf[..s.size]), retry := 1)
  }

  function CheckSpace(s: Sender, len: nat, crcOf: seq<byte> -> nat): (r: (Sender, int)) {
    if s.status == Dropped then (s, TIMEOUT)
    else if s.status != Open then (s, ERROR)
    else if s.retry != 0 then (s, TRY_AGAIN)
    else if s.size + 4 + len <= PAYLOAD then (s, OK)
    else (Flushed(s, crcOf), TRY_AGAIN)
  }

  function NextPacket(s: Sender, data: seq<byte>, meta: bool, close: bool): Packet {
    Packet(s.port, s.counter, meta, close, data)
  }

  function Append(s: Sender, p: Packet): Sender
    requires s.size + 4 + |p.data| <= PAYLOAD
  {
    s.(buf := W.Put(s.buf, s.size, OnWire(p)), size := s.size + PacketSize(|p.data|), counter := (s.counter + 1) % COUNTERS)
  }

  function WriteEx(s: Sender, data: seq<byte>, meta: bool, close: bool, crcOf: seq<byte> -> nat): (Sender, int) {
    var (s1, r) := CheckSpace(s, |data|, crcOf);
    if r != OK then (s1, r) else (Append(s1, NextPacket(s1, data, meta, close)), OK)
  }

  function Flush(s: Sender, crcOf: seq<byte> -> nat): (Sender, int) {
    if s.status == Open && s.retry == 0 && s.size == 0 then (s, OK)
    else CheckSpace(s, 0x10_0000, crcOf)
  }

  function SendClose(s: Sender, crcOf: seq<byte> -> nat): (Sender, int) {
    var (s1, r) := WriteEx(s.(status := Open), [], true, true, crcOf);
    if r == OK then (Flushed(s1.(status := ClosedWaiting), crcOf), TRY_AGAIN)
    else (s1.(status := ClosedUnsent), r)
  }

  function Close(s: Sender, crcOf: seq<byte> -> nat): (Sender, int) {
    match s.status
    case Dropped => (Cleared, OK)
    case Free => (s, OK)
    case ClosedWaiting => (s, TRY_AGAIN)
    case Open => SendClose(s, crcOf)
    case ClosedUnsent => SendClose(s, crcOf)
  }

  function HandleAck(s: Sender, crc: nat, crcOf: seq<byte> -> nat): Sender {
    if s.status == Free || s.retry == 0 || crc != s.crc then s
    else
      var s1 := s.(retry := 0, size := 0);
      match s.status
      case ClosedWaiting => Cleared
      case ClosedUnsent => SendClose(s1, crcOf).0
      case _ => s1
  }

  /** One pass of the retry timer; the flag tells whether a frame went out. */
  function Process(s: Sender, expired: bool, sendOk: bool): (Sender, bool) {
    if s.status == Free || s.retry == 0 || !expired then (s, false)
    else if s.retry < MAX_RETRIES + 1 then
      if sendOk then (s.(retry := s.retry + 1), true) else (s, false)
    else if s.retry == MAX_RETRIES + 1 then (s.(retry := s.retry + 1), false)
    else (s.(status := Dropped), false)
  }

  /** Sending an empty frame is a panic in the queue of frames. */
  predicate Panics(s: Sender, expired: bool) {
    s.status != Free && s.retry != 0 && expired && s.retry < MAX_RETRIES + 1 && s.size == 0
  }

  // ---------------------------------------------------------------- the receiver

  function EventOf(p: Packet): seq<Event> {
    (if p.meta then [Meta(p.data)] else [Data(p.data)]) + if p.close then [Eof] else []
  }

  function HandlePacket(r: Receiver, p: Packet): Receiver {
    if !r.open || r.port != p.port || r.counter != p.counter then r
    else Receiver(!p.close, r.port, (r.counter + 1) % COUNTERS, r.log + EventOf(p))
  }

  /** The receiver after the first `n` packets of a frame. */
  function HandleUpTo(r: Receiver, pkts: seq<Packet>, n: nat): Receiver
    requires n <= |pkts|
  {
    if n == 0 then r else HandlePacket(HandleUpTo(r, pkts, n - 1), pkts[n - 1])
  }

  function HandleAll(r: Receiver, pkts: seq<Packet>): Receiver {
    HandleUpTo(r, pkts, |pkts|)
  }

  lemma {:induction false} HandleFirstUpTo(r: Receiver, p: Packet, ps: seq<Packet>, n: nat)
    requires n <= |ps|
    ensures HandleUpTo(r, [p] + ps, n + 1) == HandleUpTo(HandlePacket(r, p), ps, n)
  {
    if n > 0 {
      HandleFirstUpTo(r, p, ps, n - 1);
    } else {
      assert HandleUpTo(r, [p] + ps, 0) == r;
    }
  }

  lemma HandleFirst(r: Receiver, p: Packet, ps: seq<Packet>)
    ensures HandleAll(r, [p] + ps) == HandleAll(HandlePacket(r, p), ps)
  {
    HandleFirstUpTo(r, p, ps, |ps|);
  }

  /** A packet of any kind. */
  function HandleAny(r: Receiver, w: W.Packet): Receiver {
    if w.index == STREAM && w.cmd < 0x1_0000 then HandlePacket(r, OffWire(w)) else r
  }

  lemma HandleNext(r: Receiver, ws: seq<W.Packet>)
    requires ws != []
    ensures HandleAll(r, Streams(ws)) == HandleAll(HandleAny(r, ws[0]), Streams(ws[1..]))
  {
    if ws[0].index == STREAM && ws[0].cmd < 0x1_0000 {
      HandleFirst(r, OffWire(ws[0]), Streams(ws[1..]));
    } else {
      assert [] + Streams(ws[1..]) == Streams(ws[1..]);
    }
  }

  /** A frame that came with `bytes`, in a buffer that held `memory` before. */
  function Loaded(bytes: seq<byte>, memory: W.Buffer): W.Buffer
    requires |bytes| <= PAYLOAD
  {
    bytes + memory[|bytes|..]
  }

  /** The stream packets that the walk finds in it. */
  function Received(bytes: seq<byte>, memory: W.Buffer): seq<Packet>
    requires |bytes| <= PAYLOAD
  {
    Streams(W.Walked(Loaded(bytes, memory), |bytes|))
  }

  /** A frame whose bytes hold `ps`, with a good first pad byte. */
  ghost predicate Carries(bytes: seq<byte>, ps: seq<Packet>) {
    |bytes| > 0 && W.Packed(bytes, |bytes|, Wire(ps)) && W.FirstPadOk(bytes, |bytes|)
  }

  /** Such a frame is received whole, whatever is behind it in the receiver's memory. */
  lemma ReceivedWhole(bytes: seq<byte>, memory: W.Buffer, ps: seq<Packet>)
    requires Carries(bytes, ps)
    ensures |bytes| <= PAYLOAD && ps != [] && Received(bytes, memory) == ps
  {
    var d := Loaded(bytes, memory);
    assert d[..|bytes|] == bytes == bytes[..|bytes|];
    W.PackedSame(bytes, d, |bytes|, Wire(ps));
    W.PadSame(bytes, d, |bytes|);
    W.WalkedPacked(d, |bytes|, Wire(ps));
    StreamsOfWire(ps);
  }

  // ---------------------------------------------------------------- the frame being filled

  /** The sender's frame holds `ps`. */
  ghost predicate Fills(s: Sender, ps: seq<Packet>) {
    W.Packed(s.buf, s.size, Wire(ps))
  }

  lemma AppendFills(s: Sender, ps: seq<Packet>, p: Packet)
    requires Fills(s, ps) && s.size + 4 + |p.data| <= PAYLOAD
    ensures Fills(Append(s, p), ps + [p])
  {
    FrameSizeSnoc(ps, p);
    W.PushedIsPacked(s.buf, s.size, Wire(ps), OnWire(p));
  }

  lemma SentCarries(s: Sender, ps: seq<Packet>)
    requires Fills(s, ps) && s.size > 0 && W.FirstPadOk(s.buf, s.size)
    ensures Carries(s.buf[..s.size], ps)
  {
    var bytes := s.buf[..s.size];
    assert bytes[..s.size] == s.buf[..s.size];
    W.PackedSame(s.buf, bytes, s.size, Wire(ps));
    W.PadSame(s.buf, bytes, s.size);
  }
}
