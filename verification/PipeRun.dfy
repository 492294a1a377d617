/**
 * One output pipe talking to one input pipe over a bus that keeps order but may lose any
 * frame or ACK, with retransmissions: a state machine, and what holds in all its runs.
 */
module PipeRun {
  import opened Bytes
  import opened PipeSpec
  import W = FrameWalk

  type FrameBytes = b: seq<byte> | |b| <= PAYLOAD

  /** A copy of a frame on the bus, and an ACK on its way back; `epoch` numbers the frames of the pipe. */
  datatype Flight = Flight(bytes: FrameBytes, crc: nat, epoch: nat)
  datatype Ack = Ack(crc: nat, epoch: nat)

  /**
   * The two pipes, the bus, and a history of the run: all packets put into frames, of which those
   * from `base` on make up the current frame and those from `prevBase` to `base` the one before,
   * and how many the receiver has taken.
   */
  datatype Net = Net(s: Sender, r: Receiver, wire: seq<Flight>, acks: seq<Ack>,
                     written: seq<Packet>, base: nat, prevBase: nat, got: nat, epoch: nat, prevCrc: nat,
                     sends: nat, finished: bool)

  /** A delivered frame comes into memory of the receiver that held something before. */
  datatype Action =
    | Write(data: seq<byte>, meta: bool)
    | FlushPipe
    | ClosePipe
    | Timer(expired: bool, sendOk: bool)
    | Deliver(memory: W.Buffer)
    | LoseFrame(i: nat)
    | Acknowledge
    | LoseAck(i: nat)

  function Start(port: Port): Net {
    Net(Opened(port), Receiver(true, port, 0, []), [], [], [], 0, 0, 0, 0, 0, 0, false)
  }

  /** The sender moved to `s` within the same frame; `p` went into the frame if that has grown. */
  function WithSender(n: Net, s: Sender, p: Packet): Net {
    if s.size > n.s.size then n.(s := s, written := n.written + [p]) else n.(s := s)
  }

  function ClosePacket(s: Sender): Packet {
    NextPacket(s, [], true, true)
  }

  function Without<T>(xs: seq<T>, i: nat): seq<T> {
    if i < |xs| then xs[..i] + xs[i + 1..] else xs
  }

  function FlightOf(n: Net): Flight {
    Flight(n.s.buf[..n.s.size], n.s.crc, n.epoch)
  }

  function StepTimer(n: Net, expired: bool, sendOk: bool): Net {
    var (s, sent) := Process(n.s, expired, sendOk);
    if sent then n.(s := s, wire := n.wire + [FlightOf(n)], sends := n.sends + 1)
    else n.(s := s)
  }

  /** Every frame is answered by an ACK with its CRC, whatever the pipes make of it. */
  function StepDeliver(n: Net, memory: W.Buffer): Net {
    if n.wire == [] then n
    else
      var f := n.wire[0];
      var ps := Received(f.bytes, memory);
      var r := HandleAll(n.r, ps);
      n.(r := r, wire := n.wire[1..], acks := n.acks + [Ack(f.crc, f.epoch)],
         got := if r == n.r then n.got else n.got + |ps|)
  }

  /** The sender takes this ACK for one of its current frame. */
  predicate Accepts(s: Sender, crc: nat) {
    s.status != Free && s.retry != 0 && crc == s.crc
  }

  /** An accepted ACK ends the current frame; a close that was put off starts the next one. */
  function StepAck(n: Net, crcOf: seq<byte> -> nat): Net {
    if n.acks == [] then n
    else
      var a := n.acks[0];
      var m := n.(acks := n.acks[1..]);
      if !Accepts(n.s, a.crc) then m
      else
        WithSender(m.(s := n.s.(size := 0), base := |n.written|, prevBase := n.base, epoch := n.epoch + 1,
                      prevCrc := n.s.crc, sends := 0, finished := n.s.status == ClosedWaiting),
                   HandleAck(n.s, a.crc, crcOf), ClosePacket(n.s))
  }

  function Step(n: Net, a: Action, crcOf: seq<byte> -> nat): Net {
    match a
    case Write(data, meta) => WithSender(n, WriteEx(n.s, data, meta, false, crcOf).0, NextPacket(n.s, data, meta, false))
    case FlushPipe => n.(s := Flush(n.s, crcOf).0)
    case ClosePipe => WithSender(n, Close(n.s, crcOf).0, ClosePacket(n.s))
    case Timer(expired, sendOk) => StepTimer(n, expired, sendOk)
    case Deliver(memory) => StepDeliver(n, memory)
    case LoseFrame(i) => n.(wire := Without(n.wire, i))
    case Acknowledge => StepAck(n, crcOf)
    case LoseAck(i) => n.(acks := Without(n.acks, i))
  }

  /** A panic of the sender ends the run. */
  predicate Stops(n: Net, a: Action) {
    a.Timer? && Panics(n.s, a.expired)
  }

  /** What the receiver's handlers see of the first `n` packets of `ps`. */
  function EventsUpTo(ps: seq<Packet>, n: nat): seq<Event>
    requires n <= |ps|
  {
    if n == 0 then [] else EventsUpTo(ps, n - 1) + EventOf(ps[n - 1])
  }

  predicate ClosedAt(ps: seq<Packet>, n: nat)
    requires n <= |ps|
  {
    n > 0 && ps[n - 1].close
  }

  predicate Closed(ps: seq<Packet>) {
    ClosedAt(ps, |ps|)
  }

  // ---------------------------------------------------------------- the invariant

  ghost predicate PacketOk(ps: seq<Packet>, port: Port, k: nat)
    requires k < |ps|
  {
    && ps[k].port == port && ps[k].counter == k % COUNTERS
    && (ps[k].close ==> k == |ps| - 1 && ps[k].meta && ps[k].data == [])
  }

  ghost predicate WrittenOk(n: Net) {
    && n.prevBase <= n.base <= |n.written|
    && (forall k {:trigger PacketOk(n.written, n.r.port, k)} ::
          0 <= k < |n.written| ==> PacketOk(n.written, n.r.port, k))
  }

  /** The packets of the current frame. */
  function InFrame(n: Net): seq<Packet>
    requires n.base <= |n.written|
  {
    n.written[n.base..]
  }

  function SendsOf(retry: nat): nat {
    if retry == 0 then 0 else if retry <= MAX_RETRIES + 1 then retry - 1 else MAX_RETRIES
  }

  ghost predicate SenderOk(n: Net, crcOf: seq<byte> -> nat)
    requires n.base <= |n.written|
  {
    var s := n.s;
    && (s.status != Free ==>
          && s.port == n.r.port && s.counter == |n.written| % COUNTERS
          && Fills(s, InFrame(n))
          && s.retry <= MAX_RETRIES + 2
          && (s.retry != 0 ==> s.crc == crcOf(s.buf[..s.size]))
          && n.sends == SendsOf(s.retry))
    && (s.status == Open ==> !Closed(n.written))
    && (s.status == ClosedUnsent ==> !Closed(n.written) && s.retry != 0)
    && (s.status == ClosedWaiting ==> Closed(n.written) && s.retry != 0)
    && n.sends <= MAX_RETRIES && FrameSize(InFrame(n)) <= PAYLOAD
    && (n.finished ==> s.status == Free && n.got == |n.written| && Closed(n.written))
  }

  /** The current frame has been flushed. */
  ghost predicate Sealed(n: Net) {
    n.s.status == Free || n.s.retry != 0
  }

  /** A frame on the bus is a copy of the current one or, while nothing of that was taken, of the one before. */
  ghost predicate FlightOk(n: Net, f: Flight, crcOf: seq<byte> -> nat)
    requires n.prevBase <= n.base <= |n.written|
  {
    && f.crc == crcOf(f.bytes)
    && (|| (f.epoch == n.epoch && Sealed(n) && Carries(f.bytes, InFrame(n)) && (n.s.status != Free ==> f.crc == n.s.crc))
        || (f.epoch + 1 == n.epoch && n.got == n.base && f.crc == n.prevCrc
            && n.base - n.prevBase < COUNTERS && Carries(f.bytes, n.written[n.prevBase..n.base])))
  }

  ghost predicate AckOk(n: Net, a: Ack)
    requires n.base <= |n.written|
  {
    || (a.epoch == n.epoch && Sealed(n) && n.got == |n.written| && (n.s.status != Free ==> a.crc == n.s.crc))
    || (a.epoch + 1 == n.epoch && a.crc == n.prevCrc)
  }

  ghost predicate BusOk(n: Net, crcOf: seq<byte> -> nat)
    requires n.prevBase <= n.base <= |n.written|
  {
    && (forall i {:trigger n.wire[i]} :: 0 <= i < |n.wire| ==> FlightOk(n, n.wire[i], crcOf))
    && (forall i {:trigger n.acks[i]} :: 0 <= i < |n.acks| ==> AckOk(n, n.acks[i]))
    && (forall i, j :: 0 <= i < j < |n.wire| ==> n.wire[i].epoch <= n.wire[j].epoch)
    && (forall i, j :: 0 <= i < j < |n.acks| ==> n.acks[i].epoch <= n.acks[j].epoch)
    && (forall i, j :: 0 <= i < |n.acks| && 0 <= j < |n.wire| ==> n.acks[i].epoch <= n.wire[j].epoch)
  }

  ghost predicate ReceiverOk(n: Net) {
    && n.got <= |n.written|
    && (n.got == n.base || (n.got == |n.written| && Sealed(n)))
    && n.r.log == EventsUpTo(n.written, n.got)
    && (n.r.open ==> n.r.counter == n.got % COUNTERS)
    && (n.r.open <==> !ClosedAt(n.written, n.got))
  }

  ghost predicate Inv(n: Net, crcOf: seq<byte> -> nat) {
    WrittenOk(n) && SenderOk(n, crcOf) && BusOk(n, crcOf) && ReceiverOk(n)
  }

  /** Two consecutive frames of the pipe have different CRCs. */
  predicate CrcsDiffer(n: Net) {
    n.s.retry != 0 && n.epoch > 0 ==> n.s.crc != n.prevCrc
  }

  /** The current frame has fewer packets than the counter has values. */
  predicate Few(n: Net) {
    |n.written| < n.base + COUNTERS
  }

  /** What the frame buffer held before leaves a good byte behind the first packet of a flushed frame. */
  predicate PadOk(n: Net) {
    n.s.status != Free && n.s.retry != 0 && n.s.size > 0 ==> W.FirstPadOk(n.s.buf, n.s.size)
  }

  /** What a run is assumed to meet in each of its states. */
  predicate Assumed(n: Net) {
    CrcsDiffer(n) && Few(n) && PadOk(n)
  }

  lemma StartOk(port: Port, crcOf: seq<byte> -> nat)
    ensures Inv(Start(port), crcOf)
  {
  }

  // ---------------------------------------------------------------- packets and frames

  lemma {:induction false} EventsUpToSame(ps: seq<Packet>, qs: seq<Packet>, n: nat)
    requires n <= |ps| && n <= |qs| && ps[..n] == qs[..n]
    ensures EventsUpTo(ps, n) == EventsUpTo(qs, n)
  {
    if n > 0 {
      assert ps[..n - 1] == ps[..n][..n - 1] == qs[..n - 1];
      assert ps[n - 1] == ps[..n][n - 1] == qs[n - 1];
      EventsUpToSame(ps, qs, n - 1);
    }
  }

  lemma NearCountersDiffer(k: nat, got: nat)
    requires 0 < got - k < COUNTERS
    ensures k % COUNTERS != got % COUNTERS
  {
  }

  lemma IgnoresOne(r: Receiver, ps: seq<Packet>, k: nat, got: nat, p: Packet)
    requires k < got <= |ps| && got - k < COUNTERS && PacketOk(ps, r.port, k) && p == ps[k]
    requires r.open ==> r.counter == got % COUNTERS
    ensures HandlePacket(r, p) == r
  {
    NearCountersDiffer(k, got);
  }

  /** A receiver that is past a frame, by less than a turn of the counter, ignores all of it. */
  lemma {:induction false} IgnoresOld(r: Receiver, ps: seq<Packet>, lo: nat, n: nat, got: nat, pkts: seq<Packet>)
    requires lo + |pkts| <= got <= |ps| && got - lo < COUNTERS && n <= |pkts|
    requires pkts == ps[lo..lo + |pkts|]
    requires forall k {:trigger PacketOk(ps, r.port, k)} :: 0 <= k < |ps| ==> PacketOk(ps, r.port, k)
    requires r.open ==> r.counter == got % COUNTERS
    ensures HandleUpTo(r, pkts, n) == r
  {
    if n > 0 {
      IgnoresOld(r, ps, lo, n - 1, got, pkts);
      assert PacketOk(ps, r.port, lo + n - 1);
      assert pkts[n - 1] == ps[lo + n - 1];
      IgnoresOne(r, ps, lo + n - 1, got, pkts[n - 1]);
    }
  }

  lemma TakesOne(r: Receiver, ps: seq<Packet>, k: nat, p: Packet)
    requires k < |ps| && PacketOk(ps, r.port, k) && p == ps[k]
    requires r.open && r.counter == k % COUNTERS && r.log == EventsUpTo(ps, k)
    ensures var r' := HandlePacket(r, p);
            r'.port == r.port && r'.log == EventsUpTo(ps, k + 1) && r'.open == !p.close
            && r'.counter == (k + 1) % COUNTERS
  {
  }

  /** A receiver that waits for the first packet of a frame takes all of it. */
  lemma {:induction false} TakesNew(r: Receiver, ps: seq<Packet>, lo: nat, n: nat, pkts: seq<Packet>)
    requires lo + |pkts| == |ps| && n <= |pkts| && pkts == ps[lo..]
    requires forall k {:trigger PacketOk(ps, r.port, k)} :: 0 <= k < |ps| ==> PacketOk(ps, r.port, k)
    requires r.open && r.counter == lo % COUNTERS && r.log == EventsUpTo(ps, lo)
    ensures var r' := HandleUpTo(r, pkts, n);
            && r'.port == r.port && r'.log == EventsUpTo(ps, lo + n)
            && (r'.open <==> n == 0 || !ps[lo + n - 1].close)
            && (r'.open ==> r'.counter == (lo + n) % COUNTERS)
  {
    if n > 0 {
      TakesNew(r, ps, lo, n - 1, pkts);
      assert PacketOk(ps, r.port, lo + n - 1);
      if n > 1 {
        assert PacketOk(ps, r.port, lo + n - 2);
      }
      TakesOne(HandleUpTo(r, pkts, n - 1), ps, lo + n - 1, pkts[n - 1]);
    }
  }

  // ---------------------------------------------------------------- moves of the sender

  /** A move that changes neither the frame nor the packets in it. */
  lemma StatusMove(n: Net, s: Sender, crcOf: seq<byte> -> nat)
    requires Inv(n, crcOf) && SenderOk(n.(s := s), crcOf)
    requires Sealed(n) ==> Sealed(n.(s := s)) && (s.status != Free ==> n.s.status != Free && s.crc == n.s.crc)
    ensures Inv(n.(s := s), crcOf)
  {
    var m := n.(s := s);
    forall i | 0 <= i < |m.wire| ensures FlightOk(m, m.wire[i], crcOf) {
      assert FlightOk(n, n.wire[i], crcOf);
    }
    forall i | 0 <= i < |m.acks| ensures AckOk(m, m.acks[i]) {
      assert AckOk(n, n.acks[i]);
    }
  }

  /** What a sender that appends `p` to its frame must come to. */
  ghost predicate Appends(n: Net, s: Sender, p: Packet, crcOf: seq<byte> -> nat)
    requires n.base <= |n.written|
  {
    && n.s.status == Open && n.s.retry == 0
    && p.port == n.r.port && p.counter == n.s.counter
    && (p.close ==> p.meta && p.data == [])
    && s.status != Free && s.size > n.s.size && Fills(s, InFrame(n) + [p])
    && s.port == n.s.port && s.counter == (n.s.counter + 1) % COUNTERS
    && (if p.close then s.status == ClosedWaiting && s.retry == 1 && s.crc == crcOf(s.buf[..s.size])
        else s.status == Open && s.retry == 0)
  }

  lemma AppendMove(n: Net, s: Sender, p: Packet, crcOf: seq<byte> -> nat)
    requires Inv(n, crcOf) && Appends(n, s, p, crcOf)
    ensures WithSender(n, s, p) == n.(s := s, written := n.written + [p])
    ensures Inv(WithSender(n, s, p), crcOf)
  {
    var m := WithSender(n, s, p);
    AppendWritten(n, m, p);
    AppendSender(n, m, p, crcOf);
    AppendBus(n, m, p, crcOf);
    EventsUpToSame(n.written, m.written, n.got);
  }

  lemma AppendSender(n: Net, m: Net, p: Packet, crcOf: seq<byte> -> nat)
    requires WrittenOk(n) && SenderOk(n, crcOf) && Appends(n, m.s, p, crcOf) && WrittenOk(m)
    requires m == n.(s := m.s, written := n.written + [p])
    ensures SenderOk(m, crcOf)
  {
    assert InFrame(m) == InFrame(n) + [p];
    NextCounter(|n.written|);
  }

  lemma NextCounter(k: nat)
    ensures (k % COUNTERS + 1) % COUNTERS == (k + 1) % COUNTERS
  {
  }

  lemma AppendBus(n: Net, m: Net, p: Packet, crcOf: seq<byte> -> nat)
    requires n.prevBase <= n.base <= |n.written| && BusOk(n, crcOf) && !Sealed(n)
    requires m == n.(s := m.s, written := n.written + [p])
    ensures BusOk(m, crcOf)
  {
    assert m.written[m.prevBase..m.base] == n.written[n.prevBase..n.base];
    forall i | 0 <= i < |n.wire| ensures FlightOk(m, m.wire[i], crcOf) {
      assert FlightOk(n, n.wire[i], crcOf);
    }
    forall i | 0 <= i < |n.acks| ensures AckOk(m, m.acks[i]) {
      assert AckOk(n, n.acks[i]);
    }
  }

  lemma AppendWritten(n: Net, m: Net, p: Packet)
    requires WrittenOk(n) && m.r == n.r && m.base == n.base && m.prevBase == n.prevBase && m.written == n.written + [p]
    requires !Closed(n.written) && p.port == n.r.port && p.counter == |n.written| % COUNTERS
    requires p.close ==> p.meta && p.data == []
    ensures WrittenOk(m)
  {
    forall k | 0 <= k < |m.written|
      ensures PacketOk(m.written, m.r.port, k)
    {
      if k < |n.written| {
        assert PacketOk(n.written, n.r.port, k);
      }
    }
  }

  lemma WriteIs(s: Sender, data: seq<byte>, meta: bool, close: bool, crcOf: seq<byte> -> nat)
    ensures var (t, r) := WriteEx(s, data, meta, close, crcOf);
            if r == OK then
              && s.status == Open && s.retry == 0 && s.size + 4 + |data| <= PAYLOAD
              && t == Append(s, NextPacket(s, data, meta, close)) && t.size > s.size
            else t == s || (s.status == Open && s.retry == 0 && t == Flushed(s, crcOf))
  {
  }

  lemma WriteStep(n: Net, data: seq<byte>, meta: bool, crcOf: seq<byte> -> nat)
    requires Inv(n, crcOf)
    ensures Inv(Step(n, Write(data, meta), crcOf), crcOf)
  {
    var (s, r) := WriteEx(n.s, data, meta, false, crcOf);
    WriteIs(n.s, data, meta, false, crcOf);
    if r == OK {
      var p := NextPacket(n.s, data, meta, false);
      AppendFills(n.s, InFrame(n), p);
      AppendMove(n, s, p, crcOf);
    } else if s == n.s {
      assert n.(s := s) == n;
    } else {
      StatusMove(n, s, crcOf);
    }
  }

  lemma FlushStep(n: Net, crcOf: seq<byte> -> nat)
    requires Inv(n, crcOf)
    ensures Inv(Step(n, FlushPipe, crcOf), crcOf)
  {
    var (s, r) := Flush(n.s, crcOf);
    if s == n.s {
      assert n.(s := s) == n;
    } else {
      StatusMove(n, s, crcOf);
    }
  }

  /** Closing an open pipe, or one whose close packet is still to be written. */
  lemma SendCloseStep(n: Net, crcOf: seq<byte> -> nat)
    requires Inv(n, crcOf) && (n.s.status == Open || n.s.status == ClosedUnsent)
    ensures Inv(WithSender(n, SendClose(n.s, crcOf).0, ClosePacket(n.s)), crcOf)
  {
    var (s, r) := SendClose(n.s, crcOf);
    if s.status == ClosedWaiting {
      AppendFills(n.s, InFrame(n), ClosePacket(n.s));
      AppendMove(n, s, ClosePacket(n.s), crcOf);
    } else {
      StatusMove(n, s, crcOf);
    }
  }

  lemma CloseStep(n: Net, crcOf: seq<byte> -> nat)
    requires Inv(n, crcOf)
    ensures Inv(Step(n, ClosePipe, crcOf), crcOf)
  {
    if n.s.status == Open || n.s.status == ClosedUnsent {
      SendCloseStep(n, crcOf);
    } else if n.s.status == Dropped {
      StatusMove(n, Cleared, crcOf);
    } else {
      assert n.(s := n.s) == n;
    }
  }

  // ---------------------------------------------------------------- moves of the bus

  lemma TimerStep(n: Net, expired: bool, sendOk: bool, crcOf: seq<byte> -> nat)
    requires Inv(n, crcOf) && PadOk(n) && !Panics(n.s, expired)
    ensures Inv(StepTimer(n, expired, sendOk), crcOf)
  {
    var (s, sent) := Process(n.s, expired, sendOk);
    if sent {
      assert StepTimer(n, expired, sendOk) == Sent(n);
      SentStep(n, crcOf);
    } else {
      QuietTimer(n, expired, sendOk, crcOf);
      StatusMove(n, s, crcOf);
    }
  }

  lemma QuietTimer(n: Net, expired: bool, sendOk: bool, crcOf: seq<byte> -> nat)
    requires n.base <= |n.written| && SenderOk(n, crcOf) && !Process(n.s, expired, sendOk).1
    ensures var m := n.(s := Process(n.s, expired, sendOk).0);
      SenderOk(m, crcOf) && Sealed(n) == Sealed(m) && m.s.crc == n.s.crc && (n.s.status == Free <==> m.s.status == Free)
  {
  }

  function Sent(n: Net): Net {
    n.(s := n.s.(retry := n.s.retry + 1), wire := n.wire + [FlightOf(n)], sends := n.sends + 1)
  }

  lemma SentStep(n: Net, crcOf: seq<byte> -> nat)
    requires Inv(n, crcOf) && PadOk(n) && n.s.status != Free && 0 < n.s.retry < MAX_RETRIES + 1 && n.s.size > 0
    ensures Inv(Sent(n), crcOf)
  {
    SentCarries(n.s, InFrame(n));
    SentBus(n, Sent(n), crcOf);
    SameWritten(n, Sent(n));
  }

  lemma SentBus(n: Net, m: Net, crcOf: seq<byte> -> nat)
    requires n.prevBase <= n.base <= |n.written| && BusOk(n, crcOf)
    requires n.s.status != Free && n.s.retry != 0 && n.s.crc == crcOf(n.s.buf[..n.s.size])
    requires Carries(n.s.buf[..n.s.size], InFrame(n))
    requires m == n.(s := n.s.(retry := n.s.retry + 1), wire := n.wire + [FlightOf(n)], sends := n.sends + 1)
    ensures BusOk(m, crcOf)
  {
    forall i | 0 <= i < |m.wire| ensures FlightOk(m, m.wire[i], crcOf) && m.wire[i].epoch <= n.epoch {
      if i < |n.wire| {
        assert FlightOk(n, n.wire[i], crcOf);
      }
    }
    forall i | 0 <= i < |m.acks| ensures AckOk(m, m.acks[i]) && m.acks[i].epoch <= n.epoch {
      assert AckOk(n, n.acks[i]);
    }
  }

  lemma SameWritten(n: Net, m: Net)
    requires WrittenOk(n) && m.written == n.written && m.r.port == n.r.port
    requires m.base == n.base && m.prevBase == n.prevBase
    ensures WrittenOk(m)
  {
    forall k | 0 <= k < |m.written| ensures PacketOk(m.written, m.r.port, k) {
      assert PacketOk(n.written, n.r.port, k);
    }
  }

  lemma LoseFrameStep(n: Net, i: nat, crcOf: seq<byte> -> nat)
    requires Inv(n, crcOf)
    ensures Inv(Step(n, LoseFrame(i), crcOf), crcOf)
  {
    LoseFrameBus(n, n.(wire := Without(n.wire, i)), i, crcOf);
    SameWritten(n, n.(wire := Without(n.wire, i)));
  }

  lemma LoseFrameBus(n: Net, m: Net, i: nat, crcOf: seq<byte> -> nat)
    requires n.prevBase <= n.base <= |n.written| && BusOk(n, crcOf) && m == n.(wire := Without(n.wire, i))
    ensures BusOk(m, crcOf)
  {
    forall k | 0 <= k < |m.wire| ensures FlightOk(m, m.wire[k], crcOf) {
      assert FlightOk(n, n.wire[if i < |n.wire| && k >= i then k + 1 else k], crcOf);
    }
    forall k | 0 <= k < |m.acks| ensures AckOk(m, m.acks[k]) {
      assert AckOk(n, n.acks[k]);
    }
  }

  lemma LoseAckStep(n: Net, i: nat, crcOf: seq<byte> -> nat)
    requires Inv(n, crcOf)
    ensures Inv(Step(n, LoseAck(i), crcOf), crcOf)
  {
    LoseAckBus(n, n.(acks := Without(n.acks, i)), i, crcOf);
    SameWritten(n, n.(acks := Without(n.acks, i)));
  }

  lemma LoseAckBus(n: Net, m: Net, i: nat, crcOf: seq<byte> -> nat)
    requires n.prevBase <= n.base <= |n.written| && BusOk(n, crcOf) && m == n.(acks := Without(n.acks, i))
    ensures BusOk(m, crcOf)
  {
    forall k | 0 <= k < |m.acks| ensures AckOk(m, m.acks[k]) {
      assert AckOk(n, n.acks[if i < |n.acks| && k >= i then k + 1 else k]);
    }
    forall k | 0 <= k < |m.wire| ensures FlightOk(m, m.wire[k], crcOf) {
      assert FlightOk(n, n.wire[k], crcOf);
    }
  }

  /** What the packets found in the frame that is first on the bus do to the receiver. */
  lemma FirstFrame(n: Net, memory: W.Buffer, crcOf: seq<byte> -> nat)
    requires Inv(n, crcOf) && Few(n) && n.wire != []
    ensures var f := n.wire[0];
            var ps := Received(f.bytes, memory);
            var r := HandleAll(n.r, ps);
            && (f.epoch == n.epoch ==> ps == InFrame(n) != [])
            && if f.epoch == n.epoch && n.got == n.base then
                 r != n.r && r.port == n.r.port && r.log == EventsUpTo(n.written, |n.written|)
                 && (r.open ==> r.counter == |n.written| % COUNTERS) && (r.open <==> !Closed(n.written))
               else r == n.r
  {
    var f := n.wire[0];
    assert FlightOk(n, f, crcOf);
    if f.epoch != n.epoch {
      OldFrame(n, f.bytes, memory, n.prevBase, n.base);
    } else if n.got == n.base {
      ReceivedWhole(f.bytes, memory, InFrame(n));
      TakesFrame(n);
    } else {
      assert InFrame(n) == n.written[n.base..|n.written|];
      OldFrame(n, f.bytes, memory, n.base, |n.written|);
    }
  }

  lemma OldFrame(n: Net, bytes: FrameBytes, memory: W.Buffer, lo: nat, hi: nat)
    requires WrittenOk(n) && ReceiverOk(n) && lo <= hi <= n.got < lo + COUNTERS && Carries(bytes, n.written[lo..hi])
    ensures Received(bytes, memory) == n.written[lo..hi] != [] && HandleAll(n.r, Received(bytes, memory)) == n.r
  {
    ReceivedWhole(bytes, memory, n.written[lo..hi]);
    IgnoresFrame(n, lo, n.written[lo..hi]);
  }

  lemma IgnoresFrame(n: Net, lo: nat, ps: seq<Packet>)
    requires WrittenOk(n) && ReceiverOk(n) && lo + |ps| <= n.got < lo + COUNTERS && ps == n.written[lo..lo + |ps|]
    ensures HandleAll(n.r, ps) == n.r
  {
    IgnoresOld(n.r, n.written, lo, |ps|, n.got, ps);
  }

  lemma TakesFrame(n: Net)
    requires WrittenOk(n) && ReceiverOk(n) && n.got == n.base && InFrame(n) != []
    ensures var r := HandleAll(n.r, InFrame(n));
      && r != n.r && r.port == n.r.port && r.log == EventsUpTo(n.written, |n.written|)
      && (r.open ==> r.counter == |n.written| % COUNTERS) && (r.open <==> !Closed(n.written))
  {
    if n.base > 0 {
      assert PacketOk(n.written, n.r.port, n.base - 1);
    }
    TakesNew(n.r, n.written, n.base, |InFrame(n)|, InFrame(n));
    EventsGrow(n.written, n.base, |n.written|);
  }

  lemma {:induction false} EventsGrow(ps: seq<Packet>, i: nat, n: nat)
    requires i <= n <= |ps|
    ensures |EventsUpTo(ps, n)| >= |EventsUpTo(ps, i)| + (n - i)
    ensures EventsUpTo(ps, i) <= EventsUpTo(ps, n)
  {
    if i < n {
      EventsGrow(ps, i, n - 1);
    }
  }

  lemma DeliverStep(n: Net, memory: W.Buffer, crcOf: seq<byte> -> nat)
    requires Inv(n, crcOf) && Few(n)
    ensures Inv(StepDeliver(n, memory), crcOf)
  {
    if n.wire != [] {
      var f := n.wire[0];
      var m := StepDeliver(n, memory);
      FirstFrame(n, memory, crcOf);
      assert FlightOk(n, f, crcOf);
      assert m.got == if f.epoch == n.epoch then |n.written| else n.got;
      SameWritten(n, m);
      DeliverBus(n, m, crcOf);
    }
  }

  lemma DeliverBus(n: Net, m: Net, crcOf: seq<byte> -> nat)
    requires WrittenOk(n) && BusOk(n, crcOf) && n.wire != []
    requires m == n.(r := m.r, got := m.got, wire := n.wire[1..], acks := n.acks + [Ack(n.wire[0].crc, n.wire[0].epoch)])
    requires m.got == if n.wire[0].epoch == n.epoch then |n.written| else n.got
    ensures BusOk(m, crcOf)
  {
    var f := n.wire[0];
    assert FlightOk(n, f, crcOf);
    forall k | 0 <= k < |m.wire| ensures FlightOk(m, m.wire[k], crcOf) {
      assert FlightOk(n, n.wire[k + 1], crcOf);
      assert f.epoch <= n.wire[k + 1].epoch;
    }
    forall k | 0 <= k < |m.acks| ensures AckOk(m, m.acks[k]) {
      if k < |n.acks| {
        assert AckOk(n, n.acks[k]);
      }
    }
  }

  /** An ACK that the sender accepts is one for its current frame, which has been delivered. */
  lemma AcceptedAck(n: Net, crcOf: seq<byte> -> nat)
    requires Inv(n, crcOf) && CrcsDiffer(n) && n.acks != [] && Accepts(n.s, n.acks[0].crc)
    ensures n.got == |n.written|
    ensures forall i :: 0 <= i < |n.wire| ==> n.wire[i].epoch == n.epoch
    ensures forall i :: 0 <= i < |n.acks| ==> n.acks[i].epoch == n.epoch
  {
    assert AckOk(n, n.acks[0]);
    forall i | 0 <= i < |n.wire| ensures n.wire[i].epoch == n.epoch {
      assert FlightOk(n, n.wire[i], crcOf);
    }
    forall i | 0 <= i < |n.acks| ensures n.acks[i].epoch == n.epoch {
      assert AckOk(n, n.acks[i]);
    }
  }

  /** The state right after an accepted ACK, before a close that was put off is written. */
  function Acked(n: Net): Net
    requires n.acks != []
  {
    var s := if n.s.status == ClosedWaiting then Cleared
             else n.s.(retry := 0, size := 0, status := if n.s.status == ClosedUnsent then Open else n.s.status);
    n.(s := s, acks := n.acks[1..], base := |n.written|, prevBase := n.base, epoch := n.epoch + 1,
       prevCrc := n.s.crc, sends := 0, finished := n.s.status == ClosedWaiting)
  }

  /** The next frame starts: everything on the bus belongs to the one just acknowledged. */
  lemma NextFrame(n: Net, crcOf: seq<byte> -> nat)
    requires Inv(n, crcOf) && CrcsDiffer(n) && Few(n) && n.acks != [] && Accepts(n.s, n.acks[0].crc)
    ensures Inv(Acked(n), crcOf)
  {
    var m := Acked(n);
    AcceptedAck(n, crcOf);
    SameWritten(n.(base := |n.written|, prevBase := n.base), m);
    assert m.written[m.prevBase..m.base] == InFrame(n);
    assert InFrame(m) == [];
    forall i | 0 <= i < |m.wire| ensures FlightOk(m, m.wire[i], crcOf) {
      assert FlightOk(n, n.wire[i], crcOf);
    }
    forall i | 0 <= i < |m.acks| ensures AckOk(m, m.acks[i]) {
      assert AckOk(n, n.acks[i + 1]);
    }
  }

  lemma AckedThen(n: Net, crcOf: seq<byte> -> nat)
    requires n.acks != [] && Accepts(n.s, n.acks[0].crc)
    ensures var m := Acked(n);
            StepAck(n, crcOf) == if n.s.status == ClosedUnsent then WithSender(m, SendClose(m.s, crcOf).0, ClosePacket(m.s)) else m
  {
  }

  lemma AcceptStep(n: Net, crcOf: seq<byte> -> nat)
    requires Inv(n, crcOf) && CrcsDiffer(n) && Few(n) && n.acks != [] && Accepts(n.s, n.acks[0].crc)
    ensures Inv(StepAck(n, crcOf), crcOf)
  {
    var m := Acked(n);
    NextFrame(n, crcOf);
    AckedThen(n, crcOf);
    if n.s.status == ClosedUnsent {
      SendCloseStep(m, crcOf);
    }
  }

  lemma IgnoredAck(n: Net, crcOf: seq<byte> -> nat)
    requires n.acks != [] && !Accepts(n.s, n.acks[0].crc)
    ensures StepAck(n, crcOf) == Step(n, LoseAck(0), crcOf)
  {
    assert n.acks[..0] + n.acks[1..] == n.acks[1..];
  }

  lemma AckStep(n: Net, crcOf: seq<byte> -> nat)
    requires Inv(n, crcOf) && CrcsDiffer(n) && Few(n)
    ensures Inv(StepAck(n, crcOf), crcOf)
  {
    if n.acks != [] {
      if Accepts(n.s, n.acks[0].crc) {
        AcceptStep(n, crcOf);
      } else {
        IgnoredAck(n, crcOf);
        LoseAckStep(n, 0, crcOf);
      }
    }
  }

  lemma StepOk(n: Net, a: Action, crcOf: seq<byte> -> nat)
    requires Inv(n, crcOf) && Assumed(n) && !Stops(n, a)
    ensures Inv(Step(n, a, crcOf), crcOf)
  {
    match a
    case Write(data, meta) => WriteStep(n, data, meta, crcOf);
    case FlushPipe => FlushStep(n, crcOf);
    case ClosePipe => CloseStep(n, crcOf);
    case Timer(expired, sendOk) => TimerStep(n, expired, sendOk, crcOf);
    case Deliver(memory) => DeliverStep(n, memory, crcOf);
    case LoseFrame(i) => LoseFrameStep(n, i, crcOf);
    case Acknowledge => AckStep(n, crcOf);
    case LoseAck(i) => LoseAckStep(n, i, crcOf);
  }

  // ---------------------------------------------------------------- whole runs

  /** `ns` are the states of a run that does `acts`. */
  ghost predicate AnyRun(port: Port, acts: seq<Action>, ns: seq<Net>, crcOf: seq<byte> -> nat) {
    && |ns| == |acts| + 1 && ns[0] == Start(port)
    && (forall i {:trigger Leads(acts, ns, i, crcOf)} :: 0 <= i < |acts| ==> Leads(acts, ns, i, crcOf))
  }

  ghost predicate Leads(acts: seq<Action>, ns: seq<Net>, i: nat, crcOf: seq<byte> -> nat)
    requires i < |acts| && i + 1 < |ns|
  {
    !Stops(ns[i], acts[i]) && ns[i + 1] == Step(ns[i], acts[i], crcOf)
  }

  ghost predicate AllCrcsDiffer(ns: seq<Net>) {
    forall i :: 0 <= i < |ns| ==> CrcsDiffer(ns[i])
  }

  ghost predicate AllFew(ns: seq<Net>) {
    forall i :: 0 <= i < |ns| ==> Few(ns[i])
  }

  ghost predicate AllPadOk(ns: seq<Net>) {
    forall i :: 0 <= i < |ns| ==> PadOk(ns[i])
  }

  /**
   * A run in which consecutive frames have different CRCs, no frame has 32 packets, and left-over
   * bytes put nothing bad behind the first packet of a flushed frame.
   */
  ghost predicate IsRun(port: Port, acts: seq<Action>, ns: seq<Net>, crcOf: seq<byte> -> nat) {
    AnyRun(port, acts, ns, crcOf) && AllCrcsDiffer(ns) && AllFew(ns) && AllPadOk(ns)
  }

  lemma {:induction false} RunOk(port: Port, acts: seq<Action>, ns: seq<Net>, n: nat, crcOf: seq<byte> -> nat)
    requires IsRun(port, acts, ns, crcOf) && n <= |acts|
    ensures Inv(ns[n], crcOf)
  {
    if n == 0 {
      StartOk(port, crcOf);
    } else {
      RunOk(port, acts, ns, n - 1, crcOf);
      NextOk(port, acts, ns, n - 1, crcOf);
    }
  }

  lemma NextOk(port: Port, acts: seq<Action>, ns: seq<Net>, i: nat, crcOf: seq<byte> -> nat)
    requires AnyRun(port, acts, ns, crcOf) && i < |acts| && Inv(ns[i], crcOf) && Assumed(ns[i])
    ensures Inv(ns[i + 1], crcOf) && ns[i + 1] == Step(ns[i], acts[i], crcOf)
  {
    assert Leads(acts, ns, i, crcOf);
    StepOk(ns[i], acts[i], crcOf);
  }

  lemma {:induction false} NoEofBeforeClose(ps: seq<Packet>, n: nat)
    requires n <= |ps| && forall k :: 0 <= k < n ==> !ps[k].close
    ensures Eof !in EventsUpTo(ps, n)
  {
    if n > 0 {
      NoEofBeforeClose(ps, n - 1);
    }
  }

  /**
   * At every point of every run, the receiver's handlers have seen a prefix of what was
   * written: in order, without a gap or a duplicate.
   */
  lemma DeliversPrefix(port: Port, acts: seq<Action>, ns: seq<Net>, n: nat, crcOf: seq<byte> -> nat)
    requires IsRun(port, acts, ns, crcOf) && n <= |acts|
    ensures var m := ns[n];
            && m.got <= |m.written|
            && m.r.log == EventsUpTo(m.written, m.got)
            && m.r.log <= EventsUpTo(m.written, |m.written|)
  {
    RunOk(port, acts, ns, n, crcOf);
    var m := ns[n];
    EventsGrow(m.written, m.got, |m.written|);
  }

  /**
   * Once the ACK of the closing frame has freed the sender, everything written has been
   * delivered, and the end of the stream was signalled exactly once, as the last event.
   */
  lemma FinishedMeansDelivered(port: Port, acts: seq<Action>, ns: seq<Net>, n: nat, crcOf: seq<byte> -> nat)
    requires IsRun(port, acts, ns, crcOf) && n <= |acts| && ns[n].finished
    ensures var m := ns[n];
            && m.s.status == Free && !m.r.open
            && m.r.log == EventsUpTo(m.written, |m.written|)
            && |m.r.log| > 0 && m.r.log[|m.r.log| - 1] == Eof && Eof !in m.r.log[..|m.r.log| - 1]
  {
    RunOk(port, acts, ns, n, crcOf);
    var m := ns[n];
    var last := |m.written| - 1;
    assert PacketOk(m.written, m.r.port, last);
    forall k | 0 <= k < last ensures !m.written[k].close {
      assert PacketOk(m.written, m.r.port, k);
    }
    NoEofBeforeClose(m.written, last);
    assert m.r.log[..|m.r.log| - 1] == EventsUpTo(m.written, last) + [Meta([])];
  }

  /** No frame is sent more than four times, and a new packet is never added to a frame on its way. */
  lemma FewSends(port: Port, acts: seq<Action>, ns: seq<Net>, n: nat, crcOf: seq<byte> -> nat)
    requires IsRun(port, acts, ns, crcOf) && n <= |acts|
    ensures var m := ns[n];
            && m.sends <= MAX_RETRIES
            && (m.s.status != Free && m.s.retry == 0 ==>
                  forall i :: 0 <= i < |m.wire| ==> m.wire[i].epoch < m.epoch)
  {
    RunOk(port, acts, ns, n, crcOf);
    var m := ns[n];
    forall i | 0 <= i < |m.wire| && m.s.status != Free && m.s.retry == 0
      ensures m.wire[i].epoch < m.epoch
    {
      assert FlightOk(m, m.wire[i], crcOf);
    }
  }

  /** The history only grows, and a write adds to it exactly when it reports success. */
  lemma WriteIsLogged(n: Net, data: seq<byte>, meta: bool, crcOf: seq<byte> -> nat)
    ensures var m := Step(n, Write(data, meta), crcOf);
            if WriteEx(n.s, data, meta, false, crcOf).1 == OK then
              exists p :: m.written == n.written + [p] && p.data == data && p.meta == meta && !p.close
            else m.written == n.written
  {
    WriteIs(n.s, data, meta, false, crcOf);
  }

  // ---------------------------------------------------------------- payloads that need no assumptions

  /** A flushed frame is not empty. */
  predicate NotEmpty(s: Sender) {
    s.status != Free && s.retry != 0 ==> s.size > 0
  }

  lemma StepNotEmpty(n: Net, a: Action, crcOf: seq<byte> -> nat)
    requires NotEmpty(n.s) && (a.Write? ==> |a.data| <= PAYLOAD - 4)
    ensures NotEmpty(Step(n, a, crcOf).s)
  {
    match a {
      case Write(data, meta) => WriteIs(n.s, data, meta, false, crcOf);
      case Acknowledge => if n.acks != [] && Accepts(n.s, n.acks[0].crc) { AckedThen(n, crcOf); }
      case _ =>
    }
  }

  /** When every payload fits into a frame, no empty frame is ever sent, which would be a panic. */
  lemma {:induction false} NeverPanics(port: Port, acts: seq<Action>, ns: seq<Net>, n: nat, crcOf: seq<byte> -> nat)
    requires AnyRun(port, acts, ns, crcOf) && n <= |acts|
    requires forall i :: 0 <= i < |acts| && acts[i].Write? ==> |acts[i].data| <= PAYLOAD - 4
    ensures NotEmpty(ns[n].s) && forall a :: !Stops(ns[n], a)
  {
    if n > 0 {
      NeverPanics(port, acts, ns, n - 1, crcOf);
      assert Leads(acts, ns, n - 1, crcOf);
      StepNotEmpty(ns[n - 1], acts[n - 1], crcOf);
    }
  }

  lemma {:induction false} FrameSizeData(pkts: seq<Packet>)
    requires forall k :: 0 <= k < |pkts| ==> |pkts[k].data| >= 1
    ensures FrameSize(pkts) >= 8 * |pkts|
  {
    if pkts != [] {
      var rest, last := pkts[..|pkts| - 1], pkts[|pkts| - 1];
      FrameSizeData(rest);
      assert pkts == rest + [last];
      FrameSizeSnoc(rest, last);
    }
  }

  /** A frame that fits, with no empty payload but perhaps a closing one, has fewer than 32 packets. */
  lemma FewPackets(pkts: seq<Packet>)
    requires FrameSize(pkts) <= PAYLOAD
    requires forall k :: 0 <= k < |pkts| ==> |pkts[k].data| >= 1 || k == |pkts| - 1
    ensures |pkts| < COUNTERS
  {
    if pkts != [] {
      var rest, last := pkts[..|pkts| - 1], pkts[|pkts| - 1];
      assert pkts == rest + [last];
      FrameSizeData(rest);
      FrameSizeSnoc(rest, last);
    }
  }

  /** Only a closing packet has no payload. */
  ghost predicate Filled(written: seq<Packet>) {
    forall k :: 0 <= k < |written| ==> |written[k].data| >= 1 || written[k].close
  }

  lemma StepWritten(n: Net, a: Action, crcOf: seq<byte> -> nat)
    ensures var m := Step(n, a, crcOf);
      m.written == n.written
      || exists p :: m.written == n.written + [p] && (p.close || (a.Write? && p.data == a.data))
  {
  }

  lemma StepFilled(n: Net, a: Action, crcOf: seq<byte> -> nat)
    requires Filled(n.written) && (a.Write? ==> |a.data| >= 1)
    ensures Filled(Step(n, a, crcOf).written)
  {
    StepWritten(n, a, crcOf);
  }

  lemma FilledIsFew(n: Net, crcOf: seq<byte> -> nat)
    requires Inv(n, crcOf) && Filled(n.written)
    ensures Few(n)
  {
    var ps := InFrame(n);
    forall k | 0 <= k < |ps| ensures |ps[k].data| >= 1 || k == |ps| - 1 {
      assert PacketOk(n.written, n.r.port, n.base + k);
    }
    FewPackets(ps);
  }

  /** When no payload is empty no frame can have too many packets. */
  lemma {:induction false} NonEmptyIsFew(port: Port, acts: seq<Action>, ns: seq<Net>, n: nat, crcOf: seq<byte> -> nat)
    requires AnyRun(port, acts, ns, crcOf) && AllCrcsDiffer(ns) && AllPadOk(ns) && n <= |acts|
    requires forall i :: 0 <= i < |acts| && acts[i].Write? ==> |acts[i].data| >= 1
    ensures Inv(ns[n], crcOf) && Filled(ns[n].written) && Few(ns[n])
  {
    if n == 0 {
      StartOk(port, crcOf);
    } else {
      NonEmptyIsFew(port, acts, ns, n - 1, crcOf);
      NextOk(port, acts, ns, n - 1, crcOf);
      StepFilled(ns[n - 1], acts[n - 1], crcOf);
      FilledIsFew(ns[n], crcOf);
    }
  }

  /** All payloads take whole words. */
  ghost predicate Whole(written: seq<Packet>) {
    forall k :: 0 <= k < |written| ==> |written[k].data| % 4 == 0
  }

  lemma WholeIsPadOk(n: Net, crcOf: seq<byte> -> nat)
    requires Inv(n, crcOf) && Whole(n.written)
    ensures PadOk(n)
  {
    if n.s.status != Free && n.s.size > 0 {
      var ps := InFrame(n);
      if ps != [] {
        assert ps[0] == n.written[n.base];
        W.AlignedPadOk(n.s.buf, n.s.size, Wire(ps));
      }
    }
  }

  /** Non-empty payloads of whole words need no assumption but that on the CRCs. */
  lemma {:induction false} WholeWordsAreSafe(port: Port, acts: seq<Action>, ns: seq<Net>, n: nat, crcOf: seq<byte> -> nat)
    requires AnyRun(port, acts, ns, crcOf) && AllCrcsDiffer(ns) && n <= |acts|
    requires forall i :: 0 <= i < |acts| && acts[i].Write? ==> |acts[i].data| >= 1 && |acts[i].data| % 4 == 0
    ensures Inv(ns[n], crcOf) && Filled(ns[n].written) && Whole(ns[n].written)
    ensures Few(ns[n]) && PadOk(ns[n])
  {
    if n == 0 {
      StartOk(port, crcOf);
    } else {
      WholeWordsAreSafe(port, acts, ns, n - 1, crcOf);
      NextOk(port, acts, ns, n - 1, crcOf);
      StepFilled(ns[n - 1], acts[n - 1], crcOf);
      StepWhole(ns[n - 1], acts[n - 1], crcOf);
      FilledIsFew(ns[n], crcOf);
      WholeIsPadOk(ns[n], crcOf);
    }
  }

  lemma StepWhole(n: Net, a: Action, crcOf: seq<byte> -> nat)
    requires Whole(n.written) && (a.Write? ==> |a.data| % 4 == 0)
    ensures Whole(Step(n, a, crcOf).written)
  {
  }
}
