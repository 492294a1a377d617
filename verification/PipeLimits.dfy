/**
 * What the reliable pipes assume, and what goes wrong without: frames of fewer packets than the
 * counter has values, consecutive frames of different CRCs, and good bytes behind first packets.
 */
module PipeLimits {
  import opened Bytes
  import opened PipeSpec
  import opened PipeRun
  import W = FrameWalk

  // ---------------------------------------------------------------- frames with too many packets

  lemma CountersDiffer(c: nat, j: nat, m: nat)
    requires j < m && (m < COUNTERS || j < m % COUNTERS)
    ensures (c + j) % COUNTERS != (c + m) % COUNTERS
  {
    assert c + m == c + j + (m - j);
    assert (m - j) % COUNTERS != 0;
  }

  lemma CountersMeet(c: nat, m: nat)
    ensures (c + m % COUNTERS) % COUNTERS == (c + m) % COUNTERS
  {
  }

  lemma {:induction false} ReplaySkips(r: Receiver, pkts: seq<Packet>, c: nat, n: nat)
    requires n <= |pkts| && (|pkts| < COUNTERS || n <= |pkts| % COUNTERS)
    requires forall j :: 0 <= j < |pkts| ==> pkts[j].counter == (c + j) % COUNTERS
    requires r.counter == (c + |pkts|) % COUNTERS
    ensures HandleUpTo(r, pkts, n) == r
  {
    if n > 0 {
      ReplaySkips(r, pkts, c, n - 1);
      CountersDiffer(c, n - 1, |pkts|);
    }
  }

  lemma {:induction false} LogGrows(r: Receiver, pkts: seq<Packet>, i: nat, n: nat)
    requires i <= n <= |pkts|
    ensures |HandleUpTo(r, pkts, i).log| <= |HandleUpTo(r, pkts, n).log|
  {
    if i < n {
      LogGrows(r, pkts, i, n - 1);
    }
  }

  /**
   * A second copy of a frame is ignored exactly while it has fewer packets than the counter
   * has values; otherwise some of its packets are taken again.
   */
  lemma ReplayIgnoredIff(r: Receiver, pkts: seq<Packet>, c: nat)
    requires forall j :: 0 <= j < |pkts| ==> pkts[j].port == r.port && pkts[j].counter == (c + j) % COUNTERS
    requires r.open && r.counter == (c + |pkts|) % COUNTERS
    ensures HandleAll(r, pkts) == r <==> |pkts| < COUNTERS
    ensures |pkts| >= COUNTERS ==> |HandleAll(r, pkts).log| > |r.log|
  {
    if |pkts| < COUNTERS {
      ReplaySkips(r, pkts, c, |pkts|);
    } else {
      var j := |pkts| % COUNTERS;
      ReplaySkips(r, pkts, c, j);
      CountersMeet(c, |pkts|);
      LogGrows(r, pkts, j + 1, |pkts|);
    }
  }

  // ---------------------------------------------------------------- runs by their actions

  /** The states after each number of actions. */
  ghost function States(port: Port, acts: seq<Action>, crcOf: seq<byte> -> nat): (ns: seq<Net>)
    ensures |ns| == |acts| + 1
  {
    if acts == [] then [Start(port)]
    else
      var ns := States(port, acts[..|acts| - 1], crcOf);
      ns + [Step(ns[|acts| - 1], acts[|acts| - 1], crcOf)]
  }

  /** Every list of actions has a run, if its payloads fit into frames. */
  lemma {:induction false} StatesRun(port: Port, acts: seq<Action>, crcOf: seq<byte> -> nat)
    requires forall i :: 0 <= i < |acts| && acts[i].Write? ==> |acts[i].data| <= PAYLOAD - 4
    ensures AnyRun(port, acts, States(port, acts, crcOf), crcOf)
  {
    if acts != [] {
      var most := acts[..|acts| - 1];
      StatesRun(port, most, crcOf);
      NeverPanics(port, most, States(port, most, crcOf), |most|, crcOf);
      forall i | 0 <= i < |acts|
        ensures Leads(acts, States(port, acts, crcOf), i, crcOf)
      {
        if i < |most| {
          LeadsMore(most, States(port, most, crcOf), i, acts, States(port, acts, crcOf), crcOf);
        }
      }
    }
  }

  lemma LeadsMore(acts: seq<Action>, ns: seq<Net>, i: nat, acts': seq<Action>, ns': seq<Net>, crcOf: seq<byte> -> nat)
    requires i < |acts| < |ns| && Leads(acts, ns, i, crcOf)
    requires acts <= acts' && ns <= ns'
    ensures Leads(acts', ns', i, crcOf)
  {
  }

  // ---------------------------------------------------------------- single steps of a run

  lemma Writes(port: Port, acts: seq<Action>, ns: seq<Net>, i: nat, data: seq<byte>, crcOf: seq<byte> -> nat)
    requires AnyRun(port, acts, ns, crcOf) && i < |acts| && acts[i] == Write(data, false)
    requires ns[i].s.status == Open && ns[i].s.retry == 0 && ns[i].s.size + 4 + |data| <= PAYLOAD
    ensures var p := NextPacket(ns[i].s, data, false, false);
      ns[i + 1] == ns[i].(s := Append(ns[i].s, p), written := ns[i].written + [p])
  {
    assert Leads(acts, ns, i, crcOf);
  }

  lemma Flushes(port: Port, acts: seq<Action>, ns: seq<Net>, i: nat, crcOf: seq<byte> -> nat)
    requires AnyRun(port, acts, ns, crcOf) && i < |acts| && acts[i] == FlushPipe
    requires ns[i].s.status == Open && ns[i].s.retry == 0 && ns[i].s.size > 0
    ensures ns[i + 1] == ns[i].(s := Flushed(ns[i].s, crcOf))
  {
    assert Leads(acts, ns, i, crcOf);
  }

  lemma Closes(port: Port, acts: seq<Action>, ns: seq<Net>, i: nat, crcOf: seq<byte> -> nat)
    requires AnyRun(port, acts, ns, crcOf) && i < |acts| && acts[i] == ClosePipe
    requires ns[i].s.status == Open && ns[i].s.retry == 0 && ns[i].s.size + 4 <= PAYLOAD
    ensures var p := ClosePacket(ns[i].s);
      ns[i + 1] == ns[i].(s := Flushed(Append(ns[i].s, p).(status := ClosedWaiting), crcOf), written := ns[i].written + [p])
  {
    assert Leads(acts, ns, i, crcOf);
    assert ns[i].s.(status := Open) == ns[i].s;
  }

  lemma Sends(port: Port, acts: seq<Action>, ns: seq<Net>, i: nat, crcOf: seq<byte> -> nat)
    requires AnyRun(port, acts, ns, crcOf) && i < |acts| && acts[i] == Timer(true, true)
    requires ns[i].s.status != Free && 0 < ns[i].s.retry < MAX_RETRIES + 1
    ensures ns[i + 1] == Sent(ns[i])
  {
    assert Leads(acts, ns, i, crcOf);
  }

  lemma Delivers(port: Port, acts: seq<Action>, ns: seq<Net>, i: nat, memory: W.Buffer, ps: seq<Packet>, crcOf: seq<byte> -> nat)
    requires AnyRun(port, acts, ns, crcOf) && i < |acts| && acts[i] == Deliver(memory)
    requires ns[i].wire != [] && Carries(ns[i].wire[0].bytes, ps)
    ensures var f := ns[i].wire[0];
      ns[i + 1] == ns[i].(r := HandleAll(ns[i].r, ps), wire := ns[i].wire[1..],
                          acks := ns[i].acks + [Ack(f.crc, f.epoch)], got := ns[i + 1].got)
  {
    ReceivedWhole(ns[i].wire[0].bytes, memory, ps);
    assert Leads(acts, ns, i, crcOf);
  }

  lemma Acks(port: Port, acts: seq<Action>, ns: seq<Net>, i: nat, crcOf: seq<byte> -> nat)
    requires AnyRun(port, acts, ns, crcOf) && i < |acts| && acts[i] == Acknowledge
    requires ns[i].s.status == Open && ns[i].acks != []
    ensures ns[i + 1] == if Accepts(ns[i].s, ns[i].acks[0].crc) then Acked(ns[i]) else ns[i].(acks := ns[i].acks[1..])
  {
    assert Leads(acts, ns, i, crcOf);
  }

  lemma AcksClose(port: Port, acts: seq<Action>, ns: seq<Net>, i: nat, crcOf: seq<byte> -> nat)
    requires AnyRun(port, acts, ns, crcOf) && i < |acts| && acts[i] == Acknowledge
    requires ns[i].s.status == ClosedWaiting && ns[i].acks != [] && Accepts(ns[i].s, ns[i].acks[0].crc)
    ensures ns[i + 1] == Acked(ns[i])
  {
    assert Leads(acts, ns, i, crcOf);
  }

  lemma HandleOne(r: Receiver, p: Packet)
    ensures HandleAll(r, [p]) == HandlePacket(r, p)
  {
    assert HandleUpTo(r, [p], 0) == r;
  }

  /** A frame whose first packet needs no padding, or is the only one, is received whole. */
  lemma CarriesAligned(s: Sender, ps: seq<Packet>)
    requires Fills(s, ps) && ps != [] && (|ps| > 1 ==> |ps[0].data| % 4 == 0)
    ensures s.size > 0 && Carries(s.buf[..s.size], ps)
  {
    W.AlignedPadOk(s.buf, s.size, Wire(ps));
    SentCarries(s, ps);
  }

  // ---------------------------------------------------------------- one packet in the first frame

  function First(port: Port, a: seq<byte>): Packet {
    Packet(port, 0, false, false, a)
  }

  /** The sender with one packet in its first frame. */
  function OneSender(port: Port, a: seq<byte>): Sender
    requires |a| <= PAYLOAD - 4
  {
    Append(Opened(port), First(port, a))
  }

  lemma OneCarries(port: Port, a: seq<byte>)
    requires |a| <= PAYLOAD - 4
    ensures var s := OneSender(port, a); s.size > 0 && Carries(s.buf[..s.size], [First(port, a)])
  {
    AppendFills(Opened(port), [], First(port, a));
    assert [] + [First(port, a)] == [First(port, a)];
    CarriesAligned(OneSender(port, a), [First(port, a)]);
  }

  function OneCrc(port: Port, a: seq<byte>, crcOf: seq<byte> -> nat): nat
    requires |a| <= PAYLOAD - 4
  {
    var s := OneSender(port, a);
    crcOf(s.buf[..s.size])
  }

  lemma FirstTaken(port: Port, a: seq<byte>)
    ensures var r := HandleAll(Receiver(true, port, 0, []), [First(port, a)]);
      r == Receiver(true, port, 1, [Data(a)]) == HandleAll(r, [First(port, a)])
  {
    HandleOne(Receiver(true, port, 0, []), First(port, a));
    HandleOne(Receiver(true, port, 1, [Data(a)]), First(port, a));
  }

  /** The first packet written, flushed and sent. */
  lemma OneSent(port: Port, a: seq<byte>, acts: seq<Action>, ns: seq<Net>, crcOf: seq<byte> -> nat)
    requires AnyRun(port, acts, ns, crcOf) && |a| <= PAYLOAD - 4 && |acts| >= 3
    requires acts[0] == Write(a, false) && acts[1] == FlushPipe && acts[2] == Timer(true, true)
    ensures var s, c := OneSender(port, a), OneCrc(port, a, crcOf);
      ns[3] == Start(port).(s := s.(crc := c, retry := 2), wire := [Flight(s.buf[..s.size], c, 0)],
                            written := [First(port, a)], sends := 1)
    ensures ns[0].epoch == ns[1].epoch == ns[2].epoch == 0
  {
    OneCarries(port, a);
    Writes(port, acts, ns, 0, a, crcOf);
    assert [] + [First(port, a)] == [First(port, a)];
    Flushes(port, acts, ns, 1, crcOf);
    Sends(port, acts, ns, 2, crcOf);
  }

  // ---------------------------------------------------------------- a frame of empty payloads

  function Empty(port: Port, k: nat): Packet {
    Packet(port, k % COUNTERS, false, false, [])
  }

  function Empties(port: Port, m: nat): (ps: seq<Packet>)
    ensures |ps| == m && forall k :: 0 <= k < m ==> ps[k] == Empty(port, k)
  {
    seq(m, k requires 0 <= k < m => Empty(port, k))
  }

  /** `m` empty payloads in one frame, which is sent and delivered twice. */
  function EmptyActs(m: nat, memory: W.Buffer, memory': W.Buffer): (acts: seq<Action>)
    ensures |acts| == m + 5 && forall i :: 0 <= i < m ==> acts[i] == Write([], false)
    ensures acts[m] == FlushPipe && acts[m + 1] == acts[m + 2] == Timer(true, true)
    ensures acts[m + 3] == Deliver(memory) && acts[m + 4] == Deliver(memory')
  {
    seq(m, i => Write([], false)) + [FlushPipe, Timer(true, true), Timer(true, true), Deliver(memory), Deliver(memory')]
  }

  function EmptySender(port: Port, m: nat): (s: Sender)
    requires m <= 59
    ensures s.size == 4 * m && s.status == Open && s.retry == 0 && s.port == port && s.counter == m % COUNTERS
  {
    if m == 0 then Opened(port)
    else
      NextCounter(m - 1);
      Append(EmptySender(port, m - 1), Empty(port, m - 1))
  }

  lemma {:induction false} EmptiesFill(port: Port, m: nat)
    requires m <= 59
    ensures Fills(EmptySender(port, m), Empties(port, m))
  {
    if m > 0 {
      EmptiesFill(port, m - 1);
      AppendFills(EmptySender(port, m - 1), Empties(port, m - 1), Empty(port, m - 1));
      assert Empties(port, m - 1) + [Empty(port, m - 1)] == Empties(port, m);
    } else {
      assert Empties(port, 0) == [];
    }
  }

  lemma EmptiesCarry(port: Port, m: nat, s: Sender)
    requires 1 <= m <= 59 && s == EmptySender(port, m)
    ensures s.size > 0 && Carries(s.buf[..s.size], Empties(port, m))
  {
    EmptiesFill(port, m);
    CarriesAligned(s, Empties(port, m));
  }

  function EmptyNet(port: Port, m: nat): Net
    requires m <= 59
  {
    Start(port).(s := EmptySender(port, m), written := Empties(port, m))
  }

  lemma {:induction false} AfterEmpties(port: Port, m: nat, acts: seq<Action>, ns: seq<Net>, k: nat, crcOf: seq<byte> -> nat)
    requires AnyRun(port, acts, ns, crcOf) && k <= m <= 59 && m <= |acts|
    requires forall i :: 0 <= i < m ==> acts[i] == Write([], false)
    ensures ns[k] == EmptyNet(port, k)
  {
    if k > 0 {
      AfterEmpties(port, m, acts, ns, k - 1, crcOf);
      Writes(port, acts, ns, k - 1, [], crcOf);
      assert Empties(port, k - 1) + [Empty(port, k - 1)] == Empties(port, k);
    } else {
      assert Empties(port, 0) == [];
    }
  }

  lemma EmptyTaken(port: Port, m: nat)
    ensures var r := HandleAll(Receiver(true, port, 0, []), Empties(port, m));
      r.open && r.port == port && r.counter == m % COUNTERS && r.log == EventsUpTo(Empties(port, m), m)
  {
    var ps := Empties(port, m);
    forall k | 0 <= k < m ensures PacketOk(ps, port, k) {
    }
    assert ps[0..] == ps;
    TakesNew(Receiver(true, port, 0, []), ps, 0, m, ps);
  }

  /** From a frame being filled to two copies of it on the bus. */
  lemma SendsTwice(port: Port, acts: seq<Action>, ns: seq<Net>, i: nat, crcOf: seq<byte> -> nat)
    requires AnyRun(port, acts, ns, crcOf) && i + 3 <= |acts|
    requires acts[i] == FlushPipe && acts[i + 1] == acts[i + 2] == Timer(true, true)
    requires ns[i].s.status == Open && ns[i].s.retry == 0 && ns[i].s.size > 0 && ns[i].wire == []
    ensures var s := ns[i].s;
      var f := Flight(s.buf[..s.size], crcOf(s.buf[..s.size]), ns[i].epoch);
      ns[i + 3] == ns[i].(s := s.(crc := f.crc, retry := 3), wire := [f, f], sends := ns[i].sends + 2)
    ensures ns[i + 1].epoch == ns[i + 2].epoch == ns[i].epoch
  {
    Flushes(port, acts, ns, i, crcOf);
    Sends(port, acts, ns, i + 1, crcOf);
    Sends(port, acts, ns, i + 2, crcOf);
    var f := FlightOf(ns[i + 1]);
    assert [] + [f] + [f] == [f, f];
  }

  lemma DeliversTwice(port: Port, acts: seq<Action>, ns: seq<Net>, i: nat, f: Flight, ps: seq<Packet>, memory: W.Buffer, memory': W.Buffer, crcOf: seq<byte> -> nat)
    requires AnyRun(port, acts, ns, crcOf) && i + 2 <= |acts|
    requires acts[i] == Deliver(memory) && acts[i + 1] == Deliver(memory')
    requires ns[i].wire == [f, f] && ns[i].acks == [] && Carries(f.bytes, ps)
    ensures ns[i + 2] == ns[i].(r := HandleAll(HandleAll(ns[i].r, ps), ps), wire := [],
                                acks := [Ack(f.crc, f.epoch), Ack(f.crc, f.epoch)], got := ns[i + 2].got)
    ensures ns[i + 1].epoch == ns[i].epoch
  {
    Delivers(port, acts, ns, i, memory, ps, crcOf);
    Delivers(port, acts, ns, i + 1, memory', ps, crcOf);
    assert [] + [Ack(f.crc, f.epoch)] + [Ack(f.crc, f.epoch)] == [Ack(f.crc, f.epoch), Ack(f.crc, f.epoch)];
  }

  lemma EmptyRunEnds(port: Port, m: nat, memory: W.Buffer, memory': W.Buffer, acts: seq<Action>, ns: seq<Net>, crcOf: seq<byte> -> nat)
    requires acts == EmptyActs(m, memory, memory') && AnyRun(port, acts, ns, crcOf) && 1 <= m <= 59
    ensures var r := HandleAll(Receiver(true, port, 0, []), Empties(port, m));
      ns[m + 5].written == Empties(port, m) && ns[m + 5].r == HandleAll(r, Empties(port, m))
    ensures forall i :: m <= i <= m + 5 ==> ns[i].epoch == 0
  {
    AfterEmpties(port, m, acts, ns, m, crcOf);
    EmptySent(port, m, acts, ns, crcOf);
    DeliversTwice(port, acts, ns, m + 3, ns[m + 3].wire[0], Empties(port, m), memory, memory', crcOf);
  }

  lemma EmptySent(port: Port, m: nat, acts: seq<Action>, ns: seq<Net>, crcOf: seq<byte> -> nat)
    requires AnyRun(port, acts, ns, crcOf) && 1 <= m <= 59 && m + 3 <= |acts| && ns[m] == EmptyNet(port, m)
    requires acts[m] == FlushPipe && acts[m + 1] == acts[m + 2] == Timer(true, true)
    ensures var n := ns[m + 3];
      && |n.wire| == 2 && n.wire[0] == n.wire[1] && Carries(n.wire[0].bytes, Empties(port, m)) && n.acks == []
      && n.written == Empties(port, m) && n.r == Receiver(true, port, 0, [])
    ensures ns[m].epoch == ns[m + 1].epoch == ns[m + 2].epoch == ns[m + 3].epoch == 0
  {
    EmptiesCarry(port, m, ns[m].s);
    SendsTwice(port, acts, ns, m, crcOf);
  }

  /** Without the CRCs: what the receiver has after two copies of the frame. */
  lemma EmptyTwice(port: Port, m: nat)
    ensures var ps := Empties(port, m);
      var r := HandleAll(HandleAll(Receiver(true, port, 0, []), ps), ps);
      r.log <= EventsUpTo(ps, m) <==> m < COUNTERS
  {
    EmptyTaken(port, m);
    var ps := Empties(port, m);
    ReplayIgnoredIff(HandleAll(Receiver(true, port, 0, []), ps), ps, 0);
  }

  /**
   * The bound of 31 packets is exact: a run that puts `m` empty payloads, up to 59 of which fit,
   * into one frame, which is sent twice without a loss, delivers a prefix of what was written exactly
   * if `m` is less than 32. No two frames have the same CRC in it.
   */
  lemma EmptyPayloadsIff(port: Port, m: nat, memory: W.Buffer, memory': W.Buffer, ns: seq<Net>, crcOf: seq<byte> -> nat)
    requires AnyRun(port, EmptyActs(m, memory, memory'), ns, crcOf) && 1 <= m <= 59
    ensures AllCrcsDiffer(ns)
    ensures var n := ns[m + 5]; n.r.log <= EventsUpTo(n.written, |n.written|) <==> m < COUNTERS
  {
    EmptyRunEnds(port, m, memory, memory', EmptyActs(m, memory, memory'), ns, crcOf);
    EmptyTwice(port, m);
    forall i | 0 <= i < |ns|
      ensures CrcsDiffer(ns[i])
    {
      if i <= m {
        AfterEmpties(port, m, EmptyActs(m, memory, memory'), ns, i, crcOf);
      }
      assert ns[i].epoch == 0;
    }
  }

  // ---------------------------------------------------------------- why the CRCs must differ

  /**
   * An accepted ACK drops packets that were not delivered exactly when nothing of the current frame
   * was; it is then a late one for the frame before, which has the same CRC.
   */
  lemma LosesIff(n: Net, crcOf: seq<byte> -> nat)
    requires Inv(n, crcOf) && n.base < |n.written| && n.acks != [] && Accepts(n.s, n.acks[0].crc)
    ensures var m := StepAck(n, crcOf);
      && (m.got < m.base <==> n.got == n.base)
      && (n.got == n.base ==> n.acks[0].epoch + 1 == n.epoch && n.s.crc == n.prevCrc)
  {
    assert AckOk(n, n.acks[0]);
  }

  /** Two frames of one packet each; the first is sent twice, and the ACK of its second copy comes late. */
  function LateActs(a: seq<byte>, b: seq<byte>, memory: W.Buffer, memory': W.Buffer): seq<Action> {
    [Write(a, false), FlushPipe, Timer(true, true), Timer(true, true), Deliver(memory), Deliver(memory'), Acknowledge,
     Write(b, false), FlushPipe, Acknowledge]
  }

  function Second(port: Port, b: seq<byte>): Packet {
    Packet(port, 1, false, false, b)
  }

  /** The sender after the ACK of its first frame, and with one packet in the second. */
  function NextSender(port: Port, a: seq<byte>, crcOf: seq<byte> -> nat): Sender
    requires |a| <= PAYLOAD - 4
  {
    OneSender(port, a).(crc := OneCrc(port, a, crcOf), size := 0)
  }

  function SecondSender(port: Port, a: seq<byte>, b: seq<byte>, crcOf: seq<byte> -> nat): Sender
    requires |a| <= PAYLOAD - 4 && |b| <= PAYLOAD - 4
  {
    Append(NextSender(port, a, crcOf), Second(port, b))
  }

  function SecondCrc(port: Port, a: seq<byte>, b: seq<byte>, crcOf: seq<byte> -> nat): nat
    requires |a| <= PAYLOAD - 4 && |b| <= PAYLOAD - 4
  {
    var s := SecondSender(port, a, b, crcOf);
    crcOf(s.buf[..s.size])
  }

  /** Up to the second delivery. */
  lemma LateDelivered(port: Port, a: seq<byte>, acts: seq<Action>, ns: seq<Net>, memory: W.Buffer, memory': W.Buffer, crcOf: seq<byte> -> nat)
    requires AnyRun(port, acts, ns, crcOf) && |acts| >= 6 && |a| <= PAYLOAD - 4
    requires acts[0] == Write(a, false) && acts[1] == FlushPipe && acts[2] == acts[3] == Timer(true, true)
    requires acts[4] == Deliver(memory) && acts[5] == Deliver(memory')
    ensures var c := OneCrc(port, a, crcOf);
      ns[6] == Net(OneSender(port, a).(crc := c, retry := 3), Receiver(true, port, 1, [Data(a)]), [], [Ack(c, 0), Ack(c, 0)],
                   [First(port, a)], 0, 0, ns[6].got, 0, 0, 2, false)
    ensures forall i :: 0 <= i < 6 ==> ns[i].epoch == 0
  {
    var p := First(port, a);
    Writes(port, acts, ns, 0, a, crcOf);
    assert [] + [p] == [p];
    OneCarries(port, a);
    SendsTwice(port, acts, ns, 1, crcOf);
    DeliversTwice(port, acts, ns, 4, ns[4].wire[0], [p], memory, memory', crcOf);
    FirstTaken(port, a);
  }

  lemma LateAcked(port: Port, a: seq<byte>, acts: seq<Action>, ns: seq<Net>, crcOf: seq<byte> -> nat)
    requires AnyRun(port, acts, ns, crcOf) && |acts| >= 7 && |a| <= PAYLOAD - 4 && acts[6] == Acknowledge
    requires ns[6].s == OneSender(port, a).(crc := OneCrc(port, a, crcOf), retry := 3)
    requires |ns[6].acks| == 2 && ns[6].acks[0] == ns[6].acks[1] == Ack(ns[6].s.crc, 0)
    ensures var n := ns[6];
      ns[7] == n.(s := NextSender(port, a, crcOf), acks := [Ack(n.s.crc, 0)], base := |n.written|, prevBase := n.base,
                  epoch := n.epoch + 1, prevCrc := n.s.crc, sends := 0, finished := false)
  {
    Acks(port, acts, ns, 6, crcOf);
  }

  lemma SecondFlushed(port: Port, a: seq<byte>, b: seq<byte>, acts: seq<Action>, ns: seq<Net>, i: nat, crcOf: seq<byte> -> nat)
    requires AnyRun(port, acts, ns, crcOf) && i + 2 <= |acts| && |a| <= PAYLOAD - 4 && |b| <= PAYLOAD - 4
    requires acts[i] == Write(b, false) && acts[i + 1] == FlushPipe
    requires ns[i].s == NextSender(port, a, crcOf) && ns[i].written == [First(port, a)]
    ensures ns[i + 2] == ns[i].(s := Flushed(SecondSender(port, a, b, crcOf), crcOf), written := [First(port, a), Second(port, b)])
    ensures ns[i].s.retry == ns[i + 1].s.retry == 0
  {
    Writes(port, acts, ns, i, b, crcOf);
    assert [First(port, a)] + [Second(port, b)] == [First(port, a), Second(port, b)];
    Flushes(port, acts, ns, i + 1, crcOf);
  }

  /** Up to the flush of the second frame. */
  lemma LateFlushed(port: Port, a: seq<byte>, b: seq<byte>, memory: W.Buffer, memory': W.Buffer, acts: seq<Action>, ns: seq<Net>, crcOf: seq<byte> -> nat)
    requires acts == LateActs(a, b, memory, memory') && AnyRun(port, acts, ns, crcOf) && |a| <= PAYLOAD - 4 && |b| <= PAYLOAD - 4
    ensures var s, c := SecondSender(port, a, b, crcOf), OneCrc(port, a, crcOf);
      ns[9] == Net(Flushed(s, crcOf), Receiver(true, port, 1, [Data(a)]), [], [Ack(c, 0)],
                   [First(port, a), Second(port, b)], 1, 0, ns[9].got, 1, c, 0, false)
    ensures ns[7].s.retry == ns[8].s.retry == 0 && forall i :: 0 <= i < 7 ==> ns[i].epoch == 0
  {
    LateDelivered(port, a, acts, ns, memory, memory', crcOf);
    LateAcked(port, a, acts, ns, crcOf);
    SecondFlushed(port, a, b, acts, ns, 7, crcOf);
  }

  /**
   * A run without a loss on the bus in which the second frame is dropped unsent exactly if its CRC
   * is that of the first. Until that frame is flushed the run meets the assumption on CRCs.
   */
  lemma CollisionLosesData(port: Port, a: seq<byte>, b: seq<byte>, memory: W.Buffer, memory': W.Buffer, ns: seq<Net>, crcOf: seq<byte> -> nat)
    requires AnyRun(port, LateActs(a, b, memory, memory'), ns, crcOf) && |a| <= PAYLOAD - 4 && |b| <= PAYLOAD - 4
    ensures var collide := SecondCrc(port, a, b, crcOf) == OneCrc(port, a, crcOf);
      && ns[10].written == [First(port, a), Second(port, b)] && ns[10].r.log == [Data(a)] && ns[10].wire == []
      && ns[10].s.size == (if collide then 0 else PacketSize(|b|))
      && ns[10].base == (if collide then 2 else 1)
    ensures AllCrcsDiffer(ns[..9])
  {
    var acts := LateActs(a, b, memory, memory');
    LateFlushed(port, a, b, memory, memory', acts, ns, crcOf);
    Acks(port, acts, ns, 9, crcOf);
    forall i | 0 <= i < 9
      ensures CrcsDiffer(ns[..9][i])
    {
      assert i == 7 || i == 8 || ns[i].epoch == 0;
    }
  }
}
