/**
 * What left-over bytes do to the reliable pipes: padding of a frame keeps bytes of the frame that
 * was in the same buffer before, and the receiver may take them for the cursor of its walk.
 */
module PipePadding {
  import opened Bytes
  import opened PipeSpec
  import opened PipeRun
  import opened PipeLimits
  import W = FrameWalk

  // ---------------------------------------------------------------- the bytes of two frames

  function Third(port: Port, c: seq<byte>): Packet {
    Packet(port, 2, false, false, c)
  }

  function Last(port: Port): Packet {
    Packet(port, 3, true, true, [])
  }

  /** A packet `b` in the second frame leaves room for `c` and a closing packet. */
  predicate Fits(a: seq<byte>, b: seq<byte>, c: seq<byte>) {
    |a| <= PAYLOAD - 4 && PacketSize(|b|) + PacketSize(|c|) + 4 <= PAYLOAD
  }

  /** The sender with two packets in its second frame, and with the closing one. */
  function TwoSender(port: Port, a: seq<byte>, b: seq<byte>, c: seq<byte>, crcOf: seq<byte> -> nat): Sender
    requires Fits(a, b, c)
  {
    Append(SecondSender(port, a, b, crcOf), Third(port, c))
  }

  function LastSender(port: Port, a: seq<byte>, b: seq<byte>, c: seq<byte>, crcOf: seq<byte> -> nat): Sender
    requires Fits(a, b, c)
  {
    Append(TwoSender(port, a, b, c, crcOf), Last(port))
  }

  function SecondFrame(port: Port, b: seq<byte>, c: seq<byte>): seq<Packet> {
    [Second(port, b), Third(port, c), Last(port)]
  }

  lemma TwoFills(port: Port, a: seq<byte>, b: seq<byte>, c: seq<byte>, crcOf: seq<byte> -> nat)
    requires Fits(a, b, c)
    ensures Fills(TwoSender(port, a, b, c, crcOf), [Second(port, b), Third(port, c)])
  {
    AppendFills(NextSender(port, a, crcOf), [], Second(port, b));
    assert [] + [Second(port, b)] == [Second(port, b)];
    AppendFills(SecondSender(port, a, b, crcOf), [Second(port, b)], Third(port, c));
    assert [Second(port, b)] + [Third(port, c)] == [Second(port, b), Third(port, c)];
  }

  lemma LastFills(port: Port, a: seq<byte>, b: seq<byte>, c: seq<byte>, crcOf: seq<byte> -> nat)
    requires Fits(a, b, c)
    ensures Fills(LastSender(port, a, b, c, crcOf), SecondFrame(port, b, c))
  {
    TwoFills(port, a, b, c, crcOf);
    AppendFills(TwoSender(port, a, b, c, crcOf), [Second(port, b), Third(port, c)], Last(port));
    assert [Second(port, b), Third(port, c)] + [Last(port)] == SecondFrame(port, b, c);
  }

  /** Byte `i` of the payload of the first frame, where it has one; the buffer was blank before. */
  function Left(a: seq<byte>, i: nat): byte {
    if i < |a| then a[i] else 0
  }

  /**
   * The byte behind the payload `b` of the second frame, left over from the first, is not taken for a
   * cursor: it is no padding or not 0xff, or the byte behind it happens to be the right cursor.
   */
  predicate PadGood(a: seq<byte>, b: seq<byte>, second: nat) {
    |b| % 4 == 0 || Left(a, |b|) != W.MARK || (if |b| % 4 == 3 then second else Left(a, |b| + 1)) == PacketSize(|b|)
  }

  lemma FirstBytes(port: Port, a: seq<byte>, i: nat)
    requires |a| <= PAYLOAD - 4 && 4 + i < W.BUFFER
    ensures OneSender(port, a).buf[4 + i] == Left(a, i)
  {
    var s, w := OneSender(port, a), OnWire(First(port, a));
    if i < |a| {
      assert s.buf[4 + i] == s.buf[0..0 + W.Len(w)][4 + i] == W.PacketBytes(w)[4 + i];
    }
  }

  /** The padding between the two payloads of the second frame. */
  lemma SecondBytes(port: Port, a: seq<byte>, b: seq<byte>, c: seq<byte>, crcOf: seq<byte> -> nat)
    requires Fits(a, b, c)
    ensures var d, d1 := TwoSender(port, a, b, c, crcOf).buf, OneSender(port, a).buf;
      && d[0] == |b| && d[PacketSize(|b|)] == |c|
      && forall j :: |b| + 4 <= j < PacketSize(|b|) ==> d[j] == d1[j]
  {
    W.PutTwoBytes(OneSender(port, a).buf, OnWire(Second(port, b)), OnWire(Third(port, c)), |b| + 4, PacketSize(|b|));
  }

  lemma LastBytes(port: Port, a: seq<byte>, b: seq<byte>, c: seq<byte>, crcOf: seq<byte> -> nat, j: nat)
    requires Fits(a, b, c) && j < PacketSize(|b|) + PacketSize(|c|)
    ensures LastSender(port, a, b, c, crcOf).buf[j] == TwoSender(port, a, b, c, crcOf).buf[j]
  {
  }

  lemma PadGoodOf(a: seq<byte>, b: seq<byte>, second: nat, d1: W.Buffer, d: W.Buffer, size: nat)
    requires PacketSize(|b|) + 4 <= size <= PAYLOAD
    requires d[0] == |b| && d[PacketSize(|b|)] == second < W.MARK
    requires forall j :: |b| + 4 <= j < PacketSize(|b|) ==> d[j] == d1[j]
    requires d1[|b| + 4] == Left(a, |b|) && d1[|b| + 5] == Left(a, |b| + 1)
    ensures W.FirstPadOk(d, size) <==> PadGood(a, b, second)
  {
    W.LeftOverPad(d1, d, size, |b| + 4, second);
  }

  lemma PadIff(port: Port, a: seq<byte>, b: seq<byte>, c: seq<byte>, crcOf: seq<byte> -> nat)
    requires Fits(a, b, c)
    ensures var s := LastSender(port, a, b, c, crcOf); W.FirstPadOk(s.buf, s.size) <==> PadGood(a, b, |c|)
  {
    var s := LastSender(port, a, b, c, crcOf);
    FirstBytes(port, a, |b|);
    FirstBytes(port, a, |b| + 1);
    SecondBytes(port, a, b, c, crcOf);
    LastBytes(port, a, b, c, crcOf, 0);
    LastBytes(port, a, b, c, crcOf, PacketSize(|b|));
    forall j | |b| + 4 <= j < PacketSize(|b|) ensures s.buf[j] == OneSender(port, a).buf[j] {
      LastBytes(port, a, b, c, crcOf, j);
    }
    PadGoodOf(a, b, |c|, OneSender(port, a).buf, s.buf, s.size);
  }

  // ---------------------------------------------------------------- what a walk from a bad cursor can yield

  lemma {:induction false} LogExtends(r: Receiver, ws: seq<W.Packet>)
    ensures r.log <= HandleAll(r, Streams(ws)).log
    decreases |ws|
  {
    if ws == [] {
      assert HandleAll(r, Streams(ws)) == r;
    } else {
      HandleNext(r, ws);
      LogExtends(HandleAny(r, ws[0]), ws[1..]);
    }
  }

  /** The command of a data packet that does not close, with counter `k`. */
  lemma PlainCommand(low: byte, high: byte, k: Counter)
    requires var c := low + 256 * (high as int); c % COUNTERS == k && c / 64 % 2 == 0 && c / 32 % 2 == 0
    ensures low % 128 == k
  {
    var c := low + 256 * (high as int);
    assert c % 32 == low % 32;
    assert c / 32 == low / 32 + 8 * (high as int);
    assert c / 64 == low / 64 + 4 * (high as int);
    LowBits(low);
  }

  lemma LowBits(low: byte)
    requires low / 32 % 2 == 0 && low / 64 % 2 == 0
    ensures low % 128 == low % 32
  {
  }

  /** A data packet `c` that is handled, first in what is left of a frame. */
  lemma HandledData(r: Receiver, w: W.Packet, c: seq<byte>, log: seq<Event>)
    requires HandleAny(r, w) != r && HandleAny(r, w).log <= log == r.log + [Data(c), Meta([]), Eof]
    ensures w.index == STREAM && w.cmd < 0x1_0000 && w.data == c
    ensures w.cmd % COUNTERS == r.counter && w.cmd / 64 % 2 == 0 && w.cmd / 32 % 2 == 0
    ensures HandleAny(r, w).log == r.log + [Data(c)]
  {
    var e, rest := EventOf(OffWire(w)), [Data(c), Meta([]), Eof];
    Cancel(r.log, e, rest);
    assert rest[..2][1] == Meta([]) && rest[..1] == [Data(c)];
    assert e[0] == rest[..|e|][0];
  }

  lemma Cancel<T>(x: seq<T>, y: seq<T>, z: seq<T>)
    requires x + y <= x + z
    ensures y <= z
  {
    forall i | 0 <= i < |y| ensures y[i] == z[i] {
      assert y[i] == (x + y)[|x| + i] == (x + z)[|x| + i];
    }
  }

  /** To get the data `c` and then a closing packet out of a scan takes a data packet `c` with room behind it. */
  lemma {:induction false} ScanNeedsData(d: W.Buffer, p: nat, size: nat, r: Receiver, c: seq<byte>) returns (q: nat)
    requires size <= PAYLOAD
    requires HandleAll(r, Streams(W.Scan(d, p, size))).log == r.log + [Data(c), Meta([]), Eof]
    ensures q == p || q >= p + 4
    ensures q + PacketSize(|c|) + 4 <= size && d[q] == |c| && d[q + 1] == STREAM && d[q + 2] % 128 == r.counter
    decreases size - p
  {
    var ws := W.Scan(d, p, size);
    LogStays(r);
    assert ws != [];
    var next := p + W.Align(W.LenAt(d, p));
    var w := W.PacketFrom(d, p);
    W.ScanStep(d, p, size, w, next);
    HandleNext(r, ws);
    if HandleAny(r, w) == r {
      q := ScanNeedsData(d, next, size, r, c);
    } else {
      DataThenClose(d, p, next, size, r, w, c);
      q := p;
    }
  }

  lemma LogStays(r: Receiver)
    ensures HandleAll(r, Streams([])) == r
  {
  }

  lemma DataThenClose(d: W.Buffer, p: nat, next: nat, size: nat, r: Receiver, w: W.Packet, c: seq<byte>)
    requires size <= PAYLOAD && p < size && p + W.LenAt(d, p) <= size
    requires w == W.PacketFrom(d, p) && next == p + W.Align(W.LenAt(d, p)) && HandleAny(r, w) != r
    requires HandleAll(HandleAny(r, w), Streams(W.Scan(d, next, size))).log == r.log + [Data(c), Meta([]), Eof]
    ensures p + PacketSize(|c|) + 4 <= size && d[p] == |c| && d[p + 1] == STREAM && d[p + 2] % 128 == r.counter
  {
    var rest := W.Scan(d, next, size);
    LogExtends(HandleAny(r, w), rest);
    HandledData(r, w, c, r.log + [Data(c), Meta([]), Eof]);
    FromHeader(d, p);
    PlainCommand(d[p + 2], d[p + 3], r.counter);
    LogStays(HandleAny(r, w));
    assert rest != [];
  }

  lemma FromHeader(d: W.Buffer, p: nat)
    requires p < |d| && p + W.LenAt(d, p) <= |d|
    ensures var w := W.PacketFrom(d, p);
      |w.data| == d[p] && w.index == d[p + 1] && w.cmd == d[p + 2] + 256 * (d[p + 3] as int)
  {
    assert d[p..][0] == d[p] && d[p..][1] == d[p + 1] && d[p..][2] == d[p + 2] && d[p..][3] == d[p + 3];
  }

  /**
   * A bad cursor `d[n + 1]` behind the first packet cannot make a walk find the second packet, which
   * starts at `next`, with room for a closing one behind it, nor anything that looks like it.
   */
  lemma NoSecondFound(d: W.Buffer, n: nat, next: nat, len: nat, size: nat, q: nat)
    requires 5 <= n < next == W.Align(n) && size == next + PacketSize(len) + 4 <= PAYLOAD
    requires n < d[n + 1] as int != next && d[next] == len && d[next + 1] == STREAM
    requires q == d[n + 1] || q >= d[n + 1] as int + 4
    ensures q + PacketSize(len) + 4 <= size ==> !(d[q] == len && d[q + 1] == STREAM && d[q + 2] % 128 == 2)
  {
    if q + PacketSize(len) + 4 <= size {
      assert q == next - 1 || q == next - 2;
      if q == next - 1 {
        assert d[q + 1] == len && d[q + 2] == STREAM;
      } else {
        assert q == n + 1 && d[q + 2] == len;
      }
    }
  }

  // ---------------------------------------------------------------- the runs

  lemma DeliversAny(port: Port, acts: seq<Action>, ns: seq<Net>, i: nat, memory: W.Buffer, crcOf: seq<byte> -> nat)
    requires AnyRun(port, acts, ns, crcOf) && i < |acts| && acts[i] == Deliver(memory) && ns[i].wire != []
    ensures var f := ns[i].wire[0];
      ns[i + 1] == ns[i].(r := HandleAll(ns[i].r, Received(f.bytes, memory)), wire := ns[i].wire[1..],
                          acks := ns[i].acks + [Ack(f.crc, f.epoch)], got := ns[i + 1].got)
  {
    assert Leads(acts, ns, i, crcOf);
  }

  /** The first frame has been delivered and acknowledged. */
  lemma FirstDone(port: Port, a: seq<byte>, memory: W.Buffer, acts: seq<Action>, ns: seq<Net>, crcOf: seq<byte> -> nat)
    requires AnyRun(port, acts, ns, crcOf) && |a| <= PAYLOAD - 4 && |acts| >= 5
    requires acts[0] == Write(a, false) && acts[1] == FlushPipe && acts[2] == Timer(true, true)
    requires acts[3] == Deliver(memory) && acts[4] == Acknowledge
    ensures ns[5] == Net(NextSender(port, a, crcOf), Receiver(true, port, 1, [Data(a)]), [], [],
                         [First(port, a)], 1, 0, ns[5].got, 1, OneCrc(port, a, crcOf), 0, false)
  {
    OneSent(port, a, acts, ns, crcOf);
    OneCarries(port, a);
    Delivers(port, acts, ns, 3, memory, [First(port, a)], crcOf);
    FirstTaken(port, a);
    Acks(port, acts, ns, 4, crcOf);
  }

  /** Two packets have been written after that. */
  lemma TwoWritten(port: Port, a: seq<byte>, b: seq<byte>, c: seq<byte>, acts: seq<Action>, ns: seq<Net>, crcOf: seq<byte> -> nat)
    requires AnyRun(port, acts, ns, crcOf) && Fits(a, b, c) && |acts| >= 7
    requires acts[5] == Write(b, false) && acts[6] == Write(c, false)
    requires ns[5].s == NextSender(port, a, crcOf) && ns[5].written == [First(port, a)]
    ensures ns[7] == ns[5].(s := TwoSender(port, a, b, c, crcOf), written := [First(port, a), Second(port, b), Third(port, c)])
  {
    NextWritten(port, acts, ns, 5, NextSender(port, a, crcOf), Second(port, b), crcOf);
    NextWritten(port, acts, ns, 6, SecondSender(port, a, b, crcOf), Third(port, c), crcOf);
    assert [First(port, a)] + [Second(port, b)] + [Third(port, c)] == [First(port, a), Second(port, b), Third(port, c)];
  }

  lemma NextWritten(port: Port, acts: seq<Action>, ns: seq<Net>, i: nat, s: Sender, p: Packet, crcOf: seq<byte> -> nat)
    requires AnyRun(port, acts, ns, crcOf) && i < |acts| && acts[i] == Write(p.data, false) && ns[i].s == s
    requires s.status == Open && s.retry == 0 && s.size + 4 + |p.data| <= PAYLOAD
    requires p == NextPacket(s, p.data, false, false)
    ensures ns[i + 1] == ns[i].(s := Append(s, p), written := ns[i].written + [p])
  {
    Writes(port, acts, ns, i, p.data, crcOf);
  }

  /** One packet in a frame; after its ACK two in the next one, which is the last. */
  function PaddingActs(a: seq<byte>, b: seq<byte>, c: seq<byte>, memory: W.Buffer, memory': W.Buffer): seq<Action> {
    [Write(a, false), FlushPipe, Timer(true, true), Deliver(memory), Acknowledge,
     Write(b, false), Write(c, false), ClosePipe, Timer(true, true), Deliver(memory'), Acknowledge]
  }

  function All(port: Port, a: seq<byte>, b: seq<byte>, c: seq<byte>): seq<Packet> {
    [First(port, a), Second(port, b), Third(port, c), Last(port)]
  }

  function LastBytesSent(port: Port, a: seq<byte>, b: seq<byte>, c: seq<byte>, crcOf: seq<byte> -> nat): FrameBytes
    requires Fits(a, b, c)
  {
    var s := LastSender(port, a, b, c, crcOf);
    s.buf[..s.size]
  }

  /** The last frame is closed and sent. */
  lemma LastSent(port: Port, acts: seq<Action>, ns: seq<Net>, s: Sender, crcOf: seq<byte> -> nat)
    requires AnyRun(port, acts, ns, crcOf) && |acts| >= 9 && acts[7] == ClosePipe && acts[8] == Timer(true, true)
    requires ns[7].s == s && s.status == Open && s.retry == 0 && s.size + 4 <= PAYLOAD && s.port == port && s.counter == 3
    ensures var t := Append(s, Last(port));
      var f := Flight(t.buf[..t.size], crcOf(t.buf[..t.size]), ns[7].epoch);
      ns[9] == ns[7].(s := t.(status := ClosedWaiting, retry := 2, crc := f.crc), wire := ns[7].wire + [f],
                      written := ns[7].written + [Last(port)], sends := ns[7].sends + 1)
  {
    Closes(port, acts, ns, 7, crcOf);
    Sends(port, acts, ns, 8, crcOf);
  }

  /** The ACK of the last frame frees the sender. */
  lemma LastFreed(port: Port, acts: seq<Action>, ns: seq<Net>, f: Flight, memory: W.Buffer, crcOf: seq<byte> -> nat)
    requires AnyRun(port, acts, ns, crcOf) && |acts| >= 11 && acts[9] == Deliver(memory) && acts[10] == Acknowledge
    requires ns[9].s.status == ClosedWaiting && ns[9].s.retry != 0 && ns[9].s.crc == f.crc
    requires ns[9].wire == [f] && ns[9].acks == []
    ensures ns[11].s == Cleared && ns[11].finished && ns[11].written == ns[9].written
    ensures ns[11].r == HandleAll(ns[9].r, Received(f.bytes, memory))
  {
    DeliversAny(port, acts, ns, 9, memory, crcOf);
    AcksClose(port, acts, ns, 10, crcOf);
  }

  /** The whole run, but for what the receiver finds in the last frame. */
  lemma PaddingRun(port: Port, a: seq<byte>, b: seq<byte>, c: seq<byte>, memory: W.Buffer, memory': W.Buffer, acts: seq<Action>, ns: seq<Net>, crcOf: seq<byte> -> nat)
    requires acts == PaddingActs(a, b, c, memory, memory') && AnyRun(port, acts, ns, crcOf) && Fits(a, b, c)
    ensures ns[11].s == Cleared && ns[11].finished && ns[11].written == All(port, a, b, c)
    ensures ns[11].r == HandleAll(Receiver(true, port, 1, [Data(a)]), Received(LastBytesSent(port, a, b, c, crcOf), memory'))
  {
    FirstDone(port, a, memory, acts, ns, crcOf);
    TwoWritten(port, a, b, c, acts, ns, crcOf);
    LastSent(port, acts, ns, TwoSender(port, a, b, c, crcOf), crcOf);
    assert [First(port, a), Second(port, b), Third(port, c)] + [Last(port)] == All(port, a, b, c);
    LastFreed(port, acts, ns, ns[9].wire[0], memory', crcOf);
  }

  /** What the receiver makes of the last frame when nothing goes wrong. */
  lemma GoodIsComplete(port: Port, a: seq<byte>, b: seq<byte>, c: seq<byte>, memory: W.Buffer, crcOf: seq<byte> -> nat)
    requires Fits(a, b, c) && PadGood(a, b, |c|)
    ensures HandleAll(Receiver(true, port, 1, [Data(a)]), Received(LastBytesSent(port, a, b, c, crcOf), memory)).log
      == EventsUpTo(All(port, a, b, c), 4)
  {
    var s, ps := LastSender(port, a, b, c, crcOf), All(port, a, b, c);
    LastFills(port, a, b, c, crcOf);
    PadIff(port, a, b, c, crcOf);
    SentCarries(s, SecondFrame(port, b, c));
    ReceivedWhole(s.buf[..s.size], memory, SecondFrame(port, b, c));
    AllTaken(port, a, b, c);
  }

  lemma AllTaken(port: Port, a: seq<byte>, b: seq<byte>, c: seq<byte>)
    ensures HandleAll(Receiver(true, port, 1, [Data(a)]), SecondFrame(port, b, c)).log == EventsUpTo(All(port, a, b, c), 4)
  {
    var ps := All(port, a, b, c);
    AllEvents(port, a, b, c);
    forall k | 0 <= k < |ps| ensures PacketOk(ps, port, k) {
    }
    assert ps[1..] == SecondFrame(port, b, c);
    TakesNew(Receiver(true, port, 1, [Data(a)]), ps, 1, 3, SecondFrame(port, b, c));
  }

  lemma AllEvents(port: Port, a: seq<byte>, b: seq<byte>, c: seq<byte>)
    ensures var ps := All(port, a, b, c);
      && EventsUpTo(ps, 1) == [Data(a)] && EventsUpTo(ps, 2) == [Data(a), Data(b)]
      && EventsUpTo(ps, 4) == [Data(a), Data(b)] + [Data(c), Meta([]), Eof]
  {
    var ps := All(port, a, b, c);
    assert EventsUpTo(ps, 0) == [];
    assert EventsUpTo(ps, 1) == [] + [Data(a)];
    assert EventsUpTo(ps, 2) == [Data(a)] + [Data(b)];
    assert EventsUpTo(ps, 3) == [Data(a), Data(b)] + [Data(c)];
    assert EventsUpTo(ps, 4) == [Data(a), Data(b)] + [Data(c)] + [Meta([]), Eof];
  }

  // ---------------------------------------------------------------- a bad cursor in the last frame

  lemma LoadedPacked(s: Sender, ps: seq<Packet>, memory: W.Buffer)
    requires Fills(s, ps)
    ensures var d := Loaded(s.buf[..s.size], memory);
      && W.Packed(d, s.size, Wire(ps)) && (forall j :: 0 <= j < s.size ==> d[j] == s.buf[j])
      && (s.size > 0 && W.FirstPadOk(d, s.size) ==> W.FirstPadOk(s.buf, s.size))
  {
    var d := Loaded(s.buf[..s.size], memory);
    assert d[..s.size] == s.buf[..s.size];
    W.PackedSame(s.buf, d, s.size, Wire(ps));
    if s.size > 0 && W.FirstPadOk(d, s.size) {
      W.PadSame(d, s.buf, s.size);
    }
  }

  /** Where the first two packets of a frame are, in the receiver's memory. */
  lemma TwoPlaces(d: W.Buffer, size: nat, ps: seq<Packet>)
    requires W.Packed(d, size, Wire(ps)) && |ps| >= 2
    ensures var n, next := |ps[0].data| + 4, PacketSize(|ps[0].data|);
      && W.LenAt(d, 0) == n && W.Read(d) == OnWire(ps[0])
      && next + PacketSize(|ps[1].data|) <= size && W.PacketAt(d, next, OnWire(ps[1]))
      && d[next] == |ps[1].data| && d[next + 1] == STREAM
  {
    var ws := Wire(ps);
    W.FirstOfPacked(d, size, ws);
    W.PackedPlace(d, size, ws, 1);
    W.PosMono(ws, 2, |ws|);
    FromHeader(d, PacketSize(|ps[0].data|));
  }

  /** A frame of `b` and `c` and a closing packet with a bad cursor behind `b`. */
  ghost predicate BadBytes(port: Port, b: seq<byte>, c: seq<byte>, d: W.Buffer, size: nat) {
    var n, next := |b| + 4, PacketSize(|b|);
    && 5 <= n < next && size == next + PacketSize(|c|) + 4 <= PAYLOAD
    && W.LenAt(d, 0) == n && d[n] == W.MARK && d[n + 1] != next
    && W.Read(d) == OnWire(Second(port, b)) && d[next] == |c| && d[next + 1] == STREAM
  }

  /** The bytes that the receiver takes for a cursor. */
  lemma BadCursor(port: Port, a: seq<byte>, b: seq<byte>, c: seq<byte>, memory: W.Buffer, crcOf: seq<byte> -> nat)
    requires Fits(a, b, c) && !PadGood(a, b, |c|)
    ensures var bytes := LastBytesSent(port, a, b, c, crcOf); BadBytes(port, b, c, Loaded(bytes, memory), |bytes|)
  {
    var s := LastSender(port, a, b, c, crcOf);
    LastFills(port, a, b, c, crcOf);
    PadIff(port, a, b, c, crcOf);
    SizeOfLast(port, a, b, c, crcOf);
    CursorOf(s, SecondFrame(port, b, c), memory);
  }

  lemma SizeOfLast(port: Port, a: seq<byte>, b: seq<byte>, c: seq<byte>, crcOf: seq<byte> -> nat)
    requires Fits(a, b, c)
    ensures LastSender(port, a, b, c, crcOf).size == PacketSize(|b|) + PacketSize(|c|) + 4
  {
  }

  /** A sender whose frame has a bad first pad byte. */
  lemma CursorOf(s: Sender, ps: seq<Packet>, memory: W.Buffer)
    requires Fills(s, ps) && |ps| >= 2 && s.size > 0 && !W.FirstPadOk(s.buf, s.size)
    ensures var d, n, next := Loaded(s.buf[..s.size], memory), |ps[0].data| + 4, PacketSize(|ps[0].data|);
      && 5 <= n < next && W.LenAt(d, 0) == n && d[n] == W.MARK && d[n + 1] != next
      && W.Read(d) == OnWire(ps[0]) && d[next] == |ps[1].data| && d[next + 1] == STREAM
  {
    var d := Loaded(s.buf[..s.size], memory);
    LoadedPacked(s, ps, memory);
    TwoPlaces(d, s.size, ps);
    BadPad(d, s.size, |ps[0].data| + 4, PacketSize(|ps[0].data|));
  }

  lemma BadPad(d: W.Buffer, size: nat, n: nat, next: nat)
    requires 0 < size <= PAYLOAD && W.LenAt(d, 0) == n && next == W.Align(n) && next < size && d[next] != W.MARK
    requires !W.FirstPadOk(d, size)
    ensures 5 <= n < next && d[n] == W.MARK && d[n + 1] != next
  {
  }

  /** What the receiver has after the first packet of the second frame. */
  function AfterSecond(port: Port, a: seq<byte>, b: seq<byte>): Receiver {
    Receiver(true, port, 2, [Data(a), Data(b)])
  }

  lemma SecondTaken(port: Port, a: seq<byte>, b: seq<byte>, ws: seq<W.Packet>)
    requires ws != [] && ws[0] == OnWire(Second(port, b))
    ensures HandleAll(Receiver(true, port, 1, [Data(a)]), Streams(ws)) == HandleAll(AfterSecond(port, a, b), Streams(ws[1..]))
  {
    HandleNext(Receiver(true, port, 1, [Data(a)]), ws);
    SecondHandled(port, a, b);
  }

  lemma SecondHandled(port: Port, a: seq<byte>, b: seq<byte>)
    ensures HandleAny(Receiver(true, port, 1, [Data(a)]), OnWire(Second(port, b))) == AfterSecond(port, a, b)
  {
    OffOnWire(Second(port, b));
    assert EventOf(Second(port, b)) == [Data(b)];
    assert [Data(a)] + [Data(b)] == [Data(a), Data(b)];
  }

  lemma BadWalk(d: W.Buffer, size: nat, n: nat, next: nat, b: seq<byte>, c: seq<byte>, r: Receiver)
    requires 5 <= n < next == W.Align(n) && size == next + PacketSize(|c|) + 4 <= PAYLOAD && r.counter == 2
    requires W.LenAt(d, 0) == n && d[n] == W.MARK && d[n + 1] != next && d[next] == |c| && d[next + 1] == STREAM
    ensures HandleAll(r, Streams(W.Walked(d, size)[1..])).log != r.log + [Data(c), Meta([]), Eof]
  {
    var ws := W.Walked(d, size);
    if W.HasNext(d, size) {
      assert ws[1..] == W.Scan(d, d[n + 1], size);
      if HandleAll(r, Streams(ws[1..])).log == r.log + [Data(c), Meta([]), Eof] {
        var q := ScanNeedsData(d, d[n + 1], size, r, c);
        NoSecondFound(d, n, next, |c|, size, q);
        assert false;
      }
    } else {
      assert ws[1..] == [];
      LogStays(r);
    }
  }

  lemma BadIsLost(port: Port, a: seq<byte>, b: seq<byte>, c: seq<byte>, memory: W.Buffer, crcOf: seq<byte> -> nat)
    requires Fits(a, b, c) && !PadGood(a, b, |c|)
    ensures HandleAll(Receiver(true, port, 1, [Data(a)]), Received(LastBytesSent(port, a, b, c, crcOf), memory)).log
      != [Data(a), Data(b)] + [Data(c), Meta([]), Eof]
  {
    var bytes := LastBytesSent(port, a, b, c, crcOf);
    BadCursor(port, a, b, c, memory, crcOf);
    BadFrame(port, a, b, c, Loaded(bytes, memory), |bytes|);
  }

  lemma BadFrame(port: Port, a: seq<byte>, b: seq<byte>, c: seq<byte>, d: W.Buffer, size: nat)
    requires BadBytes(port, b, c, d, size)
    ensures HandleAll(Receiver(true, port, 1, [Data(a)]), Streams(W.Walked(d, size))).log
      != [Data(a), Data(b)] + [Data(c), Meta([]), Eof]
  {
    SecondTaken(port, a, b, W.Walked(d, size));
    BadWalk(d, size, |b| + 4, PacketSize(|b|), b, c, AfterSecond(port, a, b));
  }

  /**
   * A run without a loss, with one packet in its first frame and two and the closing one in its second.
   * The sender is freed in any case, but what was written has been delivered, with the end of the stream,
   * exactly if the byte left over behind the second payload is not taken for a bad cursor.
   */
  lemma PaddingLosesIff(port: Port, a: seq<byte>, b: seq<byte>, c: seq<byte>, memory: W.Buffer, memory': W.Buffer, ns: seq<Net>, crcOf: seq<byte> -> nat)
    requires AnyRun(port, PaddingActs(a, b, c, memory, memory'), ns, crcOf) && Fits(a, b, c)
    ensures ns[11].s.status == Free && ns[11].finished && ns[11].written == All(port, a, b, c)
    ensures ns[11].r.log == EventsUpTo(ns[11].written, |ns[11].written|) <==> PadGood(a, b, |c|)
  {
    PaddingRun(port, a, b, c, memory, memory', PaddingActs(a, b, c, memory, memory'), ns, crcOf);
    if PadGood(a, b, |c|) {
      GoodIsComplete(port, a, b, c, memory', crcOf);
    } else {
      BadIsLost(port, a, b, c, memory', crcOf);
      AllEvents(port, a, b, c);
    }
  }

  // ---------------------------------------------------------------- a packet that nobody wrote

  /** A packet that looks like the next one of the stream, as bytes of a payload. */
  function Inner(port: Port, f: seq<byte>): seq<byte>
    requires |f| <= PAYLOAD - 4
  {
    W.PacketBytes(OnWire(Third(port, f)))
  }

  /** As before, but without the close. */
  function InnerActs(port: Port, a: seq<byte>, b: seq<byte>, f: seq<byte>, memory: W.Buffer, memory': W.Buffer): seq<Action>
    requires |f| <= PAYLOAD - 4
  {
    [Write(a, false), FlushPipe, Timer(true, true), Deliver(memory), Acknowledge,
     Write(b, false), Write(Inner(port, f), false), FlushPipe, Timer(true, true), Deliver(memory')]
  }

  /** A walk that is sent into the payload of the second packet takes the packet there for the second one. */
  lemma InnerWalk(d: W.Buffer, size: nat, ps: seq<Packet>, w: W.Packet)
    requires |ps| == 2 && W.Packed(d, size, Wire(ps)) && W.PacketOk(w) && ps[1].data == W.PacketBytes(w)
    requires |ps[0].data| == 1 && d[5] == W.MARK && d[6] == 12
    ensures W.Walked(d, size) == [OnWire(ps[0]), w]
  {
    TwoPlaces(d, size, ps);
    InnerAt(d, 8, OnWire(ps[1]), w);
    W.SizeByte(d, 12, w);
    assert W.Pos(Wire(ps), 2) == W.Pos(Wire(ps), 1) + PacketSize(|ps[1].data|);
    assert W.Pos(Wire(ps), 1) == W.Pos(Wire(ps), 0) + PacketSize(1);
    assert size == 12 + W.Align(W.Len(w));
    W.ScanStep(d, 12, size, w, size);
    assert W.Scan(d, size, size) == [];
    assert W.HasNext(d, size) && W.NextPtr(d) == 12;
  }

  lemma InnerAt(d: W.Buffer, p: nat, outer: W.Packet, w: W.Packet)
    requires W.PacketAt(d, p, outer) && W.PacketOk(w) && outer.data == W.PacketBytes(w)
    ensures W.PacketAt(d, p + 4, w)
  {
    assert d[p + 4..p + 4 + W.Len(w)] == d[p..p + W.Len(outer)][4..] == W.PacketBytes(outer)[4..] == outer.data;
  }

  /** The third packet of the stream is in the payload, and is taken instead of the payload. */
  lemma InnerTaken(port: Port, a: seq<byte>, b: seq<byte>, f: seq<byte>, d: W.Buffer, size: nat)
    requires size <= PAYLOAD && |f| <= PAYLOAD - 4 && |b| == 1
    requires W.Packed(d, size, Wire([Second(port, b), Third(port, Inner(port, f))])) && d[5] == W.MARK && d[6] == 12
    ensures HandleAll(Receiver(true, port, 1, [Data(a)]), Streams(W.Walked(d, size))).log == [Data(a), Data(b), Data(f)]
  {
    var w := OnWire(Third(port, f));
    var r := AfterSecond(port, a, b);
    InnerWalk(d, size, [Second(port, b), Third(port, Inner(port, f))], w);
    SecondTaken(port, a, b, W.Walked(d, size));
    assert W.Walked(d, size)[1..] == [w];
    HandleNext(r, [w]);
    OffOnWire(Third(port, f));
    LogStays(HandleAny(r, w));
    assert r.log + [Data(f)] == [Data(a), Data(b), Data(f)];
  }

  /** The bytes left over behind the one byte of the second payload. */
  lemma InnerCursor(port: Port, a: seq<byte>, b: seq<byte>, c: seq<byte>, memory: W.Buffer, crcOf: seq<byte> -> nat)
    requires Fits(a, b, c) && |b| == 1 && |a| >= 3 && a[1] == W.MARK && a[2] == 12
    ensures var s := TwoSender(port, a, b, c, crcOf);
      var d := Loaded(s.buf[..s.size], memory);
      W.Packed(d, s.size, Wire([Second(port, b), Third(port, c)])) && d[5] == W.MARK && d[6] == 12
  {
    TwoFills(port, a, b, c, crcOf);
    LoadedPacked(TwoSender(port, a, b, c, crcOf), [Second(port, b), Third(port, c)], memory);
    SecondBytes(port, a, b, c, crcOf);
    FirstBytes(port, a, 1);
    FirstBytes(port, a, 2);
  }

  /** The second frame is flushed, sent and delivered. */
  lemma TwoDelivered(port: Port, acts: seq<Action>, ns: seq<Net>, memory: W.Buffer, crcOf: seq<byte> -> nat)
    requires AnyRun(port, acts, ns, crcOf) && |acts| >= 10
    requires acts[7] == FlushPipe && acts[8] == Timer(true, true) && acts[9] == Deliver(memory)
    requires ns[7].s.status == Open && ns[7].s.retry == 0 && ns[7].s.size > 0 && ns[7].wire == []
    ensures var s := ns[7].s;
      ns[10].written == ns[7].written && ns[10].r == HandleAll(ns[7].r, Received(s.buf[..s.size], memory))
  {
    Flushes(port, acts, ns, 7, crcOf);
    Sends(port, acts, ns, 8, crcOf);
    DeliversAny(port, acts, ns, 9, memory, crcOf);
  }

  lemma InnerRun(port: Port, a: seq<byte>, b: seq<byte>, f: seq<byte>, memory: W.Buffer, memory': W.Buffer, acts: seq<Action>, ns: seq<Net>, crcOf: seq<byte> -> nat)
    requires |f| <= PAYLOAD - 4 && Fits(a, b, Inner(port, f))
    requires acts == InnerActs(port, a, b, f, memory, memory') && AnyRun(port, acts, ns, crcOf)
    ensures var s := TwoSender(port, a, b, Inner(port, f), crcOf);
      && ns[10].written == [First(port, a), Second(port, b), Third(port, Inner(port, f))]
      && ns[10].r == HandleAll(Receiver(true, port, 1, [Data(a)]), Received(s.buf[..s.size], memory'))
  {
    FirstDone(port, a, memory, acts, ns, crcOf);
    TwoWritten(port, a, b, Inner(port, f), acts, ns, crcOf);
    TwoDelivered(port, acts, ns, memory', crcOf);
  }

  /**
   * A run without a loss in which a packet is delivered that nobody wrote: it was part of the payload of
   * another one. The first frame leaves the bytes 255 and 12 behind the one byte of the second payload.
   */
  lemma NobodyWrote(port: Port, a: seq<byte>, b: seq<byte>, f: seq<byte>, memory: W.Buffer, memory': W.Buffer, ns: seq<Net>, crcOf: seq<byte> -> nat)
    requires |f| <= PAYLOAD - 4 && Fits(a, b, Inner(port, f))
    requires AnyRun(port, InnerActs(port, a, b, f, memory, memory'), ns, crcOf)
    requires |b| == 1 && |a| >= 3 && a[1] == W.MARK && a[2] == 12
    ensures ns[10].written == [First(port, a), Second(port, b), Third(port, Inner(port, f))]
    ensures ns[10].r.log == [Data(a), Data(b), Data(f)]
    ensures !(ns[10].r.log <= EventsUpTo(ns[10].written, 3))
  {
    InnerRun(port, a, b, f, memory, memory', InnerActs(port, a, b, f, memory, memory'), ns, crcOf);
    InnerReceived(port, a, b, f, memory', TwoSender(port, a, b, Inner(port, f), crcOf), crcOf);
    NotWritten(port, a, b, Inner(port, f), f);
  }

  lemma NotWritten(port: Port, a: seq<byte>, b: seq<byte>, c: seq<byte>, f: seq<byte>)
    requires |c| != |f|
    ensures !([Data(a), Data(b), Data(f)] <= EventsUpTo([First(port, a), Second(port, b), Third(port, c)], 3))
  {
    ThreeEvents(port, a, b, c);
    assert [Data(a), Data(b), Data(f)][2] != [Data(a), Data(b), Data(c)][2];
  }

  lemma InnerReceived(port: Port, a: seq<byte>, b: seq<byte>, f: seq<byte>, memory: W.Buffer, s: Sender, crcOf: seq<byte> -> nat)
    requires |f| <= PAYLOAD - 4 && Fits(a, b, Inner(port, f)) && s == TwoSender(port, a, b, Inner(port, f), crcOf)
    requires |b| == 1 && |a| >= 3 && a[1] == W.MARK && a[2] == 12
    ensures HandleAll(Receiver(true, port, 1, [Data(a)]), Received(s.buf[..s.size], memory)).log == [Data(a), Data(b), Data(f)]
  {
    InnerCursor(port, a, b, Inner(port, f), memory, crcOf);
    InnerTaken(port, a, b, f, Loaded(s.buf[..s.size], memory), s.size);
  }

  lemma ThreeEvents(port: Port, a: seq<byte>, b: seq<byte>, c: seq<byte>)
    ensures EventsUpTo([First(port, a), Second(port, b), Third(port, c)], 3) == [Data(a), Data(b), Data(c)]
  {
    var ps := [First(port, a), Second(port, b), Third(port, c)];
    assert EventsUpTo(ps, 0) == [];
    assert EventsUpTo(ps, 1) == [] + [Data(a)];
    assert EventsUpTo(ps, 2) == [Data(a)] + [Data(b)];
    assert EventsUpTo(ps, 3) == [Data(a), Data(b)] + [Data(c)];
  }
}
