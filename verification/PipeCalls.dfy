/**
 * What the callers of a pipe can rely on, in terms of the history of a run: which code each call returns,
 * when frames are sent again and when a pipe is dropped, and that what the handlers hear is what was said.
 */
module PipeCalls {
  import opened Bytes
  import opened PipeSpec
  import opened PipeRun
  import opened PipeLimits
  import W = FrameWalk

  // ---------------------------------------------------------------- codes

  /** A write: -1 if the pipe was dropped, -2 if it is closed, 0 if the frame has room, and 1 while it has not. */
  lemma WriteCodes(n: Net, data: seq<byte>, meta: bool, crcOf: seq<byte> -> nat)
    requires Inv(n, crcOf)
    ensures var r := WriteEx(n.s, data, meta, false, crcOf).1;
      && (r == -1 <==> n.s.status == Dropped)
      && (r == -2 <==> n.s.status == Free || n.s.status == ClosedUnsent || n.s.status == ClosedWaiting)
      && (r == 0 <==> n.s.status == Open && !Sealed(n) && FrameSize(InFrame(n)) + 4 + |data| <= 236)
      && -2 <= r <= 1
    ensures var m := Step(n, Write(data, meta), crcOf);
      WriteEx(n.s, data, meta, false, crcOf).1 == 1 ==> Sealed(m) && InFrame(m) == InFrame(n)
  {
  }

  /** A flush: 0 if nothing has been written since the last frame was acknowledged; otherwise the frame is on its way. */
  lemma FlushCodes(n: Net, crcOf: seq<byte> -> nat)
    requires Inv(n, crcOf)
    ensures var r := Flush(n.s, crcOf).1;
      && (r == -1 <==> n.s.status == Dropped)
      && (r == -2 <==> n.s.status == Free || n.s.status == ClosedUnsent || n.s.status == ClosedWaiting)
      && (r == 0 <==> n.s.status == Open && !Sealed(n) && InFrame(n) == [])
      && -2 <= r <= 1
    ensures var m := Step(n, FlushPipe, crcOf); Flush(n.s, crcOf).1 == 1 ==> Sealed(m) && InFrame(m) == InFrame(n)
  {
    NothingIn(InFrame(n));
  }

  lemma NothingIn(ps: seq<Packet>)
    ensures FrameSize(ps) == 0 <==> ps == []
  {
    W.PosMono(Wire(ps), 0, |ps|);
  }

  /** A close: 0 if the pipe is gone already or was dropped, which frees it; otherwise it is closing, and 1 says so. */
  lemma CloseCodes(n: Net, crcOf: seq<byte> -> nat)
    ensures var (s, r) := Close(n.s, crcOf);
      && r == (if n.s.status == Free || n.s.status == Dropped then 0 else 1)
      && (r == 0 ==> s.status == Free)
      && (r == 1 ==> s.status == ClosedUnsent || s.status == ClosedWaiting)
      && (n.s.status == Open && n.s.retry == 0 && n.s.size + 4 <= 236 ==> s.status == ClosedWaiting && s.retry == 1)
  {
  }

  /** The ACK for the frame before a close that was put off: the closing packet follows at once. */
  lemma PutOffCloseFollows(n: Net, crcOf: seq<byte> -> nat)
    requires n.acks != [] && Accepts(n.s, n.acks[0].crc) && n.s.status == ClosedUnsent
    ensures var m := StepAck(n, crcOf);
      && m.written == n.written + [Packet(n.s.port, n.s.counter, true, true, [])]
      && m.s.status == ClosedWaiting && m.s.retry == 1 && m.base == |n.written|
  {
  }

  // ---------------------------------------------------------------- packets

  /**
   * Exactly which packet an open pipe takes, by the command in its header: one for the stream service with the
   * pipe's port in the upper 9 bits and the expected counter in the lowest 5. Bit 6 tells metadata, bit 5 the end.
   */
  lemma OnlyTheNext(r: Receiver, w: W.Packet)
    requires w.cmd < 0x1_0000
    ensures HandleAny(r, w) != r <==>
      w.index == 0x3e && r.open && w.cmd / 128 == r.port && w.cmd % 32 == r.counter
    ensures HandleAny(r, w) != r ==>
      HandleAny(r, w) == Receiver(w.cmd / 32 % 2 == 0, r.port, (r.counter + 1) % 32,
        r.log + [if w.cmd / 64 % 2 == 1 then Meta(w.data) else Data(w.data)] + if w.cmd / 32 % 2 == 1 then [Eof] else [])
  {
    if w.index == STREAM {
      var p := OffWire(w);
      var e := if p.meta then Meta(p.data) else Data(p.data);
      assert EventOf(p) == [e] + if p.close then [Eof] else [];
      if r.open && r.port == p.port && r.counter == p.counter {
        assert r.log + EventOf(p) == r.log + [e] + if p.close then [Eof] else [];
        assert |HandlePacket(r, p).log| > |r.log|;
      }
    }
  }

  // ---------------------------------------------------------------- the retry timer

  /** How often the current frame was sent, by the retry counter. */
  ghost predicate Counted(n: Net) {
    n.s.status != Free ==>
      && n.s.retry <= 6
      && n.sends == (if n.s.retry == 0 then 0 else if n.s.retry <= 5 then n.s.retry - 1 else 4)
      && (n.s.status == Dropped ==> n.s.retry == 0 || n.s.retry == 6)
  }

  lemma StepCounted(n: Net, a: Action, crcOf: seq<byte> -> nat)
    requires Counted(n)
    ensures Counted(Step(n, a, crcOf))
  {
    match a {
      case Write(data, meta) => WriteIs(n.s, data, meta, false, crcOf);
      case Acknowledge => if n.acks != [] && Accepts(n.s, n.acks[0].crc) { AckedThen(n, crcOf); }
      case _ =>
    }
  }

  /** This holds in every state of every run. */
  lemma {:induction false} RunCounted(port: Port, acts: seq<Action>, ns: seq<Net>, n: nat, crcOf: seq<byte> -> nat)
    requires AnyRun(port, acts, ns, crcOf) && n <= |acts|
    ensures Counted(ns[n])
  {
    if n > 0 {
      RunCounted(port, acts, ns, n - 1, crcOf);
      assert Leads(acts, ns, n - 1, crcOf);
      StepCounted(ns[n - 1], acts[n - 1], crcOf);
    }
  }

  /** Before its time, without a frame on its way, or when the transmitter refuses one of the first four sends, the timer does nothing. */
  lemma QuietPass(port: Port, acts: seq<Action>, ns: seq<Net>, n: nat, expired: bool, sendOk: bool, crcOf: seq<byte> -> nat)
    requires AnyRun(port, acts, ns, crcOf) && n <= |acts|
    requires !expired || Sealed(ns[n]) == (ns[n].s.status == Free) || (ns[n].sends < 4 && !sendOk)
    ensures Step(ns[n], Timer(expired, sendOk), crcOf) == ns[n]
  {
    RunCounted(port, acts, ns, n, crcOf);
    assert ns[n].(s := ns[n].s) == ns[n];
  }

  /** While a frame was sent less than four times, each pass that the transmitter serves sends it once more. */
  lemma SendsOnceMore(port: Port, acts: seq<Action>, ns: seq<Net>, n: nat, crcOf: seq<byte> -> nat)
    requires AnyRun(port, acts, ns, crcOf) && n <= |acts|
    requires ns[n].s.status != Free && Sealed(ns[n]) && ns[n].sends < 4
    ensures var m := Step(ns[n], Timer(true, true), crcOf);
      && m.wire == ns[n].wire + [FlightOf(ns[n])] && m.sends == ns[n].sends + 1
      && m.s == ns[n].s.(retry := m.s.retry) && m.written == ns[n].written && m.r == ns[n].r
  {
    RunCounted(port, acts, ns, n, crcOf);
  }

  /** After the fourth send a frame is not sent again: one more pass leaves the pipe as it is, and a second one drops it. */
  lemma DropsAfterGrace(port: Port, acts: seq<Action>, ns: seq<Net>, n: nat, first: bool, second: bool, crcOf: seq<byte> -> nat)
    requires AnyRun(port, acts, ns, crcOf) && n < |acts|
    requires acts[n] == Timer(true, true) && ns[n].s.status != Free && ns[n].s.status != Dropped && ns[n].sends == 3
    ensures var m := Step(ns[n + 1], Timer(true, first), crcOf);
      && ns[n + 1].sends == m.sends == 4 && m.wire == ns[n + 1].wire && m.s.status == ns[n].s.status
      && var d := Step(m, Timer(true, second), crcOf);
        d.s.status == Dropped && d.sends == 4 && d.wire == m.wire
  {
    RunCounted(port, acts, ns, n, crcOf);
    assert Leads(acts, ns, n, crcOf);
  }

  /** A pipe is dropped only by the timer, after its frame was sent four times and one more pass went by. */
  lemma DroppedByTimer(port: Port, acts: seq<Action>, ns: seq<Net>, i: nat, crcOf: seq<byte> -> nat)
    requires AnyRun(port, acts, ns, crcOf) && i < |acts|
    requires ns[i].s.status != Dropped && ns[i + 1].s.status == Dropped
    ensures acts[i].Timer? && acts[i].expired && ns[i].sends == ns[i + 1].sends == 4
    ensures exists k :: 0 <= k < i && acts[k].Timer? && acts[k].expired && ns[k].sends == 4 && ns[k].epoch == ns[i].epoch
  {
    RunCounted(port, acts, ns, i, crcOf);
    DropStep(acts, ns, i, crcOf);
    GraceBefore(port, acts, ns, i, crcOf);
  }

  lemma DropStep(acts: seq<Action>, ns: seq<Net>, i: nat, crcOf: seq<byte> -> nat)
    requires i < |acts| && |ns| == |acts| + 1 && Leads(acts, ns, i, crcOf) && Counted(ns[i])
    requires ns[i].s.status != Dropped && ns[i + 1].s.status == Dropped
    ensures acts[i].Timer? && acts[i].expired && ns[i].s.status != Free && ns[i].s.retry == 6
    ensures ns[i].sends == ns[i + 1].sends == 4 && ns[i].epoch == ns[i + 1].epoch
  {
    var n, a := ns[i], acts[i];
    match a {
      case Write(data, meta) => WriteIs(n.s, data, meta, false, crcOf);
      case Acknowledge => if n.acks != [] && Accepts(n.s, n.acks[0].crc) { AckedThen(n, crcOf); }
      case _ =>
    }
  }

  lemma {:induction false} GraceBefore(port: Port, acts: seq<Action>, ns: seq<Net>, i: nat, crcOf: seq<byte> -> nat)
    requires AnyRun(port, acts, ns, crcOf) && i <= |acts| && ns[i].s.status != Free && ns[i].s.retry == 6
    ensures exists k :: 0 <= k < i && acts[k].Timer? && acts[k].expired && ns[k].sends == 4 && ns[k].epoch == ns[i].epoch
  {
    assert i > 0;
    RunCounted(port, acts, ns, i - 1, crcOf);
    assert Leads(acts, ns, i - 1, crcOf);
    GraceStep(ns[i - 1], acts[i - 1], crcOf);
    if ns[i - 1].s.retry == 6 {
      GraceBefore(port, acts, ns, i - 1, crcOf);
    }
  }

  lemma GraceStep(n: Net, a: Action, crcOf: seq<byte> -> nat)
    requires Counted(n)
    ensures var m := Step(n, a, crcOf);
      m.s.status != Free && m.s.retry == 6 ==>
        && m.epoch == n.epoch && n.s.status != Free
        && (n.s.retry == 6 || (a.Timer? && a.expired && n.sends == 4))
  {
    match a {
      case Write(data, meta) => WriteIs(n.s, data, meta, false, crcOf);
      case Acknowledge => if n.acks != [] && Accepts(n.s, n.acks[0].crc) { AckedThen(n, crcOf); }
      case _ =>
    }
  }

  /** `n` and `m` are about the same frame exactly if the sends counted in `m` are the four of that frame. */
  predicate TriedSince(n: Net, m: Net) {
    n.epoch <= m.epoch && (m.epoch == n.epoch <==> m.sends == 4)
  }

  /**
   * In every state of every run: the frame of a pipe that is dropped was sent four times, unless an ACK
   * for it was accepted after all since.
   */
  lemma {:induction false} DroppedMeansTried(port: Port, acts: seq<Action>, ns: seq<Net>, n: nat, crcOf: seq<byte> -> nat)
    requires AnyRun(port, acts, ns, crcOf) && n <= |acts| && ns[n].s.status == Dropped
    ensures exists i :: 0 <= i < n && ns[i].s.status != Dropped && ns[i].sends == 4 && TriedSince(ns[i], ns[n])
  {
    assert n > 0;
    RunCounted(port, acts, ns, n - 1, crcOf);
    assert Leads(acts, ns, n - 1, crcOf);
    if ns[n - 1].s.status != Dropped {
      DropStep(acts, ns, n - 1, crcOf);
    } else {
      DroppedMeansTried(port, acts, ns, n - 1, crcOf);
      var i :| 0 <= i < n - 1 && ns[i].s.status != Dropped && ns[i].sends == 4 && TriedSince(ns[i], ns[n - 1]);
      StaysTried(ns[i], acts, ns, n - 1, crcOf);
    }
  }

  lemma StaysTried(n: Net, acts: seq<Action>, ns: seq<Net>, i: nat, crcOf: seq<byte> -> nat)
    requires i < |acts| && |ns| == |acts| + 1 && Leads(acts, ns, i, crcOf) && Counted(ns[i])
    requires ns[i].s.status == ns[i + 1].s.status == Dropped && TriedSince(n, ns[i])
    ensures TriedSince(n, ns[i + 1])
  {
    StaysDropped(ns[i], acts[i], crcOf);
  }

  lemma StaysDropped(n: Net, a: Action, crcOf: seq<byte> -> nat)
    requires Counted(n) && n.s.status == Dropped && Step(n, a, crcOf).s.status == Dropped
    ensures var m := Step(n, a, crcOf);
      (m.epoch == n.epoch && m.sends == n.sends) || (m.epoch == n.epoch + 1 && n.sends == 4 && m.sends == 0)
  {
    match a {
      case Write(data, meta) => WriteIs(n.s, data, meta, false, crcOf);
      case Acknowledge => if n.acks != [] && Accepts(n.s, n.acks[0].crc) { AckedThen(n, crcOf); }
      case _ =>
    }
  }

  /**
   * It does happen: a frame is sent four times without an ACK, the pipe is dropped, and then the first copy is
   * delivered and its ACK accepted. The pipe stays dropped, although everything was delivered.
   */
  lemma LateAckAfterDrop(port: Port, a: seq<byte>, memory: W.Buffer, acts: seq<Action>, ns: seq<Net>, crcOf: seq<byte> -> nat)
    requires AnyRun(port, acts, ns, crcOf) && |a| <= PAYLOAD - 4 && |acts| == 10
    requires acts[0] == Write(a, false) && acts[1] == FlushPipe && acts[8] == Deliver(memory) && acts[9] == Acknowledge
    requires forall i :: 2 <= i < 8 ==> acts[i] == Timer(true, true)
    ensures ns[10].s.status == Dropped && ns[10].sends == 0 && ns[10].r.log == [Data(a)]
  {
    OneSent(port, a, acts, ns, crcOf);
    var f := ns[3].wire[0];
    Sends(port, acts, ns, 3, crcOf);
    Sends(port, acts, ns, 4, crcOf);
    Sends(port, acts, ns, 5, crcOf);
    assert ns[6].wire[0] == f;
    assert Leads(acts, ns, 6, crcOf) && Leads(acts, ns, 7, crcOf);
    assert ns[8].s.status == Dropped && ns[8].wire == ns[6].wire && ns[8].acks == [];
    OneCarries(port, a);
    Delivers(port, acts, ns, 8, memory, [First(port, a)], crcOf);
    FirstTaken(port, a);
    assert Leads(acts, ns, 9, crcOf);
    AckedThen(ns[9], crcOf);
  }

  // ---------------------------------------------------------------- what was said is what is heard

  /** What one action says to the other side: a write that reports success its payload, a closing packet the end. */
  function Says(n: Net, m: Net, a: Action, crcOf: seq<byte> -> nat): seq<Event> {
    match a
    case Write(data, meta) =>
      if WriteEx(n.s, data, meta, false, crcOf).1 == 0 then [if meta then Meta(data) else Data(data)] else []
    case _ =>
      if m.s.status == ClosedWaiting && n.s.status != ClosedWaiting then [Meta([]), Eof] else []
  }

  /** What the first `n` actions say. */
  function Said(acts: seq<Action>, ns: seq<Net>, n: nat, crcOf: seq<byte> -> nat): seq<Event>
    requires n <= |acts| && n < |ns|
  {
    if n == 0 then [] else Said(acts, ns, n - 1, crcOf) + Says(ns[n - 1], ns[n], acts[n - 1], crcOf)
  }

  /** The history grows by at most one packet, which stands for what is said. */
  ghost predicate Tells(n: Net, m: Net, says: seq<Event>) {
    (m.written == n.written && says == []) || exists p :: m.written == n.written + [p] && says == EventOf(p)
  }

  lemma CloseSays(n: Net, crcOf: seq<byte> -> nat)
    ensures var m := WithSender(n, SendClose(n.s, crcOf).0, ClosePacket(n.s));
      && (n.s.status != ClosedWaiting ==> Tells(n, m, if m.s.status == ClosedWaiting then [Meta([]), Eof] else []))
      && (m.s.status == ClosedWaiting || m.s.status == ClosedUnsent)
  {
    WriteIs(n.s.(status := Open), [], true, true, crcOf);
    assert EventOf(ClosePacket(n.s)) == [Meta([]), Eof];
  }

  lemma WriteSays(n: Net, data: seq<byte>, meta: bool, crcOf: seq<byte> -> nat)
    ensures var m := Step(n, Write(data, meta), crcOf); Tells(n, m, Says(n, m, Write(data, meta), crcOf))
  {
    WriteIs(n.s, data, meta, false, crcOf);
    assert EventOf(NextPacket(n.s, data, meta, false)) == [if meta then Meta(data) else Data(data)];
  }

  lemma AckSays(n: Net, crcOf: seq<byte> -> nat)
    ensures var m := Step(n, Acknowledge, crcOf); Tells(n, m, Says(n, m, Acknowledge, crcOf))
  {
    if n.acks != [] && Accepts(n.s, n.acks[0].crc) {
      AckedThen(n, crcOf);
      CloseSays(Acked(n), crcOf);
    }
  }

  lemma ClosesSays(n: Net, crcOf: seq<byte> -> nat)
    ensures var m := Step(n, ClosePipe, crcOf); Tells(n, m, Says(n, m, ClosePipe, crcOf))
  {
    CloseSays(n, crcOf);
  }

  lemma OtherSaysNothing(n: Net, a: Action, crcOf: seq<byte> -> nat)
    requires !a.Write? && !a.Acknowledge? && !a.ClosePipe?
    ensures var m := Step(n, a, crcOf); Tells(n, m, Says(n, m, a, crcOf))
  {
  }

  lemma StepSays(n: Net, a: Action, m: Net, crcOf: seq<byte> -> nat)
    requires m == Step(n, a, crcOf)
    ensures Tells(n, m, Says(n, m, a, crcOf))
  {
    if a.Write? {
      WriteSays(n, a.data, a.meta, crcOf);
    } else if a.Acknowledge? {
      AckSays(n, crcOf);
    } else if a.ClosePipe? {
      ClosesSays(n, crcOf);
    } else {
      OtherSaysNothing(n, a, crcOf);
    }
  }

  lemma EventsMore(ps: seq<Packet>, p: Packet)
    ensures EventsUpTo(ps + [p], |ps| + 1) == EventsUpTo(ps, |ps|) + EventOf(p)
  {
    EventsUpToSame(ps, ps + [p], |ps|);
  }

  lemma SaidMore(n: Net, m: Net, says: seq<Event>)
    requires Tells(n, m, says)
    ensures EventsUpTo(m.written, |m.written|) == EventsUpTo(n.written, |n.written|) + says
  {
    if m.written != n.written {
      var p :| m.written == n.written + [p] && says == EventOf(p);
      EventsMore(n.written, p);
    }
  }

  /** The packets in the history of a run stand for what was said. */
  lemma {:induction false} WrittenIsSaid(port: Port, acts: seq<Action>, ns: seq<Net>, n: nat, crcOf: seq<byte> -> nat)
    requires AnyRun(port, acts, ns, crcOf) && n <= |acts|
    ensures EventsUpTo(ns[n].written, |ns[n].written|) == Said(acts, ns, n, crcOf)
  {
    if n > 0 {
      WrittenIsSaid(port, acts, ns, n - 1, crcOf);
      NextIsSaid(port, acts, ns, n - 1, crcOf);
    }
  }

  lemma NextIsSaid(port: Port, acts: seq<Action>, ns: seq<Net>, i: nat, crcOf: seq<byte> -> nat)
    requires AnyRun(port, acts, ns, crcOf) && i < |acts|
    ensures EventsUpTo(ns[i + 1].written, |ns[i + 1].written|)
         == EventsUpTo(ns[i].written, |ns[i].written|) + Says(ns[i], ns[i + 1], acts[i], crcOf)
  {
    assert Leads(acts, ns, i, crcOf);
    StepSays(ns[i], acts[i], ns[i + 1], crcOf);
    SaidMore(ns[i], ns[i + 1], Says(ns[i], ns[i + 1], acts[i], crcOf));
  }

  /**
   * From end to end, over a lossy bus: at every point of every run the handlers have heard a prefix of what
   * the caller has said by writes that reported success and by closing, and all of it once the sender is done.
   */
  lemma HeardIsSaid(port: Port, acts: seq<Action>, ns: seq<Net>, n: nat, crcOf: seq<byte> -> nat)
    requires IsRun(port, acts, ns, crcOf) && n <= |acts|
    ensures ns[n].r.log <= Said(acts, ns, n, crcOf)
    ensures ns[n].finished ==> ns[n].r.log == Said(acts, ns, n, crcOf)
  {
    DeliversPrefix(port, acts, ns, n, crcOf);
    WrittenIsSaid(port, acts, ns, n, crcOf);
    if ns[n].finished {
      FinishedMeansDelivered(port, acts, ns, n, crcOf);
    }
  }
}
