/** The pipe descriptors, whose fields and frames every call updates. */
module Pipes {
  import opened Bytes
  import opened PipeSpec
  import W = FrameWalk

  class OPipe {
    const crcOf: seq<byte> -> nat
    const frame: W.Frame
    var status: Status
    var port: Port
    var counter: Counter
    var retry: nat
    var crc: nat

    predicate Valid()
      reads frame
    {
      frame.data.Length == W.BUFFER && frame.size <= PAYLOAD && frame.size % 4 == 0
    }

    function View(): Sender
      requires Valid()
      reads this, frame, frame.data
    {
      Sender(status, port, counter, retry, frame.data[..], frame.size, crc)
    }

    /** Opens a descriptor whose memory is all zeros. */
    constructor (port: Port, frame: W.Frame, crcOf: seq<byte> -> nat)
      requires frame.data.Length == W.BUFFER && frame.size == 0 && frame.data[..] == Blank
      modifies frame`ackRequested
      ensures Valid() && View() == Opened(port) && this.crcOf == crcOf && this.frame == frame && frame.ackRequested
    {
      this.crcOf, this.frame := crcOf, frame;
      this.status, this.port, this.counter, this.retry, this.crc := Open, port, 0, 0, 0;
      new;
      frame.ackRequested := true;
    }

    /** Clears the descriptor, as leaving the list of open pipes does. */
    method Unlink()
      requires Valid()
      modifies this, frame, frame.data
      ensures Valid() && View() == if old(status) == Free then old(View()) else Cleared
      ensures status != Free || old(status) == Free ==> frame.ackRequested == old(frame.ackRequested)
    {
      if status == Free {
        return;
      }
      status, port, counter, retry, crc := Free, 0, 0, 0, 0;
      frame.Clear();
    }

    method DoFlush()
      requires Valid() && retry == 0
      modifies this
      ensures Valid() && View() == Flushed(old(View()), crcOf)
    {
      crc := crcOf(frame.data[..frame.size]);
      retry := 1;
      assert frame.data[..][..frame.size] == frame.data[..frame.size];
    }

    method CheckSpace(len: nat) returns (r: int)
      requires Valid()
      modifies this
      ensures Valid() && (View(), r) == PipeSpec.CheckSpace(old(View()), len, crcOf)
    {
      if status == Dropped {
        return TIMEOUT;
      }
      if status != Open {
        return ERROR;
      }
      if retry != 0 {
        return TRY_AGAIN;
      }
      if frame.size + 4 + len <= PAYLOAD {
        return OK;
      }
      DoFlush();
      return TRY_AGAIN;
    }

    /** A packet for which there is space is always accepted into the frame. */
    method PushInFrame(p: Packet)
      requires Valid() && frame.size + 4 + |p.data| <= PAYLOAD
      modifies frame`size, frame.data
      ensures Valid() && View() == Append(old(View()), p).(counter := counter)
    {
      var ok := frame.Push(OnWire(p));
      assert ok;
    }

    method WriteEx(data: seq<byte>, meta: bool, close: bool) returns (r: int)
      requires Valid()
      modifies this, frame`size, frame.data
      ensures Valid() && (View(), r) == PipeSpec.WriteEx(old(View()), data, meta, close, crcOf)
    {
      r := CheckSpace(|data|);
      if r != OK {
        return;
      }
      PushInFrame(Packet(port, counter, meta, close, data));
      counter := (counter + 1) % COUNTERS;
    }

    method Flush() returns (r: int)
      requires Valid()
      modifies this
      ensures Valid() && (View(), r) == PipeSpec.Flush(old(View()), crcOf)
    {
      if status == Open && retry == 0 && frame.size == 0 {
        return OK;
      }
      r := CheckSpace(0x10_0000);
    }

    method SendClose() returns (r: int)
      requires Valid()
      modifies this, frame`size, frame.data
      ensures Valid() && (View(), r) == PipeSpec.SendClose(old(View()), crcOf)
    {
      status := Open;
      r := WriteEx([], true, true);
      if r == OK {
        status := ClosedWaiting;
        DoFlush();
        return TRY_AGAIN;
      }
      status := ClosedUnsent;
    }

    method Close() returns (r: int)
      requires Valid()
      modifies this, frame, frame.data
      ensures Valid() && (View(), r) == PipeSpec.Close(old(View()), crcOf)
      ensures status != Free || old(status) == Free ==> frame.ackRequested == old(frame.ackRequested)
    {
      match status {
        case Dropped =>
          Unlink();
          r := OK;
        case Free => r := OK;
        case ClosedWaiting => r := TRY_AGAIN;
        case Open => r := SendClose();
        case ClosedUnsent => r := SendClose();
      }
    }

    method HandleAck(ackCrc: nat)
      requires Valid()
      modifies this, frame, frame.data
      ensures Valid() && View() == PipeSpec.HandleAck(old(View()), ackCrc, crcOf)
      ensures status != Free || old(status) == Free ==> frame.ackRequested == old(frame.ackRequested)
    {
      if status != Free && retry != 0 && ackCrc == crc {
        retry := 0;
        frame.Reset();
        if status == ClosedWaiting {
          Unlink();
        } else if status == ClosedUnsent {
          var r := SendClose();
        }
      }
    }

    /** One pass of the retry timer; `expired` and `sendOk` stand for the clock and the transmitter. */
    method Process(expired: bool, sendOk: bool) returns (sent: bool)
      requires Valid()
      modifies this
      ensures Valid() && (View(), sent) == PipeSpec.Process(old(View()), expired, sendOk)
    {
      sent := false;
      if status != Free && retry != 0 && expired {
        if retry < MAX_RETRIES + 1 {
          if sendOk {
            retry := retry + 1;
            sent := true;
          }
        } else if retry == MAX_RETRIES + 1 {
          retry := retry + 1;
        } else {
          status := Dropped;
        }
      }
    }
  }

  class IPipe {
    var open: bool
    var port: Port
    var counter: Counter
    var log: seq<Event>

    function View(): Receiver
      reads this
    {
      Receiver(open, port, counter, log)
    }

    constructor (port: Port)
      ensures View() == Receiver(true, port, 0, [])
    {
      this.open, this.port, this.counter, this.log := true, port, 0, [];
    }

    method HandlePacket(w: W.Packet)
      modifies this
      ensures View() == HandleAny(old(View()), w)
    {
      if w.index != STREAM || w.cmd >= 0x1_0000 {
        return;
      }
      if open && port == w.cmd / 128 {
        if counter == w.cmd % COUNTERS {
          counter := (counter + 1) % COUNTERS;
          log := log + if w.cmd / 64 % 2 == 1 then [Meta(w.data)] else [Data(w.data)];
          if w.cmd / 32 % 2 == 1 {
            log := log + [Eof];
            open := false;
          }
        }
      }
    }

    /** Handles the packet at the front of a frame and moves on to the next one. */
    method HandleFront(frame: W.Frame, ghost rest: seq<W.Packet>) returns (more: bool)
      requires frame.data.Length == W.BUFFER && W.Remains(frame.data[..], frame.size, rest)
      modifies this, frame`ackRequested, frame.data
      ensures rest != [] && View() == HandleAny(old(View()), rest[0])
      ensures more == (|rest| > 1) && (more ==> W.Remains(frame.data[..], frame.size, rest[1..]))
    {
      ghost var d := frame.data[..];
      HandlePacket(W.Read(frame.data[..]));
      more := frame.Shift();
      W.ShiftedWalk(d, frame.data[..], frame.size, more, rest);
    }

    /** Answers a frame, when asked to, and then handles its packets one by one, as the walk finds them. */
    method ProcessFrame(frame: W.Frame) returns (acked: bool)
      requires frame.data.Length == W.BUFFER && frame.size <= W.FRAME
      modifies this, frame`ackRequested, frame.data
      ensures acked == old(frame.ackRequested)
      ensures View() == HandleAll(old(View()), Streams(W.Walked(old(frame.data[..]), frame.size)))
    {
      acked := frame.ackRequested;
      ghost var rest := W.Walked(frame.data[..], frame.size);
      ghost var last := HandleAll(View(), Streams(rest));
      var more := true;
      while more
        invariant more == (rest != []) && last == HandleAll(View(), Streams(rest))
        invariant more ==> W.Remains(frame.data[..], frame.size, rest)
        decreases |rest|
      {
        HandleNext(View(), rest);
        more := HandleFront(frame, rest);
        rest := rest[1..];
      }
    }
  }
}
