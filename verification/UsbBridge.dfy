/** The two ends of the USB bridge of source/jd_usb.c: the resumable sender and the receiver. */
module UsbBridge {
  import opened Bytes
  import opened Arithmetic
  import opened UsbCode
  import Crc16
  import Q = FrameQueue

  /** Bytes that one pull may produce. */
  const PULL := 64

  /** Bytes of a frame before its data, and the flags that matter here. */
  const FRAME_HEADER := 12
  const FLAG_COMMAND := 0x01
  const FLAG_BROADCAST := 0x04

  // ---------------------------------------------------------------- sender

  /** A frame as it is queued: its size byte counts what follows the header. */
  predicate IsFrame(f: seq<byte>) {
    FRAME_HEADER < |f| <= RX_SIZE && |f| == f[2] as int + FRAME_HEADER
  }

  /** A queued frame, with its padding and without. */
  predicate Padded(pkt: seq<byte>, f: seq<byte>) {
    Q.IsFrame(pkt) && IsFrame(f) && |f| <= |pkt| && pkt[..|f|] == f
  }

  function FramesOf(items: seq<Item>): seq<seq<byte>> {
    if |items| == 0 then []
    else FramesOf(items[..|items| - 1]) + (if items[|items| - 1].Frame? then [items[|items| - 1].bytes] else [])
  }

  function LogOf(items: seq<Item>): seq<byte> {
    if |items| == 0 then []
    else LogOf(items[..|items| - 1]) + (if items[|items| - 1].Log? then [items[|items| - 1].b] else [])
  }

  lemma OfMore(items: seq<Item>, item: Item)
    ensures FramesOf(items + [item]) == FramesOf(items) + if item.Frame? then [item.bytes] else []
    ensures LogOf(items + [item]) == LogOf(items) + if item.Log? then [item.b] else []
    ensures Sendable(items + [item]) <==> Sendable(items) && (item.Frame? ==> |item.bytes| <= RX_SIZE)
  {
    assert (items + [item])[..|items|] == items;
  }

  lemma GapMore(items: seq<Item>)
    requires Sendable(items)
    ensures FramesOf(items + [Gap]) == FramesOf(items) && LogOf(items + [Gap]) == LogOf(items)
    ensures Stream(items + [Gap]) == Stream(items) + [MAGIC, FRAME_GAP] && Sendable(items + [Gap])
  {
    OfMore(items, Gap);
    StreamGrows(items, Gap);
  }

  lemma LogMore(items: seq<Item>, b: byte, rest: seq<byte>)
    requires Sendable(items)
    ensures FramesOf(items + [Log(b)]) == FramesOf(items) && Sendable(items + [Log(b)])
    ensures LogOf(items + [Log(b)]) + rest == LogOf(items) + ([b] + rest)
  {
    OfMore(items, Log(b));
    Assoc(LogOf(items), [b], rest);
  }

  lemma FrameMore(items: seq<Item>, queue: seq<seq<byte>>)
    requires Sendable(items) && queue != [] && |queue[0]| <= RX_SIZE
    ensures FramesOf(items + [Frame(queue[0])]) + queue[1..] == FramesOf(items) + queue
    ensures LogOf(items + [Frame(queue[0])]) == LogOf(items) && Sendable(items + [Frame(queue[0])])
    ensures Stream(items + [Frame(queue[0])])
         == Stream(items) + (Opening() + Stuff(queue[0], |queue[0]|)) + Closing()
  {
    var f := queue[0];
    OfMore(items, Frame(f));
    Assoc(FramesOf(items), [f], queue[1..]);
    assert [f] + queue[1..] == queue;
    FrameStream(items, f);
  }

  lemma FrameStream(items: seq<Item>, f: seq<byte>)
    ensures Stream(items + [Frame(f)]) == Stream(items) + (Opening() + Stuff(f, |f|)) + Closing()
  {
    StreamGrows(items, Frame(f));
    Assoc(Stream(items), Opening() + Stuff(f, |f|), Closing());
  }

  lemma StuffMore(s: seq<byte>, f: seq<byte>, ptr: nat)
    requires ptr < |f|
    ensures s + (Opening() + Stuff(f, ptr)) + Escape(f[ptr]) == s + (Opening() + Stuff(f, ptr + 1))
  {
    Assoc(Opening(), Stuff(f, ptr), Escape(f[ptr]));
    Assoc(s, Opening() + Stuff(f, ptr), Escape(f[ptr]));
  }

  lemma PaddedAt(d: seq<byte>, p: nat, pkt: seq<byte>, f: seq<byte>)
    requires Q.StoredAt(d, p, pkt) && Padded(pkt, f)
    ensures p + |f| <= |d| && d[p..p + |f|] == f
  {
    assert d[p..p + |f|] == d[p..p + |pkt|][..|f|];
  }

  class Sender {
    const q: Q.Queue
    /** Frames are passed on to the host. */
    var forwarding: bool
    /** The frames in `q`, without their padding. */
    ghost var queue: seq<seq<byte>>
    var framePtr: nat
    var gap: nat
    var serial: seq<byte>
    var serialPtr: nat
    var log: seq<byte>
    /** What has been produced: its bytes, and the items they finish. */
    ghost var sent: seq<byte>
    ghost var items: seq<Item>
    /** All frames ever accepted, and all log bytes ever written. */
    ghost var frames: seq<seq<byte>>
    ghost var logged: seq<byte>

    /** The frame being sent. */
    ghost function Current(): seq<byte>
      reads this
    {
      if queue == [] then [] else queue[0]
    }

    /** The queues account for every frame and every log byte. */
    ghost predicate Accounted()
      reads this
    {
      && (forall i :: 0 <= i < |queue| ==> IsFrame(queue[i]))
      && (forall i :: 0 <= i < |frames| ==> IsFrame(frames[i]))
      && framePtr <= |Current()|
      && gap <= 2
      && serialPtr <= |serial| <= PULL
      && Sendable(items)
      && frames == FramesOf(items) + queue
      && logged == LogOf(items) + (serial[serialPtr..] + log)
    }

    /** The ring buffer holds the frames of the queue. */
    ghost predicate Queued()
      reads this`queue, q, q.data
    {
      && q.Valid() && |q.Contents()| == |queue|
      && forall i :: 0 <= i < |queue| ==> Padded(q.Contents()[i], queue[i])
    }

    /** The oldest frame is at `p` in the ring buffer. */
    ghost predicate FrontAt(p: nat)
      reads this`queue, q.data
    {
      && queue != [] && IsFrame(queue[0]) && p + |queue[0]| <= q.data.Length
      && q.data[p..p + |queue[0]|] == queue[0]
    }

    ghost predicate Valid()
      reads this
    {
      && Accounted()
      && sent == Produced(items, Current(), framePtr)
    }

    /** Inside a frame: its opening and its first `framePtr` bytes are out. */
    ghost predicate Within()
      reads this
    {
      && Accounted() && queue != []
      && sent == Stream(items) + (Opening() + Stuff(queue[0], framePtr))
    }

    constructor (data: array<byte>)
      ensures Queued() && fresh(q) && q.data == data
      ensures Valid() && queue == [] && sent == [] && items == [] && frames == [] && logged == [] && !forwarding
    {
      q := new Q.Queue(data);
      forwarding := false;
      queue, framePtr, gap, serial, serialPtr, log := [], 0, 0, [], 0, [];
      sent, items, frames, logged := [], [], [], [];
    }

    /** The commands that turn forwarding on and off. */
    method Enable(on: bool)
      requires Valid()
      modifies this`forwarding
      ensures Valid() && forwarding == on
    {
      forwarding := on;
    }

    /** While forwarding is on, queues a frame if the queue has room for it, and otherwise notes a gap. */
    method SendFrame(pkt: seq<byte>, ghost f: seq<byte>) returns (r: int)
      requires Valid() && Queued() && Padded(pkt, f)
      modifies this, q, q.data
      ensures Valid() && Queued() && forwarding == old(forwarding)
      ensures r == 0 <==> !forwarding || old(q.HasPlace(|pkt|))
      ensures frames == old(frames) + if forwarding && r == 0 then [f] else []
      ensures sent == old(sent) && items == old(items) && logged == old(logged)
      ensures queue == old(queue) + if forwarding && r == 0 then [f] else []
      ensures gap ==
        if !forwarding then old(gap)
        else if r == 0 then (if old(gap) == 2 then 0 else old(gap))
        else if old(gap) == 0 then 1 else old(gap)
    {
      if !forwarding {
        return 0;
      }
      r := PushFrame(pkt, f);
      NoteGap(r == 0);
    }

    /** A gap is due from the first frame that is refused, and one that was put ends with the next frame accepted. */
    method NoteGap(accepted: bool)
      requires Valid() && Queued()
      modifies this`gap
      ensures Valid() && Queued()
      ensures gap ==
        if accepted then (if old(gap) == 2 then 0 else old(gap))
        else if old(gap) == 0 then 1 else old(gap)
    {
      if accepted {
        if gap == 2 {
          gap := 0;
        }
      } else if gap == 0 {
        gap := 1;
      }
    }

    method PushFrame(pkt: seq<byte>, ghost f: seq<byte>) returns (r: int)
      requires Valid() && Queued() && Padded(pkt, f)
      modifies this`queue, this`frames, q, q.data
      ensures Valid() && Queued() && (r == 0 <==> old(q.HasPlace(|pkt|)))
      ensures frames == old(frames) + if r == 0 then [f] else []
      ensures queue == old(queue) + if r == 0 then [f] else []
    {
      ghost var was := q.Contents();
      r := q.Push(pkt);
      if r == 0 {
        Enqueue(f);
        StillQueued(was, pkt, f);
      }
    }

    lemma StillQueued(was: seq<seq<byte>>, pkt: seq<byte>, f: seq<byte>)
      requires q.Valid() && queue != [] && q.Contents() == was + [pkt] && queue[|queue| - 1] == f && Padded(pkt, f)
      requires |was| == |queue| - 1 && forall i :: 0 <= i < |was| ==> Padded(was[i], queue[i])
      ensures Queued()
    {
    }

    /** Takes a frame that is in the ring buffer into account. */
    ghost method Enqueue(f: seq<byte>)
      requires Valid() && IsFrame(f)
      modifies this`queue, this`frames
      ensures Valid() && queue == old(queue) + [f] && frames == old(frames) + [f]
    {
      assert FramesOf(items) + (queue + [f]) == frames + [f];
      assert queue != [] ==> (queue + [f])[0] == queue[0];
      queue := queue + [f];
      frames := frames + [f];
      assert framePtr > 0 ==> Current() == old(Current());
    }

    /** Where the oldest frame is, or -1. */
    method FrontFrame() returns (p: int)
      requires Queued()
      ensures p == -1 <==> queue == []
      ensures p != -1 ==> 0 <= p && FrontAt(p)
    {
      p := q.Front();
      if p != -1 {
        PaddedAt(q.data[..], p, q.Contents()[0], queue[0]);
        assert q.data[..][p..p + |queue[0]|] == q.data[p..p + |queue[0]|];
      }
    }

    /** New log text. */
    method WriteLog(text: seq<byte>)
      requires Valid()
      modifies this`log, this`logged
      ensures Valid() && logged == old(logged) + text
      ensures sent == old(sent) && items == old(items) && frames == old(frames) && queue == old(queue)
    {
      log := log + text;
      logged := logged + text;
    }

    /** Reads the next piece of the log; how much is up to the log's ring buffer. */
    method RefillSerial()
      requires Valid() && serialPtr == |serial|
      modifies this`serial, this`serialPtr, this`log
      ensures Valid() && serialPtr == 0
      ensures serial == [] ==> log == []
    {
      var n: nat :| n <= PULL && n <= |log| && (n == 0 ==> log == []);
      assert logged == LogOf(items) + log;
      assert log == log[..n] + log[n..];
      serial, serialPtr, log := log[..n], 0, log[n..];
    }

    /** What was sent is `base` and the bytes put into `dst` so far. */
    ghost predicate Put(base: seq<byte>, dst: array<byte>, dp: nat)
      reads this, dst
    {
      dst.Length == PULL && dp <= PULL && sent == base + dst[..dp]
    }

    method PutTwo(dst: array<byte>, dp: nat, b: byte, c: byte, ghost base: seq<byte>) returns (r: nat)
      requires Put(base, dst, dp) && dp + 2 <= PULL
      modifies dst, this`sent
      ensures r == dp + 2 && Put(base, dst, r) && sent == old(sent) + [b, c]
    {
      dst[dp] := b;
      dst[dp + 1] := c;
      r := dp + 2;
      sent := sent + [b, c];
    }

    /** Puts one data byte, as two if it is the magic one. */
    method PutByte(dst: array<byte>, dp: nat, b: byte, ghost base: seq<byte>) returns (r: nat)
      requires Put(base, dst, dp) && dp + |Escape(b)| <= PULL
      modifies dst, this`sent
      ensures r == dp + |Escape(b)| && Put(base, dst, r) && sent == old(sent) + Escape(b)
    {
      if b == MAGIC {
        r := PutTwo(dst, dp, MAGIC, LITERAL, base);
      } else {
        dst[dp] := b;
        r := dp + 1;
        sent := sent + [b];
      }
    }

    method PutGap(dst: array<byte>, dp: nat, ghost base: seq<byte>) returns (r: nat)
      requires Valid() && Put(base, dst, dp)
      modifies dst, this`sent, this`items, this`gap
      ensures Valid() && Put(base, dst, r)
      ensures if old(gap) == 1 && framePtr == 0 && dp + 2 <= PULL
              then gap == 2 && r == dp + 2 && items == old(items) + [Gap]
              else gap == old(gap) && r == dp && items == old(items)
      ensures LogOf(items) == LogOf(old(items))
    {
      r := dp;
      if gap == 1 && framePtr == 0 && PULL - dp >= 2 {
        MarkGap();
        r := PutTwo(dst, dp, MAGIC, FRAME_GAP, base);
      }
    }

    method MarkGap()
      requires Accounted() && sent == Stream(items)
      modifies this`gap, this`items
      ensures Accounted() && sent + [MAGIC, FRAME_GAP] == Stream(items)
      ensures gap == 2 && items == old(items) + [Gap] && LogOf(items) == LogOf(old(items))
    {
      GapMore(items);
      gap := 2;
      items := items + [Gap];
    }

    /** Puts the next byte of the front frame. */
    method PutNext(dst: array<byte>, dp: nat, b: byte, ghost base: seq<byte>) returns (r: nat)
      requires Within() && Put(base, dst, dp) && framePtr < |queue[0]| && b == queue[0][framePtr]
      requires dp + |Escape(b)| <= PULL
      modifies dst, this`sent, this`framePtr
      ensures Within() && Put(base, dst, r) && dp < r <= dp + 2 && framePtr == old(framePtr) + 1
    {
      TakeNext(b);
      r := PutByte(dst, dp, b, base);
    }

    method TakeNext(b: byte)
      requires Within() && framePtr < |queue[0]| && b == queue[0][framePtr]
      modifies this`framePtr
      ensures Accounted() && framePtr == old(framePtr) + 1
      ensures sent + Escape(b) == Stream(items) + (Opening() + Stuff(queue[0], framePtr))
    {
      StuffMore(Stream(items), queue[0], framePtr);
      framePtr := framePtr + 1;
    }

    /** A byte of the front frame, from the ring buffer. */
    method FrontByte(p: nat, i: nat) returns (b: byte)
      requires FrontAt(p) && i < |queue[0]|
      ensures b == queue[0][i]
    {
      assert q.data[p..p + |queue[0]|][i] == queue[0][i];
      b := q.data[p + i];
    }

    /** Puts bytes of the front frame, which is at `p`, until it ends or the buffer is full. */
    method PutFrame(dst: array<byte>, dp: nat, p: nat, ghost base: seq<byte>) returns (r: nat)
      requires Within() && Put(base, dst, dp) && (framePtr == 0 ==> dp + 2 <= PULL)
      requires FrontAt(p) && dst != q.data
      modifies dst, this`sent, this`framePtr
      ensures Within() && Put(base, dst, r) && dp <= r && 0 < framePtr
      ensures framePtr == |queue[0]| || PULL - r < 2
      ensures r == dp && dp + 2 <= PULL ==> framePtr == |queue[0]|
    {
      r := dp;
      var size := FrontByte(p, 2);
      var n := size as int + FRAME_HEADER;
      while framePtr < n
        invariant Within() && Put(base, dst, r) && dp <= r
        invariant framePtr == 0 ==> r == dp
        decreases n - framePtr
      {
        var b := FrontByte(p, framePtr);
        if b == MAGIC && PULL - r < 2 {
          break;
        }
        if PULL - r < 1 {
          break;
        }
        r := PutNext(dst, r, b, base);
      }
    }

    /** Closes the front frame and drops it from the queue. */
    method PutClosing(dst: array<byte>, dp: nat, ghost base: seq<byte>) returns (r: nat)
      requires Within() && Queued() && Put(base, dst, dp) && framePtr == |queue[0]| && dp + 2 <= PULL
      requires dst != q.data
      modifies dst, this`sent, this`framePtr, this`queue, this`items, q
      ensures Valid() && Queued() && Put(base, dst, r) && r == dp + 2 && framePtr == 0
      ensures queue == old(queue[1..]) && LogOf(items) == LogOf(old(items))
    {
      r := CloseFrame(dst, dp, base);
      q.Shift();
    }

    method CloseFrame(dst: array<byte>, dp: nat, ghost base: seq<byte>) returns (r: nat)
      requires Within() && Put(base, dst, dp) && framePtr == |queue[0]| && dp + 2 <= PULL
      modifies dst, this`sent, this`framePtr, this`queue, this`items
      ensures Valid() && Put(base, dst, r) && r == dp + 2 && framePtr == 0
      ensures queue == old(queue[1..]) && LogOf(items) == LogOf(old(items))
    {
      FrameMore(items, queue);
      ghost var was, rest := sent, queue[1..];
      assert forall i :: 0 <= i < |rest| ==> IsFrame(rest[i]);
      r := PutTwo(dst, dp, MAGIC, FRAME_END, base);
      assert sent == was + Closing();
      framePtr := 0;
      DropFront(rest);
    }

    /** Takes the end of the front frame into account. */
    ghost method DropFront(rest: seq<seq<byte>>)
      requires Accounted() && framePtr == 0 && queue != [] && rest == queue[1..] && (forall i :: 0 <= i < |rest| ==> IsFrame(rest[i]))
      requires FramesOf(items + [Frame(queue[0])]) + rest == FramesOf(items) + queue
      requires LogOf(items + [Frame(queue[0])]) == LogOf(items) && Sendable(items + [Frame(queue[0])])
      requires sent == Stream(items + [Frame(queue[0])])
      modifies this`queue, this`items
      ensures Valid() && queue == rest && LogOf(items) == LogOf(old(items))
    {
      items := items + [Frame(queue[0])];
      queue := rest;
    }

    method PutOpening(dst: array<byte>, dp: nat, ghost base: seq<byte>) returns (r: nat)
      requires Valid() && Put(base, dst, dp) && queue != [] && framePtr == 0 && dp + 2 <= PULL
      modifies dst, this`sent
      ensures Within() && Put(base, dst, r) && r == dp + 2
    {
      r := PutTwo(dst, dp, MAGIC, FRAME_START, base);
      assert Stuff(queue[0], 0) == [];
      assert sent == Stream(items) + Opening();
    }

    /** Puts as many queued frames as fit, the last perhaps in part. */
    method PutFrames(dst: array<byte>, ghost base: seq<byte>) returns (dp: nat)
      requires Valid() && Queued() && Put(base, dst, 0) && dst != q.data
      modifies dst, this`sent, this`framePtr, this`queue, this`items, this`gap, q
      ensures Valid() && Queued() && Put(base, dst, dp)
      ensures frames == old(frames) && logged == old(logged) && forwarding == old(forwarding)
      ensures framePtr != 0 || gap == 1 ==> PULL - dp < 2
      ensures queue != [] ==> PULL - dp < 4
      ensures LogOf(items) == LogOf(old(items)) && (gap == old(gap) || (old(gap) == 1 && gap == 2))
    {
      dp := 0;
      ghost var log, due := LogOf(items), gap;
      var more := true;
      while more
        invariant Valid() && Queued() && Put(base, dst, dp)
        invariant !more && (framePtr != 0 || gap == 1) ==> PULL - dp < 2
        invariant !more && queue != [] ==> PULL - dp < 4
        invariant LogOf(items) == log && (gap == due || (due == 1 && gap == 2))
        decreases more, |queue|
      {
        dp, more := PutNextFrame(dst, dp, base);
      }
    }

    /** Puts a gap mark that is due and the front frame, as far as there is room; tells whether that frame is done. */
    method PutNextFrame(dst: array<byte>, dp: nat, ghost base: seq<byte>) returns (r: nat, more: bool)
      requires Valid() && Queued() && Put(base, dst, dp) && dst != q.data
      modifies dst, this`sent, this`framePtr, this`queue, this`items, this`gap, q
      ensures Valid() && Queued() && Put(base, dst, r)
      ensures if more then |queue| < |old(queue)| else framePtr != 0 || gap == 1 ==> PULL - r < 2
      ensures !more && queue != [] ==> PULL - r < 4
      ensures LogOf(items) == LogOf(old(items)) && (gap == old(gap) || (old(gap) == 1 && gap == 2))
    {
      r := PutGap(dst, dp, base);
      more := false;
      var p := FrontFrame();
      if p != -1 && (framePtr != 0 || PULL - r >= 4) {
        r, more := PutFront(dst, r, p, base);
      }
    }

    /** Puts the front frame, which is at `p`, or the rest of it, as far as there is room. */
    method PutFront(dst: array<byte>, dp: nat, p: nat, ghost base: seq<byte>) returns (r: nat, closed: bool)
      requires Valid() && Queued() && Put(base, dst, dp) && FrontAt(p) && (framePtr == 0 ==> dp + 4 <= PULL)
      requires dst != q.data
      modifies dst, this`sent, this`framePtr, this`queue, this`items, q
      ensures Valid() && Queued() && Put(base, dst, r) && LogOf(items) == LogOf(old(items))
      ensures closed ==> queue == old(queue[1..]) && framePtr == 0
      ensures !closed ==> queue == old(queue) && PULL - r < 2
    {
      r := dp;
      if framePtr == 0 {
        r := PutOpening(dst, r, base);
      }
      r := PutFrame(dst, r, p, base);
      closed := PULL - r >= 2;
      if closed {
        r := PutClosing(dst, r, base);
      }
    }

    /** The account of the log after its next byte. */
    lemma NextLog(b: byte)
      requires Accounted() && serialPtr < |serial| && b == serial[serialPtr]
      ensures var more := items + [Log(b)];
        && FramesOf(more) == FramesOf(items) && Sendable(more)
        && logged == LogOf(more) + (serial[serialPtr + 1..] + log) && |LogOf(more)| == |LogOf(items)| + 1
    {
      OfMore(items, Log(b));
      LogMore(items, b, serial[serialPtr + 1..] + log);
      assert serial[serialPtr..] == [b] + serial[serialPtr + 1..];
      Assoc([b], serial[serialPtr + 1..], log);
    }

    method TakeLog() returns (b: byte)
      requires Accounted() && sent == Stream(items) && serialPtr < |serial|
      modifies this`serialPtr, this`items
      ensures Accounted() && sent + Escape(b) == Stream(items) && |LogOf(items)| == |LogOf(old(items))| + 1
    {
      b := serial[serialPtr];
      NextLog(b);
      StreamGrows(items, Log(b));
      serialPtr := serialPtr + 1;
      items := items + [Log(b)];
    }

    /** Puts the next byte of the log. */
    method PutLog(dst: array<byte>, dp: nat, ghost base: seq<byte>) returns (r: nat)
      requires Valid() && Put(base, dst, dp) && dp + 2 <= PULL && framePtr == 0 && serialPtr < |serial|
      modifies dst, this`sent, this`serialPtr, this`items
      ensures Valid() && Put(base, dst, r) && dp < r <= dp + 2 && |LogOf(items)| == |LogOf(old(items))| + 1
    {
      var b := TakeLog();
      r := PutByte(dst, dp, b, base);
    }

    /** Puts log text between frames, until there is no more or no room. */
    method PutLogs(dst: array<byte>, dp: nat, ghost base: seq<byte>) returns (r: nat)
      requires Valid() && Put(base, dst, dp) && (framePtr != 0 ==> PULL - dp < 2)
      modifies dst, this`sent, this`serial, this`serialPtr, this`log, this`items
      ensures Valid() && Put(base, dst, r) && dp <= r
      ensures PULL - r >= 2 ==> serialPtr == |serial| && log == []
      ensures |LogOf(items)| <= |LogOf(old(items))| + if PULL - dp < 2 then 0 else PULL - dp - 1
    {
      r := dp;
      ghost var before := |LogOf(items)|;
      while PULL - r >= 2
        invariant Valid() && Put(base, dst, r) && dp <= r
        invariant |LogOf(items)| <= before + (r - dp)
        invariant |LogOf(items)| <= before + if PULL - dp < 2 then 0 else PULL - dp - 1
        decreases PULL - r
      {
        if serialPtr >= |serial| {
          RefillSerial();
        }
        if serialPtr >= |serial| {
          break;
        }
        r := PutLog(dst, r, base);
      }
    }

    /** The same, which leaves the frames alone. */
    method PutLogsOnly(dst: array<byte>, dp: nat, ghost base: seq<byte>) returns (r: nat)
      requires Valid() && Queued() && Put(base, dst, dp) && (framePtr != 0 ==> PULL - dp < 2) && dst != q.data
      modifies dst, this`sent, this`serial, this`serialPtr, this`log, this`items
      ensures Valid() && Queued() && Put(base, dst, r) && dp <= r
      ensures queue == old(queue) && framePtr == old(framePtr) && gap == old(gap)
      ensures frames == old(frames) && logged == old(logged) && forwarding == old(forwarding)
      ensures PULL - r >= 2 ==> serialPtr == |serial| && log == []
      ensures |LogOf(items)| <= |LogOf(old(items))| + if PULL - dp < 2 then 0 else PULL - dp - 1
    {
      r := PutLogs(dst, dp, base);
    }

    /**
     * Fills `dst` with what comes next: frames first, and then log text if it is time for that. While frames
     * are left, at most the last two bytes that do not suffice for a frame are log text.
     */
    method Pull(dst: array<byte>, logging: bool) returns (dp: nat)
      requires Valid() && Queued() && dst.Length == 64 && dst != q.data
      modifies dst, this, q
      ensures Valid() && Queued() && dp <= 64 && sent == old(sent) + dst[..dp]
      ensures frames == old(frames) && logged == old(logged)
      ensures queue != [] ==> PULL - dp < 4
      ensures framePtr != 0 || gap == 1 ==> PULL - dp < 2
      ensures logging && PULL - dp >= 2 ==> serialPtr == |serial| && log == []
      ensures forwarding == old(forwarding) && (gap == old(gap) || (old(gap) == 1 && gap == 2))
      ensures !logging ==> LogOf(items) == LogOf(old(items))
      ensures queue != [] ==> |LogOf(items)| <= |LogOf(old(items))| + 2
    {
      ghost var base := sent;
      dp := PutFrames(dst, base);
      if logging {
        dp := PutLogsOnly(dst, dp, base);
      }
    }
  }

  // ---------------------------------------------------------------- both ends

  function ReceivedIn(events: seq<Event>): seq<seq<byte>> {
    if |events| == 0 then []
    else ReceivedIn(events[..|events| - 1]) + match events[|events| - 1] case Received(f) => [f] case Serial(_) => []
  }

  function SerialIn(events: seq<Event>): seq<byte> {
    if |events| == 0 then []
    else SerialIn(events[..|events| - 1]) + match events[|events| - 1] case Received(_) => [] case Serial(b) => [b]
  }

  lemma EventMore(events: seq<Event>, e: Event)
    ensures ReceivedIn(events + [e]) == ReceivedIn(events) + if e.Received? then [e.bytes] else []
    ensures SerialIn(events + [e]) == SerialIn(events) + if e.Serial? then [e.b] else []
  {
    assert (events + [e])[..|events|] == events;
  }

  lemma {:induction false} HeardIsItems(items: seq<Item>)
    ensures ReceivedIn(HeardAll(items)) == FramesOf(items) && SerialIn(HeardAll(items)) == LogOf(items)
  {
    if |items| > 0 {
      var most, last := items[..|items| - 1], items[|items| - 1];
      HeardIsItems(most);
      match last
      case Frame(f) => EventMore(HeardAll(most), Received(f));
      case Log(b) => EventMore(HeardAll(most), Serial(b));
      case Gap => assert HeardAll(most) + [] == HeardAll(most);
    }
  }

  /**
   * Cut what a sender has produced into any chunks: the receiver has heard exactly the frames and
   * log bytes the sender accepted, in order, but for those still queued, and holds the part of the
   * current frame that is out.
   */
  lemma NothingIsLost(s: Sender, chunks: seq<seq<byte>>)
    requires s.Valid() && Joined(chunks) == s.sent
    ensures var g := FeedChunks(Got(Idle, []), chunks);
      && ReceivedIn(g.events) + s.queue == s.frames
      && SerialIn(g.events) + (s.serial[s.serialPtr..] + s.log) == s.logged
      && g.rx == Rx(false, s.framePtr > 0, s.Current()[..s.framePtr])
  {
    if s.queue != [] {
      assert IsFrame(s.queue[0]);
    }
    ProducedDecodes(s.items, s.Current(), s.framePtr, chunks);
    HeardIsItems(s.items);
  }

  // ---------------------------------------------------------------- receiver

  /** The lowest `n` bits of a number. */
  function LowBits(x: nat, n: nat): (r: seq<bool>)
    ensures |r| == n
  {
    if n == 0 then [] else [x % 2 == 1] + LowBits(x / 2, n - 1)
  }

  function BitsOf(b: byte): Crc16.Byte {
    LowBits(b, 8)
  }

  function AllBits(s: seq<byte>): (r: seq<Crc16.Byte>)
    ensures |r| == |s| && forall i :: 0 <= i < |r| ==> r[i] == BitsOf(s[i])
  {
    seq(|s|, i requires 0 <= i < |s| => BitsOf(s[i]))
  }

  lemma {:induction false} LowBitsTell(a: nat, b: nat, n: nat)
    requires a < Pow2(n) && b < Pow2(n) && LowBits(a, n) == LowBits(b, n)
    ensures a == b
  {
    if n > 0 {
      assert LowBits(a, n)[0] == LowBits(b, n)[0];
      assert LowBits(a, n)[1..] == LowBits(a / 2, n - 1) && LowBits(b, n)[1..] == LowBits(b / 2, n - 1);
      LowBitsTell(a / 2, b / 2, n - 1);
    }
  }

  lemma BitsTellBytes(a: byte, b: byte)
    requires BitsOf(a) == BitsOf(b)
    ensures a == b
  {
    Pow2Byte();
    LowBitsTell(a, b, 8);
  }

  /** The number that bits stand for, the lowest one first. */
  function Number(bits: seq<bool>): nat {
    if bits == [] then 0 else (if bits[0] then 1 else 0) + 2 * Number(bits[1..])
  }

  lemma {:induction false} NumberOfLowBits(x: nat, n: nat)
    requires x < Pow2(n)
    ensures Number(LowBits(x, n)) == x
  {
    if n > 0 {
      NumberOfLowBits(x / 2, n - 1);
      assert LowBits(x, n)[1..] == LowBits(x / 2, n - 1);
    }
  }

  lemma {:induction false} NumberOfBoth(a: seq<bool>, b: seq<bool>)
    ensures Number(a + b) == Number(a) + Pow2(|a|) * Number(b)
  {
    if a == [] {
      assert a + b == b;
    } else {
      NumberOfBoth(a[1..], b);
      assert (a + b)[1..] == a[1..] + b;
      assert 2 * (Pow2(|a| - 1) * Number(b)) == Pow2(|a|) * Number(b);
    }
  }

  lemma {:induction false} NumberTells(a: seq<bool>, b: seq<bool>)
    requires |a| == |b| && Number(a) == Number(b)
    ensures a == b
  {
    if a != [] {
      NumberTells(a[1..], b[1..]);
      assert a == [a[0]] + a[1..] && b == [b[0]] + b[1..];
    }
  }

  /** The checksum of nothing is all ones. */
  lemma EmptyChecksum()
    ensures Number(Crc16.Checksum([])) == 0xffff
  {
    var c: seq<bool> := Crc16.Checksum([]);
    var l := [true, true, true, true];
    assert c == l + l + l + l;
    assert Number(l) == 15 && Pow2(4) == 16;
    NumberOfBoth(l, l);
    NumberOfBoth(l + l, l);
    NumberOfBoth(l + l + l, l);
    assert Pow2(8) == 256 && Pow2(12) == 4096;
  }

  /** The checksum in the first two bytes of a frame covers what follows them. */
  predicate CrcOk(f: seq<byte>)
    requires |f| >= 2
  {
    Crc16.Checksum(AllBits(f[2..])) == BitsOf(f[0]) + BitsOf(f[1])
  }

  /** The checksum lies in the frame with its lower byte first. */
  lemma CrcOkIff(f: seq<byte>)
    requires |f| >= 2
    ensures CrcOk(f) <==> f[0] as int + 256 * f[1] as int == Number(Crc16.Checksum(AllBits(f[2..])))
  {
    var c: seq<bool>, a: seq<bool>, b: seq<bool> := Crc16.Checksum(AllBits(f[2..])), BitsOf(f[0]), BitsOf(f[1]);
    Pow2Byte();
    NumberOfLowBits(f[0], 8);
    NumberOfLowBits(f[1], 8);
    NumberOfBoth(a, b);
    if Number(c) == Number(a + b) {
      NumberTells(c, a + b);
    }
  }

  datatype Verdict = Short | BadCrc | ForBridge(frame: seq<byte>) | ToBus(frame: seq<byte>)

  /** Bit `k` of a byte, for `mask` = 2 to the `k`. */
  predicate Has(b: byte, mask: nat)
    requires mask > 0
  {
    b / mask % 2 == 1
  }

  /** What becomes of a received frame; `bridge` is the service class of the bridge itself. */
  function Judge(f: seq<byte>, bridge: seq<byte>): Verdict {
    if |f| < FRAME_HEADER || |f| < f[2] as int + FRAME_HEADER then Short
    else
      var frame := f[..f[2] as int + FRAME_HEADER];
      if !CrcOk(frame) then BadCrc
      else if Has(f[3], FLAG_BROADCAST) && Has(f[3], FLAG_COMMAND) && f[4..8] == bridge then ForBridge(frame)
      else ToBus(frame)
  }

  /** A frame that came complete, with the checksum of its declared bytes. */
  predicate Intact(f: seq<byte>) {
    |f| >= 12 && |f| >= f[2] as int + 12 && CrcOk(f[..f[2] as int + 12])
  }

  /** Both flag bits are set, and the lower half of the identifier is the bridge's service class. */
  predicate Addressed(f: seq<byte>, bridge: seq<byte>)
    requires |f| >= 12
  {
    f[3] % 2 == 1 && f[3] / 4 % 2 == 1 && f[4..8] == bridge
  }

  /** An intact frame goes where its flags and identifier say, cut off to its declared bytes. */
  lemma JudgedByBytes(f: seq<byte>, bridge: seq<byte>)
    ensures Judge(f, bridge).Short? <==> |f| < 12 || |f| < f[2] as int + 12
    ensures Judge(f, bridge).ToBus? || Judge(f, bridge).ForBridge? <==> Intact(f)
    ensures Intact(f) && !Addressed(f, bridge) ==> Judge(f, bridge) == ToBus(f[..f[2] as int + 12])
    ensures Intact(f) && Addressed(f, bridge) ==> Judge(f, bridge) == ForBridge(f[..f[2] as int + 12])
  {
  }

  /** The verdicts on a list of frames. */
  function JudgeAll(frames: seq<seq<byte>>, bridge: seq<byte>): (r: seq<Verdict>)
    ensures |r| == |frames| && forall i :: 0 <= i < |r| ==> r[i] == Judge(frames[i], bridge)
  {
    seq(|frames|, i requires 0 <= i < |frames| => Judge(frames[i], bridge))
  }

  lemma JudgeMore(events: seq<Event>, f: seq<byte>, bridge: seq<byte>)
    ensures JudgeAll(ReceivedIn(events + [Received(f)]), bridge) == JudgeAll(ReceivedIn(events), bridge) + [Judge(f, bridge)]
  {
    EventMore(events, Received(f));
  }

  lemma SerialsMore(s: seq<byte>, n: nat)
    requires n < |s|
    ensures Serials(s[..n + 1]) == Serials(s[..n]) + [Serial(s[n])]
  {
  }

  class Receiver {
    /** What was done with the frames received so far. */
    var handled: seq<Verdict>
    var magic: bool
    var open: bool
    var ptr: nat
    const buf: array<byte>
    const bridge: seq<byte>
    ghost var events: seq<Event>

    ghost predicate Valid()
      reads this, buf
    {
      buf.Length == RX_SIZE && ptr <= RX_SIZE && (!open ==> ptr == 0)
      && handled == JudgeAll(ReceivedIn(events), bridge)
    }

    ghost function State(): (g: Got)
      requires Valid()
      reads this, buf
      ensures Reachable(g.rx)
    {
      Got(Rx(magic, open, buf[..ptr]), events)
    }

    constructor (bridge: seq<byte>)
      ensures Valid() && State() == Got(Idle, []) && this.bridge == bridge && fresh(buf)
    {
      magic, open, ptr, events, handled := false, false, 0, [], [];
      buf := new byte[RX_SIZE](_ => 0);
      this.bridge := bridge;
    }

    method SerialOut(c: byte)
      requires Valid()
      modifies this`events
      ensures Valid() && State() == old(State()).(events := old(events) + [Serial(c)])
    {
      EventMore(events, Serial(c));
      events := events + [Serial(c)];
    }

    method FrameError()
      requires Valid()
      modifies this`open, this`ptr, this`events
      ensures Valid() && State() == Broken(old(State()))
    {
      ghost var was := events;
      open := false;
      for j := 0 to ptr
        invariant events == was + Serials(buf[..j]) && ReceivedIn(events) == ReceivedIn(was)
      {
        EventMore(events, Serial(buf[j]));
        events := events + [Serial(buf[j])];
        SerialsMore(buf[..], j);
      }
      assert Serials(buf[..0]) == [];
      ptr := 0;
    }

    /** Judges the frame in the buffer; bytes left over from earlier frames play no part. */
    method HandleFrame() returns (v: Verdict)
      requires buf.Length == RX_SIZE && ptr <= RX_SIZE
      ensures v == Judge(buf[..ptr], bridge)
      ensures v.Short? <==> ptr < 12 || ptr < buf[2] as int + 12
      ensures v.ToBus? || v.ForBridge? <==> Intact(buf[..ptr])
      ensures v.ToBus? ==> v.frame == buf[..buf[2] as int + 12] && !Addressed(buf[..ptr], bridge)
      ensures v.ForBridge? ==> v.frame == buf[..buf[2] as int + 12] && Addressed(buf[..ptr], bridge)
    {
      JudgedByBytes(buf[..ptr], bridge);
      var declared := buf[2] as int + FRAME_HEADER;
      if ptr < declared {
        return Short;
      }
      var frame := buf[..declared];
      assert frame == buf[..ptr][..declared];
      var crc := Crc16.Compute(AllBits(frame[2..]));
      if crc != BitsOf(frame[0]) + BitsOf(frame[1]) {
        return BadCrc;
      }
      assert buf[..ptr][4..8] == frame[4..8];
      if Has(frame[3], FLAG_BROADCAST) && Has(frame[3], FLAG_COMMAND) && frame[4..8] == bridge {
        v := ForBridge(frame);
      } else {
        v := ToBus(frame);
      }
    }

    method EndFrame()
      requires Valid() && open && !magic
      modifies this`open, this`ptr, this`events, this`handled
      ensures Valid() && State() == Got(Idle, old(events) + [Received(old(buf[..ptr]))])
    {
      open := false;
      var v := HandleFrame();
      JudgeMore(events, buf[..ptr], bridge);
      events := events + [Received(buf[..ptr])];
      handled := handled + [v];
      ptr := 0;
    }

    method TakePlain(c: byte)
      requires Valid()
      modifies this`open, this`ptr, this`events, buf
      ensures Valid() && State() == Plain(old(State()), c)
    {
      if open {
        if ptr >= RX_SIZE {
          FrameError();
        } else {
          buf[ptr] := c;
          ptr := ptr + 1;
        }
      } else {
        SerialOut(c);
      }
    }

    method TakeQuoted(c: byte)
      requires Valid() && magic && c != MAGIC
      modifies this, buf
      ensures Valid() && State() == Quoted(old(State()), c)
    {
      magic := false;
      if c == LITERAL {
        TakePlain(MAGIC);
      } else if c == FRAME_START {
        if ptr != 0 {
          FrameError();
        }
        open := true;
      } else if c == FRAME_END {
        if open {
          EndFrame();
        }
      } else if c != RESERVED && c != SERIAL_GAP && c != FRAME_GAP {
        if open {
          FrameError();
        }
        SerialOut(MAGIC);
        TakePlain(c);
      }
    }

    /** Takes the next chunk of bytes. Every intact frame goes to the bus, unless it is for the bridge. */
    method Push(data: seq<byte>)
      requires Valid()
      modifies this, buf
      ensures Valid() && State() == FeedAll(old(State()), data)
      ensures |handled| == |ReceivedIn(events)| && forall k :: 0 <= k < |handled| ==>
        var f := ReceivedIn(events)[k];
        && (Intact(f) && !Addressed(f, bridge) ==> handled[k] == ToBus(f[..f[2] as int + 12]))
        && (Intact(f) && Addressed(f, bridge) ==> handled[k] == ForBridge(f[..f[2] as int + 12]))
        && (!Intact(f) ==> handled[k].Short? || handled[k].BadCrc?)
    {
      for i := 0 to |data|
        invariant Valid() && State() == FeedTo(old(State()), data, i)
      {
        var c := data[i];
        if magic {
          if c == MAGIC {
            if open {
              FrameError();
            } else {
              TakePlain(c);
            }
          } else {
            TakeQuoted(c);
          }
        } else if c == MAGIC {
          magic := true;
        } else {
          TakePlain(c);
        }
      }
    }
  }

  lemma {:induction false} ChecksumTail(s: seq<byte>, t: seq<byte>, i: nat)
    requires i + 2 <= |s| == |t| && s[..i] == t[..i] && s[i + 2..] == t[i + 2..]
    ensures Crc16.Checksum(AllBits(s)) == Crc16.Checksum(AllBits(t)) <==> s == t
  {
    var u, v := AllBits(s), AllBits(t);
    forall k | 0 <= k < |s| && (k < i || k >= i + 2)
      ensures s[k] == t[k]
    {
      if k < i {
        assert s[k] == s[..i][k] == t[..i][k] == t[k];
      } else {
        assert s[k] == s[i + 2..][k - i - 2] == t[i + 2..][k - i - 2] == t[k];
      }
    }
    assert u[..i] == v[..i] && u[i + 2..] == v[i + 2..];
    Crc16.DetectsTwoBytes(u, v, i);
    if u == v {
      forall k | 0 <= k < |s|
        ensures s[k] == t[k]
      {
        assert u[k] == v[k];
        BitsTellBytes(s[k], t[k]);
      }
    }
  }

  /**
   * From end to end: every frame that a sender accepted, but for those still queued, has reached the
   * receiver, in order; an intact one went to the bus unchanged, unless it was for the bridge itself.
   */
  lemma ReachesBus(s: Sender, r: Receiver, chunks: seq<seq<byte>>)
    requires s.Valid() && Joined(chunks) == s.sent
    requires r.Valid() && r.State() == FeedChunks(Got(Idle, []), chunks)
    ensures |r.handled| + |s.queue| == |s.frames|
    ensures forall k :: 0 <= k < |r.handled| ==>
      var f := s.frames[k];
      |f| >= 12 && r.handled[k] ==
        if !CrcOk(f) then BadCrc else if Addressed(f, r.bridge) then ForBridge(f) else ToBus(f)
  {
    NothingIsLost(s, chunks);
    forall k | 0 <= k < |r.handled|
      ensures var f := s.frames[k];
        |f| >= 12 && r.handled[k] ==
          if !CrcOk(f) then BadCrc else if Addressed(f, r.bridge) then ForBridge(f) else ToBus(f)
    {
      var f := s.frames[k];
      assert f == ReceivedIn(r.events)[k];
      assert IsFrame(f);
      assert f[..f[2] as int + 12] == f;
      JudgedByBytes(f, r.bridge);
    }
  }

  lemma SameTail(f: seq<byte>, g: seq<byte>)
    requires |f| == |g| >= 2 && f[0] == g[0] && f[1] == g[1]
    ensures f[2..] == g[2..] <==> f == g
  {
    assert f == [f[0], f[1]] + f[2..] && g == [g[0], g[1]] + g[2..];
  }

  lemma ChecksumTells(f: seq<byte>, g: seq<byte>, i: nat)
    requires |f| == |g| && 2 <= i && i + 2 <= |f| && f[..i] == g[..i] && f[i + 2..] == g[i + 2..] && CrcOk(f)
    ensures CrcOk(g) <==> f == g
  {
    assert g[0] == f[..i][0] && g[1] == f[..i][1];
    var s, t := f[2..], g[2..];
    assert s[..i - 2] == f[..i][2..] && t[..i - 2] == g[..i][2..];
    assert s[i - 2 + 2..] == f[i + 2..] && t[i - 2 + 2..] == g[i + 2..];
    ChecksumTail(s, t, i - 2);
    SameTail(f, g);
  }

  /** An intact frame that is damaged within two adjacent bytes behind its size is refused. */
  lemma DamagedIsRefused(f: seq<byte>, g: seq<byte>, bridge: seq<byte>, i: nat)
    requires IsFrame(f) && CrcOk(f)
    requires 3 <= i && i + 2 <= |f| == |g| && f[..i] == g[..i] && f[i + 2..] == g[i + 2..]
    ensures f != g <==> Judge(g, bridge) == BadCrc
  {
    assert g[2] == f[..i][2];
    ChecksumTells(f, g, i);
    assert g[..g[2] as int + FRAME_HEADER] == g;
    JudgedByBytes(g, bridge);
  }
}
