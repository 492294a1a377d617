/**
 * Packets in a frame: packing them, and the iterator of source/jd_util.c that walks a frame
 * by moving each packet to its front, with the place of the next one stored behind it.
 */
module FrameWalk {
  import opened Bytes

  /** Bytes that packing may fill, bytes of data in a frame, and those with the word behind them, which a move may read. */
  const PAYLOAD := 236
  const FRAME := 240
  const BUFFER := 244
  const MARK: byte := 255

  /** A frame's data as a whole, and how much of it packets have filled. */
  type Buffer = d: seq<byte> | |d| == BUFFER witness Zeros(BUFFER)
  type Fill = n: nat | n <= PAYLOAD && n % 4 == 0

  datatype Packet = Packet(index: byte, cmd: nat, data: seq<byte>)

  predicate PacketOk(p: Packet) {
    p.cmd < 0x1_0000 && |p.data| <= PAYLOAD - 4
  }

  function Align(n: nat): (r: nat)
    ensures n <= r < n + 4
  {
    n + 3 - (n + 3) % 4
  }

  /** Header and payload, without padding. */
  function Len(p: Packet): nat {
    |p.data| + 4
  }

  function PacketBytes(p: Packet): (s: seq<byte>)
    requires PacketOk(p)
    ensures |s| == Len(p)
  {
    [|p.data|, p.index, p.cmd % 256, p.cmd / 256] + p.data
  }

  /** The packet at the start of a buffer, as far as it is in the buffer. */
  function Read(d: seq<byte>): Packet
    requires |d| >= 4
  {
    Packet(d[1], d[2] + 256 * (d[3] as int), if d[0] + 4 <= |d| then d[4..4 + d[0]] else d[4..])
  }

  lemma ReadOfBytes(d: seq<byte>, p: Packet)
    requires PacketOk(p) && Len(p) <= |d| && d[..Len(p)] == PacketBytes(p)
    ensures d[0] == |p.data| && Read(d) == p
  {
    var s := PacketBytes(p);
    assert d[0] == s[0] && d[1] == s[1] && d[2] == s[2] && d[3] == s[3];
    assert d[4..Len(p)] == d[..Len(p)][4..] == s[4..] == p.data;
  }

  /** Where the `n`-th packet starts. */
  function Pos(pkts: seq<Packet>, n: nat): (p: nat)
    requires n <= |pkts|
    ensures p >= 4 * n
  {
    if n == 0 then 0 else Pos(pkts, n - 1) + Align(Len(pkts[n - 1]))
  }

  lemma {:induction false} PosMono(pkts: seq<Packet>, i: nat, n: nat)
    requires i <= n <= |pkts|
    ensures Pos(pkts, i) + 4 * (n - i) <= Pos(pkts, n)
  {
    if i < n {
      PosMono(pkts, i, n - 1);
    }
  }

  lemma {:induction false} PosSnoc(pkts: seq<Packet>, p: Packet, n: nat)
    requires n <= |pkts|
    ensures Pos(pkts + [p], n) == Pos(pkts, n)
  {
    if n > 0 {
      PosSnoc(pkts, p, n - 1);
    }
  }

  ghost predicate PacketAt(d: seq<byte>, pos: nat, p: Packet) {
    PacketOk(p) && pos + Len(p) <= |d| && d[pos..pos + Len(p)] == PacketBytes(p)
  }

  /** The packets from the `from`-th on are in their places. */
  ghost predicate PackedFrom(d: seq<byte>, pkts: seq<Packet>, from: nat) {
    forall k {:trigger PacketAt(d, Pos(pkts, k), pkts[k])} :: from <= k < |pkts| ==> PacketAt(d, Pos(pkts, k), pkts[k])
  }

  ghost predicate Packed(d: seq<byte>, size: nat, pkts: seq<Packet>) {
    size == Pos(pkts, |pkts|) <= PAYLOAD && size <= |d| && PackedFrom(d, pkts, 0)
  }

  /** Length of the packet at `p`, header included. */
  function LenAt(d: seq<byte>, p: nat): (n: nat)
    requires p < |d|
    ensures 4 <= n < 260
  {
    d[p] as int + 4
  }

  /** Where the iterator will look for the next packet. */
  function NextPtr(d: seq<byte>): (p: nat)
    requires |d| == BUFFER && LenAt(d, 0) + 1 < BUFFER
  {
    var oldsz := LenAt(d, 0);
    if d[oldsz] == MARK then d[oldsz + 1] else Align(oldsz)
  }

  /** There is a next packet as far as sizes and cursor tell. */
  predicate HasNext(d: seq<byte>, size: nat)
    requires |d| == BUFFER && size <= FRAME
  {
    && Align(LenAt(d, 0)) < size
    && (d[LenAt(d, 0)] == MARK ==> LenAt(d, 0) < NextPtr(d) < size)
    && NextPtr(d) + LenAt(d, NextPtr(d)) <= size
  }

  /** The place of a next packet can be told, whether that packet lies in the frame or not. */
  predicate HasCursor(d: seq<byte>, size: nat)
    requires |d| == BUFFER && size <= FRAME
  {
    var n := LenAt(d, 0);
    Align(n) < size && (d[n] == 255 ==> n < d[n + 1] < size)
  }

  /** The packets that lie one after the other from `p` on. */
  function Scan(d: seq<byte>, p: nat, size: nat): (ps: seq<Packet>)
    requires size <= |d|
    ensures ps != [] ==> p + 4 <= size
    decreases size - p
  {
    if p < size && p + LenAt(d, p) <= size then [PacketFrom(d, p)] + Scan(d, p + Align(LenAt(d, p)), size) else []
  }

  /** The packet at `p`. */
  function PacketFrom(d: seq<byte>, p: nat): Packet
    requires p + 4 <= |d|
  {
    Read(d[p..])
  }

  /**
   * The packets that a walk over a frame visits: the one at its front, and those that lie one after
   * the other from where the first step goes.
   */
  function Walked(d: seq<byte>, size: nat): (ps: seq<Packet>)
    requires |d| == BUFFER && size <= FRAME
    ensures ps != []
  {
    [Read(d)] + if HasNext(d, size) then Scan(d, NextPtr(d), size) else []
  }

  /**
   * The byte after the first packet is not taken for a cursor by mistake. Padding is never
   * written, so this depends on what the buffer held before.
   */
  predicate FirstPadOk(d: seq<byte>, size: nat)
    requires 0 < size <= |d|
  {
    var oldsz := LenAt(d, 0);
    Align(oldsz) + 4 <= size ==> d[oldsz] != MARK || d[oldsz + 1] == Align(oldsz)
  }

  lemma SizeByte(d: seq<byte>, pos: nat, p: Packet)
    requires PacketAt(d, pos, p)
    ensures LenAt(d, pos) == Len(p) && d[pos] != MARK && PacketFrom(d, pos) == p
  {
    assert d[pos] == d[pos..pos + Len(p)][0];
    assert d[pos..][..Len(p)] == d[pos..pos + Len(p)];
    ReadOfBytes(d[pos..], p);
  }

  /** Packets in their places are found one after the other. */
  lemma {:induction false} ScanPacked(d: seq<byte>, size: nat, pkts: seq<Packet>, i: nat)
    requires Packed(d, size, pkts) && i <= |pkts|
    ensures Scan(d, Pos(pkts, i), size) == pkts[i..]
    decreases |pkts| - i
  {
    if i == |pkts| {
      assert Scan(d, size, size) == [];
    } else {
      ScanPacked(d, size, pkts, i + 1);
      ScanPackedStep(d, size, pkts, i, Pos(pkts, i), Pos(pkts, i + 1));
    }
  }

  lemma ScanPackedStep(d: seq<byte>, size: nat, pkts: seq<Packet>, i: nat, p: nat, next: nat)
    requires Packed(d, size, pkts) && i < |pkts| && p == Pos(pkts, i) && next == Pos(pkts, i + 1)
    requires Scan(d, next, size) == pkts[i + 1..]
    ensures Scan(d, p, size) == pkts[i..]
  {
    PackedPlace(d, size, pkts, i);
    ScanStep(d, p, size, pkts[i], next);
  }

  lemma {:induction false} ScanUnfolds(d: seq<byte>, p: nat, size: nat, next: nat, pkt: Packet, ps: seq<Packet>, rest: seq<Packet>)
    requires p < size <= |d| && p + LenAt(d, p) <= size && next == p + Align(LenAt(d, p)) && PacketFrom(d, p) == pkt
    requires ps == Scan(d, p, size) && rest == Scan(d, p + Align(LenAt(d, p)), size)
    ensures ps == [pkt] + rest
  {
  }

  lemma {:induction false} ScanStep(d: seq<byte>, p: nat, size: nat, pkt: Packet, next: nat)
    requires p < |d| && p + LenAt(d, p) <= size <= |d| && next == p + Align(LenAt(d, p)) && PacketFrom(d, p) == pkt
    ensures Scan(d, p, size) == [pkt] + Scan(d, next, size)
  {
    ScanUnfolds(d, p, size, next, pkt, Scan(d, p, size), Scan(d, next, size));
  }

  lemma PackedPlace(d: seq<byte>, size: nat, pkts: seq<Packet>, k: nat)
    requires Packed(d, size, pkts) && k < |pkts|
    ensures var q := Pos(pkts, k);
      && q + Len(pkts[k]) <= size && PacketAt(d, q, pkts[k]) && PacketFrom(d, q) == pkts[k]
      && LenAt(d, q) == Len(pkts[k]) && d[q] != MARK
      && Pos(pkts, k + 1) == q + Align(Len(pkts[k]))
  {
    assert PacketAt(d, Pos(pkts, k), pkts[k]);
    SizeByte(d, Pos(pkts, k), pkts[k]);
    PosMono(pkts, k + 1, |pkts|);
  }

  /** A walk over a packed frame with a good first pad byte visits exactly its packets, in order. */
  lemma WalkedPacked(d: seq<byte>, size: nat, pkts: seq<Packet>)
    requires |d| == BUFFER && Packed(d, size, pkts) && pkts != [] && FirstPadOk(d, size)
    ensures Walked(d, size) == pkts
  {
    FirstOfPacked(d, size, pkts);
    if |pkts| == 1 {
      assert pkts == [pkts[0]];
    } else {
      ScanPacked(d, size, pkts, 1);
      FirstStepIff(d, size, pkts);
      assert pkts == [pkts[0]] + pkts[1..];
    }
  }

  lemma FirstOfPacked(d: seq<byte>, size: nat, pkts: seq<Packet>)
    requires |d| == BUFFER && Packed(d, size, pkts) && pkts != []
    ensures LenAt(d, 0) == Len(pkts[0]) && Read(d) == pkts[0] && Pos(pkts, 1) == Align(Len(pkts[0])) <= size
  {
    PackedPlace(d, size, pkts, 0);
    assert d[0..] == d;
    PosMono(pkts, 1, |pkts|);
  }

  lemma SameBytes(d: seq<byte>, d': seq<byte>, size: nat)
    requires size <= |d| && size <= |d'| && d'[..size] == d[..size]
    ensures forall j :: 0 <= j < size ==> d'[j] == d[j]
  {
    forall j | 0 <= j < size ensures d'[j] == d[j] {
      assert d'[j] == d'[..size][j] == d[..size][j];
    }
  }

  lemma PadSame(d: seq<byte>, d': seq<byte>, size: nat)
    requires 0 < size <= |d| && size <= |d'| && d'[..size] == d[..size] && FirstPadOk(d, size)
    ensures FirstPadOk(d', size)
  {
    SameBytes(d, d', size);
  }

  /** What is behind a frame does not matter: only its own bytes are on the wire. */
  lemma PackedSame(d: seq<byte>, d': seq<byte>, size: nat, pkts: seq<Packet>)
    requires Packed(d, size, pkts) && size <= |d'| && d'[..size] == d[..size]
    ensures Packed(d', size, pkts)
  {
    SameBytes(d, d', size);
    StillPacked(d, d', size, pkts);
  }

  /** The buffer after the packet at `ptr` was moved to the front and the cursor put behind it. */
  ghost predicate Moved(d: seq<byte>, d': seq<byte>, ptr: nat)
    requires |d| == BUFFER && ptr < FRAME
  {
    var newsz := LenAt(d, ptr);
    && |d'| == BUFFER && ptr + newsz <= FRAME
    && d'[..newsz] == d[ptr..ptr + newsz]
    && d'[newsz] == MARK && d'[newsz + 1] == ptr + Align(newsz)
    && d'[newsz + 4..] == d[newsz + 4..]
  }

  /** The cursor strictly increases. */
  lemma CursorGrows(d: seq<byte>, d': seq<byte>, ptr: nat)
    requires |d| == BUFFER && ptr < FRAME && Moved(d, d', ptr)
    ensures LenAt(d', 0) == LenAt(d, ptr) <= FRAME
    ensures NextPtr(d') == ptr + Align(LenAt(d, ptr)) > ptr
  {
    assert d'[0] == d'[..LenAt(d, ptr)][0] == d[ptr..ptr + LenAt(d, ptr)][0];
  }

  lemma {:induction false} ScanSame(d: seq<byte>, d': seq<byte>, p: nat, size: nat)
    requires p <= size <= |d| == |d'| && d'[p..] == d[p..]
    ensures Scan(d', p, size) == Scan(d, p, size)
    decreases size - p
  {
    if p < size && p + LenAt(d, p) <= size {
      var next := p + Align(LenAt(d, p));
      assert d'[p] == d'[p..][0] == d[p..][0] == d[p];
      if next <= size {
        assert d'[next..] == d'[p..][next - p..] == d[p..][next - p..] == d[next..];
        ScanSame(d, d', next, size);
      }
      ScanStep(d, p, size, PacketFrom(d, p), next);
      ScanStep(d', p, size, PacketFrom(d, p), next);
    }
  }

  lemma MovedRead(d: seq<byte>, d': seq<byte>, ptr: nat)
    requires |d| == BUFFER && ptr < FRAME && Moved(d, d', ptr)
    ensures Read(d') == PacketFrom(d, ptr)
  {
    var n := LenAt(d, ptr);
    assert d'[..n] == d[ptr..][..n];
    SameRead(d', d[ptr..], n);
  }

  lemma SameRead(d: seq<byte>, d': seq<byte>, n: nat)
    requires 4 <= n <= |d| && n <= |d'| && d[..n] == d'[..n] && n == LenAt(d', 0)
    ensures Read(d) == Read(d')
  {
    forall j | 0 <= j < n ensures d[j] == d'[j] {
      assert d[j] == d[..n][j] == d'[..n][j];
    }
    assert d[4..n] == d[..n][4..] == d'[4..n];
  }

  /**
   * One step of a walk, to wherever the cursor points: moving the packet to the front and hiding
   * the cursor behind it changes none of what is still to be visited.
   */
  lemma WalkedStep(d: seq<byte>, d': seq<byte>, size: nat)
    requires |d| == BUFFER && size <= FRAME && HasNext(d, size)
    requires NextPtr(d) < size && Moved(d, d', NextPtr(d))
    ensures Walked(d, size) == [Read(d)] + Walked(d', size)
  {
    var ptr := NextPtr(d);
    var next := ptr + Align(LenAt(d, ptr));
    MovedRead(d, d', ptr);
    MovedRest(d, d', ptr, next);
    if next <= size {
      ScanSame(d, d', next, size);
    }
    RestOfWalk(d', size, next);
    ScanStep(d, ptr, size, Read(d'), next);
  }

  lemma MovedRest(d: seq<byte>, d': seq<byte>, ptr: nat, next: nat)
    requires |d| == BUFFER && 4 <= ptr < FRAME && Moved(d, d', ptr) && next == ptr + Align(LenAt(d, ptr))
    ensures |d'| == BUFFER && LenAt(d', 0) <= FRAME && LenAt(d', 0) + 4 <= next
    ensures d'[LenAt(d', 0)] == MARK && d'[LenAt(d', 0) + 1] == next
    ensures d'[next..] == d[next..]
  {
    var n := LenAt(d, ptr);
    CursorGrows(d, d', ptr);
    assert d'[next..] == d'[n + 4..][next - n - 4..];
    assert d[next..] == d[n + 4..][next - n - 4..];
  }

  /** After a step, what remains lies one after the other from the hidden cursor on. */
  lemma RestOfWalk(d: seq<byte>, size: nat, next: nat)
    requires |d| == BUFFER && size <= FRAME && LenAt(d, 0) + 4 <= next && LenAt(d, 0) <= FRAME
    requires d[LenAt(d, 0)] == MARK && d[LenAt(d, 0) + 1] == next
    ensures Walked(d, size) == [Read(d)] + Scan(d, next, size)
  {
  }

  /** A frame buffer after a packet was pushed at `size`; the padding behind it is not written. */
  function Put(d: seq<byte>, size: nat, p: Packet): (d': seq<byte>)
    requires PacketOk(p) && size + Len(p) <= |d|
    ensures |d'| == |d|
    ensures forall j :: 0 <= j < |d| && !(size <= j < size + Len(p)) ==> d'[j] == d[j]
    ensures d'[size..size + Len(p)] == PacketBytes(p)
  {
    d[..size] + PacketBytes(p) + d[size + Len(p)..]
  }

  lemma PutIs(d: seq<byte>, d': seq<byte>, size: nat, p: Packet)
    requires PacketOk(p) && size + Len(p) <= |d| == |d'|
    requires d'[size..size + 4] == PacketBytes(p)[..4]
    requires forall j :: 0 <= j < |p.data| ==> d'[size + 4 + j] == p.data[j]
    requires forall j :: 0 <= j < size || size + Len(p) <= j < |d| ==> d'[j] == d[j]
    ensures d' == Put(d, size, p)
  {
    PushedLast(d', size, p);
    assert d' == d'[..size] + d'[size..size + Len(p)] + d'[size + Len(p)..];
  }

  class Frame {
    var size: nat
    var ackRequested: bool
    const data: array<byte>

    constructor (data: array<byte>, ackRequested: bool)
      requires data.Length == BUFFER
      ensures this.data == data && size == 0 && this.ackRequested == ackRequested
    {
      this.data := data;
      this.size, this.ackRequested := 0, ackRequested;
    }

    /** Starts over; the bytes stay. */
    method Reset()
      modifies this`size
      ensures size == 0
    {
      size := 0;
    }

    /** Clears everything. */
    method Clear()
      requires data.Length == BUFFER
      modifies this, data
      ensures size == 0 && !ackRequested && data[..] == Zeros(BUFFER)
    {
      size, ackRequested := 0, false;
      forall j | 0 <= j < data.Length {
        data[j] := 0;
      }
    }

    /** Reserves space for a packet and writes its header; returns where its payload goes, or -1. */
    method Reserve(index: byte, cmd: nat, len: nat) returns (dst: int)
      requires data.Length == BUFFER && size <= PAYLOAD && size % 4 == 0 && cmd < 0x1_0000
      modifies this`size, data
      ensures dst == -1 <==> len + 4 > PAYLOAD - old(size)
      ensures dst == -1 ==> size == old(size) && data[..] == old(data[..])
      ensures dst != -1 ==>
        && dst == old(size) + 4 && size == old(size) + Align(len + 4) <= PAYLOAD
        && data[old(size)..dst] == [len, index, cmd % 256, cmd / 256]
        && forall j :: 0 <= j < BUFFER && !(old(size) <= j < dst) ==> data[j] == old(data[j])
    {
      if len + 4 > PAYLOAD - size {
        return -1;
      }
      dst := size;
      data[dst], data[dst + 1] := len, index;
      data[dst + 2], data[dst + 3] := cmd % 256, cmd / 256;
      dst := dst + 4;
      size := size + Align(len + 4);
    }

    /** Appends a packet: its header by the function above, its payload by the caller's copy; padding is left alone. */
    method Push(p: Packet) returns (ok: bool)
      requires PacketOk(p) && data.Length == BUFFER && size <= PAYLOAD && size % 4 == 0
      modifies this`size, data
      ensures ok <==> Len(p) <= PAYLOAD - old(size)
      ensures size == old(size) + if ok then Align(Len(p)) else 0
      ensures data[..] == if ok then Put(old(data[..]), old(size), p) else old(data[..])
    {
      ghost var before, at := data[..], size;
      var dst := Reserve(p.index, p.cmd, |p.data|);
      if dst == -1 {
        return false;
      }
      assert PacketBytes(p)[..4] == data[at..dst];
      ghost var hd := data[..];
      forall j | 0 <= j < |p.data| {
        data[dst + j] := p.data[j];
      }
      assert data[..][at..dst] == hd[at..dst];
      PutIs(before, data[..], at, p);
      return true;
    }

    /** Copies whole words left to right, as the overlapping move to the front needs. */
    method WordMove(src: nat, numbytes: nat)
      requires data.Length == BUFFER && src >= 4 && src + numbytes / 4 * 4 <= BUFFER
      modifies data
      ensures forall j :: 0 <= j < BUFFER ==>
        data[j] == if j < numbytes / 4 * 4 then old(data[src + j]) else old(data[j])
    {
      for k := 0 to numbytes / 4
        invariant forall j :: 0 <= j < BUFFER ==>
          data[j] == if j < 4 * k then old(data[src + j]) else old(data[j])
      {
        var s := src + 4 * k;
        data[4 * k], data[4 * k + 1], data[4 * k + 2], data[4 * k + 3] := data[s], data[s + 1], data[s + 2], data[s + 3];
      }
    }

    /** Where the next packet starts, or -1 at the end of the frame or for a bad cursor. */
    method Cursor() returns (ptr: int)
      requires data.Length == BUFFER && size <= FRAME
      ensures ptr == -1 || 4 <= ptr < size
      ensures ptr != -1 <==> HasCursor(data[..], size)
      ensures ptr != -1 ==> LenAt(data[..], 0) + 1 < BUFFER && ptr == NextPtr(data[..])
      ensures HasNext(data[..], size) <==> ptr != -1 && ptr + LenAt(data[..], ptr) <= size
    {
      var oldsz := data[0] as int + 4;
      if Align(oldsz) >= size {
        return -1;
      }
      if data[oldsz] == MARK {
        ptr := data[oldsz + 1];
        if ptr >= size {
          return -1;
        }
        if ptr <= oldsz {
          return -1;
        }
      } else {
        ptr := Align(oldsz);
      }
    }

    /** Moves the packet at `ptr` to the front and stores the place of the one after it. */
    method MoveToFront(ptr: nat)
      requires data.Length == BUFFER && 4 <= ptr < FRAME && ptr + LenAt(data[..], ptr) <= FRAME
      modifies data
      ensures Moved(old(data[..]), data[..], ptr)
    {
      var newsz := data[ptr] as int + 4;
      WordMove(ptr, newsz + 3);
      data[newsz], data[newsz + 1] := MARK, ptr + Align(newsz);
    }

    /**
     * Moves to the next packet of any frame, well formed or not; false at the end. The request for an ACK
     * is dropped with the first cursor that can be followed, even if the packet there is too long for the frame.
     */
    method Shift() returns (r: bool)
      requires data.Length == BUFFER && size <= FRAME
      modifies this`ackRequested, data
      ensures Shifted(old(data[..]), data[..], size, r)
      ensures ackRequested == (old(ackRequested) && !old(HasCursor(data[..], size)))
      ensures r ==> !ackRequested
    {
      var ptr := Cursor();
      if ptr == -1 {
        return false;
      }
      ackRequested := false;
      if ptr + (data[ptr] as int + 4) > size {
        return false;
      }
      MoveToFront(ptr);
      return true;
    }

    /** Takes the packet at the front of a frame of which `rest` is to be visited, and moves on. */
    method Next(ghost rest: seq<Packet>) returns (p: Packet, more: bool)
      requires data.Length == BUFFER && Remains(data[..], size, rest)
      modifies this`ackRequested, data
      ensures rest != [] && p == rest[0] && (more <==> |rest| > 1)
      ensures more ==> !ackRequested && Remains(data[..], size, rest[1..])
    {
      ghost var d := data[..];
      p := Read(data[..]);
      more := Shift();
      ShiftedWalk(d, data[..], size, more, rest);
    }

    /** Visits the packets of any frame, well formed or not. */
    method Walk() returns (visited: seq<Packet>)
      requires data.Length == BUFFER && size <= FRAME
      modifies this`ackRequested, data
      ensures visited == Walked(old(data[..]), size)
    {
      ghost var rest := Walked(data[..], size);
      ghost var all := rest;
      visited := [];
      var more := true;
      while more
        invariant all == visited + rest && more == (rest != [])
        invariant more ==> Remains(data[..], size, rest)
        decreases |rest|
      {
        var p;
        p, more := Next(rest);
        visited, rest := visited + [p], rest[1..];
      }
    }
  }

  /** What is still to be visited, the packet at the front included. */
  ghost predicate Remains(d: seq<byte>, size: nat, rest: seq<Packet>) {
    |d| == BUFFER && size <= FRAME && rest == Walked(d, size)
  }

  /** What a step of the iterator does to a frame buffer. */
  ghost predicate Shifted(d: seq<byte>, d': seq<byte>, size: nat, r: bool)
    requires |d| == |d'| == BUFFER && size <= FRAME
  {
    && r == HasNext(d, size)
    && if r then NextPtr(d) < size && Moved(d, d', NextPtr(d)) else d' == d
  }

  lemma ShiftedWalk(d: seq<byte>, d': seq<byte>, size: nat, more: bool, rest: seq<Packet>)
    requires |d| == |d'| == BUFFER && size <= FRAME && Shifted(d, d', size, more) && Remains(d, size, rest)
    ensures rest != [] && rest[0] == Read(d)
    ensures if more then |rest| > 1 && Remains(d', size, rest[1..]) else |rest| == 1
  {
    if more {
      WalkedStep(d, d', size);
    }
  }

  lemma {:induction false} PosAligned(pkts: seq<Packet>, n: nat)
    requires n <= |pkts|
    ensures Pos(pkts, n) % 4 == 0
  {
    if n > 0 {
      PosAligned(pkts, n - 1);
    }
  }

  /** A pushed packet extends the packed ones by itself. */
  lemma PushedIsPacked(d: seq<byte>, size: nat, pkts: seq<Packet>, p: Packet)
    requires Packed(d, size, pkts) && PacketOk(p) && size + Align(Len(p)) <= PAYLOAD <= |d|
    ensures Packed(Put(d, size, p), size + Align(Len(p)), pkts + [p])
  {
    var d', pkts' := Put(d, size, p), pkts + [p];
    StillPacked(d, d', size, pkts);
    PackedMore(d', size, pkts, p);
  }

  /** Packets stay in their places when nothing before `size` changes. */
  lemma StillPacked(d: seq<byte>, d': seq<byte>, size: nat, pkts: seq<Packet>)
    requires Packed(d, size, pkts) && size <= |d'| && forall j :: 0 <= j < size ==> d'[j] == d[j]
    ensures Packed(d', size, pkts)
  {
    forall k | 0 <= k < |pkts|
      ensures PacketAt(d', Pos(pkts, k), pkts[k])
    {
      PackedPlace(d, size, pkts, k);
      PushedEarlier(d, d', Pos(pkts, k), pkts[k], size);
    }
  }

  lemma PackedMore(d: seq<byte>, size: nat, pkts: seq<Packet>, p: Packet)
    requires Packed(d, size, pkts) && PacketAt(d, size, p) && size + Align(Len(p)) <= PAYLOAD <= |d|
    ensures Packed(d, size + Align(Len(p)), pkts + [p])
  {
    PosSnoc(pkts, p, |pkts|);
    forall k | 0 <= k < |pkts| + 1
      ensures PacketAt(d, Pos(pkts + [p], k), (pkts + [p])[k])
    {
      PosSnoc(pkts, p, k);
    }
  }

  lemma PushedLast(d: seq<byte>, size: nat, p: Packet)
    requires PacketOk(p) && size + Len(p) <= |d| && d[size..size + 4] == PacketBytes(p)[..4]
    requires forall j :: 0 <= j < |p.data| ==> d[size + 4 + j] == p.data[j]
    ensures PacketAt(d, size, p)
  {
    assert d[size..size + Len(p)] == d[size..size + 4] + d[size + 4..size + Len(p)];
    assert d[size + 4..size + Len(p)] == p.data;
  }

  lemma PushedEarlier(d: seq<byte>, d': seq<byte>, q: nat, p: Packet, size: nat)
    requires PacketAt(d, q, p) && q + Len(p) <= size <= |d| && size <= |d'|
    requires forall j :: 0 <= j < size ==> d'[j] == d[j]
    ensures PacketAt(d', q, p)
  {
    assert d'[q..q + Len(p)] == d[q..q + Len(p)];
  }

  /** The first step of a walk goes to the second packet exactly when the byte after the first one allows it. */
  lemma FirstStepIff(d: seq<byte>, size: nat, pkts: seq<Packet>)
    requires |d| == BUFFER && Packed(d, size, pkts) && |pkts| >= 2
    ensures LenAt(d, 0) + 1 < BUFFER && size > 0
    ensures HasNext(d, size) && NextPtr(d) == Pos(pkts, 1) <==> FirstPadOk(d, size)
  {
    FirstOfPacked(d, size, pkts);
    PackedPlace(d, size, pkts, 1);
    FirstStepOf(d, size, LenAt(d, 0), Align(LenAt(d, 0)));
  }

  lemma FirstStepOf(d: seq<byte>, size: nat, oldsz: nat, next: nat)
    requires |d| == BUFFER && size <= PAYLOAD && oldsz == LenAt(d, 0) && next == Align(oldsz) && next + 4 <= size
    requires d[next] != MARK && next + LenAt(d, next) <= size
    ensures HasNext(d, size) && NextPtr(d) == next <==> FirstPadOk(d, size)
  {
  }

  /** A first packet that needs no padding is always followed properly, as is one that is the only one. */
  lemma AlignedPadOk(d: seq<byte>, size: nat, pkts: seq<Packet>)
    requires |d| == BUFFER && Packed(d, size, pkts) && pkts != []
    requires |pkts| > 1 ==> |pkts[0].data| % 4 == 0
    ensures size > 0 && FirstPadOk(d, size)
  {
    FirstOfPacked(d, size, pkts);
    if |pkts| > 1 {
      PackedPlace(d, size, pkts, 1);
    }
  }

  /** Two packets pushed into a frame buffer that was used before. */
  function PutTwo(d: seq<byte>, p: Packet, q: Packet): (d': seq<byte>)
    requires PacketOk(p) && PacketOk(q) && Align(Len(p)) + Align(Len(q)) <= |d|
    ensures |d'| == |d|
  {
    Put(Put(d, 0, p), Align(Len(p)), q)
  }

  lemma PutTwoPacked(d: seq<byte>, p: Packet, q: Packet)
    requires |d| == BUFFER && PacketOk(p) && PacketOk(q) && Align(Len(p)) + Align(Len(q)) <= PAYLOAD
    ensures Packed(PutTwo(d, p, q), Align(Len(p)) + Align(Len(q)), [p, q])
  {
    assert Packed(d, 0, []);
    PushedIsPacked(d, 0, [], p);
    assert [] + [p] == [p] && [p] + [q] == [p, q];
    PushedIsPacked(Put(d, 0, p), Align(Len(p)), [p], q);
  }

  lemma PutTwoBytes(d: seq<byte>, p: Packet, q: Packet, n: nat, next: nat)
    requires |d| == BUFFER && PacketOk(p) && PacketOk(q) && n == Len(p) && next == Align(n) && next + Align(Len(q)) <= PAYLOAD
    ensures var d' := PutTwo(d, p, q);
      && d'[0] == |p.data| && d'[next] == |q.data|
      && forall j :: n <= j < next ==> d'[j] == d[j]
  {
    var d1 := Put(d, 0, p);
    var d2 := Put(d1, next, q);
    assert d1[0] == d1[0..n][0] == PacketBytes(p)[0];
    assert d2[next] == d2[next..next + Len(q)][0] == PacketBytes(q)[0];
  }

  /**
   * Whether a walk goes from the first to the second packet, by what the frame held before: the first
   * pad byte must not be 0xff, unless the byte behind it, which is the second packet's size when there
   * is only one pad byte, happens to be the right cursor.
   */
  lemma LeftOverIff(d: seq<byte>, p: Packet, q: Packet)
    requires |d| == BUFFER && PacketOk(p) && PacketOk(q) && Align(Len(p)) + Align(Len(q)) <= PAYLOAD
    ensures var d', n, size := PutTwo(d, p, q), Len(p), Align(Len(p)) + Align(Len(q));
      && LenAt(d', 0) + 1 < BUFFER
      && (HasNext(d', size) && NextPtr(d') == Align(n) <==>
            n % 4 == 0 || d[n] != MARK || (if n % 4 == 3 then |q.data| else d[n + 1]) == Align(n))
  {
    var n, next := Len(p), Align(Len(p));
    PutTwoPacked(d, p, q);
    assert Pos([p, q], 1) == Pos([p, q], 0) + Align(Len(p));
    FirstStepIff(PutTwo(d, p, q), next + Align(Len(q)), [p, q]);
    PutTwoBytes(d, p, q, n, next);
    LeftOverPad(d, PutTwo(d, p, q), next + Align(Len(q)), n, |q.data|);
  }

  lemma LeftOverPad(d: seq<byte>, d': seq<byte>, size: nat, n: nat, second: nat)
    requires |d| == |d'| == BUFFER && Align(n) + 4 <= size <= PAYLOAD
    requires LenAt(d', 0) == n && d'[Align(n)] == second < MARK && forall j :: n <= j < Align(n) ==> d'[j] == d[j]
    ensures FirstPadOk(d', size) <==>
      n % 4 == 0 || d[n] != MARK || (if n % 4 == 3 then second else d[n + 1]) == Align(n)
  {
    if n % 4 != 0 {
      assert d'[n] == d[n];
      if n % 4 != 3 {
        assert d'[n + 1] == d[n + 1];
      }
    }
  }

  /** Left-over bytes 0xff can end a walk after the first of two packets. */
  lemma BadPadding(d: seq<byte>, p: Packet, q: Packet)
    requires |d| == BUFFER && PacketOk(p) && PacketOk(q) && Align(Len(p)) + Align(Len(q)) <= PAYLOAD
    requires 0 < Len(p) % 4 < 3 && d[Len(p)] == d[Len(p) + 1] == MARK
    ensures Walked(PutTwo(d, p, q), Align(Len(p)) + Align(Len(q))) == [p]
  {
    PutTwoPacked(d, p, q);
    FirstOfPacked(PutTwo(d, p, q), Align(Len(p)) + Align(Len(q)), [p, q]);
    PutTwoBytes(d, p, q, Len(p), Align(Len(p)));
    StopsAtMarks(PutTwo(d, p, q), Align(Len(p)) + Align(Len(q)), Len(p));
  }

  lemma StopsAtMarks(d: seq<byte>, size: nat, n: nat)
    requires |d| == BUFFER && size <= PAYLOAD && LenAt(d, 0) == n && n + 1 < BUFFER && d[n] == d[n + 1] == MARK
    ensures Walked(d, size) == [Read(d)]
  {
  }
}
