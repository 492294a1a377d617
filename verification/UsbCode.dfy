/**
 * The byte code that source/jd_usb.c speaks over USB, and what its receiver makes of any bytes.
 * The quote bytes are those of the USB bridge service; only their being distinct matters here.
 */
module UsbCode {
  import opened Bytes

  const MAGIC: byte := 0xFE
  const LITERAL: byte := 0xF8
  const RESERVED: byte := 0xF9
  const SERIAL_GAP: byte := 0xFA
  const FRAME_GAP: byte := 0xFB
  const FRAME_START: byte := 0xFC
  const FRAME_END: byte := 0xFD

  /** Bytes in the receive buffer, and in the largest frame. */
  const RX_SIZE := 252

  // ---------------------------------------------------------------- what is sent

  datatype Item = Frame(bytes: seq<byte>) | Log(b: byte) | Gap

  function Escape(b: byte): seq<byte> {
    if b == MAGIC then [MAGIC, LITERAL] else [b]
  }

  /** The first `n` bytes of `f` as they are sent inside a frame. */
  function Stuff(f: seq<byte>, n: nat): seq<byte>
    requires n <= |f|
  {
    if n == 0 then [] else Stuff(f, n - 1) + Escape(f[n - 1])
  }

  function Opening(): seq<byte> { [MAGIC, FRAME_START] }
  function Closing(): seq<byte> { [MAGIC, FRAME_END] }

  function Encode(item: Item): seq<byte> {
    match item
    case Frame(f) => Opening() + Stuff(f, |f|) + Closing()
    case Log(b) => Escape(b)
    case Gap => [MAGIC, FRAME_GAP]
  }

  function Stream(items: seq<Item>): seq<byte> {
    if |items| == 0 then [] else Stream(items[..|items| - 1]) + Encode(items[|items| - 1])
  }

  // ---------------------------------------------------------------- what is received

  datatype Event = Serial(b: byte) | Received(bytes: seq<byte>)

  /** The receiver between two bytes: last byte was a magic one, inside a frame, its bytes so far. */
  datatype Rx = Rx(magic: bool, open: bool, buf: seq<byte>)

  datatype Got = Got(rx: Rx, events: seq<Event>)

  const Idle := Rx(false, false, [])

  ghost predicate Reachable(rx: Rx) {
    |rx.buf| <= RX_SIZE && (!rx.open ==> rx.buf == [])
  }

  function Serials(s: seq<byte>): (r: seq<Event>)
    ensures |r| == |s| && forall i :: 0 <= i < |r| ==> r[i] == Serial(s[i])
  {
    seq(|s|, i requires 0 <= i < |s| => Serial(s[i]))
  }

  /** Leaves the frame; what it held is passed on as serial data. */
  function Broken(g: Got): Got {
    Got(Rx(g.rx.magic, false, []), g.events + Serials(g.rx.buf))
  }

  /** A byte that is not part of a quote. */
  function Plain(g: Got, c: byte): Got {
    if g.rx.open then
      if |g.rx.buf| >= RX_SIZE then Broken(g) else g.(rx := g.rx.(buf := g.rx.buf + [c]))
    else
      g.(events := g.events + [Serial(c)])
  }

  /** The byte after a magic one, other than magic. */
  function Quoted(g: Got, c: byte): Got {
    var h := g.(rx := g.rx.(magic := false));
    if c == LITERAL then Plain(h, MAGIC)
    else if c == FRAME_START then
      var k := if h.rx.buf != [] then Broken(h) else h;
      k.(rx := k.rx.(open := true))
    else if c == FRAME_END then
      if h.rx.open then Got(Idle, h.events + [Received(h.rx.buf)]) else h
    else if c == RESERVED || c == SERIAL_GAP || c == FRAME_GAP then h
    else
      var k := if h.rx.open then Broken(h) else h;
      Plain(k.(events := k.events + [Serial(MAGIC)]), c)
  }

  function Feed(g: Got, c: byte): Got {
    if g.rx.magic then
      if c == MAGIC then
        if g.rx.open then Broken(g) else Plain(g, c)
      else Quoted(g, c)
    else if c == MAGIC then g.(rx := g.rx.(magic := true))
    else Plain(g, c)
  }

  /** The receiver after the first `n` bytes of `s`. */
  function FeedTo(g: Got, s: seq<byte>, n: nat): Got
    requires n <= |s|
  {
    if n == 0 then g else Feed(FeedTo(g, s, n - 1), s[n - 1])
  }

  function FeedAll(g: Got, s: seq<byte>): Got {
    FeedTo(g, s, |s|)
  }

  // ---------------------------------------------------------------- chunks

  lemma {:induction false} FeedPrefix(g: Got, s: seq<byte>, t: seq<byte>, n: nat)
    requires n <= |s| && n <= |t| && forall i :: 0 <= i < n ==> s[i] == t[i]
    ensures FeedTo(g, s, n) == FeedTo(g, t, n)
  {
    if n > 0 {
      FeedPrefix(g, s, t, n - 1);
    }
  }

  lemma {:induction false} FeedRest(g: Got, s: seq<byte>, t: seq<byte>, u: seq<byte>, n: nat)
    requires u == s + t && n <= |t|
    ensures FeedTo(g, u, |s| + n) == FeedTo(FeedAll(g, s), t, n)
  {
    if n == 0 {
      FeedPrefix(g, u, s, |s|);
    } else {
      FeedRest(g, s, t, u, n - 1);
      assert u[|s| + n - 1] == t[n - 1];
    }
  }

  lemma FeedMore(g: Got, s: seq<byte>, t: seq<byte>)
    ensures FeedAll(g, s + t) == FeedAll(FeedAll(g, s), t)
  {
    FeedRest(g, s, t, s + t, |t|);
  }

  lemma FeedOne(g: Got, c: byte)
    ensures FeedAll(g, [c]) == Feed(g, c)
  {
    assert FeedTo(g, [c], 0) == g;
  }

  lemma FeedTwo(g: Got, c: byte, d: byte)
    ensures FeedAll(g, [c, d]) == Feed(Feed(g, c), d)
  {
    assert FeedTo(g, [c, d], 0) == g;
    assert FeedTo(g, [c, d], 1) == Feed(g, c);
  }

  function Joined(chunks: seq<seq<byte>>): seq<byte> {
    if |chunks| == 0 then [] else Joined(chunks[..|chunks| - 1]) + chunks[|chunks| - 1]
  }

  function FeedChunks(g: Got, chunks: seq<seq<byte>>): Got {
    if |chunks| == 0 then g else FeedAll(FeedChunks(g, chunks[..|chunks| - 1]), chunks[|chunks| - 1])
  }

  /** It does not matter how the bytes are cut into chunks. */
  lemma {:induction false} ChunksDoNotMatter(g: Got, chunks: seq<seq<byte>>)
    ensures FeedChunks(g, chunks) == FeedAll(g, Joined(chunks))
  {
    if |chunks| > 0 {
      var most := chunks[..|chunks| - 1];
      ChunksDoNotMatter(g, most);
      FeedMore(g, Joined(most), chunks[|chunks| - 1]);
    }
  }

  // ---------------------------------------------------------------- frames

  lemma {:induction false} ReachableKept(g: Got, s: seq<byte>, n: nat)
    requires Reachable(g.rx) && n <= |s|
    ensures Reachable(FeedTo(g, s, n).rx)
  {
    if n > 0 {
      ReachableKept(g, s, n - 1);
    }
  }

  /** The opening of a frame is recognised in every state; what was unfinished becomes serial data. */
  function Interrupted(rx: Rx): seq<Event> {
    if rx.magic && !rx.open then [Serial(MAGIC)] else Serials(rx.buf)
  }

  lemma OpeningResyncs(g: Got)
    requires Reachable(g.rx)
    ensures FeedAll(g, Opening()) == Got(Rx(false, true, []), g.events + Interrupted(g.rx))
  {
    FeedTwo(g, MAGIC, FRAME_START);
    var h := Feed(g, MAGIC);
    assert g.events + [] == g.events;
    assert g.rx.buf == [] ==> Serials(g.rx.buf) == [];
  }

  lemma EscapeStores(g: Got, b: byte)
    requires g.rx.open && !g.rx.magic && |g.rx.buf| < RX_SIZE
    ensures FeedAll(g, Escape(b)) == g.(rx := g.rx.(buf := g.rx.buf + [b]))
  {
    if b == MAGIC {
      FeedTwo(g, MAGIC, LITERAL);
    } else {
      FeedOne(g, b);
    }
  }

  lemma {:induction false} StuffStores(g: Got, f: seq<byte>, n: nat)
    requires n <= |f| && n <= RX_SIZE
    requires g.rx == Rx(false, true, [])
    ensures FeedAll(g, Stuff(f, n)) == Got(Rx(false, true, f[..n]), g.events)
  {
    if n > 0 {
      StuffStores(g, f, n - 1);
      FeedMore(g, Stuff(f, n - 1), Escape(f[n - 1]));
      EscapeStores(Got(Rx(false, true, f[..n - 1]), g.events), f[n - 1]);
      assert f[..n] == f[..n - 1] + [f[n - 1]];
    }
  }

  lemma ClosingDelivers(g: Got)
    requires g.rx.open && !g.rx.magic
    ensures FeedAll(g, Closing()) == Got(Idle, g.events + [Received(g.rx.buf)])
  {
    FeedTwo(g, MAGIC, FRAME_END);
  }

  lemma PartialFrame(g: Got, f: seq<byte>, n: nat)
    requires Reachable(g.rx) && n <= |f| && n <= RX_SIZE
    ensures FeedAll(g, Opening() + Stuff(f, n)) == Got(Rx(false, true, f[..n]), g.events + Interrupted(g.rx))
  {
    FeedMore(g, Opening(), Stuff(f, n));
    OpeningResyncs(g);
    StuffStores(FeedAll(g, Opening()), f, n);
  }

  /** Whatever came before, one complete frame is received exactly, and the receiver is idle after it. */
  lemma FrameResyncs(g: Got, f: seq<byte>)
    requires Reachable(g.rx) && |f| <= 252
    ensures FeedAll(g, Encode(Frame(f))) == Got(Idle, g.events + Interrupted(g.rx) + [Received(f)])
  {
    PartialFrame(g, f, |f|);
    assert f[..|f|] == f;
    FeedMore(g, Opening() + Stuff(f, |f|), Closing());
    ClosingDelivers(FeedAll(g, Opening() + Stuff(f, |f|)));
  }

  lemma EscapeIsSerial(g: Got, b: byte)
    requires !g.rx.open && !g.rx.magic
    ensures FeedAll(g, Escape(b)) == g.(events := g.events + [Serial(b)])
  {
    if b == MAGIC {
      FeedTwo(g, MAGIC, LITERAL);
    } else {
      FeedOne(g, b);
    }
  }

  lemma {:induction false} StuffSpills(g: Got, f: seq<byte>, n: nat)
    requires RX_SIZE < n <= |f| && g.rx == Rx(false, true, [])
    ensures FeedAll(g, Stuff(f, n))
         == Got(Idle, g.events + Serials(f[..RX_SIZE]) + Serials(f[RX_SIZE + 1..n]))
  {
    FeedMore(g, Stuff(f, n - 1), Escape(f[n - 1]));
    if n == RX_SIZE + 1 {
      StuffStores(g, f, RX_SIZE);
      var h := Got(Rx(false, true, f[..RX_SIZE]), g.events);
      if f[n - 1] == MAGIC {
        FeedTwo(h, MAGIC, LITERAL);
      } else {
        FeedOne(h, f[n - 1]);
      }
      assert Serials(f[RX_SIZE + 1..n]) == [];
    } else {
      StuffSpills(g, f, n - 1);
      EscapeIsSerial(FeedAll(g, Stuff(f, n - 1)), f[n - 1]);
      assert f[RX_SIZE + 1..n] == f[RX_SIZE + 1..n - 1] + [f[n - 1]];
      assert Serials(f[RX_SIZE + 1..n]) == Serials(f[RX_SIZE + 1..n - 1]) + [Serial(f[n - 1])];
    }
  }

  /** A frame that does not fit the buffer is not received: all but one of its bytes become serial data. */
  lemma OversizedIsLost(g: Got, f: seq<byte>)
    requires g.rx == Idle && |f| > 252
    ensures FeedAll(g, Encode(Frame(f)))
         == Got(Idle, g.events + Serials(f[..252]) + Serials(f[253..]))
  {
    FeedMore(g, Opening() + Stuff(f, |f|), Closing());
    FeedMore(g, Opening(), Stuff(f, |f|));
    OpeningResyncs(g);
    assert Interrupted(Idle) == [] && g.events + [] == g.events;
    StuffSpills(FeedAll(g, Opening()), f, |f|);
    assert f[RX_SIZE + 1..|f|] == f[RX_SIZE + 1..];
    FeedTwo(FeedAll(g, Opening() + Stuff(f, |f|)), MAGIC, FRAME_END);
  }

  /** Gap marks and the reserved code change nothing, inside a frame or outside, and neither does a closing outside. */
  lemma IgnoredCodes(g: Got, c: byte)
    requires Reachable(g.rx) && !g.rx.magic
    requires c == RESERVED || c == SERIAL_GAP || c == FRAME_GAP || (c == FRAME_END && !g.rx.open)
    ensures FeedAll(g, [MAGIC, c]) == g
  {
    FeedTwo(g, MAGIC, c);
  }

  /** A magic byte and a byte that is no code are serial data, and so is the frame they break. */
  lemma UnknownCode(g: Got, c: byte)
    requires Reachable(g.rx) && !g.rx.magic
    requires c !in {MAGIC, LITERAL, RESERVED, SERIAL_GAP, FRAME_GAP, FRAME_START, FRAME_END}
    ensures FeedAll(g, [MAGIC, c]) == Got(Idle, g.events + Serials(g.rx.buf) + [Serial(MAGIC), Serial(c)])
  {
    FeedTwo(g, MAGIC, c);
    assert g.events + Serials(g.rx.buf) + [Serial(MAGIC)] + [Serial(c)] == g.events + Serials(g.rx.buf) + [Serial(MAGIC), Serial(c)];
  }

  /** Two magic bytes break a frame; outside they stand for one. Either way the next byte is still taken for a code. */
  lemma DoubleMagic(g: Got)
    requires Reachable(g.rx) && !g.rx.magic
    ensures FeedAll(g, [MAGIC, MAGIC]) ==
      Got(Rx(true, false, []), g.events + if g.rx.open then Serials(g.rx.buf) else [Serial(MAGIC)])
  {
    FeedTwo(g, MAGIC, MAGIC);
  }

  // ---------------------------------------------------------------- whole streams

  function Heard(item: Item): seq<Event> {
    match item
    case Frame(f) => [Received(f)]
    case Log(b) => [Serial(b)]
    case Gap => []
  }

  function HeardAll(items: seq<Item>): seq<Event> {
    if |items| == 0 then [] else HeardAll(items[..|items| - 1]) + Heard(items[|items| - 1])
  }

  ghost predicate Sendable(items: seq<Item>) {
    forall i :: 0 <= i < |items| ==> items[i].Frame? ==> |items[i].bytes| <= RX_SIZE
  }

  lemma ItemDecodes(g: Got, item: Item)
    requires g.rx == Idle && (item.Frame? ==> |item.bytes| <= RX_SIZE)
    ensures FeedAll(g, Encode(item)) == Got(Idle, g.events + Heard(item))
  {
    match item
    case Frame(f) =>
      FrameResyncs(g, f);
      assert g.events + Interrupted(Idle) == g.events;
    case Log(b) => EscapeIsSerial(g, b);
    case Gap => FeedTwo(g, MAGIC, FRAME_GAP);
  }

  /** Every stream is received as what was sent, in order. */
  lemma {:induction false} StreamDecodes(g: Got, items: seq<Item>)
    requires g.rx == Idle && Sendable(items)
    ensures FeedAll(g, Stream(items)) == Got(Idle, g.events + HeardAll(items))
  {
    if |items| > 0 {
      var most, last := items[..|items| - 1], items[|items| - 1];
      StreamDecodes(g, most);
      FeedMore(g, Stream(most), Encode(last));
      ItemDecodes(Got(Idle, g.events + HeardAll(most)), last);
      assert g.events + HeardAll(most) + Heard(last) == g.events + HeardAll(items);
    } else {
      assert g.events + [] == g.events;
    }
  }

  /** What a sender has produced: whole items, then the first `ptr` bytes of frame `f` if `ptr > 0`. */
  function Produced(items: seq<Item>, f: seq<byte>, ptr: nat): seq<byte>
    requires ptr <= |f|
  {
    Stream(items) + if ptr > 0 then Opening() + Stuff(f, ptr) else []
  }

  lemma StreamGrows(items: seq<Item>, item: Item)
    ensures Stream(items + [item]) == Stream(items) + Encode(item)
    ensures HeardAll(items + [item]) == HeardAll(items) + Heard(item)
  {
    assert (items + [item])[..|items|] == items;
  }

  /**
   * In whatever chunks a sender's bytes arrive, the receiver has heard the finished items in order
   * and holds the bytes of the unfinished frame.
   */
  lemma ProducedDecodes(items: seq<Item>, f: seq<byte>, ptr: nat, chunks: seq<seq<byte>>)
    requires ptr <= |f| && ptr <= RX_SIZE && Sendable(items)
    requires Joined(chunks) == Produced(items, f, ptr)
    ensures FeedChunks(Got(Idle, []), chunks) == Got(Rx(false, ptr > 0, f[..ptr]), HeardAll(items))
  {
    ChunksDoNotMatter(Got(Idle, []), chunks);
    var g := Got(Idle, []);
    StreamDecodes(g, items);
    assert FeedAll(g, Stream(items)) == Got(Idle, HeardAll(items));
    if ptr > 0 {
      FeedMore(g, Stream(items), Opening() + Stuff(f, ptr));
      PartialFrame(Got(Idle, HeardAll(items)), f, ptr);
      assert Interrupted(Idle) == [];
    } else {
      assert Produced(items, f, 0) == Stream(items);
    }
  }
}
