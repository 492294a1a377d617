/**
 * The ring buffer of source/jd_queue.c: frames of different sizes, each stored in one piece,
 * with a wrap point that moves. It is a first-in first-out queue.
 */
module FrameQueue {
  import opened Bytes
  import FrameWalk

  const HEADER := 12
  /** Bytes that the smallest frame takes. */
  const SMALLEST := 16

  /** Bytes that a frame takes in the queue, from the size field in its third byte. */
  function FrmSize(f: seq<byte>): (n: nat)
    requires |f| >= 3
    ensures n >= HEADER && n % 4 == 0
    ensures f[2] != 0 ==> n >= SMALLEST
  {
    FrameWalk.Align(f[2] as int + HEADER)
  }

  /** A frame as it is handed to the queue, its padding included. */
  predicate IsFrame(f: seq<byte>) {
    |f| >= 3 && f[2] != 0 && |f| == FrmSize(f)
  }

  ghost predicate StoredAt(d: seq<byte>, p: nat, f: seq<byte>) {
    IsFrame(f) && p + |f| <= |d| && d[p..p + |f|] == f
  }

  /** Frame `k` of a run that ends at `end` with frame `hi - 1` is stored, right before the next one. */
  ghost predicate Link(d: seq<byte>, all: seq<seq<byte>>, addr: seq<nat>, hi: nat, end: nat, k: nat)
    requires k < hi <= |all| == |addr|
  {
    StoredAt(d, addr[k], all[k]) && addr[k] + |all[k]| == if k + 1 < hi then addr[k + 1] else end
  }

  /** The frames `lo` to `hi` of a history lie back to back from `start` to `end`. */
  ghost predicate Run(d: seq<byte>, all: seq<seq<byte>>, addr: seq<nat>, lo: nat, hi: nat, start: nat, end: nat)
    requires lo <= hi <= |all| == |addr|
  {
    && (if lo == hi then start == end else addr[lo] == start)
    && (forall k {:trigger Link(d, all, addr, hi, end, k)} :: lo <= k < hi ==> Link(d, all, addr, hi, end, k))
  }

  lemma {:induction false} RunBounds(d: seq<byte>, all: seq<seq<byte>>, addr: seq<nat>,
                                     lo: nat, hi: nat, start: nat, end: nat, k: nat)
    requires lo <= k < hi <= |all| == |addr| && Run(d, all, addr, lo, hi, start, end)
    ensures start <= addr[k] && addr[k] + |all[k]| <= end
    decreases hi - k
  {
    assert Link(d, all, addr, hi, end, k);
    RunStarts(d, all, addr, lo, hi, start, end, k);
    if k + 1 < hi {
      RunBounds(d, all, addr, lo, hi, start, end, k + 1);
    }
  }

  lemma {:induction false} RunStarts(d: seq<byte>, all: seq<seq<byte>>, addr: seq<nat>,
                                     lo: nat, hi: nat, start: nat, end: nat, k: nat)
    requires lo <= k < hi <= |all| == |addr| && Run(d, all, addr, lo, hi, start, end)
    ensures start <= addr[k]
    decreases k
  {
    if k > lo {
      RunStarts(d, all, addr, lo, hi, start, end, k - 1);
      assert Link(d, all, addr, hi, end, k - 1);
    }
  }

  lemma RunLength(d: seq<byte>, all: seq<seq<byte>>, addr: seq<nat>, lo: nat, hi: nat, start: nat, end: nat)
    requires lo <= hi <= |all| == |addr| && Run(d, all, addr, lo, hi, start, end)
    ensures lo < hi ==> start + HEADER <= end
    ensures lo == hi ==> start == end
  {
    if lo < hi {
      assert Link(d, all, addr, hi, end, lo);
      RunBounds(d, all, addr, lo, hi, start, end, lo);
    }
  }

  lemma LinkKept(d: seq<byte>, d': seq<byte>, all: seq<seq<byte>>, addr: seq<nat>, f: seq<byte>, a: nat,
                 hi: nat, end: nat, k: nat)
    requires k < hi <= |all| == |addr| && Link(d, all, addr, hi, end, k) && |d| == |d'|
    requires forall i :: addr[k] <= i < addr[k] + |all[k]| ==> d'[i] == d[i]
    ensures Link(d', all + [f], addr + [a], hi, end, k)
  {
    var p := addr[k];
    assert d'[p..p + |all[k]|] == d[p..p + |all[k]|];
  }

  /** Writing outside a run, and growing the history, leaves the run alone. */
  lemma RunKept(d: seq<byte>, d': seq<byte>, all: seq<seq<byte>>, addr: seq<nat>, f: seq<byte>, a: nat,
                lo: nat, hi: nat, start: nat, end: nat)
    requires lo <= hi <= |all| == |addr| && Run(d, all, addr, lo, hi, start, end)
    requires |d| == |d'| && forall i :: start <= i < end && i < |d| ==> d'[i] == d[i]
    ensures Run(d', all + [f], addr + [a], lo, hi, start, end)
  {
    forall k | lo <= k < hi
      ensures Link(d', all + [f], addr + [a], hi, end, k)
    {
      assert Link(d, all, addr, hi, end, k);
      RunBounds(d, all, addr, lo, hi, start, end, k);
      LinkKept(d, d', all, addr, f, a, hi, end, k);
    }
  }

  /** A frame written right behind a run extends it. */
  lemma RunExtended(d: seq<byte>, d': seq<byte>, all: seq<seq<byte>>, addr: seq<nat>, f: seq<byte>,
                    lo: nat, start: nat, end: nat)
    requires lo <= |all| == |addr| && Run(d, all, addr, lo, |all|, start, end)
    requires |d| == |d'| && forall i :: start <= i < end && i < |d| ==> d'[i] == d[i]
    requires IsFrame(f) && end + |f| <= |d'| && d'[end..end + |f|] == f
    ensures Run(d', all + [f], addr + [end], lo, |all| + 1, start, end + |f|)
  {
    RunKept(d, d', all, addr, f, end, lo, |all|, start, end);
    var all', addr', n, end' := all + [f], addr + [end], |all| + 1, end + |f|;
    forall k | lo <= k < n
      ensures Link(d', all', addr', n, end', k)
    {
      if k < |all| {
        assert Link(d', all', addr', |all|, end, k);
      }
    }
  }

  /** A run without its first frame. */
  lemma RunDropped(d: seq<byte>, all: seq<seq<byte>>, addr: seq<nat>, lo: nat, hi: nat, start: nat, end: nat)
    requires lo < hi <= |all| == |addr| && Run(d, all, addr, lo, hi, start, end)
    ensures Run(d, all, addr, lo + 1, hi, start + |all[lo]|, end)
    ensures StoredAt(d, start, all[lo]) && start + |all[lo]| <= end
  {
    assert Link(d, all, addr, hi, end, lo);
    RunBounds(d, all, addr, lo, hi, start, end, lo);
    forall k | lo + 1 <= k < hi
      ensures Link(d, all, addr, hi, end, k)
    {
    }
  }

  class Queue {
    const data: array<byte>
    const size: nat
    var front: nat
    var back: nat
    var currSize: nat

    /** All frames ever pushed, where each was put, and how many are gone; `mid` is where the second run starts. */
    ghost var all: seq<seq<byte>>
    ghost var addr: seq<nat>
    ghost var gone: nat
    ghost var mid: nat

    /** All frames lie in one run; nothing is said about where the wrap point is. */
    ghost predicate Linear()
      reads this, data
    {
      && Shape() && front <= back
      && Run(data[..], all, addr, gone, |all|, front, back)
    }

    /** The frames lie in two runs, the older one up to the wrap point. */
    ghost predicate Wrapped()
      reads this, data
    {
      && Shape() && back < front && currSize % 4 == 0 && currSize >= SMALLEST
      && gone <= mid < |all|
      && Run(data[..], all, addr, gone, mid, front, currSize)
      && Run(data[..], all, addr, mid, |all|, 0, back)
    }

    ghost predicate Shape()
      reads this
    {
      && data.Length == size && front <= size && back <= size && currSize <= size
      && front % 4 == 0 && back % 4 == 0
      && |all| == |addr| && gone <= |all|
    }

    /** A queue that is not wrapped is sound if no frame can start at or behind the wrap point. */
    ghost predicate Valid()
      reads this, data
    {
      Wrapped() || (Linear() && size - currSize < SMALLEST)
    }

    /** The frames in the queue, oldest first. */
    ghost function Contents(): seq<seq<byte>>
      reads this
    {
      if gone <= |all| then all[gone..] else []
    }

    constructor (data: array<byte>)
      ensures Valid() && Contents() == [] && this.data == data && size == data.Length
    {
      this.data := data;
      size, currSize := data.Length, data.Length;
      front, back := 0, 0;
      all, addr, gone, mid := [], [], 0, 0;
    }

    /** Whether a frame that takes `n` bytes fits. */
    predicate WillFit(n: nat)
      reads this
    {
      if front <= back then back + n <= size || front > n else back + n < front
    }

    /** The `n` bytes from `p` on lie in the buffer, apart from every frame held, and do not reach `front`. */
    ghost predicate IsPlace(p: nat, n: nat)
      reads this
    {
      && p + n <= size && !(p < front <= p + n) && |all| == |addr|
      && forall k :: gone <= k < |all| ==> addr[k] + |all[k]| <= p || p + n <= addr[k]
    }

    /** There is such a place at the end of the newest frame, or at the start of the buffer. */
    ghost predicate HasPlace(n: nat)
      reads this
    {
      IsPlace(back, n) || IsPlace(0, n)
    }

    lemma BackIsEnd()
      requires (Valid() || Linear()) && Contents() != []
      ensures addr[|all| - 1] + |all[|all| - 1]| == back
    {
      var last := |all| - 1;
      assert Link(data[..], all, addr, |all|, back, last);
    }

    /** The places of the frames held. */
    lemma Held(k: nat)
      requires (Valid() || Linear()) && gone <= k < |all|
      ensures |all[k]| > 0
      ensures if front <= back then front <= addr[k] && addr[k] + |all[k]| <= back
              else if k < mid then front <= addr[k] else addr[k] + |all[k]| <= back
      ensures back < front ==> mid < |all| && addr[mid] == 0
    {
      if front <= back {
        RunBounds(data[..], all, addr, gone, |all|, front, back, k);
        assert Link(data[..], all, addr, |all|, back, k);
      } else if k < mid {
        RunBounds(data[..], all, addr, gone, mid, front, currSize, k);
        assert Link(data[..], all, addr, mid, currSize, k);
      } else {
        RunBounds(data[..], all, addr, mid, |all|, 0, back, k);
        assert Link(data[..], all, addr, |all|, back, k);
      }
    }

    /** The comparison of positions tells whether there is a place. */
    lemma WillFitIff(n: nat)
      requires (Valid() || Linear()) && n > 0
      ensures WillFit(n) <==> HasPlace(n)
      ensures front <= back ==> (IsPlace(back, n) <==> back + n <= size)
      ensures back < front ==> !IsPlace(0, n)
    {
      RunsInUse();
      forall k | gone <= k < |all|
        ensures |all[k]| > 0
        ensures if front <= back then front <= addr[k] && addr[k] + |all[k]| <= back
                else if k < mid then front <= addr[k] else addr[k] + |all[k]| <= back
      {
        Held(k);
      }
      if back < front {
        Held(mid);
      } else if gone < |all| {
        RunDropped(data[..], all, addr, gone, |all|, front, back);
        assert addr[gone] == front;
      }
    }

    /** An empty queue takes every frame of up to half its size, wherever the last one ended. */
    lemma EmptyTakesHalf(n: nat)
      requires (Valid() || Linear()) && Contents() == [] && 0 < n && 2 * n <= size
      ensures HasPlace(n)
    {
      RunsInUse();
      WillFitIff(n);
    }

    /**
     * Appends a frame, or leaves the queue as it is when there is no place for the frame. This works
     * wherever the wrap point is.
     */
    method Push(pkt: seq<byte>) returns (ret: int)
      requires (Valid() || Linear()) && IsFrame(pkt)
      modifies this, data
      ensures old(Valid()) ==> Valid()
      ensures old(Linear()) && old(back) + |pkt| <= size ==>
        Linear() && front == old(front) && back == old(back) + |pkt| && currSize == old(currSize)
      ensures ret == 0 <==> old(HasPlace(|pkt|))
      ensures ret != 0 ==> ret == if old(front) <= old(back) then -1 else -2
      ensures ret == 0 ==> Contents() == old(Contents()) + [pkt]
      ensures ret == 0 ==> addr == old(addr) + [if old(IsPlace(back, |pkt|)) then old(back) else 0]
      ensures ret != 0 ==> Contents() == old(Contents()) && data[..] == old(data[..])
      ensures old(Valid()) && old(Contents()) != [] ==> FrontPos() == old(FrontPos())
    {
      var n := FrmSize(pkt);
      ret := 0;
      WillFitIff(n);
      if Valid() {
        RunsInUse();
      }
      if front <= back {
        if back + n <= size {
          PushBehind(pkt);
        } else if front > n {
          PushAround(pkt);
        } else {
          ret := -1;
        }
      } else {
        if back + n < front {
          PushBehind(pkt);
        } else {
          ret := -2;
        }
      }
    }

    /** Stores a frame behind the last one. */
    method PushBehind(pkt: seq<byte>)
      requires (Linear() || Wrapped()) && IsFrame(pkt)
      requires if front <= back then back + |pkt| <= size else back + |pkt| < front
      modifies this`back, this`all, this`addr, data
      ensures if old(Linear()) then Linear() else Wrapped()
      ensures Contents() == old(Contents()) + [pkt] && back == old(back) + |pkt| && addr == old(addr) + [old(back)]
    {
      ghost var d := data[..];
      Store(back, pkt);
      if front <= back {
        RunExtended(d, data[..], all, addr, pkt, gone, front, back);
      } else {
        RunKept(d, data[..], all, addr, pkt, back, gone, mid, front, currSize);
        RunExtended(d, data[..], all, addr, pkt, mid, 0, back);
      }
      addr := addr + [back];
      back := back + |pkt|;
      all := all + [pkt];
    }

    /** Stores a frame at the start of the buffer and moves the wrap point to the end of the others. */
    method PushAround(pkt: seq<byte>)
      requires Linear() && IsFrame(pkt) && |pkt| < front
      modifies this`back, this`all, this`addr, this`mid, this`currSize, data
      ensures Wrapped() && Contents() == old(Contents()) + [pkt] && currSize == old(back) && addr == old(addr) + [0]
    {
      ghost var d := data[..];
      Store(0, pkt);
      RunKept(d, data[..], all, addr, pkt, 0, gone, |all|, front, back);
      RunSingle(data[..], all, addr, pkt);
      mid := |all|;
      currSize := back;
      addr := addr + [0];
      back := |pkt|;
      all := all + [pkt];
    }

    method Store(p: nat, pkt: seq<byte>)
      requires p + |pkt| <= data.Length
      modifies data
      ensures data[..][p..p + |pkt|] == pkt
      ensures forall i :: 0 <= i < data.Length && !(p <= i < p + |pkt|) ==> data[i] == old(data[i])
    {
      forall i | 0 <= i < |pkt| {
        data[p + i] := pkt[i];
      }
    }

    /** Where the source looks for the oldest frame, if there is one. */
    function FrontPos(): nat
      reads this
    {
      if front >= currSize then 0 else front
    }

    /** The place of the oldest frame, which in a sound queue lies there in one piece, or -1 when the queue is empty. */
    method Front() returns (p: int)
      requires Valid() || Linear()
      ensures p == -1 <==> Contents() == []
      ensures p != -1 ==> p == FrontPos()
      ensures p != -1 && (Valid() || front < currSize) ==> StoredAt(data[..], p, Contents()[0])
    {
      RunsInUse();
      if front != back {
        p := if front >= currSize then 0 else front;
      } else {
        p := -1;
      }
    }

    lemma RunsInUse()
      requires Valid() || Linear()
      ensures front == back <==> Contents() == []
      ensures Contents() != [] && (Valid() || front < currSize) ==> StoredAt(data[..], FrontPos(), Contents()[0])
      ensures Contents() != [] && front <= back ==> front + |Contents()[0]| <= back
      ensures front > back ==> front <= currSize && (front == currSize <==> gone == mid)
      ensures Contents() != [] && Valid() && front <= back ==> front < currSize
    {
      var d := data[..];
      if front <= back {
        RunLength(d, all, addr, gone, |all|, front, back);
        if gone < |all| {
          RunDropped(d, all, addr, gone, |all|, front, back);
        }
      } else {
        RunLength(d, all, addr, gone, mid, front, currSize);
        if gone < mid {
          RunDropped(d, all, addr, gone, mid, front, currSize);
        } else {
          RunDropped(d, all, addr, mid, |all|, 0, back);
        }
      }
    }

    /** Removes the oldest frame. */
    method Shift()
      requires (Valid() || (Linear() && front < currSize)) && Contents() != []
      modifies this
      ensures Contents() == old(Contents())[1..] && data[..] == old(data[..])
      ensures old(Valid()) ==> Valid()
      ensures old(Linear()) ==> Linear() && front == old(front + |Contents()[0]|) && currSize == old(currSize)
    {
      RunsInUse();
      var p := Front();
      var n := FrmSize(data[p..p + 3]);
      assert data[..][p..p + |Contents()[0]|][2] == data[p..p + 3][2];
      if front >= currSize {
        assert front == currSize;
        TurnAround(n);
      } else if front <= back {
        Advance(n);
      } else {
        AdvanceToWrap(n);
      }
    }

    /** The oldest frame was the first of the buffer. */
    method TurnAround(n: nat)
      requires Wrapped() && front == currSize && n == |Contents()[0]|
      modifies this`front, this`currSize, this`gone
      ensures Linear() && currSize == size && Contents() == old(Contents())[1..]
    {
      RunLength(data[..], all, addr, gone, mid, front, currSize);
      RunDropped(data[..], all, addr, mid, |all|, 0, back);
      front := n;
      currSize := size;
      gone := gone + 1;
    }

    method Advance(n: nat)
      requires Linear() && Contents() != [] && n == |Contents()[0]| && n % 4 == 0
      modifies this`front, this`gone
      ensures Linear() && front == old(front) + n && Contents() == old(Contents())[1..]
    {
      RunDropped(data[..], all, addr, gone, |all|, front, back);
      front := front + n;
      gone := gone + 1;
    }

    method AdvanceToWrap(n: nat)
      requires Wrapped() && front < currSize && n == |Contents()[0]| && n % 4 == 0
      modifies this`front, this`gone
      ensures Wrapped() && Contents() == old(Contents())[1..]
    {
      RunLength(data[..], all, addr, gone, mid, front, currSize);
      RunDropped(data[..], all, addr, gone, mid, front, currSize);
      front := front + n;
      gone := gone + 1;
    }

    /**
     * Empties the queue. The wrap point is not reset: the queue is sound afterwards exactly if no
     * frame fits behind it.
     */
    method Clear()
      requires Valid()
      modifies this
      ensures Linear() && Contents() == [] && front == back == 0 && currSize == old(currSize)
      ensures Valid() <==> size - currSize < SMALLEST
    {
      front, back := 0, 0;
      gone := |all|;
    }

    /**
     * When a frame fits behind the wrap point, a cleared queue does fail: fill it with frames up to
     * the wrap point, add one more and remove the others. The queue then holds the last frame, and
     * takes the first one, which is long gone, for it.
     */
    method ClearThenFail(fs: seq<seq<byte>>, g: seq<byte>) returns (p: int)
      requires Valid() && size - currSize >= |g| && IsFrame(g)
      requires fs != [] && (forall i :: 0 <= i < |fs| ==> IsFrame(fs[i])) && FilledBy(fs, |fs|) == currSize
      modifies this, data
      ensures Linear() && Contents() == [g] && p == 0 && StoredAt(data[..], 0, fs[0]) && front == currSize
    {
      Clear();
      Refill(fs, g);
      RunsInUse();
      ghost var d := data[..];
      assert StoredAt(d, 0, fs[0]);
      Drain(fs, g);
      p := Front();
    }

    /** Such frames always exist: clearing a wrapped queue is safe exactly when it leaves the queue sound. */
    method ClearFails() returns (p: int, g: seq<byte>)
      requires Valid() && size - currSize >= SMALLEST
      modifies this, data
      ensures Linear() && Contents() == [g] && 0 <= p && !StoredAt(data[..], p, g)
    {
      g := Dummy(SMALLEST, 1);
      p := ClearThenFail(FramesUpTo(currSize), g);
      assert data[..][0..SMALLEST][0] == 0;
    }

    method Refill(fs: seq<seq<byte>>, g: seq<byte>)
      requires Linear() && Contents() == [] && front == back == 0 && IsFrame(g)
      requires (forall i :: 0 <= i < |fs| ==> IsFrame(fs[i])) && FilledBy(fs, |fs|) + |g| <= size
      modifies this, data
      ensures Linear() && Contents() == fs + [g] && front == 0 && currSize == old(currSize)
    {
      for i := 0 to |fs|
        invariant Linear() && Contents() == fs[..i] && front == 0 && back == FilledBy(fs, i)
        invariant currSize == old(currSize)
      {
        FilledGrows(fs, i + 1, |fs|);
        WillFitIff(|fs[i]|);
        var r := Push(fs[i]);
      }
      WillFitIff(|g|);
      var r := Push(g);
    }

    method Drain(fs: seq<seq<byte>>, g: seq<byte>)
      requires Linear() && Contents() == fs + [g] && front == 0 && FilledBy(fs, |fs|) <= currSize
      requires forall i :: 0 <= i < |fs| ==> IsFrame(fs[i])
      modifies this
      ensures Linear() && Contents() == [g] && front == FilledBy(fs, |fs|)
      ensures currSize == old(currSize) && data[..] == old(data[..])
    {
      for i := 0 to |fs|
        invariant Linear() && Contents() == (fs + [g])[i..] && front == FilledBy(fs, i)
        invariant currSize == old(currSize) && data[..] == old(data[..])
      {
        FilledGrows(fs, i + 1, |fs|);
        assert Contents()[0] == fs[i];
        Shift();
      }
    }
  }

  /** Bytes that the first `n` frames take. */
  function FilledBy(fs: seq<seq<byte>>, n: nat): nat
    requires n <= |fs|
  {
    if n == 0 then 0 else FilledBy(fs, n - 1) + |fs[n - 1]|
  }

  lemma {:induction false} FilledGrows(fs: seq<seq<byte>>, m: nat, n: nat)
    requires m <= n <= |fs|
    ensures FilledBy(fs, m) <= FilledBy(fs, n)
  {
    if m < n {
      FilledGrows(fs, m, n - 1);
    }
  }

  lemma RunSingle(d: seq<byte>, all: seq<seq<byte>>, addr: seq<nat>, f: seq<byte>)
    requires |all| == |addr| && IsFrame(f) && |f| <= |d| && d[0..|f|] == f
    ensures Run(d, all + [f], addr + [0], |all|, |all| + 1, 0, |f|)
  {
    assert Link(d, all + [f], addr + [0], |all| + 1, |f|, |all|);
  }

  /** A frame of `n` bytes whose first byte is `b`. */
  function Dummy(n: nat, b: byte): (f: seq<byte>)
    requires SMALLEST <= n < 2 * SMALLEST && n % 4 == 0
    ensures |f| == n && IsFrame(f) && f[0] == b
  {
    [b, 0, n - HEADER] + Zeros(n - 3)
  }

  /** Frames that end exactly at `c`. */
  function FramesUpTo(c: nat): (fs: seq<seq<byte>>)
    requires c >= SMALLEST && c % 4 == 0
    ensures fs != [] && (forall i :: 0 <= i < |fs| ==> IsFrame(fs[i])) && fs[0][0] == 0
    ensures FilledBy(fs, |fs|) == c
  {
    if c < 2 * SMALLEST then
      assert FilledBy([Dummy(c, 0)], 0) == 0;
      [Dummy(c, 0)]
    else
      var rest := FramesUpTo(c - SMALLEST);
      FilledMore(rest, Dummy(SMALLEST, 0), |rest|);
      rest + [Dummy(SMALLEST, 0)]
  }

  lemma {:induction false} FilledMore(fs: seq<seq<byte>>, f: seq<byte>, n: nat)
    requires n <= |fs|
    ensures FilledBy(fs + [f], n) == FilledBy(fs, n)
  {
    if n > 0 {
      FilledMore(fs, f, n - 1);
    }
  }
}
