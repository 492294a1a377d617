/** The byte queue of source/jd_bqueue.c: a ring that holds one byte less than its size. */
module ByteQueue {
  import opened Bytes

  /** The bytes from `front` to `back`, around the end of the ring when `back` is before `front`. */
  ghost function Ring(d: seq<byte>, front: nat, back: nat): seq<byte>
    requires front <= |d| && back <= |d|
  {
    if front <= back then d[front..back] else d[front..] + d[..back]
  }

  /** Up to `n` bytes of `s`. */
  function First(s: seq<byte>, n: nat): seq<byte> {
    if n < |s| then s[..n] else s
  }

  function Rest(s: seq<byte>, n: nat): seq<byte> {
    if n < |s| then s[n..] else []
  }

  class Queue {
    const data: array<byte>
    const size: nat
    var front: nat
    var back: nat
    var filled: nat

    /** What the checks of the source assert. */
    predicate Checked()
      reads this
    {
      && filled == (if back >= front then back - front else back + size - front)
      && front < size && back < size && filled < size
    }

    ghost predicate Valid()
      reads this
    {
      data.Length == size && Checked()
    }

    ghost function Contents(): (s: seq<byte>)
      requires Valid()
      reads this, data
      ensures |s| == filled
    {
      Ring(data[..], front, back)
    }

    constructor (size: nat)
      requires size > 0
      ensures Valid() && Contents() == [] && this.size == size && fresh(data)
    {
      data := new byte[size](_ => 0);
      this.size, front, back, filled := size, 0, 0, 0;
    }

    function FreeBytes(): nat
      requires Valid()
      reads this
    {
      size - filled - 1
    }

    /** Appends all bytes or none. */
    method Push(src: seq<byte>) returns (ret: int)
      requires Valid()
      modifies this, data
      ensures Valid() && ret == (if |src| < size - old(filled) || src == [] then 0 else -1)
      ensures Contents() == old(Contents()) + if ret == 0 then src else []
    {
      if src == [] {
        return 0;
      }
      ret := -1;
      if |src| <= FreeBytes() {
        ret := 0;
        var n := size - back;
        if n > |src| {
          n := |src|;
        }
        if |src| > n {
          PutAround(src, n);
        } else {
          PutBehind(src);
        }
      }
    }

    /** Puts the first `n` bytes up to the end of the ring, and the rest at its start. */
    method PutAround(src: seq<byte>, n: nat)
      requires Valid() && n == size - back < |src| <= FreeBytes()
      modifies this, data
      ensures Valid() && Contents() == old(Contents()) + src
    {
      ghost var d := data[..];
      Copy(back, src[..n]);
      Copy(0, src[n..]);
      PushedAround(d, data[..], front, back, src, n);
      filled, back := filled + |src|, |src| - n;
    }

    method PutBehind(src: seq<byte>)
      requires Valid() && src != [] && |src| <= FreeBytes() && back + |src| <= size
      modifies this, data
      ensures Valid() && Contents() == old(Contents()) + src
    {
      ghost var d := data[..];
      Copy(back, src);
      PushedBehind(d, data[..], front, back, src);
      filled, back := filled + |src|, if back + |src| == size then 0 else back + |src|;
    }

    method Copy(p: nat, src: seq<byte>)
      requires p + |src| <= data.Length
      modifies data
      ensures data[..] == old(data[..])[..p] + src + old(data[..])[p + |src|..]
    {
      forall i | 0 <= i < |src| {
        data[p + i] := src[i];
      }
    }

    function ContData(): (n: nat)
      requires Valid()
      reads this
      ensures n <= filled && front + n <= size
    {
      if front <= back then back - front else size - front
    }

    /** Removes `n` bytes that lie in one piece, and returns them. */
    method Advance(n: nat) returns (out: seq<byte>)
      requires Valid() && n <= ContData()
      modifies this
      ensures Valid() && out == old(Contents())[..n] && Contents() == old(Contents())[n..]
      ensures ContData() >= filled || old(ContData()) > n
    {
      ghost var d := data[..];
      out := data[front..front + n];
      Advanced(d, front, back, n);
      front, filled := front + n, filled - n;
      if front == size {
        front := 0;
      }
    }

    /** Removes up to `max` of the bytes that lie in one piece. */
    method PopPiece(max: nat) returns (out: seq<byte>)
      requires Valid()
      modifies this
      ensures Valid() && |out| == (if old(ContData()) < max then old(ContData()) else max)
      ensures |out| <= old(filled) && out == old(Contents())[..|out|] && Contents() == old(Contents())[|out|..]
      ensures |out| < max ==> ContData() == filled
    {
      var n := ContData();
      if n > max {
        n := max;
      }
      out := Advance(n);
    }

    /** Removes the first bytes, at most `max`, also when they lie around the end of the ring. */
    method PopAtMost(max: nat) returns (out: seq<byte>)
      requires Valid()
      modifies this
      ensures Valid() && out == First(old(Contents()), max) && Contents() == Rest(old(Contents()), max)
    {
      ghost var s := Contents();
      out := PopPiece(max);
      if max - |out| > 0 {
        var more := PopPiece(max - |out|);
        TwoPieces(s, |out|, |more|);
        out := out + more;
      }
    }

    /** Removes exactly `n` bytes, or none if there are not so many. */
    method PopAtomic(n: nat) returns (r: int, out: seq<byte>)
      requires Valid()
      modifies this
      ensures Valid() && (r == 0 <==> old(filled) >= n) && (r == 0 || r == -1)
      ensures if r == 0 then out == old(Contents())[..n] && Contents() == old(Contents())[n..]
              else out == [] && Contents() == old(Contents())
    {
      if filled >= n {
        out := PopAtMost(n);
        assert |out| == n;
        r := 0;
      } else {
        r, out := -1, [];
      }
    }

    /** Removes and returns the first byte; -1 when there is none. */
    method PopByte() returns (r: int)
      requires Valid()
      modifies this
      ensures Valid()
      ensures if old(Contents()) == [] then r == -1 && Contents() == []
              else r == old(Contents())[0] as int && Contents() == old(Contents())[1..]
    {
      if filled > 0 {
        var out := Advance(1);
        r := out[0];
      } else {
        r := -1;
      }
    }

    method Clear()
      requires Valid()
      modifies this
      ensures Valid() && Contents() == []
    {
      front, back, filled := 0, 0, 0;
    }
  }

  /** All bytes fit before the end of the ring. */
  lemma PushedBehind(d: seq<byte>, d': seq<byte>, front: nat, back: nat, src: seq<byte>)
    requires front < |d| && back + |src| <= |d| && src != []
    requires if front <= back then back + |src| < |d| || front > 0 else back + |src| < front
    requires d' == d[..back] + src + d[back + |src|..]
    ensures Ring(d', front, if back + |src| == |d| then 0 else back + |src|) == Ring(d, front, back) + src
  {
    if front <= back {
      assert d'[front..back + |src|] == d[front..back] + src;
      if back + |src| == |d| {
        assert d'[front..] + d'[..0] == d'[front..back + |src|];
      }
    } else {
      assert d'[front..] == d[front..] && d'[..back + |src|] == d[..back] + src;
    }
  }

  /** The first `n` bytes fit before the end, the others go to the start. */
  lemma PushedAround(d: seq<byte>, d': seq<byte>, front: nat, back: nat, src: seq<byte>, n: nat)
    requires front <= back < |d| && n == |d| - back < |src| && |src| - n < front
    requires var e := d[..back] + src[..n] + d[back + n..]; d' == e[..0] + src[n..] + e[|src| - n..]
    ensures Ring(d', front, |src| - n) == Ring(d, front, back) + src
  {
    var e, m := d[..back] + src[..n] + d[back + n..], |src| - n;
    assert e == d[..back] + src[..n];
    assert d' == src[n..] + e[m..];
    assert d'[front..] == e[front..] == d[front..back] + src[..n];
    assert d'[..m] == src[n..];
    Assoc(d[front..back], src[..n], src[n..]);
    assert src[..n] + src[n..] == src;
  }

  lemma TwoPieces(s: seq<byte>, n: nat, m: nat)
    requires n + m <= |s|
    ensures s[..n] + s[n..][..m] == s[..n + m] && s[n..][m..] == s[n + m..]
  {
  }

  lemma Advanced(d: seq<byte>, front: nat, back: nat, n: nat)
    requires front < |d| && back < |d| && n <= if front <= back then back - front else |d| - front
    ensures var s := Ring(d, front, back);
      && n <= |s| && d[front..front + n] == s[..n]
      && Ring(d, if front + n == |d| then 0 else front + n, back) == s[n..]
  {
  }
}
