/** The rotate commands of LED programs, in services/ledstrip.c. */
module LedRotate {
  import opened Bytes
  import opened Arithmetic

  /** Rotation to the left by `k`. */
  function Rot(s: seq<byte>, k: nat): (r: seq<byte>)
    requires k <= |s|
    ensures |r| == |s|
    ensures forall i :: 0 <= i < |s| ==> r[i] == if i + k < |s| then s[i + k] else s[i + k - |s|]
  {
    s[k..] + s[..k]
  }

  lemma RotTwice(s: seq<byte>, a: nat, b: nat)
    requires a <= |s| && b <= |s|
    ensures Rot(Rot(s, a), b) == Rot(s, if a + b <= |s| then a + b else a + b - |s|)
  {
  }

  /** How far a rotate command turns a range of `len` pixels to the left. */
  function Shift(forward: bool, k: nat, len: nat): (r: nat)
    requires len > 0
    ensures r < len
  {
    var j := k % len;
    if forward && j != 0 then len - j else j
  }

  /** A command turns by its number of pixels: backward is to the left, forward to the right. */
  lemma ShiftTurns(forward: bool, k: nat, len: nat, i: nat)
    requires len > 0 && i < len
    ensures var r := Shift(forward, k, len);
      (if i + r < len then i + r else i + r - len) == (if forward then (i - k) % len else (i + k) % len)
  {
    SameRemainder(if forward then i - k else i + k, if forward then i - k % len else i + k % len,
           if forward then - (k / len) else k / len, len);
    var j := k % len;
    if forward {
      if i < j {
        SameRemainder(i - j, i - j + len, -1, len);
      } else {
        SmallRemainder(i - j, len);
      }
      assert (i - j) % len == if i < j then i - j + len else i - j by {
        SmallRemainder(if i < j then i - j + len else i - j, len);
      }
    } else {
      if i + j >= len {
        SameRemainder(i + j, i + j - len, 1, len);
      }
      SmallRemainder(if i + j >= len then i + j - len else i + j, len);
    }
  }

  lemma RotParts(was: seq<byte>, now: seq<byte>, a: nat, k: nat, b: nat)
    requires |was| == |now| && a + k <= b <= |was|
    requires now[a..b] == was[a + k..b] + was[a..a + k] && SameOutside(now, was, a, b)
    ensures now[a..b] == Rot(was[a..b], k) && now[..a] == was[..a] && now[b..] == was[b..]
  {
    assert was[a..b][k..] == was[a + k..b] && was[a..b][..k] == was[a..a + k];
  }

  /** The range of a strip's pixels that commands work on, and its pixels' bytes, three for each. */
  class Strip {
    const pixels: array<byte>
    const num: nat
    var start: nat
    var end: nat
    var len: nat

    ghost predicate Valid()
      reads this
    {
      start + len == end <= num && 3 * num <= pixels.Length
    }

    /** The bytes of the range. */
    ghost function Range(): seq<byte>
      requires Valid()
      reads this, pixels
    {
      pixels[3 * start..3 * end]
    }

    constructor (num: nat, room: nat)
      requires num <= room
      ensures Valid() && start == 0 && len == num
    {
      pixels := new byte[3 * room](_ => 0);
      this.num, start, end, len := num, 0, num, num;
    }

    /** The range command: cut off at the end of the strip. */
    method SetRange(first: nat, count: nat)
      requires Valid()
      modifies this
      ensures Valid()
      ensures start == (if first <= num then first else num)
      ensures end == if first + count <= num then first + count else num
    {
      var s := if first > num then num else first;
      var e := if s + count > num then num else s + count;
      start, end, len := s, e, e - s;
    }

    /** Rotates the range in place, one byte exchange at a time. */
    method ProgRot(shift: nat)
      requires Valid()
      modifies pixels
      ensures Range() == if shift < len then Rot(old(Range()), 3 * shift) else old(Range())
      ensures pixels[..3 * start] == old(pixels[..3 * start]) && pixels[3 * end..] == old(pixels[3 * end..])
    {
      if shift == 0 || shift >= len {
        return;
      }
      ghost var was := pixels[..];
      Rotate(3 * start, 3 * (start + shift), 3 * end);
      RotParts(was, pixels[..], 3 * start, 3 * shift, 3 * end);
    }

    method Rotate(from: nat, mid: nat, last: nat)
      requires from < mid < last <= pixels.Length
      modifies pixels
      ensures pixels[..][from..last] == old(pixels[..][mid..last] + pixels[..][from..mid])
      ensures SameOutside(pixels[..], old(pixels[..]), from, last)
    {
      ghost var goal := pixels[..][mid..last] + pixels[..][from..mid];
      TurnStart(pixels[..], from, mid, last);
      var first, middle, next := from, mid, mid;
      while first != next
        invariant Going(pixels[..], from, first, middle, next, last, goal)
        invariant SameOutside(pixels[..], old(pixels[..]), from, last)
        decreases last - first
      {
        first, middle, next := Step(from, first, middle, next, last, goal);
      }
      TurnDone(pixels[..], from, first, middle, last, goal);
    }

    /** Exchanges two bytes and moves the pointers on. */
    method Step(from: nat, first: nat, middle: nat, next: nat, last: nat, ghost goal: seq<byte>)
      returns (first': nat, middle': nat, next': nat)
      requires Going(pixels[..], from, first, middle, next, last, goal) && first != next
      modifies pixels
      ensures Going(pixels[..], from, first', middle', next', last, goal) && first' == first + 1
      ensures SameOutside(pixels[..], old(pixels[..]), from, last)
    {
      Exchange(from, first, middle, next, last, goal);
      first', middle', next' := first + 1, middle, next + 1;
      if next' == last {
        next' := middle;
      } else if first' == middle {
        middle' := next';
      }
      Turned(pixels[..], from, first', middle, next + 1, middle', next', last, goal);
    }

    /** One exchange puts the next byte in place and moves the byte that was there to the back. */
    method Exchange(from: nat, first: nat, middle: nat, next: nat, last: nat, ghost goal: seq<byte>)
      requires Turning(pixels[..], from, first, middle, next, last, goal) && first < middle && next < last
      modifies pixels
      ensures SameOutside(pixels[..], old(pixels[..]), from, last)
      ensures Turning(pixels[..], from, first + 1, middle, next + 1, last, goal)
    {
      ghost var was := pixels[..];
      var tmp := pixels[first];
      pixels[first] := pixels[next];
      pixels[next] := tmp;
      assert pixels[..] == was[first := was[next]][next := was[first]];
      Exchanged(was, pixels[..], from, first, middle, next, last);
    }

    /** The command's number of pixels, reduced to the length of the range. */
    method Reduce(k: nat) returns (j: nat)
      requires len > 0
      ensures j == k % len
    {
      j := k;
      while j >= len
        invariant j % len == k % len
        decreases j
      {
        SameRemainder(j, j - len, 1, len);
        j := j - len;
      }
      SmallRemainder(j, len);
    }

    /** A rotate command. */
    method Command(forward: bool, k: nat)
      requires Valid()
      modifies pixels
      ensures Range() == if len == 0 then [] else Rot(old(Range()), 3 * Shift(forward, k, len))
      ensures pixels[..3 * start] == old(pixels[..3 * start]) && pixels[3 * end..] == old(pixels[3 * end..])
    {
      if len == 0 {
        return;
      }
      var j := Reduce(k);
      if forward && j != 0 {
        j := len - j;
      }
      ProgRot(j);
    }
  }

  ghost predicate SameOutside(a: seq<byte>, b: seq<byte>, from: nat, last: nat) {
    from <= last <= |a| && |a| == |b| && a[..from] == b[..from] && a[last..] == b[last..]
  }

  /** The output is done up to `first`; the rest is the goal's rest, in three pieces. */
  ghost predicate Turning(a: seq<byte>, from: nat, first: nat, middle: nat, next: nat, last: nat, goal: seq<byte>) {
    && from <= first <= middle <= next <= last <= |a|
    && a[from..first] + a[next..last] + a[middle..next] + a[first..middle] == goal
  }

  ghost predicate Going(a: seq<byte>, from: nat, first: nat, middle: nat, next: nat, last: nat, goal: seq<byte>) {
    && Turning(a, from, first, middle, next, last, goal)
    && (first == next || (first < middle && next < last))
  }

  lemma TurnStart(a: seq<byte>, from: nat, mid: nat, last: nat)
    requires from <= mid <= last <= |a|
    ensures Turning(a, from, from, mid, mid, last, a[mid..last] + a[from..mid])
  {
    assert a[from..from] == [] && a[mid..mid] == [];
  }

  /** A pointer that reached its end starts over. */
  lemma Turned(a: seq<byte>, from: nat, first: nat, middle: nat, next: nat, middle': nat, next': nat, last: nat,
               goal: seq<byte>)
    requires Turning(a, from, first, middle, next, last, goal)
    requires (middle', next') == if next == last then (middle, middle)
                                 else if first == middle then (next, next) else (middle, next)
    ensures Turning(a, from, first, middle', next', last, goal)
  {
    if next == last {
      assert a[next..last] == [] && a[middle..middle] == [];
    } else if first == middle {
      assert a[first..middle] == [] && a[next..next] == [];
    }
  }

  lemma TurnDone(a: seq<byte>, from: nat, first: nat, middle: nat, last: nat, goal: seq<byte>)
    requires Turning(a, from, first, middle, first, last, goal)
    ensures a[from..last] == goal
  {
    assert a[middle..first] == [] && a[first..middle] == [];
    assert a[from..first] + a[first..last] == a[from..last];
  }

  lemma Exchanged(a: seq<byte>, b: seq<byte>, from: nat, first: nat, middle: nat, next: nat, last: nat)
    requires from <= first < middle <= next < last <= |a| == |b|
    requires b == a[first := a[next]][next := a[first]]
    ensures b[from..first + 1] + b[next + 1..last] + b[middle..next + 1] + b[first + 1..middle]
         == a[from..first] + a[next..last] + a[middle..next] + a[first..middle]
  {
    assert b[from..first + 1] == a[from..first] + [a[next]];
    assert b[next + 1..last] == a[next + 1..last] && a[next..last] == [a[next]] + a[next + 1..last];
    assert b[middle..next + 1] == a[middle..next] + [a[first]];
    assert b[first + 1..middle] == a[first + 1..middle] && a[first..middle] == [a[first]] + a[first + 1..middle];
  }

  /** Forward and then backward by the same number leaves the range as it was. */
  lemma ThereAndBack(s: seq<byte>, k: nat, len: nat)
    requires len > 0 && |s| == 3 * len
    ensures Rot(Rot(s, 3 * Shift(true, k, len)), 3 * Shift(false, k, len)) == s
    ensures Rot(Rot(s, 3 * Shift(false, k, len)), 3 * Shift(true, k, len)) == s
  {
    RotBack(s, 3 * Shift(true, k, len), 3 * Shift(false, k, len));
    RotBack(s, 3 * Shift(false, k, len), 3 * Shift(true, k, len));
  }

  lemma RotBack(s: seq<byte>, a: nat, b: nat)
    requires a == b == 0 || a + b == |s|
    ensures Rot(Rot(s, a), b) == s
  {
    RotTwice(s, a, b);
    assert s[|s|..] + s[..|s|] == s;
    assert s[0..] + s[..0] == s;
  }

  /** Pixel `i` of a range after a rotate command is the pixel that was `k` before or behind it. */
  lemma PixelMoves(s: seq<byte>, forward: bool, k: nat, len: nat, i: nat, c: nat)
    requires |s| == 3 * len && i < len && c < 3
    ensures var from := if forward then (i - k) % len else (i + k) % len;
      0 <= from < len && Rot(s, 3 * Shift(forward, k, len))[3 * i + c] == s[3 * from + c]
  {
    ShiftTurns(forward, k, len, i);
  }
}
