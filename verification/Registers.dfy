/**
 * The register interpreter of source/jd_services.c: a descriptor lists the registers of a service,
 * and the interpreter finds each of them in the bytes of the service's state.
 */
module Registers {
  import opened Bytes
  import opened Arithmetic

  const BIT := 8
  const BYTES := 9
  const OPT8 := 10
  /** Ends a descriptor. */
  const END := 0xff1
  const GET := 1
  const SET := 2

  /** A register: its type, its code and its size in bytes. */
  datatype Reg = Reg(tp: nat, code: nat, size: nat)

  /** Size by type; zero where the type has none of its own, or is not a type. */
  function SizeOf(tp: nat, ptr: nat): nat {
    if tp < 14 then [1, 1, 2, 2, 4, 4, 4, 8, 1, 0, 1, 2, 4, ptr][tp] else 0
  }

  predicate Signed(tp: nat) { tp <= 4 && tp % 2 == 0 }
  predicate Optional(tp: nat) { tp >= OPT8 }

  /** The descriptor from `i` on reaches its end. */
  predicate Terminated(d: seq<nat>, i: nat)
    decreases |d| - i
  {
    i < |d| && (d[i] == END || Terminated(d, if d[i] / 0x1000 == BYTES then i + 2 else i + 1))
  }

  function Parse(d: seq<nat>, i: nat, ptr: nat): seq<Reg>
    requires Terminated(d, i)
    decreases |d| - i
  {
    if d[i] == END then []
    else if d[i] / 0x1000 == BYTES then
      assert Terminated(d, i + 2);
      [Reg(BYTES, d[i] % 0x1000, d[i + 1])] + Parse(d, i + 2, ptr)
    else [Reg(d[i] / 0x1000, d[i] % 0x1000, SizeOf(d[i] / 0x1000, ptr))] + Parse(d, i + 1, ptr)
  }

  // ---------------------------------------------------------------- layout, in bits

  /** A register as descriptors can state it. */
  predicate Describable(r: Reg, ptr: nat) {
    && r.tp < 16 && r.code < 0x1000 && 0x1000 * r.tp + r.code != 0xff1
    && (r.tp != 9 ==> r.size == SizeOf(r.tp, ptr))
  }

  /** The descriptor of some registers: type and code in one word, behind that of bytes their size, and a mark at the end. */
  function Described(regs: seq<Reg>): seq<nat> {
    if regs == [] then [0xff1]
    else [0x1000 * regs[0].tp + regs[0].code] + (if regs[0].tp == 9 then [regs[0].size] else []) + Described(regs[1..])
  }

  /** The walk over a descriptor finds the registers it was made of. */
  lemma {:induction false} ParsesBack(d: seq<nat>, i: nat, regs: seq<Reg>, ptr: nat)
    requires i <= |d| && d[i..] == Described(regs) && forall k :: 0 <= k < |regs| ==> Describable(regs[k], ptr)
    ensures Terminated(d, i) && Parse(d, i, ptr) == regs
    decreases |regs|
  {
    assert d[i] == Described(regs)[0];
    if regs != [] {
      var r := regs[0];
      assert d[i] / 0x1000 == r.tp && d[i] % 0x1000 == r.code;
      var n := if r.tp == 9 then i + 2 else i + 1;
      if r.tp == 9 {
        assert d[i + 1] == d[i..][1] == r.size;
      }
      assert d[n..] == d[i..][n - i..] == Described(regs[1..]);
      ParsesBack(d, n, regs[1..], ptr);
      assert regs == [r] + regs[1..];
    }
  }

  function RoundUp(x: nat, align: nat): (r: nat)
    ensures x <= r
  {
    if align == 2 then (x + 1) / 2 * 2
    else if align == 4 then (x + 3) / 4 * 4
    else if align == 8 then (x + 7) / 8 * 8
    else x
  }

  function Min(a: nat, b: nat): nat { if a < b then a else b }

  /** Where a register starts when the ones before it have brought the cursor to `cur`. */
  function Start(r: Reg, cur: nat, ptr: nat): nat {
    if r.tp == BIT then cur
    else if r.tp == BYTES then cur / 8 * 8
    else 8 * RoundUp((cur + 7) / 8, Min(r.size, ptr))
  }

  function Bits(r: Reg): nat { if r.tp == BIT then 1 else 8 * r.size }

  function After(r: Reg, cur: nat, ptr: nat): nat {
    if r.tp == BYTES then cur + 8 * r.size else Start(r, cur, ptr) + Bits(r)
  }

  function Cursor(regs: seq<Reg>, k: nat, ptr: nat): nat
    requires k <= |regs|
  {
    if k == 0 then 0 else After(regs[k - 1], Cursor(regs, k - 1, ptr), ptr)
  }

  function StartOf(regs: seq<Reg>, k: nat, ptr: nat): nat
    requires k < |regs|
  {
    Start(regs[k], Cursor(regs, k, ptr), ptr)
  }

  function EndOf(regs: seq<Reg>, k: nat, ptr: nat): nat
    requires k < |regs|
  {
    StartOf(regs, k, ptr) + Bits(regs[k])
  }

  /** A bytes register directly after bit registers that do not fill their byte. */
  predicate Overlaid(regs: seq<Reg>, k: nat, ptr: nat)
    requires k < |regs|
  {
    k > 0 && regs[k].tp == BYTES && regs[k - 1].tp == BIT && Cursor(regs, k, ptr) % 8 != 0
  }

  /** Between the end of the last register and the cursor there are less than eight bits. */
  lemma StepEnds(r: Reg, cur: nat, ptr: nat)
    ensures var e := Start(r, cur, ptr) + Bits(r); var c := After(r, cur, ptr);
      if r.tp == BYTES then e == c / 8 * 8 else e == c && (r.tp != BIT ==> c % 8 == 0)
    ensures r.tp != BYTES ==> Start(r, cur, ptr) >= cur
  {
  }

  lemma NextStarts(regs: seq<Reg>, k: nat, ptr: nat)
    requires 0 < k < |regs| && !Overlaid(regs, k, ptr)
    ensures EndOf(regs, k - 1, ptr) <= StartOf(regs, k, ptr)
  {
    StepEnds(regs[k - 1], Cursor(regs, k - 1, ptr), ptr);
    StepEnds(regs[k], Cursor(regs, k, ptr), ptr);
  }

  lemma {:induction false} StartsLater(regs: seq<Reg>, j: nat, k: nat, ptr: nat)
    requires j < k < |regs| && forall i :: 0 <= i < |regs| ==> !Overlaid(regs, i, ptr)
    ensures EndOf(regs, j, ptr) <= StartOf(regs, k, ptr)
  {
    NextStarts(regs, k, ptr);
    if j + 1 < k {
      StartsLater(regs, j, k - 1, ptr);
    }
  }

  ghost predicate Apart(regs: seq<Reg>, j: nat, k: nat, ptr: nat)
    requires j < |regs| && k < |regs|
  {
    EndOf(regs, j, ptr) <= StartOf(regs, k, ptr) || EndOf(regs, k, ptr) <= StartOf(regs, j, ptr)
  }

  /** All registers lie apart exactly when no bytes register follows a started byte of bits. */
  lemma ApartIff(regs: seq<Reg>, ptr: nat)
    requires forall i :: 0 <= i < |regs| ==> regs[i].size > 0
    ensures (forall j, k :: 0 <= j < k < |regs| ==> Apart(regs, j, k, ptr))
       <==> (forall i :: 0 <= i < |regs| ==> !Overlaid(regs, i, ptr))
  {
    if forall i :: 0 <= i < |regs| ==> !Overlaid(regs, i, ptr) {
      forall j, k | 0 <= j < k < |regs|
        ensures Apart(regs, j, k, ptr)
      {
        StartsLater(regs, j, k, ptr);
      }
    } else {
      var i :| 0 <= i < |regs| && Overlaid(regs, i, ptr);
      StepEnds(regs[i - 1], Cursor(regs, i - 1, ptr), ptr);
      assert !Apart(regs, i - 1, i, ptr);
    }
  }

  // ---------------------------------------------------------------- bits of a byte

  function BitAt(v: nat, b: nat): bool {
    if b == 0 then v % 2 == 1 else BitAt(v / 2, b - 1)
  }

  function WithBit(v: nat, b: nat, on: bool): nat {
    if b == 0 then v / 2 * 2 + (if on then 1 else 0) else 2 * WithBit(v / 2, b - 1, on) + v % 2
  }

  lemma {:induction false} BitOfWithBit(v: nat, b: nat, on: bool, c: nat)
    ensures BitAt(WithBit(v, b, on), c) == if b == c then on else BitAt(v, c)
  {
    if b > 0 && c > 0 {
      BitOfWithBit(v / 2, b - 1, on, c - 1);
    }
  }

  lemma {:induction false} WithBitFits(v: nat, b: nat, on: bool, n: nat)
    requires v < Pow2(n) && b < n
    ensures WithBit(v, b, on) < Pow2(n)
  {
    assert Pow2(n) == 2 * Pow2(n - 1);
    assert v / 2 < Pow2(n - 1);
    if b > 0 {
      WithBitFits(v / 2, b - 1, on, n - 1);
    }
  }

  function ByteWithBit(v: byte, b: nat, on: bool): (r: byte)
    requires b < 8
    ensures r as nat == WithBit(v, b, on)
  {
    Pow2Byte();
    WithBitFits(v, b, on, 8);
    WithBit(v, b, on)
  }

  // ---------------------------------------------------------------- reading and writing

  /** The bytes of a register. */
  function Read(st: seq<byte>, r: Reg, start: nat): (v: seq<byte>)
    requires start + Bits(r) <= 8 * |st|
  {
    if r.tp == BIT then [if BitAt(st[start / 8], start % 8) then 1 else 0]
    else st[start / 8..start / 8 + r.size]
  }

  /** A payload cut off or extended to the register's size. */
  function Extended(r: Reg, payload: seq<byte>): (v: seq<byte>)
    requires |payload| > 0
    ensures |v| == if r.tp == BIT then 1 else r.size
  {
    if r.tp == BIT then [if payload[0] != 0 then 1 else 0]
    else if r.size <= |payload| then payload[..r.size]
    else payload + Fill(r, payload, r.size - |payload|)
  }

  function Fill(r: Reg, payload: seq<byte>, n: nat): (f: seq<byte>)
    requires |payload| > 0
    ensures |f| == n
  {
    seq(n, _ => if Signed(r.tp) && payload[|payload| - 1] >= 0x80 then 0xff else 0)
  }

  function Write(st: seq<byte>, r: Reg, start: nat, v: seq<byte>): (s: seq<byte>)
    requires start + Bits(r) <= 8 * |st| && |v| == if r.tp == BIT then 1 else r.size
    ensures |s| == |st|
  {
    var at := start / 8;
    if r.tp == BIT then st[at := ByteWithBit(st[at], start % 8, v[0] != 0)]
    else st[..at] + v + st[at + r.size..]
  }

  lemma ReadWritten(st: seq<byte>, r: Reg, start: nat, payload: seq<byte>)
    requires start + Bits(r) <= 8 * |st| && |payload| > 0
    ensures Read(Write(st, r, start, Extended(r, payload)), r, start) == Extended(r, payload)
  {
    if r.tp == BIT {
      BitOfWithBit(st[start / 8], start % 8, payload[0] != 0, start % 8);
    }
  }

  /** A register that lies apart from the one written keeps its value. */
  lemma ReadOther(st: seq<byte>, r: Reg, start: nat, v: seq<byte>, q: Reg, at: nat)
    requires start + Bits(r) <= 8 * |st| && |v| == if r.tp == BIT then 1 else r.size
    requires at + Bits(q) <= 8 * |st|
    requires (r.tp != BIT ==> start % 8 == 0) && (q.tp != BIT ==> at % 8 == 0)
    requires start + Bits(r) <= at || at + Bits(q) <= start
    ensures Read(Write(st, r, start, v), q, at) == Read(st, q, at)
  {
    var s := Write(st, r, start, v);
    if r.tp == BIT {
      if q.tp == BIT {
        BitOfWithBit(st[start / 8], start % 8, v[0] != 0, at % 8);
      } else {
        assert start / 8 < at / 8 || start / 8 >= at / 8 + q.size;
      }
    } else if q.tp == BIT {
      assert at / 8 < start / 8 || at / 8 >= start / 8 + r.size;
    } else {
      assert Read(s, q, at) == Read(st, q, at);
    }
  }

  // ---------------------------------------------------------------- requests

  /** `Reply(code, sent)`: the value returned, and the payload sent back for a read. */
  datatype Reply = Panic | Reply(code: int, sent: Option<seq<byte>>)

  const Unhandled := Reply(0, None)

  /** First register from `k` on that has the code, or whose type is not valid. */
  function Search(regs: seq<Reg>, code: nat, k: nat): (r: Option<nat>)
    requires k <= |regs|
    ensures r.Some? ==> k <= r.value < |regs|
    decreases |regs| - k
  {
    if k == |regs| then None
    else if regs[k].size == 0 || regs[k].code == code then Some(k)
    else Search(regs, code, k + 1)
  }

  /** A request that is looked up in the descriptor. */
  predicate Looked(cmd: nat, payload: seq<byte>) {
    var kind, reg := cmd / 0x1000, cmd % 0x1000;
    && (kind == GET || (kind == SET && payload != [] && reg / 0x100 != 1))
    && reg < 0xf00
  }

  predicate IsZero(v: seq<byte>) {
    forall i :: 0 <= i < |v| ==> v[i] == 0
  }

  ghost predicate Fits(regs: seq<Reg>, ptr: nat, room: nat) {
    forall k :: 0 <= k < |regs| ==> EndOf(regs, k, ptr) <= 8 * room
  }

  /** What a request is answered with, and the state after it. */
  ghost function Serve(regs: seq<Reg>, ptr: nat, st: seq<byte>, cmd: nat, payload: seq<byte>): (Reply, seq<byte>)
    requires Fits(regs, ptr, |st|)
  {
    if !Looked(cmd, payload) then (Unhandled, st) else
      match Search(regs, cmd % 0x1000, 0)
      case None => (Unhandled, st)
      case Some(k) =>
        assert EndOf(regs, k, ptr) <= 8 * |st|;
        ServeAt(regs[k], StartOf(regs, k, ptr), st, cmd, payload)
  }

  function ServeAt(r: Reg, start: nat, st: seq<byte>, cmd: nat, payload: seq<byte>): (Reply, seq<byte>)
    requires start + Bits(r) <= 8 * |st| && Looked(cmd, payload)
  {
    if r.size == 0 then (Panic, st)
    else if cmd / 0x1000 == SET then (Reply(r.code, None), Write(st, r, start, Extended(r, payload)))
    else (Answer(r, Read(st, r, start)), st)
  }

  /** The answer to a read: a zero in an optional register counts as not implemented. */
  function Answer(r: Reg, v: seq<byte>): Reply {
    if Optional(r.tp) && IsZero(v) then Unhandled else Reply(-(r.code as int), Some(v))
  }

  class Service {
    const state: array<byte>
    const ptr: nat

    constructor (size: nat, ptr: nat)
      ensures state.Length == size && this.ptr == ptr
    {
      state := new byte[size](_ => 0);
      this.ptr := ptr;
    }

    method IsZeroAt(at: nat, n: nat) returns (zero: bool)
      requires at + n <= state.Length
      ensures zero == IsZero(state[at..at + n])
    {
      for i := 0 to n
        invariant IsZero(state[at..at + i])
      {
        if state[at + i] != 0 {
          assert state[at..at + n][i] != 0;
          return false;
        }
        assert state[at..at + i + 1] == state[at..at + i] + [state[at + i]];
      }
      zero := true;
    }

    method CopyIn(at: nat, v: seq<byte>)
      requires at + |v| <= state.Length
      modifies state
      ensures var st := old(state[..]); state[..] == st[..at] + v + st[at + |v|..]
    {
      ghost var st := state[..];
      for i := 0 to |v|
        invariant state[..] == st[..at] + v[..i] + st[at + i..]
      {
        state[at + i] := v[i];
        assert state[..] == (st[..at] + v[..i] + st[at + i..])[at + i := v[i]];
      }
    }

    /** A read of the register at byte `offset`, bit `bitoffset`. */
    method Get(r: Reg, offset: nat, bitoffset: nat) returns (reply: Reply)
      requires bitoffset < 8 && r.size > 0 && BitOffset(r, offset, bitoffset) + Bits(r) <= 8 * state.Length
      ensures reply == Answer(r, Read(state[..], r, BitOffset(r, offset, bitoffset)))
    {
      if r.tp == BIT {
        return Reply(-(r.code as int), Some([if BitAt(state[offset], bitoffset) then 1 else 0]));
      }
      assert state[..][offset..offset + r.size] == state[offset..offset + r.size];
      if Optional(r.tp) {
        var zero := IsZeroAt(offset, r.size);
        if zero {
          return Unhandled;
        }
      }
      reply := Reply(-(r.code as int), Some(state[offset..offset + r.size]));
    }

    method Put(r: Reg, offset: nat, bitoffset: nat, payload: seq<byte>)
      requires bitoffset < 8 && r.size > 0 && BitOffset(r, offset, bitoffset) + Bits(r) <= 8 * state.Length
      requires payload != []
      modifies state
      ensures state[..] == Write(old(state[..]), r, BitOffset(r, offset, bitoffset), Extended(r, payload))
    {
      if r.tp == BIT {
        state[offset] := ByteWithBit(state[offset], bitoffset, payload[0] != 0);
      } else if r.size <= |payload| {
        assert Extended(r, payload) == payload[..r.size];
        CopyIn(offset, payload[..r.size]);
      } else {
        PutShort(r, offset, payload);
      }
    }

    /** Copies a payload that is too short, and fills up the rest. */
    method PutShort(r: Reg, at: nat, payload: seq<byte>)
      requires r.tp != BIT && 0 < |payload| < r.size && at + r.size <= state.Length
      modifies state
      ensures var st := old(state[..]); state[..] == st[..at] + Extended(r, payload) + st[at + r.size..]
    {
      ghost var was := state[..];
      CopyIn(at, payload);
      ghost var mid := state[..];
      var fill := if Signed(r.tp) && payload[|payload| - 1] >= 0x80 then 0xff else 0;
      CopyIn(at + |payload|, seq(r.size - |payload|, _ => fill));
      assert seq(r.size - |payload|, _ => fill) == Fill(r, payload, r.size - |payload|);
      TwoCopies(was, mid, state[..], at, payload, Fill(r, payload, r.size - |payload|));
    }

    /** Answers a request for the register found. */
    method HandleAt(r: Reg, offset: nat, bitoffset: nat, cmd: nat, payload: seq<byte>) returns (reply: Reply)
      requires bitoffset < 8 && r.size > 0 && Looked(cmd, payload)
      requires BitOffset(r, offset, bitoffset) + Bits(r) <= 8 * state.Length
      modifies state
      ensures (reply, state[..]) == ServeAt(r, BitOffset(r, offset, bitoffset), old(state[..]), cmd, payload)
    {
      if cmd / 0x1000 == GET {
        reply := Get(r, offset, bitoffset);
      } else {
        Put(r, offset, bitoffset, payload);
        reply := Reply(r.code, None);
      }
    }

    /** Finds the register in the descriptor, and answers for it. */
    method Handle(d: seq<nat>, cmd: nat, payload: seq<byte>) returns (reply: Reply)
      requires Terminated(d, 0) && Fits(Parse(d, 0, ptr), ptr, state.Length)
      modifies state
      ensures (reply, state[..]) == Serve(Parse(d, 0, ptr), ptr, old(state[..]), cmd, payload)
    {
      var isGet, isSet := cmd / 0x1000 == GET, cmd / 0x1000 == SET;
      if !isGet && !isSet {
        return Unhandled;
      }
      if isSet && payload == [] {
        return Unhandled;
      }
      var reg := cmd % 0x1000;
      if reg >= 0xf00 {
        return Unhandled;
      }
      if isSet && reg / 0x100 == 1 {
        return Unhandled;
      }
      reply := Find(d, cmd, payload);
    }

    /** Walks the descriptor with a cursor into the state. */
    method Find(d: seq<nat>, cmd: nat, payload: seq<byte>) returns (reply: Reply)
      requires Terminated(d, 0) && Fits(Parse(d, 0, ptr), ptr, state.Length) && Looked(cmd, payload)
      modifies state
      ensures (reply, state[..]) == Serve(Parse(d, 0, ptr), ptr, old(state[..]), cmd, payload)
    {
      var reg := cmd % 0x1000;
      ghost var regs, k := Parse(d, 0, ptr), 0;
      var i, offset, bitoffset := 0, 0, 0;
      while d[i] != END
        invariant Terminated(d, i) && k <= |regs| && regs[k..] == Parse(d, i, ptr)
        invariant bitoffset < 8 && 8 * offset + bitoffset == Cursor(regs, k, ptr)
        invariant Search(regs, reg, 0) == Search(regs, reg, k)
        invariant state[..] == old(state[..])
        decreases |d| - i
      {
        ParseStep(d, i, ptr, regs, k);
        var tp, code := d[i] / 0x1000, d[i] % 0x1000;
        var size := SizeOf(tp, ptr);
        if tp == BYTES {
          i := i + 1;
          size := d[i];
        }
        var r := Reg(tp, code, size);
        if size == 0 {
          return Panic;
        }
        offset, bitoffset := AlignFor(r, offset, bitoffset, ptr);
        if code == reg {
          assert EndOf(regs, k, ptr) <= 8 * state.Length;
          reply := HandleAt(r, offset, bitoffset, cmd, payload);
          return;
        }
        offset, bitoffset := PassOver(r, offset, bitoffset);
        i, k := i + 1, k + 1;
      }
      reply := Unhandled;
    }
  }

  /** Address in bits; only bit registers look at the bit offset. */
  function BitOffset(r: Reg, offset: nat, bitoffset: nat): nat {
    8 * offset + if r.tp == BIT then bitoffset else 0
  }

  lemma WholeBytes(offset: nat, bitoffset: nat)
    requires bitoffset < 8
    ensures (8 * offset + bitoffset) / 8 == offset
    ensures (8 * offset + bitoffset + 7) / 8 == if bitoffset == 0 then offset else offset + 1
  {
  }

  method AlignFor(r: Reg, offset: nat, bitoffset: nat, ptr: nat) returns (o: nat, b: nat)
    requires bitoffset < 8
    ensures b < 8 && BitOffset(r, o, b) == Start(r, 8 * offset + bitoffset, ptr)
    ensures 8 * o + b + (if r.tp == BIT then 1 else 8 * r.size) == After(r, 8 * offset + bitoffset, ptr)
  {
    WholeBytes(offset, bitoffset);
    o, b := offset, bitoffset;
    if r.tp != BIT && r.tp != BYTES {
      if b != 0 {
        o, b := o + 1, 0;
      }
      o := RoundUp(o, Min(r.size, ptr));
    }
  }

  method PassOver(r: Reg, offset: nat, bitoffset: nat) returns (o: nat, b: nat)
    requires bitoffset < 8
    ensures b < 8 && 8 * o + b == 8 * offset + bitoffset + if r.tp == BIT then 1 else 8 * r.size
  {
    o, b := offset, bitoffset;
    if r.tp == BIT {
      b := b + 1;
      if b == 8 {
        o, b := o + 1, 0;
      }
    } else {
      o := o + r.size;
    }
  }

  lemma ParseStep(d: seq<nat>, i: nat, ptr: nat, regs: seq<Reg>, k: nat)
    requires Terminated(d, i) && d[i] != END && k <= |regs| && regs[k..] == Parse(d, i, ptr)
    ensures var n := if d[i] / 0x1000 == BYTES then i + 2 else i + 1;
      && n < |d| && Terminated(d, n) && k < |regs|
      && regs[k] == Reg(d[i] / 0x1000, d[i] % 0x1000, if n == i + 2 then d[i + 1] else SizeOf(d[i] / 0x1000, ptr))
      && regs[k + 1..] == Parse(d, n, ptr)
  {
    assert regs[k] == regs[k..][0] && regs[k + 1..] == regs[k..][1..];
  }

  lemma TwoCopies(was: seq<byte>, mid: seq<byte>, now: seq<byte>, at: nat, p: seq<byte>, f: seq<byte>)
    requires at + |p| + |f| <= |was|
    requires mid == was[..at] + p + was[at + |p|..]
    requires now == mid[..at + |p|] + f + mid[at + |p| + |f|..]
    ensures now == was[..at] + (p + f) + was[at + |p| + |f|..]
  {
    assert mid[..at + |p|] == was[..at] + p;
    assert mid[at + |p| + |f|..] == was[at + |p| + |f|..];
  }

  // ---------------------------------------------------------------- what registers mean

  /** A descriptor without invalid types, in which codes that can be asked for are used once. */
  ghost predicate Proper(regs: seq<Reg>) {
    && (forall i :: 0 <= i < |regs| ==> regs[i].size > 0 && (regs[i].tp == BIT ==> regs[i].size == 1))
    && (forall i, j :: 0 <= i < j < |regs| && regs[i].code < 0xf00 ==> regs[i].code != regs[j].code)
  }

  lemma {:induction false} SearchFinds(regs: seq<Reg>, k: nat, i: nat)
    requires Proper(regs) && i <= k < |regs| && regs[k].code < 0xf00
    ensures Search(regs, regs[k].code, i) == Some(k)
    decreases k - i
  {
    if i < k {
      SearchFinds(regs, k, i + 1);
    }
  }

  lemma GetReads(regs: seq<Reg>, ptr: nat, st: seq<byte>, k: nat)
    requires Proper(regs) && Fits(regs, ptr, |st|) && k < |regs| && regs[k].code < 0xf00
    ensures EndOf(regs, k, ptr) <= 8 * |st|
    ensures Serve(regs, ptr, st, 0x1000 * GET + regs[k].code, [])
         == (Answer(regs[k], Read(st, regs[k], StartOf(regs, k, ptr))), st)
  {
    SearchFinds(regs, k, 0);
    assert EndOf(regs, k, ptr) <= 8 * |st|;
  }

  lemma SetWrites(regs: seq<Reg>, ptr: nat, st: seq<byte>, k: nat, payload: seq<byte>)
    requires Proper(regs) && Fits(regs, ptr, |st|) && k < |regs| && payload != []
    requires regs[k].code < 0xf00
    ensures EndOf(regs, k, ptr) <= 8 * |st|
    ensures Serve(regs, ptr, st, 0x1000 * SET + regs[k].code, payload)
         == if regs[k].code / 0x100 == 1 then (Unhandled, st)
            else (Reply(regs[k].code, None), Write(st, regs[k], StartOf(regs, k, ptr), Extended(regs[k], payload)))
  {
    SearchFinds(regs, k, 0);
    assert EndOf(regs, k, ptr) <= 8 * |st|;
  }

  /** A write sets the register to the payload cut off or extended, and the next read returns that. */
  lemma SetThenGet(regs: seq<Reg>, ptr: nat, st: seq<byte>, k: nat, payload: seq<byte>)
    requires Proper(regs) && Fits(regs, ptr, |st|) && k < |regs| && payload != []
    requires regs[k].code < 0xf00 && regs[k].code / 0x100 != 1
    ensures var code := regs[k].code;
      var (reply, after) := Serve(regs, ptr, st, 0x1000 * SET + code, payload);
      && reply == Reply(code, None)
      && |after| == |st|
      && Serve(regs, ptr, after, 0x1000 * GET + code, []) == (Answer(regs[k], Extended(regs[k], payload)), after)
  {
    SetWrites(regs, ptr, st, k, payload);
    ReadWritten(st, regs[k], StartOf(regs, k, ptr), payload);
    GetReads(regs, ptr, Serve(regs, ptr, st, 0x1000 * SET + regs[k].code, payload).1, k);
  }

  lemma StartOnByte(r: Reg, cur: nat, ptr: nat)
    ensures r.tp != BIT ==> Start(r, cur, ptr) % 8 == 0
  {
  }

  lemma WriteKeepsOthers(regs: seq<Reg>, ptr: nat, st: seq<byte>, k: nat, v: seq<byte>, l: nat)
    requires Fits(regs, ptr, |st|) && k < |regs| && l < |regs| && k != l
    requires |v| == if regs[k].tp == BIT then 1 else regs[k].size
    requires forall i :: 0 <= i < |regs| ==> !Overlaid(regs, i, ptr)
    ensures EndOf(regs, k, ptr) <= 8 * |st| && EndOf(regs, l, ptr) <= 8 * |st|
    ensures var after := Write(st, regs[k], StartOf(regs, k, ptr), v);
      Read(after, regs[l], StartOf(regs, l, ptr)) == Read(st, regs[l], StartOf(regs, l, ptr))
  {
    assert EndOf(regs, k, ptr) <= 8 * |st| && EndOf(regs, l, ptr) <= 8 * |st|;
    StartsLater(regs, if k < l then k else l, if k < l then l else k, ptr);
    StartOnByte(regs[k], Cursor(regs, k, ptr), ptr);
    StartOnByte(regs[l], Cursor(regs, l, ptr), ptr);
    ReadOther(st, regs[k], StartOf(regs, k, ptr), v, regs[l], StartOf(regs, l, ptr));
  }

  /** A write leaves what every other register answers, if no bytes register follows a started byte of bits. */
  lemma SetKeepsOthers(regs: seq<Reg>, ptr: nat, st: seq<byte>, k: nat, payload: seq<byte>, l: nat)
    requires Proper(regs) && Fits(regs, ptr, |st|) && k < |regs| && l < |regs| && k != l && payload != []
    requires regs[k].code < 0xf00 && regs[l].code < 0xf00
    requires forall i :: 0 <= i < |regs| ==> !Overlaid(regs, i, ptr)
    ensures var after := Serve(regs, ptr, st, 0x1000 * SET + regs[k].code, payload).1;
      && |after| == |st|
      && Serve(regs, ptr, after, 0x1000 * GET + regs[l].code, []).0
      == Serve(regs, ptr, st, 0x1000 * GET + regs[l].code, []).0
  {
    SetWrites(regs, ptr, st, k, payload);
    WriteKeepsOthers(regs, ptr, st, k, Extended(regs[k], payload), l);
    GetReads(regs, ptr, st, l);
    GetReads(regs, ptr, Serve(regs, ptr, st, 0x1000 * SET + regs[k].code, payload).1, l);
  }

  /** Otherwise a write of the bytes register does set the last bit register before it. */
  lemma OverlaidShares(regs: seq<Reg>, ptr: nat, st: seq<byte>, k: nat, v: seq<byte>)
    requires 0 < k < |regs| && Overlaid(regs, k, ptr) && Fits(regs, ptr, |st|)
    requires |v| == regs[k].size > 0
    ensures EndOf(regs, k, ptr) <= 8 * |st| && EndOf(regs, k - 1, ptr) <= 8 * |st|
    ensures var after := Write(st, regs[k], StartOf(regs, k, ptr), v);
      Read(after, regs[k - 1], StartOf(regs, k - 1, ptr))
      == [if BitAt(v[0], Cursor(regs, k, ptr) % 8 - 1) then 1 else 0]
  {
    var cur := Cursor(regs, k, ptr);
    assert cur == StartOf(regs, k - 1, ptr) + 1;
    assert StartOf(regs, k, ptr) / 8 == cur / 8 == StartOf(regs, k - 1, ptr) / 8;
  }

  /** Which requests are not looked up at all: other kinds, empty writes, reserved codes, and writes of read-only registers. */
  lemma NotLookedUp(regs: seq<Reg>, ptr: nat, st: seq<byte>, cmd: nat, payload: seq<byte>)
    requires Fits(regs, ptr, |st|)
    requires var kind, reg := cmd / 0x1000, cmd % 0x1000;
      (kind != 1 && kind != 2) || reg >= 0xf00 || (kind == 2 && (payload == [] || 0x100 <= reg < 0x200))
    ensures Serve(regs, ptr, st, cmd, payload) == (Reply(0, None), st)
  {
  }

  /** A code that no register has is not handled, and a descriptor with an invalid type before the code is a panic. */
  lemma {:induction false} SearchStops(regs: seq<Reg>, code: nat, i: nat, n: nat)
    requires i <= n <= |regs| && forall j :: i <= j < n ==> regs[j].size != 0 && regs[j].code != code
    ensures Search(regs, code, i) == Search(regs, code, n)
    decreases n - i
  {
    if i < n {
      SearchStops(regs, code, i + 1, n);
    }
  }

  lemma InvalidPanics(regs: seq<Reg>, ptr: nat, st: seq<byte>, cmd: nat, payload: seq<byte>, n: nat)
    requires Fits(regs, ptr, |st|) && n <= |regs| && 0x1000 <= cmd < 0x1f00
    requires forall j :: 0 <= j < n ==> regs[j].size != 0 && regs[j].code != cmd % 0x1000
    ensures n == |regs| ==> Serve(regs, ptr, st, cmd, payload) == (Reply(0, None), st)
    ensures n < |regs| && regs[n].size == 0 ==> Serve(regs, ptr, st, cmd, payload) == (Panic, st)
  {
    SearchStops(regs, cmd % 0x1000, 0, n);
  }

  /** A bit that is set by any first byte but 0 reads as 1. */
  lemma BitSetThenGet(regs: seq<Reg>, ptr: nat, st: seq<byte>, k: nat, payload: seq<byte>)
    requires Proper(regs) && Fits(regs, ptr, |st|) && k < |regs| && payload != [] && regs[k].tp == 8
    requires regs[k].code < 0xf00 && regs[k].code / 0x100 != 1
    ensures var after := Serve(regs, ptr, st, 0x2000 + regs[k].code, payload).1;
      && |after| == |st|
      && Serve(regs, ptr, after, 0x1000 + regs[k].code, []).0
      == Reply(-(regs[k].code as int), Some([if payload[0] != 0 then 1 else 0]))
  {
    SetThenGet(regs, ptr, st, k, payload);
  }

  /** A read returns the bytes of the register, but an optional register that is all zero counts as not there. */
  lemma ReadsBytes(regs: seq<Reg>, ptr: nat, st: seq<byte>, k: nat)
    requires Proper(regs) && Fits(regs, ptr, |st|) && k < |regs| && regs[k].code < 0xf00 && regs[k].tp != 8
    ensures var at := StartOf(regs, k, ptr) / 8;
      && at + regs[k].size <= |st|
      && var v := st[at..at + regs[k].size];
        Serve(regs, ptr, st, 0x1000 + regs[k].code, []) ==
          (if regs[k].tp >= 10 && forall i :: 0 <= i < |v| ==> v[i] == 0 then Reply(0, None)
           else Reply(-(regs[k].code as int), Some(v)), st)
  {
    GetReads(regs, ptr, st, k);
    StartOnByte(regs[k], Cursor(regs, k, ptr), ptr);
  }

  // ---------------------------------------------------------------- types

  /**
   * The widths of the types: 8, 16 and 32 bits for the pairs of a signed and an unsigned one, and again for the
   * optional ones; then a 32-bit fraction, 64 bits, a bit, bytes of a size of their own, and a pointer.
   */
  lemma Widths(ptr: nat, k: nat)
    requires k < 3
    ensures SizeOf(2 * k, ptr) == SizeOf(2 * k + 1, ptr) == SizeOf(10 + k, ptr) == Pow2(k)
    ensures Signed(2 * k) && !Signed(2 * k + 1) && !Signed(10 + k)
    ensures SizeOf(6, ptr) == 4 && SizeOf(7, ptr) == 8 && SizeOf(8, ptr) == 1 && SizeOf(9, ptr) == 0 && SizeOf(13, ptr) == ptr
    ensures !Signed(6) && !Signed(7) && forall tp :: tp >= 14 ==> SizeOf(tp, ptr) == 0
  {
    assert Pow2(0) == 1 && Pow2(1) == 2 && Pow2(2) == 4;
  }

  /**
   * The layout has no gaps but those of alignment: each register is looked for where the one before it ends,
   * a bit is right there, and bytes start with the byte that this place is in.
   */
  lemma LaidOutInOrder(regs: seq<Reg>, k: nat, ptr: nat)
    requires k < |regs|
    ensures var c, s := Cursor(regs, k, ptr), StartOf(regs, k, ptr);
      && (k == 0 ==> c == 0)
      && (k > 0 && (regs[k - 1].tp != 9 || Cursor(regs, k - 1, ptr) % 8 == 0) ==> c == EndOf(regs, k - 1, ptr))
      && (k > 0 && regs[k - 1].tp == 9 ==> c == Cursor(regs, k - 1, ptr) + 8 * regs[k - 1].size)
      && EndOf(regs, k, ptr) == s + (if regs[k].tp == 8 then 1 else 8 * regs[k].size)
      && (regs[k].tp == 8 ==> s == c) && (regs[k].tp == 9 ==> s == c - c % 8)
  {
  }

  lemma RoundsUp(x: nat, n: nat)
    requires n == 1 || n == 2 || n == 4 || n == 8
    ensures RoundUp(x, n) % n == 0 && x <= RoundUp(x, n) < x + n
  {
  }

  lemma InBits(c: nat, x: nat, r: nat, n: nat)
    requires x == (c + 7) / 8 && x <= r < x + n
    ensures c <= 8 * r < c + 8 * n && 8 * r % 8 == 0 && 8 * r / 8 == r
  {
  }

  /** A number starts at the first byte behind the cursor whose address its size, or that of a pointer if smaller, divides. */
  lemma NaturalAlignment(regs: seq<Reg>, k: nat, ptr: nat)
    requires k < |regs| && regs[k].tp != BIT && regs[k].tp != BYTES && (ptr == 4 || ptr == 8)
    requires regs[k].size == 1 || regs[k].size == 2 || regs[k].size == 4 || regs[k].size == 8
    ensures var c, s, n := Cursor(regs, k, ptr), StartOf(regs, k, ptr), Min(regs[k].size, ptr);
      s % 8 == 0 && s / 8 % n == 0 && c <= s < c + 8 * n
  {
    var c, n := Cursor(regs, k, ptr), Min(regs[k].size, ptr);
    RoundsUp((c + 7) / 8, n);
    InBits(c, (c + 7) / 8, RoundUp((c + 7) / 8, n), n);
  }

  // ---------------------------------------------------------------- numbers

  function Pow256(n: nat): (p: nat)
    ensures p > 0
  {
    if n == 0 then 1 else 256 * Pow256(n - 1)
  }

  /** The two's complement value of a little-endian number. */
  function SignedValue(s: seq<byte>): int {
    FromLe(s) - if |s| > 0 && s[|s| - 1] >= 0x80 then Pow256(|s|) else 0
  }

  lemma {:induction false} FromLeMore(s: seq<byte>, b: byte)
    ensures FromLe(s + [b]) == FromLe(s) + Pow256(|s|) * b
  {
    if |s| == 0 {
      assert (s + [b])[1..] == [];
    } else {
      FromLeMore(s[1..], b);
      assert (s + [b])[1..] == s[1..] + [b];
      assert Pow256(|s|) * b == 256 * (Pow256(|s| - 1) * b);
    }
  }

  lemma {:induction false} FillKeepsValue(r: Reg, p: seq<byte>, n: nat)
    requires |p| > 0
    ensures var s := p + Fill(r, p, n);
      && (if Signed(r.tp) then SignedValue(s) == SignedValue(p) else FromLe(s) == FromLe(p))
      && (s[|s| - 1] >= 0x80 <==> if Signed(r.tp) || n == 0 then p[|p| - 1] >= 0x80 else false)
  {
    if n == 0 {
      assert p + Fill(r, p, 0) == p;
    } else {
      FillKeepsValue(r, p, n - 1);
      var t := p + Fill(r, p, n - 1);
      var b := Fill(r, p, n)[n - 1];
      assert p + Fill(r, p, n) == t + [b];
      FromLeMore(t, b);
    }
  }

  /** Extending a short payload keeps the number it stands for, signed or not as the register is. */
  lemma ExtendedKeepsValue(r: Reg, payload: seq<byte>)
    requires 0 < |payload| <= r.size && r.tp != BIT
    ensures if Signed(r.tp) then SignedValue(Extended(r, payload)) == SignedValue(payload)
            else FromLe(Extended(r, payload)) == FromLe(payload)
  {
    FillKeepsValue(r, payload, r.size - |payload|);
    assert r.size == |payload| ==> payload[..r.size] == payload;
  }

  /** A longer payload is cut off to its lowest bytes: its value modulo the register's range. */
  lemma {:induction false} CutOffIsModulo(payload: seq<byte>, n: nat)
    requires n <= |payload|
    ensures FromLe(payload[..n]) < Pow256(n)
    ensures FromLe(payload) % Pow256(n) == FromLe(payload[..n])
  {
    if n == 0 {
      ModOne(FromLe(payload));
    } else {
      CutOffIsModulo(payload[1..], n - 1);
      assert payload[..n][1..] == payload[1..][..n - 1];
      ModStep(FromLe(payload[1..]), payload[0], Pow256(n - 1), FromLe(payload[1..][..n - 1]));
    }
  }

  /** A payload that is as long as the register or longer leaves its value modulo the register's range. */
  lemma ExtendedIsModulo(r: Reg, payload: seq<byte>)
    requires 0 < r.size <= |payload| && r.tp != BIT
    ensures FromLe(Extended(r, payload)) == FromLe(payload) % Pow256(r.size)
  {
    CutOffIsModulo(payload, r.size);
  }

  lemma ModOne(x: nat)
    ensures x % 1 == 0
  {
  }

  lemma ModStep(x: nat, b: byte, m: nat, r: nat)
    requires m > 0 && x % m == r
    ensures (x * 256 + b) % (256 * m) == r * 256 + b
  {
    var q := x / m;
    assert x == m * q + r;
    var n := 256 * m;
    assert x * 256 + b == n * q + (r * 256 + b);
    SameRemainder(x * 256 + b, r * 256 + b, q, n);
    SmallRemainder(r * 256 + b, n);
  }
}
