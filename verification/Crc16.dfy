/**
 * The frame checksum of source/jd_util.c: CRC-16-CCITT, polynomial 0x1021, from 0xffff.
 * Words and bytes are sequences of bits, least significant first.
 */
module Crc16 {
  type Byte = b: seq<bool> | |b| == 8 witness [false, false, false, false, false, false, false, false]
  type Word = w: seq<bool> | |w| == 16 witness [false, false, false, false, false, false, false, false] + [false, false, false, false, false, false, false, false]

  function Xor(a: seq<bool>, b: seq<bool>): (r: seq<bool>)
    requires |a| == |b|
    ensures |r| == |a| && forall k :: 0 <= k < |r| ==> r[k] == (a[k] != b[k])
  {
    seq(|a|, k requires 0 <= k < |a| => a[k] != b[k])
  }

  /** A left shift at a fixed width: the top bits are lost. */
  function Shl(a: seq<bool>, n: nat): (r: seq<bool>)
    ensures |r| == |a| && forall k :: 0 <= k < |r| ==> r[k] == (k >= n && a[k - n])
  {
    seq(|a|, k requires 0 <= k < |a| => k >= n && a[k - n])
  }

  function Shr(a: seq<bool>, n: nat): (r: seq<bool>)
    ensures |r| == |a| && forall k :: 0 <= k < |r| ==> r[k] == (k + n < |a| && a[k + n])
  {
    seq(|a|, k requires 0 <= k < |a| => k + n < |a| && a[k + n])
  }

  function Widen(b: Byte): (w: Word) {
    b + [false, false, false, false, false, false, false, false]
  }

  const POLY: Word :=
    [true, false, false, false, false, true, false, false]
    + [false, false, false, false, true, false, false, false]
  const START: Word :=
    [true, true, true, true, true, true, true, true]
    + [true, true, true, true, true, true, true, true]

  /** One bit of the long division. */
  function Bit(crc: Word): Word {
    if crc[15] then Xor(Shl(crc, 1), POLY) else Shl(crc, 1)
  }

  function Bits(crc: Word, n: nat): Word {
    if n == 0 then crc else Bit(Bits(crc, n - 1))
  }

  /** Takes one byte into the remainder, bit by bit. */
  function Divide(crc: Word, data: Byte): Word {
    Bits(Xor(crc, Shl(Widen(data), 8)), 8)
  }

  /** The remainder after the first `n` bytes. */
  function Remainder(data: seq<Byte>, n: nat): Word
    requires n <= |data|
  {
    if n == 0 then START else Divide(Remainder(data, n - 1), data[n - 1])
  }

  function Checksum(data: seq<Byte>): Word {
    Remainder(data, |data|)
  }

  // ---------------------------------------------------------------- one byte at a time

  lemma BitAt(c: Word, k: nat)
    requires k < 16
    ensures Bit(c)[k] == ((k > 0 && c[k - 1]) != (c[15] && (k == 0 || k == 5 || k == 12)))
  {
  }

  lemma {:induction false} BitsShift(c: Word, n: nat, m: nat)
    ensures Bits(Bits(c, n), m) == Bits(c, n + m)
  {
    if m > 0 {
      BitsShift(c, n, m - 1);
    }
  }

  /** Bit `k` of the remainder after four steps. */
  ghost predicate FourAt(c: Word, d: Word, k: nat)
    requires k < 16
  {
    d[k] == ((k >= 4 && c[k - 4]) != ((k < 4 && c[12 + k]) != ((5 <= k < 9 && c[7 + k]) != (12 <= k && c[k]))))
  }

  /** Bit `k` of the remainder after two steps. */
  ghost predicate TwoAt(c: Word, d: Word, k: nat)
    requires k < 16
  {
    d[k] == ((k >= 2 && c[k - 2]) != ((c[15] && (k == 1 || k == 6 || k == 13)) != (c[14] && (k == 0 || k == 5 || k == 12))))
  }

  lemma TwoBits(c: Word, k: nat)
    requires k < 16
    ensures TwoAt(c, Bit(Bit(c)), k)
  {
    BitAt(Bit(c), k);
    BitAt(c, 15);
    if k > 0 {
      BitAt(c, k - 1);
    }
  }

  lemma FourFromTwo(c: Word, d: Word, e: Word, k: nat)
    requires k < 16 && TwoAt(d, e, k) && TwoAt(c, d, 15) && TwoAt(c, d, 14) && (k >= 2 ==> TwoAt(c, d, k - 2))
    ensures FourAt(c, e, k)
  {
  }

  lemma FourBits(c: Word, k: nat)
    requires k < 16
    ensures FourAt(c, Bits(c, 4), k)
  {
    var d := Bit(Bit(c));
    TwoBits(d, k);
    TwoBits(c, 15);
    TwoBits(c, 14);
    if k >= 2 {
      TwoBits(c, k - 2);
    }
    FourFromTwo(c, d, Bit(Bit(d)), k);
    BitsFour(c);
  }

  lemma BitsFour(c: Word)
    ensures Bits(c, 4) == Bit(Bit(Bit(Bit(c))))
  {
    assert Bits(c, 1) == Bit(c);
    assert Bits(c, 2) == Bit(Bit(c));
    assert Bits(c, 3) == Bit(Bit(Bit(c)));
  }

  lemma EightBits(c: Word, k: nat)
    requires k < 16
    ensures var d := Bits(c, 4); FourAt(d, Bits(c, 8), k)
  {
    BitsShift(c, 4, 4);
    FourBits(Bits(c, 4), k);
  }

  /** What the byte loop does with one byte. */
  function Mixed(crc: Word, data: Byte): Word {
    var x := Xor(Shr(crc, 8)[..8], data);
    var y := Widen(Xor(x, Shr(x, 4)));
    Xor(Xor(Xor(Shl(crc, 8), Shl(y, 12)), Shl(y, 5)), y)
  }

  /** Bit `k` of the upper byte of `a` xored with its own upper nibble. */
  function Folded(a: Word, k: int): bool {
    0 <= k < 8 && a[8 + k] != (k < 4 && a[12 + k])
  }

  lemma MixedFolds(crc: Word, data: Byte, a: Word, k: nat)
    requires k < 16 && a == Xor(crc, Shl(Widen(data), 8))
    ensures Mixed(crc, data)[k]
         == ((k >= 8 && a[k - 8]) != (Folded(a, k - 12) != (Folded(a, k - 5) != Folded(a, k))))
  {
    var x := Xor(Shr(crc, 8)[..8], data);
    assert forall j :: 0 <= j < 8 ==> x[j] == a[8 + j];
    var y := Widen(Xor(x, Shr(x, 4)));
    assert forall j :: 0 <= j < 16 ==> y[j] == Folded(a, j);
  }

  lemma EightFold(a: Word, b: Word, c: Word, k: nat)
    requires k < 16 && (forall j :: 0 <= j < 16 ==> FourAt(a, b, j)) && FourAt(b, c, k)
    ensures c[k] == ((k >= 8 && a[k - 8]) != (Folded(a, k - 12) != (Folded(a, k - 5) != Folded(a, k))))
  {
    assert k >= 4 ==> FourAt(a, b, k - 4);
    assert k < 4 ==> FourAt(a, b, 12 + k);
    assert 5 <= k < 9 ==> FourAt(a, b, 7 + k);
    assert FourAt(a, b, k);
  }

  lemma MixedAt(crc: Word, data: Byte, k: nat)
    requires k < 16
    ensures Mixed(crc, data)[k] == Divide(crc, data)[k]
  {
    var a := Xor(crc, Shl(Widen(data), 8));
    forall j | 0 <= j < 16
      ensures FourAt(a, Bits(a, 4), j)
    {
      FourBits(a, j);
    }
    EightBits(a, k);
    EightFold(a, Bits(a, 4), Bits(a, 8), k);
    MixedFolds(crc, data, a, k);
  }

  lemma MixedIsDivide(crc: Word, data: Byte)
    ensures Mixed(crc, data) == Divide(crc, data)
  {
    forall k | 0 <= k < 16
      ensures Mixed(crc, data)[k] == Divide(crc, data)[k]
    {
      MixedAt(crc, data, k);
    }
  }

  method Compute(data: seq<Byte>) returns (crc: Word)
    ensures crc == Checksum(data)
  {
    crc := START;
    for i := 0 to |data|
      invariant crc == Remainder(data, i)
    {
      MixedIsDivide(crc, data[i]);
      var x := Xor(Shr(crc, 8)[..8], data[i]);
      x := Xor(x, Shr(x, 4));
      crc := Xor(Xor(Xor(Shl(crc, 8), Shl(Widen(x), 12)), Shl(Widen(x), 5)), Widen(x));
    }
  }

  // ---------------------------------------------------------------- short errors are detected

  lemma BitTells(a: Word, b: Word)
    requires Bit(a) == Bit(b)
    ensures a == b
  {
    BitAt(a, 0);
    BitAt(b, 0);
    forall k | 0 <= k < 15
      ensures a[k] == b[k]
    {
      BitAt(a, k + 1);
      BitAt(b, k + 1);
    }
  }

  /** Each step of the division can be undone. */
  lemma {:induction false} BitsTell(a: Word, b: Word, n: nat)
    requires Bits(a, n) == Bits(b, n)
    ensures a == b
  {
    if n > 0 {
      BitTells(Bits(a, n - 1), Bits(b, n - 1));
      BitsTell(a, b, n - 1);
    }
  }

  lemma BitAdds(a: Word, b: Word)
    ensures Bit(Xor(a, b)) == Xor(Bit(a), Bit(b))
  {
    forall k | 0 <= k < 16
      ensures Bit(Xor(a, b))[k] == Xor(Bit(a), Bit(b))[k]
    {
      BitAt(Xor(a, b), k);
      BitAt(a, k);
      BitAt(b, k);
    }
  }

  /** The division is linear. */
  lemma {:induction false} BitsAdd(a: Word, b: Word, n: nat)
    ensures Bits(Xor(a, b), n) == Xor(Bits(a, n), Bits(b, n))
  {
    if n > 0 {
      BitsAdd(a, b, n - 1);
      BitAdds(Bits(a, n - 1), Bits(b, n - 1));
    }
  }

  /** A byte in the lower half moves to the upper half in eight steps. */
  lemma {:induction false} LowByteMovesUp(d: Byte, n: nat)
    requires n <= 8
    ensures Bits(Widen(d), n) == Shl(Widen(d), n)
  {
    if n > 0 {
      LowByteMovesUp(d, n - 1);
    } else {
      assert Shl(Widen(d), 0) == Widen(d);
    }
  }

  /** Two bytes are taken in like one 16-bit word. */
  lemma TwoBytesAreAWord(c: Word, d0: Byte, d1: Byte)
    ensures Divide(Divide(c, d0), d1) == Bits(Xor(Xor(c, Shl(Widen(d0), 8)), Widen(d1)), 16)
  {
    var a := Xor(c, Shl(Widen(d0), 8));
    LowByteMovesUp(d1, 8);
    BitsAdd(a, Widen(d1), 8);
    BitsShift(Xor(a, Widen(d1)), 8, 8);
  }

  lemma WordTells(c: Word, a0: Byte, a1: Byte, b0: Byte, b1: Byte)
    requires Xor(Xor(c, Shl(Widen(a0), 8)), Widen(a1)) == Xor(Xor(c, Shl(Widen(b0), 8)), Widen(b1))
    ensures a0 == b0 && a1 == b1
  {
    var u, v := Xor(Xor(c, Shl(Widen(a0), 8)), Widen(a1)), Xor(Xor(c, Shl(Widen(b0), 8)), Widen(b1));
    forall k | 0 <= k < 8
      ensures a0[k] == b0[k] && a1[k] == b1[k]
    {
      assert u[k] == v[k] && u[k + 8] == v[k + 8];
    }
  }

  /** The next byte keeps different remainders apart. */
  lemma DivideTells(a: Word, b: Word, d: Byte)
    requires Divide(a, d) == Divide(b, d)
    ensures a == b
  {
    var u, v := Xor(a, Shl(Widen(d), 8)), Xor(b, Shl(Widen(d), 8));
    BitsTell(u, v, 8);
    forall k | 0 <= k < 16
      ensures a[k] == b[k]
    {
      assert u[k] == v[k];
    }
  }

  lemma {:induction false} SameBefore(s: seq<Byte>, t: seq<Byte>, n: nat)
    requires n <= |s| && n <= |t| && s[..n] == t[..n]
    ensures Remainder(s, n) == Remainder(t, n)
  {
    if n > 0 {
      assert s[..n][..n - 1] == s[..n - 1] && t[..n][..n - 1] == t[..n - 1];
      assert s[n - 1] == s[..n][n - 1] == t[..n][n - 1] == t[n - 1];
      SameBefore(s, t, n - 1);
    }
  }

  lemma {:induction false} SameAfter(s: seq<Byte>, t: seq<Byte>, i: nat, n: nat)
    requires i <= n <= |s| == |t| && s[i..] == t[i..]
    requires Remainder(s, n) == Remainder(t, n)
    ensures Remainder(s, i) == Remainder(t, i)
  {
    if i < n {
      assert s[n - 1] == s[i..][n - 1 - i] == t[i..][n - 1 - i] == t[n - 1];
      DivideTells(Remainder(s, n - 1), Remainder(t, n - 1), s[n - 1]);
      SameAfter(s, t, i, n - 1);
    }
  }

  lemma AfterTwo(s: seq<Byte>, i: nat)
    requires i + 2 <= |s|
    ensures Remainder(s, i + 2) == Bits(Xor(Xor(Remainder(s, i), Shl(Widen(s[i]), 8)), Widen(s[i + 1])), 16)
  {
    assert Remainder(s, i + 1) == Divide(Remainder(s, i), s[i]);
    TwoBytesAreAWord(Remainder(s, i), s[i], s[i + 1]);
  }

  lemma TwoBytesTell(s: seq<Byte>, t: seq<Byte>, i: nat)
    requires i + 2 <= |s| && i + 2 <= |t| && Remainder(s, i) == Remainder(t, i)
    requires Remainder(s, i + 2) == Remainder(t, i + 2)
    ensures s[i] == t[i] && s[i + 1] == t[i + 1]
  {
    AfterTwo(s, i);
    AfterTwo(t, i);
    var c := Remainder(s, i);
    var u, v := Xor(Xor(c, Shl(Widen(s[i]), 8)), Widen(s[i + 1])), Xor(Xor(c, Shl(Widen(t[i]), 8)), Widen(t[i + 1]));
    BitsTell(u, v, 16);
    WordTells(c, s[i], s[i + 1], t[i], t[i + 1]);
  }

  lemma SameParts(s: seq<Byte>, t: seq<Byte>, i: nat)
    requires i + 2 <= |s| == |t| && s[..i] == t[..i] && s[i + 2..] == t[i + 2..]
    requires s[i] == t[i] && s[i + 1] == t[i + 1]
    ensures s == t
  {
    assert s == s[..i] + [s[i], s[i + 1]] + s[i + 2..];
    assert t == t[..i] + [t[i], t[i + 1]] + t[i + 2..];
  }

  /** Two inputs of equal length that differ only within two adjacent bytes have different checksums. */
  lemma DetectsTwoBytes(s: seq<Byte>, t: seq<Byte>, i: nat)
    requires i + 2 <= |s| == |t| && s[..i] == t[..i] && s[i + 2..] == t[i + 2..]
    ensures Checksum(s) == Checksum(t) <==> s == t
  {
    if Checksum(s) == Checksum(t) {
      SameAfter(s, t, i + 2, |s|);
      SameBefore(s, t, i);
      TwoBytesTell(s, t, i);
      SameParts(s, t, i);
    }
  }
}
