/**
 * Two configuration keys of one hash, of which one begins with the other, so that a lookup can
 * find the wrong entry. The hashes are worked out bit by bit.
 */
module DcfgCollision {
  import opened Bytes
  import opened Dcfg

  /** A number with one more bit at its low end. */
  function Plus(a: nat, x: bool): nat {
    if x then 2 * a + 1 else 2 * a
  }

  lemma HalfOfPlus(a: nat, x: bool)
    ensures Plus(a, x) / 2 == a
  {
  }

  lemma LowBit(a: nat, b: nat, x: bool, y: bool)
    ensures (Plus(a, x) + Plus(b, y)) % 2 == if x != y then 1 else 0
  {
    assert Plus(a, x) + Plus(b, y) == 2 * (a + b) + (if x then 1 else 0) + if y then 1 else 0;
  }

  lemma XorIs(a: nat, b: nat)
    ensures Xor(a, b) == 2 * Xor(a / 2, b / 2) + (a + b) % 2
  {
  }

  lemma XorPlus(a: nat, b: nat, x: bool, y: bool)
    ensures Xor(Plus(a, x), Plus(b, y)) == Plus(Xor(a, b), x != y)
  {
    XorIs(Plus(a, x), Plus(b, y));
    HalfOfPlus(a, x);
    HalfOfPlus(b, y);
    LowBit(a, b, x, y);
  }

  lemma {:induction false} XorZero(a: nat)
    ensures Xor(a, 0) == a
  {
    if a > 0 {
      XorZero(a / 2);
    }
  }

  /** What the proofs need of the exclusive or. */
  ghost predicate Bitwise(xor: (nat, nat) -> nat) {
    && (forall a, b, x: bool, y: bool {:trigger xor(Plus(a, x), Plus(b, y))} ::
          xor(Plus(a, x), Plus(b, y)) == Plus(xor(a, b), x != y))
    && (forall a :: xor(a, 0) == a)
  }

  lemma XorBitwise()
    ensures Bitwise(Xor)
  {
    forall a: nat, b: nat, x: bool, y: bool
      ensures Xor(Plus(a, x), Plus(b, y)) == Plus(Xor(a, b), x != y)
    {
      XorPlus(a, b, x, y);
    }
    forall a: nat
      ensures Xor(a, 0) == a
    {
      XorZero(a);
    }
  }

  /** Four bits. */
  datatype Nibble = Nibble(b3: bool, b2: bool, b1: bool, b0: bool)

  /** A number with four more bits at its low end. */
  function More(a: nat, n: Nibble): nat {
    Plus(Plus(Plus(Plus(a, n.b3), n.b2), n.b1), n.b0)
  }

  function Sum(n: Nibble, m: Nibble): Nibble {
    Nibble(n.b3 != m.b3, n.b2 != m.b2, n.b1 != m.b1, n.b0 != m.b0)
  }

  lemma FourBits(xor: (nat, nat) -> nat, a: nat, b: nat, c: nat, n: Nibble, m: Nibble)
    requires Bitwise(xor) && xor(a, b) == c
    ensures xor(More(a, n), More(b, m)) == More(c, Sum(n, m))
  {
    var a1, b1 := Plus(a, n.b3), Plus(b, m.b3);
    var a2, b2 := Plus(a1, n.b2), Plus(b1, m.b2);
    var a3, b3 := Plus(a2, n.b1), Plus(b2, m.b1);
    assert xor(a1, b1) == Plus(c, n.b3 != m.b3);
    assert xor(a2, b2) == Plus(xor(a1, b1), n.b2 != m.b2);
    assert xor(a3, b3) == Plus(xor(a2, b2), n.b1 != m.b1);
  }

  lemma OneByte(xor: (nat, nat) -> nat, a: nat, n: Nibble, n': Nibble, m: Nibble, m': Nibble, h: nat, b: nat, x: nat, r: nat)
    requires Bitwise(xor) && h == More(More(a, n), n') && b == More(More(0, m), m')
    requires x == More(More(a, Sum(n, m)), Sum(n', m')) && x * 0x1000193 % WORD == r
    ensures xor(h, b) * 0x1000193 % WORD == r
  {
    FourBits(xor, a, 0, a, n, m);
    FourBits(xor, More(a, n), More(0, m), More(a, Sum(n, m)), n', m');
  }

  function Half(a: nat, n: seq<Nibble>): nat
    requires |n| == 4
  {
    More(More(More(More(a, n[0]), n[1]), n[2]), n[3])
  }

  lemma FourNibbles(xor: (nat, nat) -> nat, a: nat, b: nat, c: nat, n: seq<Nibble>, m: seq<Nibble>)
    requires |n| == |m| == 4 && Bitwise(xor) && xor(a, b) == c
    ensures xor(Half(a, n), Half(b, m)) == Half(c, [Sum(n[0], m[0]), Sum(n[1], m[1]), Sum(n[2], m[2]), Sum(n[3], m[3])])
  {
    FourBits(xor, a, b, c, n[0], m[0]);
    var a1, b1, c1 := More(a, n[0]), More(b, m[0]), More(c, Sum(n[0], m[0]));
    FourBits(xor, a1, b1, c1, n[1], m[1]);
    var a2, b2, c2 := More(a1, n[1]), More(b1, m[1]), More(c1, Sum(n[1], m[1]));
    FourBits(xor, a2, b2, c2, n[2], m[2]);
    FourBits(xor, More(a2, n[2]), More(b2, m[2]), More(c2, Sum(n[2], m[2])), n[3], m[3]);
  }

  lemma OneFold(xor: (nat, nat) -> nat, u: nat, n: seq<Nibble>, m: seq<Nibble>, h: nat, x: nat, r: nat)
    requires |n| == |m| == 4 && Bitwise(xor) && h == Half(u, n) && h / 0x1_0000 == u == Half(0, m)
    requires x == Half(u, [Sum(n[0], m[0]), Sum(n[1], m[1]), Sum(n[2], m[2]), Sum(n[3], m[3])]) && x % 0x1_0000 == r
    ensures xor(h, h / 0x1_0000) % 0x1_0000 == r
  {
    FourNibbles(xor, u, 0, u, n, m);
  }

  lemma FirstByte(xor: (nat, nat) -> nat)
    requires Bitwise(xor)
    ensures xor(0x811c9dc5, 49) * 0x1000193 % WORD == 0x340ca71c
  {
    OneByte(xor, 0x811c9d, Nibble(true, true, false, false), Nibble(false, true, false, true),
            Nibble(false, false, true, true), Nibble(false, false, false, true), 0x811c9dc5, 49, 0x811c9df4, 0x340ca71c);
  }

  lemma SecondByte(xor: (nat, nat) -> nat)
    requires Bitwise(xor)
    ensures xor(0x340ca71c, 56) * 0x1000193 % WORD == 0x13eb1dac
  {
    OneByte(xor, 0x340ca7, Nibble(false, false, false, true), Nibble(true, true, false, false),
            Nibble(false, false, true, true), Nibble(true, false, false, false), 0x340ca71c, 56, 0x340ca724, 0x13eb1dac);
  }

  lemma ThirdByte(xor: (nat, nat) -> nat)
    requires Bitwise(xor)
    ensures xor(0x13eb1dac, 107) * 0x1000193 % WORD == 0x221fe045
  {
    OneByte(xor, 0x13eb1d, Nibble(true, false, true, false), Nibble(true, true, false, false),
            Nibble(false, true, true, false), Nibble(true, false, true, true), 0x13eb1dac, 107, 0x13eb1dc7, 0x221fe045);
  }

  lemma FourthByte(xor: (nat, nat) -> nat)
    requires Bitwise(xor)
    ensures xor(0x221fe045, 107) * 0x1000193 % WORD == 0xe62de86a
  {
    OneByte(xor, 0x221fe0, Nibble(false, true, false, false), Nibble(false, true, false, true),
            Nibble(false, true, true, false), Nibble(true, false, true, true), 0x221fe045, 107, 0x221fe02e, 0xe62de86a);
  }

  lemma ShortFold(xor: (nat, nat) -> nat)
    requires Bitwise(xor)
    ensures xor(0x13eb1dac, 0x13eb1dac / 0x1_0000) % 0x1_0000 == 0x0e47
  {
    OneFold(xor, 0x13eb,
            [Nibble(false, false, false, true),
             Nibble(true, true, false, true),
             Nibble(true, false, true, false),
             Nibble(true, true, false, false)],
            [Nibble(false, false, false, true),
             Nibble(false, false, true, true),
             Nibble(true, true, true, false),
             Nibble(true, false, true, true)],
            0x13eb1dac, 0x13eb0e47, 0xe47);
  }

  lemma LongFold(xor: (nat, nat) -> nat)
    requires Bitwise(xor)
    ensures xor(0xe62de86a, 0xe62de86a / 0x1_0000) % 0x1_0000 == 0x0e47
  {
    OneFold(xor, 0xe62d,
            [Nibble(true, true, true, false),
             Nibble(true, false, false, false),
             Nibble(false, true, true, false),
             Nibble(true, false, true, false)],
            [Nibble(true, true, true, false),
             Nibble(false, true, true, false),
             Nibble(false, false, true, false),
             Nibble(true, true, false, true)],
            0xe62de86a, 0xe62d0e47, 0xe47);
  }

  lemma ShortFnv(step: (nat, nat) -> nat, key: seq<byte>)
    requires |key| >= 2 && key[0] == 49 && key[1] == 56
    requires step(0x811c9dc5, 49) == 0x340ca71c && step(0x340ca71c, 56) == 0x13eb1dac
    ensures Hashed(step, key, 2) == 0x13eb1dac
  {
    assert Hashed(step, key, 1) == 0x340ca71c;
  }

  lemma LongFnv(step: (nat, nat) -> nat, key: seq<byte>)
    requires |key| == 4 && key[2] == key[3] == 107 && Hashed(step, key, 2) == 0x13eb1dac
    requires step(0x13eb1dac, 107) == 0x221fe045 && step(0x221fe045, 107) == 0xe62de86a
    ensures Hashed(step, key, 4) == 0xe62de86a
  {
    assert Hashed(step, key, 3) == 0x221fe045;
  }

  lemma Steps()
    ensures Step(0x811c9dc5, 49) == 0x340ca71c && Step(0x340ca71c, 56) == 0x13eb1dac
    ensures Step(0x13eb1dac, 107) == 0x221fe045 && Step(0x221fe045, 107) == 0xe62de86a
  {
    XorBitwise();
    FirstByte(Xor);
    SecondByte(Xor);
    ThirdByte(Xor);
    FourthByte(Xor);
  }

  lemma Folds()
    ensures Fold(0x13eb1dac) == Fold(0xe62de86a)
  {
    XorBitwise();
    ShortFold(Xor);
    LongFold(Xor);
  }

  lemma SameHash(step: (nat, nat) -> nat, fold: nat -> nat, key: seq<byte>, longer: seq<byte>)
    requires key == [49, 56] && longer == [49, 56, 107, 107]
    requires step(0x811c9dc5, 49) == 0x340ca71c && step(0x340ca71c, 56) == 0x13eb1dac
    requires step(0x13eb1dac, 107) == 0x221fe045 && step(0x221fe045, 107) == 0xe62de86a
    requires fold(0x13eb1dac) == fold(0xe62de86a)
    ensures fold(Hashed(step, key, |key|)) == fold(Hashed(step, longer, |longer|))
  {
    ShortFnv(step, key);
    ShortFnv(step, longer);
    LongFnv(step, longer);
  }

  /** "18" and "18kk" have the same hash. */
  lemma Collision(key: CString, longer: CString)
    requires key == [49, 56] && longer == [49, 56, 107, 107]
    ensures KeyHash(key) == KeyHash(longer)
  {
    Steps();
    Folds();
    SameHash(Step, Fold, key, longer);
  }

  /** In any configuration with "18kk" before "18", a lookup of "18" does not find its entry. */
  lemma WrongEntry(hd: Image, i: nat, j: nat)
    requires WellFormed(hd) && j < i < Num(hd)
    requires CStr(At(hd, i).key) == [49, 56] && CStr(At(hd, j).key) == [49, 56, 107, 107]
    requires forall k :: 0 <= k < i ==> CStr(At(hd, k).key) != [49, 56]
    ensures Lookup(Some(hd), [49, 56]) != Some(i)
  {
    var key, longer := CStr(At(hd, i).key), CStr(At(hd, j).key);
    Collision(key, longer);
    assert EntryOk(hd, i) && EntryOk(hd, j);
    ExactIff(hd, key, i);
    BeginsWith(At(hd, j), longer, key);
  }

  lemma BeginsWith(e: Entry, longer: CString, key: CString)
    requires longer == CStr(e.key) && key <= longer
    ensures StartsWith(e, key)
  {
  }
}
