/** Bytes, C strings and little-endian words, as flash and wire images lay them out. */
module Bytes {
  type byte = x: int | 0 <= x < 256

  const WORD: int := 0x1_0000_0000

  /** A C string without its terminator. */
  type CString = s: seq<byte> | forall i :: 0 <= i < |s| ==> s[i] != 0

  datatype Option<+T> = None | Some(value: T)

  function Le32(x: int): (s: seq<byte>)
    requires 0 <= x < WORD
    ensures |s| == 4
  {
    [x % 256, x / 0x100 % 256, x / 0x1_0000 % 256, x / 0x100_0000 % 256]
  }

  function Le16(x: int): (s: seq<byte>)
    requires 0 <= x < 0x1_0000
    ensures |s| == 2
  {
    [x % 256, x / 0x100]
  }

  /** Little-endian value of a byte string. */
  function FromLe(s: seq<byte>): nat {
    if |s| == 0 then 0 else FromLe(s[1..]) * 256 + s[0]
  }

  function FromLe32(s: seq<byte>): (x: int)
    requires |s| == 4
    ensures 0 <= x < WORD
  {
    FromLeFour(s);
    FromLe(s)
  }

  lemma FromLeFour(s: seq<byte>)
    requires |s| == 4
    ensures FromLe(s) == ((s[3] as int * 256 + s[2]) * 256 + s[1]) * 256 + s[0] < WORD
  {
    assert FromLe(s[1..][1..][1..][1..]) == 0;
    assert FromLe(s[1..][1..][1..]) == s[3];
    assert FromLe(s[1..][1..]) == s[3] as int * 256 + s[2];
  }

  lemma Le32RoundTrip(x: int)
    requires 0 <= x < WORD
    ensures FromLe32(Le32(x)) == x
  {
    FromLeFour(Le32(x));
    assert x / 0x1_0000 == x / 0x100 / 0x100;
    assert x / 0x100_0000 == x / 0x100 / 0x100 / 0x100;
  }

  function Zeros(n: nat): (s: seq<byte>)
    ensures |s| == n && forall i :: 0 <= i < n ==> s[i] == 0
  {
    seq(n, _ => 0)
  }

  /** The C string that a char array holds: the bytes before its first NUL. */
  function CStr(s: seq<byte>): (r: CString)
    ensures |r| <= |s| && r == s[..|r|]
    ensures |r| < |s| ==> s[|r|] == 0
  {
    if |s| == 0 || s[0] == 0 then [] else [s[0]] + CStr(s[1..])
  }

  lemma {:induction false} CStrOfPadded(key: CString, n: nat)
    ensures CStr(key + Zeros(n)) == key
  {
    if |key| > 0 {
      CStrOfPadded(key[1..], n);
      assert (key + Zeros(n))[1..] == key[1..] + Zeros(n);
    }
  }

  lemma Assoc<T>(a: seq<T>, b: seq<T>, c: seq<T>)
    ensures (a + b) + c == a + (b + c)
  {
  }
}
