/**
 * Power cuts inside jd_settings_set_bin and at the row of a large blob, where the code does not
 * survive all of them: what the next mount finds after every number of bytes programmed.
 */
module FlashCuts {
  import opened Bytes
  import opened FlashImage

  predicate AllErased(s: seq<byte>) {
    forall i :: 0 <= i < |s| ==> s[i] == ERASED
  }

  /** The table that a mount of this bank finds, or None if it takes the bank for broken. */
  function FoundIn(g: Geometry, img: seq<byte>, bank: nat): Option<seq<Entry>>
    requires g.Ok() && |img| == g.Total() && IsBank(g, bank)
  {
    match MountBank(g, img, bank)
    case Broken => None
    case Rows(n, _) => Some(ReadLog(img, bank, n))
  }

  /** The table that the next mount of this image finds, or None if it would reformat. */
  function Found(g: Geometry, img: seq<byte>): Option<seq<Entry>>
    requires g.Ok() && |img| == g.Total()
  {
    match PickBank(g, img)
    case None => None
    case Some(b) => FoundIn(g, img, b)
  }

  lemma FoundOfTable(g: Geometry, img: seq<byte>, bank: nat, log: seq<Entry>)
    requires Table(g, img, bank, log) && PickBank(g, img) == Some(bank)
    ensures Found(g, img) == Some(log)
  {
    MountOfTable(g, img, bank, log);
    ReadLogOfTable(g, img, bank, log, |log|);
    assert log[..|log|] == log;
  }

  /**
   * A power cut after some bytes `val` of a value were programmed and before its row was begun: the
   * next mount finds the old table if these bytes are all 0xff, and otherwise takes the bank for broken
   * and formats the store.
   */
  lemma CutBeforeRow(g: Geometry, img: seq<byte>, img1: seq<byte>, bank: nat, log: seq<Entry>, off: nat, val: seq<byte>)
    requires Store(g, img, bank, log)
    requires Slot(bank, |log| + 1) <= off && off + |val| <= bank + g.Bank() - DataBytes(log)
    requires img1 == Program(img, off, val)
    ensures Found(g, img1) == if AllErased(val) then Some(log) else None
  {
    if AllErased(val) {
      assert img1 == img;
      FoundOfTable(g, img, bank, log);
    } else {
      var i :| 0 <= i < |val| && val[i] != ERASED;
      MountOfTable(g, img, bank, log);
      MountBroken(g, img, img1, bank, |log|, bank + g.Bank() - DataBytes(log), off + i);
      PickSame(g, img, img1, bank);
    }
  }

  // ---------------------------------------------------------------- words of which some bytes were programmed

  /** The word `x` after `j` of its bytes were programmed. */
  function CutWord(x: nat, j: int): (w: nat)
    requires x < WORD && j <= 4
    ensures w < WORD
  {
    if j <= 0 then WORD - 1
    else if j == 1 then WORD - 0x100 + x % 0x100
    else if j == 2 then WORD - 0x1_0000 + x % 0x1_0000
    else if j == 3 then WORD - 0x100_0000 + x % 0x100_0000
    else x
  }

  lemma CutWordGrows(x: nat, j: int)
    requires x < WORD && j <= 4
    ensures CutWord(x, j) >= x
  {
  }

  /** The bytes that are still to come leave the word as it is exactly if they are all erased ones. */
  lemma CutWordIff(x: nat, j: nat)
    requires x < WORD && j <= 4
    ensures CutWord(x, j) == x <==> AllErased(Le32(x)[j..])
  {
    LeParts(x);
    var s := Le32(x);
    assert AllErased(s[j..]) <==> forall i :: j <= i < 4 ==> s[i] == ERASED by {
      if AllErased(s[j..]) {
        forall i | j <= i < 4 ensures s[i] == ERASED {
          assert s[j..][i - j] == s[i];
        }
      }
    }
  }

  lemma LeParts(x: nat)
    requires x < WORD
    ensures var s := Le32(x);
      && x == s[0] as int + 0x100 * s[1] as int + 0x1_0000 * s[2] as int + 0x100_0000 * s[3] as int
      && x % 0x100 == s[0] && x % 0x1_0000 == s[0] as int + 0x100 * s[1] as int
      && x % 0x100_0000 == s[0] as int + 0x100 * s[1] as int + 0x1_0000 * s[2] as int
  {
    FromLeFour(Le32(x));
    Le32RoundTrip(x);
  }

  /** What is read where the first `j` bytes of a word were programmed. */
  lemma CutWordRead(s: seq<byte>, x: nat, j: nat)
    requires x < WORD && j <= 4 == |s| && s[..j] == Le32(x)[..j] && AllErased(s[j..])
    ensures FromLe32(s) == CutWord(x, j)
  {
    LeParts(x);
    FromLeFour(s);
    var t := Le32(x);
    forall i | 0 <= i < 4 ensures s[i] == if i < j then t[i] else ERASED {
      if i < j {
        assert s[i] == s[..j][i] == t[..j][i];
      } else {
        assert s[i] == s[j..][i - j];
      }
    }
  }

  // ---------------------------------------------------------------- a row of which some bytes were programmed

  /**
   * The value `val` was programmed at `e.offset` (none for a large entry), and then the first `k` bytes
   * of the row of `e`.
   */
  ghost predicate RowCut(g: Geometry, img: seq<byte>, img1: seq<byte>, img2: seq<byte>, bank: nat, log: seq<Entry>,
                         e: Entry, val: seq<byte>, k: nat)
  {
    && Store(g, img, bank, log) && Fits(g, bank, log, e) && k <= ENTRY
    && |img1| == |img| == |img2| && Slot(bank, |log| + 1) <= |img| && e.offset + |val| <= |img|
    && (if IsLarge(e.key) then val == [] else e.size == |val|)
    && img1 == Program(img, e.offset, val)
    && img2 == Program(img1, Slot(bank, |log|), EntryBytes(e)[..k])
  }

  /** There is room for the row, for the one behind it, and then for the value. */
  lemma CutPlaces(g: Geometry, img: seq<byte>, bank: nat, log: seq<Entry>, e: Entry)
    requires Table(g, img, bank, log) && Fits(g, bank, log, e)
    ensures Slot(bank, |log| + 2) <= e.offset && Slot(bank, |log| + 2) <= DataStart(g, bank, log) <= |img|
    ensures if IsLarge(e.key) then e.offset >= DataStart(g, bank, log) else e.offset + e.size <= DataStart(g, bank, log)
  {
    DataBytesSnoc(log, e);
  }

  /** What lies where, after such a cut. */
  ghost predicate CutBytes(img: seq<byte>, img2: seq<byte>, bank: nat, slot: nat, d0: int, e: Entry, val: seq<byte>, k: nat)
    requires EntryOk(e) && k <= ENTRY
  {
    && |img2| == |img| && slot + 2 * ENTRY <= e.offset && slot + 2 * ENTRY <= d0 <= |img|
    && SameIn(img, img2, bank, slot)
    && (forall i :: 0 <= i < k ==> img2[slot + i] == EntryBytes(e)[i])
    && e.offset + |val| <= |img| && (val != [] ==> e.offset + |val| <= d0)
    && (forall i :: 0 <= i < |val| ==> img2[e.offset + i] == val[i])
    && (forall j :: slot + k <= j < d0 && !(e.offset <= j < e.offset + |val|) ==> img2[j] == ERASED)
  }

  lemma CutIs(g: Geometry, img: seq<byte>, img1: seq<byte>, img2: seq<byte>, bank: nat, log: seq<Entry>,
              e: Entry, val: seq<byte>, k: nat)
    requires RowCut(g, img, img1, img2, bank, log, e, val, k)
    ensures CutBytes(img, img2, bank, Slot(bank, |log|), DataStart(g, bank, log), e, val, k)
    ensures PickBank(g, img2) == Some(bank)
  {
    CutPlaces(g, img, bank, log, e);
    CutSpread(img, img1, img2, bank, Slot(bank, |log|), DataStart(g, bank, log), e, val, k);
    PickSame(g, img, img2, bank);
  }

  lemma CutSpread(img: seq<byte>, img1: seq<byte>, img2: seq<byte>, bank: nat, slot: nat, d0: int, e: Entry, val: seq<byte>, k: nat)
    requires EntryOk(e) && k <= ENTRY && |img| == |img1| == |img2|
    requires slot + 2 * ENTRY <= e.offset && slot + 2 * ENTRY <= d0 <= |img| && ErasedFromTo(img, slot, d0)
    requires e.offset + |val| <= |img| && (val != [] ==> e.offset + |val| <= d0)
    requires img1 == Program(img, e.offset, val) && img2 == Program(img1, slot, EntryBytes(e)[..k])
    ensures CutBytes(img, img2, bank, slot, d0, e, val, k)
  {
  }

  /** The rows of the old table are read as before. */
  lemma {:induction false} ReadLogSame(img: seq<byte>, img2: seq<byte>, bank: nat, n: nat)
    requires Slot(bank, n) <= |img| && SameIn(img, img2, bank, Slot(bank, n))
    ensures ReadLog(img2, bank, n) == ReadLog(img, bank, n)
  {
    if n > 0 {
      ReadLogSame(img, img2, bank, n - 1);
      RowFrame(img, img2, Slot(bank, n - 1), ReadEntry(img, Slot(bank, n - 1)));
    }
  }

  /** The offset that is read in the row that was cut. */
  function CutOffset(e: Entry, k: nat): nat
    requires EntryOk(e)
  {
    CutWord(e.offset, if k < 20 then k - 16 else 4)
  }

  function CutSize(e: Entry, k: nat): nat
    requires EntryOk(e) && k <= ENTRY
  {
    CutWord(e.size, k - 20)
  }

  lemma CutField(r: seq<byte>, row: seq<byte>, k: nat, lo: nat, x: nat)
    requires |r| == |row| == ENTRY && k <= ENTRY && lo <= 20 && x < WORD && row[lo..lo + 4] == Le32(x)
    requires forall i :: 0 <= i < ENTRY ==> r[i] == if i < k then row[i] else ERASED
    ensures FromLe32(r[lo..lo + 4]) == CutWord(x, if k < lo + 4 then k - lo else 4)
  {
    var s := r[lo..lo + 4];
    var j := if k <= lo then 0 else if k < lo + 4 then k - lo else 4;
    assert s[..j] == row[lo..lo + 4][..j];
    CutWordRead(s, x, j);
  }

  lemma CutRow(img: seq<byte>, img2: seq<byte>, bank: nat, slot: nat, d0: int, e: Entry, val: seq<byte>, k: nat)
    requires EntryOk(e) && k <= ENTRY && CutBytes(img, img2, bank, slot, d0, e, val, k)
    ensures OffsetAt(img2, slot) == CutOffset(e, k)
    ensures k >= 16 ==> ReadEntry(img2, slot) == Entry(e.key, CutOffset(e, k), CutSize(e, k))
  {
    var r, row := img2[slot..slot + ENTRY], EntryBytes(e);
    EntryParts(e);
    CutField(r, row, k, 16, e.offset);
    CutField(r, row, k, 20, e.size);
    SubSlice(img2, slot, slot + ENTRY, 16, 20);
    SubSlice(img2, slot, slot + ENTRY, 20, 24);
    if k >= 16 {
      assert img2[slot..slot + 16] == row[0..16];
      CStrOfPadded(e.key, KEYSIZE + 1 - |e.key|);
    }
  }

  /** The value bytes below `m` are erased ones. */
  predicate ErasedBelow(val: seq<byte>, off: nat, m: int) {
    forall i :: 0 <= i < |val| && off + i < m ==> val[i] == ERASED
  }

  function Least(a: int, b: int): int {
    if a < b then a else b
  }

  lemma LastRows(g: Geometry, img2: seq<byte>, bank: nat, n: nat, d0: nat, p: nat, off: nat)
    requires g.Ok() && |img2| == g.Total() && IsBank(g, bank)
    requires Slot(bank, n) + 2 * ENTRY <= d0 <= |img2| && Slot(bank, n) + 2 * ENTRY <= off <= p
    requires OffsetAt(img2, Slot(bank, n)) == p && OffsetAt(img2, Slot(bank, n) + ENTRY) == WORD - 1
    ensures Scan(g, img2, bank, n, d0) == if p == WORD - 1 then Rows(n, d0) else Rows(n + 1, Least(d0, p))
  {
    assert Slot(bank, n + 1) == Slot(bank, n) + ENTRY;
    if p != WORD - 1 {
      OneMoreRow(g, img2, bank, n, d0, p);
    }
  }

  /** What a mount makes of the bank when the offset in the row that was cut reads as erased. */
  lemma CutMountOld(g: Geometry, img: seq<byte>, img2: seq<byte>, bank: nat, log: seq<Entry>, e: Entry, val: seq<byte>, k: nat, d0: nat)
    requires Table(g, img, bank, log) && EntryOk(e) && k <= ENTRY && d0 == DataStart(g, bank, log)
    requires CutBytes(img, img2, bank, Slot(bank, |log|), d0, e, val, k) && CutOffset(e, k) == WORD - 1
    ensures MountBank(g, img2, bank) == if AllErased(val) && AllErased(EntryBytes(e)[..k]) then Rows(|log|, d0) else Broken
  {
    RowsBehind(img, img2, bank, Slot(bank, |log|), d0, e, val, k);
    LastRows(g, img2, bank, |log|, d0, WORD - 1, e.offset);
    ScanAll(g, img, img2, bank, log, d0, Rows(|log|, d0));
    UntouchedIff(img, img2, bank, Slot(bank, |log|), d0, e, val, k);
    MountIs(g, img2, bank, |log|, d0, AllErased(val) && AllErased(EntryBytes(e)[..k]));
  }

  /** What it makes of the bank when that offset reads as something else. */
  lemma CutMountNew(g: Geometry, img: seq<byte>, img2: seq<byte>, bank: nat, log: seq<Entry>, e: Entry, val: seq<byte>, k: nat, d0: nat, p: nat)
    requires Table(g, img, bank, log) && EntryOk(e) && k <= ENTRY && d0 == DataStart(g, bank, log)
    requires CutBytes(img, img2, bank, Slot(bank, |log|), d0, e, val, k) && CutOffset(e, k) == p != WORD - 1
    ensures MountBank(g, img2, bank) == if ErasedBelow(val, e.offset, Least(d0, p)) then Rows(|log| + 1, Least(d0, p)) else Broken
  {
    var m := Least(d0, p);
    RowsBehind(img, img2, bank, Slot(bank, |log|), d0, e, val, k);
    LastRows(g, img2, bank, |log|, d0, p, e.offset);
    ScanAll(g, img, img2, bank, log, d0, Rows(|log| + 1, m));
    BelowIff(img, img2, bank, Slot(bank, |log|), d0, e, val, k, m);
    MountIs(g, img2, bank, |log| + 1, m, ErasedBelow(val, e.offset, m));
  }

  lemma MountIs(g: Geometry, img2: seq<byte>, bank: nat, n: nat, m: nat, clean: bool)
    requires g.Ok() && |img2| == g.Total() && IsBank(g, bank) && m <= |img2|
    requires Scan(g, img2, bank, 0, bank + g.Bank()) == Rows(n, m) && (ErasedFromTo(img2, Slot(bank, n), m) <==> clean)
    ensures MountBank(g, img2, bank) == if clean then Rows(n, m) else Broken
  {
  }

  lemma RowsBehind(img: seq<byte>, img2: seq<byte>, bank: nat, slot: nat, d0: int, e: Entry, val: seq<byte>, k: nat)
    requires EntryOk(e) && k <= ENTRY && CutBytes(img, img2, bank, slot, d0, e, val, k)
    ensures OffsetAt(img2, slot) == CutOffset(e, k) >= e.offset && OffsetAt(img2, slot + ENTRY) == WORD - 1
  {
    CutRow(img, img2, bank, slot, d0, e, val, k);
    CutWordGrows(e.offset, if k < 20 then k - 16 else 4);
    ErasedRow(img2, slot + ENTRY);
  }

  lemma OneMoreRow(g: Geometry, img2: seq<byte>, bank: nat, n: nat, d0: int, p: nat)
    requires g.Ok() && |img2| == g.Total() && IsBank(g, bank) && Slot(bank, n + 2) <= d0 <= |img2| && Slot(bank, n + 2) <= p
    requires OffsetAt(img2, Slot(bank, n)) == p != WORD - 1 && OffsetAt(img2, Slot(bank, n + 1)) == WORD - 1
    ensures Scan(g, img2, bank, n, d0) == Rows(n + 1, Least(d0, p))
  {
    ScanStep(g, img2, bank, n, d0, Least(d0, p));
  }

  lemma UntouchedIff(img: seq<byte>, img2: seq<byte>, bank: nat, slot: nat, d0: int, e: Entry, val: seq<byte>, k: nat)
    requires EntryOk(e) && k <= ENTRY && CutBytes(img, img2, bank, slot, d0, e, val, k)
    ensures ErasedFromTo(img2, slot, d0) <==> AllErased(val) && AllErased(EntryBytes(e)[..k])
  {
    var row := EntryBytes(e);
    if ErasedFromTo(img2, slot, d0) {
      forall i | 0 <= i < |val| ensures val[i] == ERASED {
        assert val[i] == img2[e.offset + i];
      }
      forall i | 0 <= i < k ensures row[..k][i] == ERASED {
        assert img2[slot + i] == row[i];
      }
    } else if AllErased(val) && AllErased(row[..k]) {
      forall j | slot <= j < d0 ensures img2[j] == ERASED {
        if j < slot + k {
          assert img2[slot + (j - slot)] == row[..k][j - slot];
        } else if e.offset <= j < e.offset + |val| {
          assert img2[e.offset + (j - e.offset)] == val[j - e.offset];
        }
      }
    }
  }

  lemma BelowIff(img: seq<byte>, img2: seq<byte>, bank: nat, slot: nat, d0: int, e: Entry, val: seq<byte>, k: nat, m: int)
    requires EntryOk(e) && k <= ENTRY && CutBytes(img, img2, bank, slot, d0, e, val, k) && m <= d0
    ensures ErasedFromTo(img2, slot + ENTRY, m) <==> ErasedBelow(val, e.offset, m)
  {
    if ErasedFromTo(img2, slot + ENTRY, m) {
      forall i | 0 <= i < |val| && e.offset + i < m ensures val[i] == ERASED {
        assert val[i] == img2[e.offset + i];
      }
    } else if ErasedBelow(val, e.offset, m) {
      forall j | slot + ENTRY <= j < m ensures img2[j] == ERASED {
        if e.offset <= j < e.offset + |val| {
          assert img2[e.offset + (j - e.offset)] == val[j - e.offset];
        }
      }
    }
  }

  /**
   * A power cut after the value and `k` bytes of the row were programmed. While the offset in the row
   * reads as erased, the next mount finds the old table if everything programmed so far is 0xff, and
   * formats the store otherwise. After that it finds one entry more, with what the row reads as for its
   * place and size; but it formats the store if a byte of the value below that place is not 0xff.
   */
  lemma CutInRow(g: Geometry, img: seq<byte>, img1: seq<byte>, img2: seq<byte>, bank: nat, log: seq<Entry>,
                 e: Entry, val: seq<byte>, k: nat)
    requires RowCut(g, img, img1, img2, bank, log, e, val, k)
    ensures var p := CutOffset(e, k);
      Found(g, img2) ==
        if p == WORD - 1 then
          if AllErased(val) && AllErased(EntryBytes(e)[..k]) then Some(log) else None
        else if ErasedBelow(val, e.offset, Least(DataStart(g, bank, log), p)) then
          Some(log + [Entry(e.key, p, CutSize(e, k))])
        else None
  {
    var d0, p := DataStart(g, bank, log), CutOffset(e, k);
    CutIs(g, img, img1, img2, bank, log, e, val, k);
    if p == WORD - 1 {
      CutMountOld(g, img, img2, bank, log, e, val, k, d0);
    } else {
      CutMountNew(g, img, img2, bank, log, e, val, k, d0, p);
    }
    CutTables(g, img, img2, bank, log, e, val, k, d0);
  }

  lemma CutTables(g: Geometry, img: seq<byte>, img2: seq<byte>, bank: nat, log: seq<Entry>, e: Entry, val: seq<byte>, k: nat, d0: nat)
    requires Table(g, img, bank, log) && EntryOk(e) && k <= ENTRY
    requires CutBytes(img, img2, bank, Slot(bank, |log|), d0, e, val, k)
    ensures Slot(bank, |log| + 1) <= |img2| && ReadLog(img2, bank, |log|) == log
    ensures CutOffset(e, k) != WORD - 1 ==> ReadLog(img2, bank, |log| + 1) == log + [Entry(e.key, CutOffset(e, k), CutSize(e, k))]
  {
    ReadLogOfTable(g, img, bank, log, |log|);
    ReadLogSame(img, img2, bank, |log|);
    assert log[..|log|] == log;
    CutRow(img, img2, bank, Slot(bank, |log|), d0, e, val, k);
  }

  /** Once the offset is complete, the new entry is found, but with the wrong size until that is complete, too. */
  lemma CutInSize(g: Geometry, img: seq<byte>, img1: seq<byte>, img2: seq<byte>, bank: nat, log: seq<Entry>,
                  e: Entry, val: seq<byte>, k: nat)
    requires RowCut(g, img, img1, img2, bank, log, e, val, k) && k >= 20
    ensures Found(g, img2) == Some(log + [e.(size := CutSize(e, k))])
    ensures k == 20 ==> CutSize(e, k) == WORD - 1
    ensures k == ENTRY ==> CutSize(e, k) == e.size
  {
    CutInRow(g, img, img1, img2, bank, log, e, val, k);
    assert CutOffset(e, k) == e.offset;
  }

  /**
   * A power cut leaves the old table or the new one exactly if all bytes programmed so far are 0xff,
   * or all that are still to be programmed are (in particular if there are none).
   */
  lemma CutSafeIff(g: Geometry, img: seq<byte>, img1: seq<byte>, img2: seq<byte>, bank: nat, log: seq<Entry>,
                   e: Entry, val: seq<byte>, k: nat)
    requires RowCut(g, img, img1, img2, bank, log, e, val, k)
    ensures Found(g, img2) == Some(log) || Found(g, img2) == Some(log + [e]) <==>
      (AllErased(val) && AllErased(EntryBytes(e)[..k])) || AllErased(EntryBytes(e)[k..])
  {
    CutInRow(g, img, img1, img2, bank, log, e, val, k);
    if CutOffset(e, k) == WORD - 1 {
      RowNotBegun(e, k);
      assert |log + [e]| == |log| + 1;
    } else {
      RestIff(e, k);
      RowBegun(e, k);
      SnocIff(log, Entry(e.key, CutOffset(e, k), CutSize(e, k)), e);
    }
  }

  lemma SnocIff<T>(s: seq<T>, a: T, b: T)
    ensures s + [a] != s && (s + [a] == s + [b] <==> a == b)
  {
    assert (s + [a])[|s|] == a && (s + [b])[|s|] == b;
  }

  /** Bytes that are still to come, by the fields they belong to. */
  lemma RestIff(e: Entry, k: nat)
    requires EntryOk(e) && 16 <= k <= ENTRY
    ensures AllErased(EntryBytes(e)[k..]) <==> CutOffset(e, k) == e.offset && CutSize(e, k) == e.size
  {
    var row, o, z := EntryBytes(e), Le32(e.offset), Le32(e.size);
    EntryParts(e);
    CutWordIff(e.offset, if k < 20 then k - 16 else 4);
    CutWordIff(e.size, if k < 20 then 0 else k - 20);
    if k < 20 {
      assert row[k..] == o[k - 16..] + z by { TailOf(row, o, z, k); }
      AllErasedBoth(o[k - 16..], z);
      assert z[0..] == z;
    } else {
      assert row[k..] == z[k - 20..] by { TailOf(row, o, z, k); }
    }
  }

  lemma TailOf(row: seq<byte>, o: seq<byte>, z: seq<byte>, k: nat)
    requires |row| == ENTRY && |o| == |z| == 4 && row[16..20] == o && row[20..24] == z && 16 <= k <= ENTRY
    ensures row[k..] == if k < 20 then o[k - 16..] + z else z[k - 20..]
  {
  }

  lemma AllErasedBoth(a: seq<byte>, b: seq<byte>)
    ensures AllErased(a + b) <==> AllErased(a) && AllErased(b)
  {
    if AllErased(a + b) {
      forall i | 0 <= i < |a| ensures a[i] == ERASED {
        assert (a + b)[i] == a[i];
      }
      forall i | 0 <= i < |b| ensures b[i] == ERASED {
        assert (a + b)[|a| + i] == b[i];
      }
    }
  }

  /** While the offset reads as erased, bytes other than 0xff are still to come. */
  lemma RowNotBegun(e: Entry, k: nat)
    requires EntryOk(e) && k <= ENTRY && CutOffset(e, k) == WORD - 1
    ensures !AllErased(EntryBytes(e)[k..])
  {
    if AllErased(EntryBytes(e)[k..]) {
      if k < 16 {
        assert forall i :: 0 <= i < |EntryBytes(e)[16..]| ==> EntryBytes(e)[16..][i] == EntryBytes(e)[k..][16 - k + i];
        RestIff(e, 16);
      } else {
        RestIff(e, k);
      }
    }
  }

  /** Once it does not, the byte that ends the key has been programmed. */
  lemma RowBegun(e: Entry, k: nat)
    requires EntryOk(e) && k <= ENTRY && CutOffset(e, k) != WORD - 1
    ensures k > 16 && !AllErased(EntryBytes(e)[..k])
  {
    assert EntryBytes(e)[15] == 0;
    assert EntryBytes(e)[..k][15] == 0;
  }

  // ---------------------------------------------------------------- a cut after any number of bytes

  /** Flash after the first `m` bytes of adding an entry: its value is programmed first, and then its row. */
  ghost function CutImage(img: seq<byte>, slot: nat, e: Entry, val: seq<byte>, m: nat): seq<byte>
    requires EntryOk(e) && e.offset + |val| <= |img| && slot + ENTRY <= |img| && m <= |val| + ENTRY
  {
    if m <= |val| then Program(img, e.offset, val[..m])
    else Program(Program(img, e.offset, val), slot, EntryBytes(e)[..m - |val|])
  }

  /** The next mount finds the table as it was, or with the whole entry added. */
  ghost predicate KeptOrAdded(g: Geometry, img: seq<byte>, log: seq<Entry>, e: Entry)
    requires g.Ok()
  {
    |img| == g.Total() && (Found(g, img) == Some(log) || Found(g, img) == Some(log + [e]))
  }

  /** Nothing but 0xff was programmed by the first `m` bytes, or remains to be programmed by the others. */
  ghost predicate Harmless(e: Entry, val: seq<byte>, m: nat)
    requires EntryOk(e) && m <= |val| + ENTRY
  {
    AllErased((val + EntryBytes(e))[..m]) || AllErased((val + EntryBytes(e))[m..])
  }

  /** The row is not all 0xff: its offset lies within the flash. */
  lemma RowMatters(e: Entry, a: seq<byte>)
    requires EntryOk(e)
    ensures !AllErased(a + EntryBytes(e))
  {
    RowNotBegun(e, 0);
    assert EntryBytes(e)[0..] == EntryBytes(e);
    AllErasedBoth(a, EntryBytes(e));
  }

  lemma SplitInValue(val: seq<byte>, row: seq<byte>, m: nat)
    requires m <= |val|
    ensures (val + row)[..m] == val[..m] && (val + row)[m..] == val[m..] + row
  {
  }

  lemma SplitInRow(val: seq<byte>, row: seq<byte>, k: nat)
    requires k <= |row|
    ensures (val + row)[..|val| + k] == val + row[..k] && (val + row)[|val| + k..] == row[k..]
  {
  }

  lemma CutImageIs(img: seq<byte>, slot: nat, e: Entry, val: seq<byte>, k: nat)
    requires EntryOk(e) && e.offset + |val| <= |img| && slot + ENTRY <= |img| && k <= ENTRY
    ensures CutImage(img, slot, e, val, |val| + k) == Program(Program(img, e.offset, val), slot, EntryBytes(e)[..k])
  {
    assert val[..|val|] == val;
  }

  /** A power cut while a setting is added is harmless exactly if nothing was done or nothing is missing. */
  lemma CutAnywhereIff(g: Geometry, img: seq<byte>, bank: nat, log: seq<Entry>, e: Entry, val: seq<byte>, m: nat)
    requires Store(g, img, bank, log) && Fits(g, bank, log, e) && !IsLarge(e.key) && e.size == |val| && m <= |val| + ENTRY
    requires e.offset + |val| <= |img| && Slot(bank, |log| + 1) <= |img|
    ensures KeptOrAdded(g, CutImage(img, Slot(bank, |log|), e, val, m), log, e) <==> Harmless(e, val, m)
  {
    if m < |val| {
      CutInValueIff(g, img, bank, log, e, val, m);
    } else {
      CutInRowIff(g, img, bank, log, e, val, m);
    }
  }

  lemma CutInValueIff(g: Geometry, img: seq<byte>, bank: nat, log: seq<Entry>, e: Entry, val: seq<byte>, m: nat)
    requires Store(g, img, bank, log) && Fits(g, bank, log, e) && !IsLarge(e.key) && e.size == |val| && m < |val|
    requires e.offset + |val| <= |img| && Slot(bank, |log| + 1) <= |img|
    ensures KeptOrAdded(g, CutImage(img, Slot(bank, |log|), e, val, m), log, e) <==> Harmless(e, val, m)
  {
    DataBytesSnoc(log, e);
    CutBeforeRow(g, img, CutImage(img, Slot(bank, |log|), e, val, m), bank, log, e.offset, val[..m]);
    SplitInValue(val, EntryBytes(e), m);
    RowMatters(e, val[m..]);
  }

  lemma CutInRowIff(g: Geometry, img: seq<byte>, bank: nat, log: seq<Entry>, e: Entry, val: seq<byte>, m: nat)
    requires Store(g, img, bank, log) && Fits(g, bank, log, e) && !IsLarge(e.key) && e.size == |val| <= m <= |val| + ENTRY
    requires e.offset + |val| <= |img| && Slot(bank, |log| + 1) <= |img|
    ensures KeptOrAdded(g, CutImage(img, Slot(bank, |log|), e, val, m), log, e) <==> Harmless(e, val, m)
  {
    var k := m - |val|;
    CutImageIs(img, Slot(bank, |log|), e, val, k);
    CutSafeIff(g, img, Program(img, e.offset, val), CutImage(img, Slot(bank, |log|), e, val, m), bank, log, e, val, k);
    HarmlessInRow(e, val, k);
  }

  lemma HarmlessInRow(e: Entry, val: seq<byte>, k: nat)
    requires EntryOk(e) && k <= ENTRY
    ensures Harmless(e, val, |val| + k) <==> (AllErased(val) && AllErased(EntryBytes(e)[..k])) || AllErased(EntryBytes(e)[k..])
  {
    SplitInRow(val, EntryBytes(e), k);
    AllErasedBoth(val, EntryBytes(e)[..k]);
  }

  // ---------------------------------------------------------------- formatting afterwards

  lemma OffsetFrame(img: seq<byte>, img': seq<byte>, bank: nat, p: nat)
    requires bank <= p && p + ENTRY <= |img| && SameIn(img, img', bank, |img|)
    ensures OffsetAt(img', p) == OffsetAt(img, p)
  {
    SameSlice(img, img', p + 16, p + 20);
  }

  lemma {:induction false} ScanFrame(g: Geometry, img: seq<byte>, img': seq<byte>, bank: nat, i: nat, m: nat)
    requires g.Ok() && |img| == |img'| == g.Total() && IsBank(g, bank) && SameIn(img, img', bank, |img|)
    ensures Scan(g, img', bank, i, m) == Scan(g, img, bank, i, m)
    decreases |img| - Slot(bank, i)
  {
    var e := Slot(bank, i);
    if e + ENTRY <= |img| {
      OffsetFrame(img, img', bank, e);
      if OffsetAt(img, e) != WORD - 1 {
        ScanFrame(g, img, img', bank, i + 1, if OffsetAt(img, e) < m then OffsetAt(img, e) else m);
      }
    }
  }

  lemma MountFrame(g: Geometry, img: seq<byte>, img': seq<byte>, bank: nat)
    requires g.Ok() && |img| == |img'| == g.Total() && IsBank(g, bank) && SameIn(img, img', bank, |img|)
    ensures MountBank(g, img', bank) == MountBank(g, img, bank)
  {
    var r := Scan(g, img, bank, 0, bank + g.Bank());
    ScanFrame(g, img, img', bank, 0, bank + g.Bank());
    if r.Rows? {
      ErasedFrame(img, img', Slot(bank, r.count), r.start);
    }
  }

  lemma ErasedFrame(img: seq<byte>, img': seq<byte>, lo: nat, hi: int)
    requires hi <= |img| && SameIn(img, img', lo, hi)
    ensures ErasedFromTo(img', lo, hi) == ErasedFromTo(img, lo, hi)
  {
    if ErasedFromTo(img', lo, hi) {
      forall i | lo <= i < hi ensures img[i] == ERASED {
        assert img'[i] == img[i];
      }
    }
  }

  lemma FoundInFrame(g: Geometry, img: seq<byte>, img': seq<byte>, bank: nat)
    requires g.Ok() && |img| == |img'| == g.Total() && IsBank(g, bank) && SameIn(img, img', bank, |img|)
    ensures FoundIn(g, img', bank) == FoundIn(g, img, bank)
  {
    MountFrame(g, img, img', bank);
    match MountBank(g, img, bank)
    case Broken =>
    case Rows(n, _) => ReadLogSame(img, img', bank, n);
  }

  /**
   * Flash that could not be mounted, and then was formatted, which leaves bank 1 as it is, and filled
   * with the entries `log`. The next mount finds them exactly if bank 1 has no valid header, or the
   * generation 0; otherwise it goes back to bank 1.
   */
  lemma FoundAfterFormat(g: Geometry, img: seq<byte>, img': seq<byte>, log: seq<Entry>)
    requires g.Ok() && |img| == g.Total() && Found(g, img) == None
    requires Table(g, img', 0, log) && HeaderOk(g, img', 0) && Gen(img', 0) == 1
    requires SameIn(img, img', g.Bank(), |img|)
    ensures Found(g, img') ==
      if !HeaderOk(g, img, g.Bank()) || Gen(img, g.Bank()) == 0 then Some(log) else FoundIn(g, img, g.Bank())
  {
    HeaderFrame(g, img, img', g.Bank());
    FoundInFrame(g, img, img', g.Bank());
    if PickBank(g, img') == Some(0) {
      FoundOfTable(g, img', 0, log);
    }
  }

  /** When it was bank 1 that broke, the store is formatted at every start from then on, whatever is written to it. */
  lemma FormatsForever(g: Geometry, img: seq<byte>, img': seq<byte>, log: seq<Entry>)
    requires g.Ok() && |img| == g.Total() && Found(g, img) == None
    requires PickBank(g, img) == Some(g.Bank()) && Gen(img, g.Bank()) > 0
    requires Table(g, img', 0, log) && HeaderOk(g, img', 0) && Gen(img', 0) == 1
    requires SameIn(img, img', g.Bank(), |img|)
    ensures Found(g, img') == None
  {
    FoundAfterFormat(g, img, img', log);
  }
}
