/**
 * Device configuration of source/jd_dcfg.c: a table of entries sorted by the hash of their keys,
 * with an index of jumps into it.
 */
module Dcfg {
  import opened Bytes

  const MAGIC0 := 0x47464344
  const MAGIC1 := 0xcab49b0a
  const KEYSIZE := 15
  const HEADER := 88
  const ENTRY := 24
  const JUMPS := 32
  const JUMP_AT := 24
  /** Hashes that share a jump. */
  const SPAN := 2048
  const MAX_TOTAL := 0x2_0000

  /** Memory from the start of a configuration on; as much of it as a configuration may take. */
  type Image = s: seq<byte> | |s| >= MAX_TOTAL witness Zeros(MAX_TOTAL)

  // ---------------------------------------------------------------- hash

  function Xor(a: nat, b: nat): nat {
    if a == 0 && b == 0 then 0 else 2 * Xor(a / 2, b / 2) + (a + b) % 2
  }

  function Step(h: nat, b: nat): nat {
    Xor(h, b) * 0x1000193 % WORD
  }

  /** The hash of the first `n` bytes, as its steps make it. */
  function Hashed(step: (nat, nat) -> nat, s: seq<byte>, n: nat): nat
    requires n <= |s|
  {
    if n == 0 then 0x811c9dc5 else step(Hashed(step, s, n - 1), s[n - 1])
  }

  function Fold(h: nat): nat {
    Xor(h, h / 0x1_0000) % 0x1_0000
  }

  function KeyHash(key: seq<byte>): nat {
    Fold(Hashed(Step, key, |key|))
  }

  // ---------------------------------------------------------------- layout

  function U16(hd: Image, at: nat): nat
    requires at + 2 <= |hd|
  {
    hd[at] as int + hd[at + 1] as int * 0x100
  }

  function U32(hd: Image, at: nat): nat
    requires at + 4 <= |hd|
  {
    U16(hd, at) + U16(hd, at + 2) * 0x1_0000
  }

  function Num(hd: Image): nat { U16(hd, 12) }
  function Total(hd: Image): nat { U32(hd, 8) }
  function Jump(hd: Image, i: nat): nat
    requires i < JUMPS
  {
    U16(hd, JUMP_AT + 2 * i)
  }

  /** An entry, with its key field in full. */
  datatype Entry = Entry(key: seq<byte>, hash: nat, typeSize: nat, value: nat)

  function At(hd: Image, i: nat): (e: Entry)
    requires HEADER + ENTRY * (i + 1) <= |hd|
    ensures |e.key| == KEYSIZE + 1
  {
    var p := HEADER + ENTRY * i;
    Entry(hd[p..p + 16], U16(hd, p + 16), U16(hd, p + 18), U32(hd, p + 20))
  }

  function DataStart(hd: Image): nat {
    HEADER + ENTRY * (Num(hd) + 1)
  }

  predicate HasText(e: Entry) { e.typeSize % 4 >= 2 }

  // ---------------------------------------------------------------- validation

  ghost predicate HeaderOk(hd: Image) {
    U32(hd, 0) == MAGIC0 && U32(hd, 4) == MAGIC1 && DataStart(hd) <= Total(hd) < MAX_TOTAL
  }

  /** Jump `i` leads to the first entry whose hash is in span `i` or later. */
  ghost predicate JumpOk(hd: Image, i: nat)
    requires HeaderOk(hd) && i < JUMPS
  {
    var j := Jump(hd, i);
    j <= Num(hd) && At(hd, j).hash / SPAN >= i && (j == 0 || At(hd, j - 1).hash / SPAN < i)
  }

  /** The text of an entry lies in the data area and ends with a NUL. */
  ghost predicate TextOk(hd: Image, e: Entry) {
    var size := e.typeSize / 4;
    DataStart(hd) <= e.value && e.value + size < Total(hd) < MAX_TOTAL && hd[e.value + size] == 0
  }

  ghost predicate EntryOk(hd: Image, i: nat)
    requires HeaderOk(hd) && i < Num(hd)
  {
    var e := At(hd, i);
    && |CStr(e.key)| <= KEYSIZE
    && KeyHash(CStr(e.key)) == e.hash
    && (i == 0 || At(hd, i - 1).hash <= e.hash)
    && if HasText(e) then TextOk(hd, e) else e.typeSize / 4 == 0
  }

  ghost predicate WellFormed(hd: Image) {
    && HeaderOk(hd)
    && At(hd, Num(hd)).hash == 0xffff && At(hd, Num(hd)).typeSize == 0xffff
    && (forall i :: 0 <= i < JUMPS ==> JumpOk(hd, i))
    && (forall i :: 0 <= i < Num(hd) ==> EntryOk(hd, i))
  }

  /** The fields of a configuration are little-endian numbers. */
  lemma FieldsAreNumbers(hd: Image, at: nat)
    requires at + 4 <= |hd|
    ensures U16(hd, at) == FromLe(hd[at..at + 2]) && U32(hd, at) == FromLe(hd[at..at + 4])
  {
    FromLeFour(hd[at..at + 4]);
    var s := hd[at..at + 2];
    assert FromLe(s[1..][1..]) == 0 && FromLe(s[1..]) == s[1] as int;
  }

  /** The header in bytes: two magic numbers, the size in bytes, the number of entries, and room for an entry more. */
  lemma HeaderInBytes(hd: Image)
    ensures Num(hd) == FromLe(hd[12..14]) && Total(hd) == FromLe(hd[8..12])
    ensures HeaderOk(hd) <==>
      && FromLe(hd[0..4]) == 0x47464344 && FromLe(hd[4..8]) == 0xcab49b0a
      && 88 + 24 * (Num(hd) + 1) <= Total(hd) < 128 * 1024
    ensures forall i :: 0 <= i < 32 ==> Jump(hd, i) == U16(hd, 24 + 2 * i)
  {
    FieldsAreNumbers(hd, 0);
    FieldsAreNumbers(hd, 4);
    FieldsAreNumbers(hd, 8);
    FieldsAreNumbers(hd, 12);
  }

  /** An entry in bytes. */
  lemma EntryInBytes(hd: Image, i: nat, p: nat)
    requires p == 88 + 24 * i && p + 24 <= |hd|
    ensures At(hd, i) ==
      Entry(hd[p..p + 16], FromLe(hd[p + 16..p + 18]), FromLe(hd[p + 18..p + 20]), FromLe(hd[p + 20..p + 24]))
  {
    FieldsAreNumbers(hd, p + 16);
    FieldsAreNumbers(hd, p + 18);
    FieldsAreNumbers(hd, p + 20);
  }

  /** What may be read of the text of an entry that was accepted: its bytes, which are in the data area, and a NUL behind them. */
  lemma AcceptedText(hd: Image, i: nat)
    requires WellFormed(hd) && i < Num(hd)
    ensures var e := At(hd, i); var n := e.typeSize / 4;
      if e.typeSize % 4 == 2 || e.typeSize % 4 == 3 then
        88 + 24 * (Num(hd) + 1) <= e.value && e.value + n < Total(hd) < 0x2_0000 && hd[e.value + n] == 0
      else n == 0
  {
    assert EntryOk(hd, i);
  }

  method ValidateJumps(hd: Image) returns (err: nat)
    requires HeaderOk(hd)
    ensures err == 0 <==> forall i :: 0 <= i < JUMPS ==> JumpOk(hd, i)
    ensures err != 0 ==> 2017 <= err <= 2019
    ensures err == 2017 ==> exists i :: 0 <= i < JUMPS && Jump(hd, i) > Num(hd)
    ensures err == 2018 ==> exists i :: 0 <= i < JUMPS && Jump(hd, i) <= Num(hd) && At(hd, Jump(hd, i)).hash / SPAN < i
    ensures err == 2019 ==>
      exists i :: 0 <= i < JUMPS && 0 < Jump(hd, i) <= Num(hd) && At(hd, Jump(hd, i) - 1).hash / SPAN >= i
  {
    for i := 0 to JUMPS
      invariant forall j :: 0 <= j < i ==> JumpOk(hd, j)
    {
      var idx := Jump(hd, i);
      if !(idx <= Num(hd)) {
        assert !JumpOk(hd, i);
        return 2017;
      }
      if !(At(hd, idx).hash / SPAN >= i) {
        assert !JumpOk(hd, i);
        return 2018;
      }
      if !(idx == 0 || At(hd, idx - 1).hash / SPAN < i) {
        assert !JumpOk(hd, i);
        return 2019;
      }
    }
    err := 0;
  }

  method ValidateEntry(hd: Image, i: nat) returns (err: nat)
    requires HeaderOk(hd) && i < Num(hd)
    ensures err == 0 <==> EntryOk(hd, i)
    ensures err != 0 ==> 2006 <= err <= 2013
    ensures err == 2007 ==> KeyHash(CStr(At(hd, i).key)) != At(hd, i).hash
    ensures err == 2008 ==> i > 0 && At(hd, i - 1).hash > At(hd, i).hash
  {
    var e := At(hd, i);
    var klen := |CStr(e.key)|;
    if !(klen <= KEYSIZE) {
      return 2006;
    }
    if !(KeyHash(e.key[..klen]) == e.hash) {
      return 2007;
    }
    if !(i == 0 || At(hd, i - 1).hash <= e.hash) {
      return 2008;
    }
    err := ValidateText(hd, e);
  }

  method ValidateText(hd: Image, e: Entry) returns (err: nat)
    requires HeaderOk(hd)
    ensures err == 0 <==> if HasText(e) then TextOk(hd, e) else e.typeSize / 4 == 0
    ensures err != 0 ==> 2009 <= err <= 2013
    ensures err == 2009 <==> !HasText(e) && e.typeSize / 4 != 0
    ensures err == 2010 ==> e.value < DataStart(hd)
    ensures err == 2011 ==> e.value >= Total(hd)
    ensures err == 2012 ==> e.value < Total(hd) <= e.value + e.typeSize / 4
    ensures err == 2013 ==> DataStart(hd) <= e.value && e.value + e.typeSize / 4 < Total(hd)
  {
    var size := e.typeSize / 4;
    if !HasText(e) {
      return if size == 0 then 0 else 2009;
    }
    if !(e.value >= DataStart(hd)) {
      return 2010;
    }
    if !(e.value < Total(hd)) {
      return 2011;
    }
    if !(e.value + size < Total(hd)) {
      return 2012;
    }
    if !(hd[e.value + size] == 0) {
      return 2013;
    }
    err := 0;
  }

  /** The checks before the index and the entries: magic numbers, sizes and the entry after the last. */
  method ValidateHeader(h: Image) returns (err: nat)
    ensures err == 0 <==> HeaderOk(h) && At(h, Num(h)).hash == 0xffff && At(h, Num(h)).typeSize == 0xffff
    ensures err in {0, 2002, 2003, 2004, 2014, 2015, 2016}
    ensures err == 2002 <==> U32(h, 0) != MAGIC0
    ensures err == 2003 ==> U32(h, 4) != MAGIC1
    ensures err == 2004 ==> Total(h) >= MAX_TOTAL
    ensures err == 2014 ==> DataStart(h) > Total(h)
    ensures err == 2015 ==> HeaderOk(h) && At(h, Num(h)).hash != 0xffff
    ensures err == 2016 ==> HeaderOk(h) && At(h, Num(h)).typeSize != 0xffff
  {
    if U32(h, 0) != MAGIC0 {
      return 2002;
    }
    if U32(h, 4) != MAGIC1 {
      return 2003;
    }
    if !(Total(h) < MAX_TOTAL) {
      return 2004;
    }
    if !(DataStart(h) <= Total(h)) {
      return 2014;
    }
    if At(h, Num(h)).hash != 0xffff {
      return 2015;
    }
    if At(h, Num(h)).typeSize != 0xffff {
      return 2016;
    }
    err := 0;
  }

  method ValidateEntries(h: Image) returns (err: nat)
    requires HeaderOk(h)
    ensures err == 0 <==> forall i :: 0 <= i < Num(h) ==> EntryOk(h, i)
    ensures err != 0 ==> 2006 <= err <= 2013
  {
    for i := 0 to Num(h)
      invariant forall j :: 0 <= j < i ==> EntryOk(h, j)
    {
      err := ValidateEntry(h, i);
      if err != 0 {
        assert !EntryOk(h, i);
        return;
      }
    }
    err := 0;
  }

  /** Accepts exactly the well-formed configurations at aligned addresses. */
  method Validate(hd: Option<Image>, addr: nat) returns (err: nat)
    ensures err == 0 <==> hd.Some? && addr % 4 == 0 && WellFormed(hd.value)
    ensures err == 2000 <==> hd == None
    ensures err == 2001 <==> hd.Some? && addr % 4 != 0
  {
    if hd == None {
      return 2000;
    }
    if addr % 4 != 0 {
      return 2001;
    }
    err := ValidateHeader(hd.value);
    if err != 0 {
      return;
    }
    err := ValidateJumps(hd.value);
    if err != 0 {
      return;
    }
    err := ValidateEntries(hd.value);
  }

  // ---------------------------------------------------------------- lookup

  /** The bytes of the key field start with `s`. */
  predicate StartsWith(e: Entry, s: CString) {
    |s| <= |e.key| && e.key[..|s|] == s
  }

  predicate Matches(e: Entry, key: CString) {
    e.hash == KeyHash(key) && StartsWith(e, key)
  }

  function Table(hd: Image): (es: seq<Entry>)
    requires DataStart(hd) <= |hd|
    ensures |es| == Num(hd) && forall i :: 0 <= i < |es| ==> es[i] == At(hd, i)
  {
    seq(Num(hd), i requires 0 <= i < Num(hd) => At(hd, i))
  }

  /** Scan of all entries from `i` on for the first match. */
  function FirstMatch(es: seq<Entry>, key: CString, i: nat): Option<nat>
    requires i <= |es|
    decreases |es| - i
  {
    if i == |es| then None
    else if Matches(es[i], key) then Some(i)
    else FirstMatch(es, key, i + 1)
  }

  lemma {:induction false} FirstMatchIsFirst(es: seq<Entry>, key: CString, i: nat)
    requires i <= |es|
    ensures match FirstMatch(es, key, i)
      case Some(r) => i <= r < |es| && Matches(es[r], key) && forall j :: i <= j < r ==> !Matches(es[j], key)
      case None => forall j :: i <= j < |es| ==> !Matches(es[j], key)
    decreases |es| - i
  {
    if i < |es| && !Matches(es[i], key) {
      FirstMatchIsFirst(es, key, i + 1);
    }
  }

  ghost predicate Sorted(es: seq<Entry>) {
    forall i, j :: 0 <= i <= j < |es| ==> es[i].hash <= es[j].hash
  }

  lemma {:induction false} SortedTo(hd: Image, i: nat, j: nat)
    requires WellFormed(hd) && i <= j < Num(hd)
    ensures At(hd, i).hash <= At(hd, j).hash
  {
    if i < j {
      SortedTo(hd, i, j - 1);
      assert EntryOk(hd, j);
    }
  }

  lemma TableSorted(hd: Image)
    requires WellFormed(hd)
    ensures Sorted(Table(hd))
  {
    forall i, j | 0 <= i <= j < Num(hd)
      ensures Table(hd)[i].hash <= Table(hd)[j].hash
    {
      SortedTo(hd, i, j);
    }
  }

  /** Each of the 32 jumps is the number of entries whose hashes are in earlier spans of 2048. */
  lemma JumpCounts(hd: Image, i: nat, k: nat)
    requires WellFormed(hd) && i < 32 && k < Num(hd)
    ensures At(hd, k).hash < 2048 * i <==> k < Jump(hd, i)
  {
    TableSorted(hd);
    assert JumpOk(hd, i);
    var es, j := Table(hd), Jump(hd, i);
    if k < j {
      assert es[k].hash <= es[j - 1].hash;
    } else {
      assert es[j].hash <= es[k].hash;
    }
  }

  lemma {:induction false} SkipMisses(es: seq<Entry>, key: CString, i: nat, j: nat)
    requires i <= j <= |es| && forall k :: i <= k < j ==> es[k].hash != KeyHash(key)
    ensures FirstMatch(es, key, i) == FirstMatch(es, key, j)
    decreases j - i
  {
    if i < j {
      SkipMisses(es, key, i + 1, j);
    }
  }

  /** The index leads past entries with smaller hashes only. */
  lemma JumpSkipsMisses(hd: Image, key: CString)
    requires WellFormed(hd)
    ensures KeyHash(key) / SPAN < JUMPS
    ensures var j := Jump(hd, KeyHash(key) / SPAN);
      j <= Num(hd) && FirstMatch(Table(hd), key, 0) == FirstMatch(Table(hd), key, j)
  {
    var i := KeyHash(key) / SPAN;
    var j := Jump(hd, i);
    assert JumpOk(hd, i);
    TableSorted(hd);
    SkipMisses(Table(hd), key, 0, j);
  }

  /** Once hashes are larger than the key's there is no match. */
  lemma RestMisses(es: seq<Entry>, key: CString, i: nat)
    requires Sorted(es) && i <= |es| && (i < |es| ==> es[i].hash > KeyHash(key))
    ensures FirstMatch(es, key, i) == None
  {
    SkipMisses(es, key, i, |es|);
  }

  /** The jump and the sorted scan after it find the same entry as a scan of the whole table. */
  method GetEntry(hd: Option<Image>, key: Option<CString>) returns (r: Option<nat>)
    requires hd.Some? ==> WellFormed(hd.value)
    ensures r == if key.Some? then Lookup(hd, key.value) else None
  {
    if hd == None || key == None || |key.value| > KEYSIZE {
      return None;
    }
    var h, k := hd.value, key.value;
    var hash := KeyHash(k);
    JumpSkipsMisses(h, k);
    var idx := Jump(h, hash / SPAN);
    ghost var es := Table(h);
    while idx < Num(h) && At(h, idx).hash <= hash
      invariant idx <= Num(h) && FirstMatch(es, k, 0) == FirstMatch(es, k, idx)
      decreases Num(h) - idx
    {
      if At(h, idx).hash == hash && StartsWith(At(h, idx), k) {
        assert Matches(es[idx], k);
        return Some(idx);
      }
      assert !Matches(es[idx], k);
      idx := idx + 1;
    }
    TableSorted(h);
    RestMisses(es, k, idx);
    r := None;
  }

  /** The first entry of a configuration that matches, by a scan of the whole table. */
  ghost function Lookup(hd: Option<Image>, key: CString): Option<nat>
    requires hd.Some? ==> WellFormed(hd.value)
  {
    if hd == None || |key| > KEYSIZE then None else FirstMatch(Table(hd.value), key, 0)
  }

  /** Every key in the table is found: by an entry with its hash whose key starts with it. */
  lemma PresentIsFound(hd: Image, key: CString, i: nat)
    requires WellFormed(hd) && i < Num(hd) && CStr(At(hd, i).key) == key
    ensures var r := Lookup(Some(hd), key); r.Some? && r.value <= i && Matches(At(hd, r.value), key)
  {
    assert EntryOk(hd, i);
    assert Matches(Table(hd)[i], key);
    FirstMatchIsFirst(Table(hd), key, 0);
  }

  /** It is found exactly, unless another key of the same hash that extends it comes first. */
  lemma ExactIff(hd: Image, key: CString, i: nat)
    requires WellFormed(hd) && i < Num(hd) && CStr(At(hd, i).key) == key
    requires forall j :: 0 <= j < i ==> CStr(At(hd, j).key) != key
    ensures Lookup(Some(hd), key) == Some(i)
       <==> forall j :: 0 <= j < i && At(hd, j).hash == At(hd, i).hash ==> !StartsWith(At(hd, j), key)
  {
    PresentIsFound(hd, key, i);
    assert EntryOk(hd, i);
    FirstMatchIsFirst(Table(hd), key, 0);
    var r := Lookup(Some(hd), key).value;
    assert r < i ==> At(hd, r).hash == At(hd, i).hash && StartsWith(At(hd, r), key);
    if r == i {
      forall j | 0 <= j < i && At(hd, j).hash == At(hd, i).hash
        ensures !StartsWith(At(hd, j), key)
      {
        assert !Matches(Table(hd)[j], key);
      }
    }
  }

  // ---------------------------------------------------------------- both configurations

  /** A place in one of the two configurations, the user's (0) and the manufacturer's (1). */
  datatype Place = Place(cfg: nat, idx: nat)

  ghost predicate AllWellFormed(cs: seq<Option<Image>>) {
    |cs| == 2 && forall c :: 0 <= c < 2 && cs[c].Some? ==> WellFormed(cs[c].value)
  }

  ghost function LookupAny(cs: seq<Option<Image>>, key: CString): Option<Place>
    requires AllWellFormed(cs)
  {
    match Lookup(cs[0], key)
    case Some(i) => Some(Place(0, i))
    case None => match Lookup(cs[1], key) case Some(i) => Some(Place(1, i)) case None => None
  }

  /** The user's configuration goes before the manufacturer's. */
  method GetAny(cs: seq<Option<Image>>, key: Option<CString>) returns (r: Option<Place>)
    requires AllWellFormed(cs)
    ensures key == None ==> r == None
    ensures key.Some? ==> r == LookupAny(cs, key.value)
    ensures key.Some? && Lookup(cs[0], key.value).Some? ==> r == Some(Place(0, Lookup(cs[0], key.value).value))
    ensures key.Some? && Lookup(cs[0], key.value).None? && Lookup(cs[1], key.value).Some? ==>
      r == Some(Place(1, Lookup(cs[1], key.value).value))
  {
    for c := 0 to 2
      invariant key.Some? && c > 0 ==> Lookup(cs[0], key.value) == None
      invariant key.Some? && c > 1 ==> Lookup(cs[1], key.value) == None
    {
      var e := GetEntry(cs[c], key);
      if e.Some? {
        return Some(Place(c, e.value));
      }
    }
    r := None;
  }

  ghost function Entries(c: Option<Image>): seq<Entry>
    requires c.Some? ==> WellFormed(c.value)
  {
    if c == None then [] else Table(c.value)
  }

  /** The tables of both configurations. */
  ghost function Tables(cs: seq<Option<Image>>): (ts: seq<seq<Entry>>)
    requires AllWellFormed(cs)
    ensures |ts| == 2
  {
    [Entries(cs[0]), Entries(cs[1])]
  }

  /** Places with the prefix in configuration `c`, from entry `i` on. */
  ghost function PlacesIn(es: seq<Entry>, prefix: CString, c: nat, i: nat): seq<Place>
    requires i <= |es|
    decreases |es| - i
  {
    if i == |es| then []
    else (if StartsWith(es[i], prefix) then [Place(c, i)] else []) + PlacesIn(es, prefix, c, i + 1)
  }

  /** Places after `previous`, or all, in the configurations from `c` on, the user's before the other's. */
  ghost function PlacesAfter(ts: seq<seq<Entry>>, prefix: CString, previous: Option<Place>, c: nat): seq<Place>
    requires c <= |ts|
    decreases |ts| - c
  {
    if c == |ts| then []
    else if previous == None then PlacesIn(ts[c], prefix, c, 0) + PlacesAfter(ts, prefix, None, c + 1)
    else if previous.value.cfg == c && previous.value.idx < |ts[c]| then
      PlacesIn(ts[c], prefix, c, previous.value.idx + 1) + PlacesAfter(ts, prefix, None, c + 1)
    else PlacesAfter(ts, prefix, previous, c + 1)
  }

  lemma {:induction false} AfterPlace(ts: seq<seq<Entry>>, prefix: CString, p: Place, c: nat)
    requires c <= p.cfg < |ts| && p.idx < |ts[p.cfg]|
    ensures PlacesAfter(ts, prefix, Some(p), c)
         == PlacesIn(ts[p.cfg], prefix, p.cfg, p.idx + 1) + PlacesAfter(ts, prefix, None, p.cfg + 1)
    decreases p.cfg - c
  {
    if c < p.cfg {
      AfterPlace(ts, prefix, p, c + 1);
    } else {
      StepsInto(ts, prefix, Some(p), c, p.idx + 1, PlacesAfter(ts, prefix, None, c + 1));
    }
  }

  lemma {:induction false} NextPlace(es: seq<Entry>, prefix: CString, c: nat, i: nat, j: nat)
    requires i <= j <= |es| && forall k :: i <= k < j ==> !StartsWith(es[k], prefix)
    ensures PlacesIn(es, prefix, c, i) == PlacesIn(es, prefix, c, j)
    decreases j - i
  {
    if i < j {
      NextPlace(es, prefix, c, i + 1, j);
    }
  }

  /** The first entry with the prefix from entry `from` on. */
  method NextIn(hd: Image, prefix: CString, from: nat) returns (idx: nat)
    requires WellFormed(hd) && from <= Num(hd)
    ensures from <= idx <= Num(hd) && forall k :: from <= k < idx ==> !StartsWith(Table(hd)[k], prefix)
    ensures idx < Num(hd) ==> StartsWith(Table(hd)[idx], prefix)
  {
    idx := from;
    while idx < Num(hd)
      invariant from <= idx <= Num(hd) && forall k :: from <= k < idx ==> !StartsWith(Table(hd)[k], prefix)
      decreases Num(hd) - idx
    {
      if StartsWith(At(hd, idx), prefix) {
        return;
      }
      idx := idx + 1;
    }
  }

  /** What remains of one configuration once the scan from entry `from` on has stopped at `idx`. */
  lemma ScanStops(es: seq<Entry>, prefix: CString, c: nat, from: nat, idx: nat, rest: seq<Place>)
    requires from <= idx <= |es| && forall k :: from <= k < idx ==> !StartsWith(es[k], prefix)
    requires idx < |es| ==> StartsWith(es[idx], prefix)
    ensures PlacesIn(es, prefix, c, from) + rest
         == if idx < |es| then [Place(c, idx)] + (PlacesIn(es, prefix, c, idx + 1) + rest) else rest
  {
    NextPlace(es, prefix, c, from, idx);
    if idx < |es| {
      Assoc([Place(c, idx)], PlacesIn(es, prefix, c, idx + 1), rest);
    }
  }

  lemma ScanEnds(ts: seq<seq<Entry>>, prefix: CString, previous: Option<Place>, c: nat, idx: nat)
    requires c < |ts| && (previous == None || (previous.value.cfg == c && previous.value.idx < |ts[c]|))
    requires var from := if previous == None then 0 else previous.value.idx + 1;
      from <= idx <= |ts[c]| && forall k :: from <= k < idx ==> !StartsWith(ts[c][k], prefix)
    requires idx < |ts[c]| ==> StartsWith(ts[c][idx], prefix)
    ensures PlacesAfter(ts, prefix, previous, c)
         == if idx < |ts[c]| then [Place(c, idx)] + PlacesAfter(ts, prefix, Some(Place(c, idx)), 0)
            else PlacesAfter(ts, prefix, None, c + 1)
  {
    var from := if previous == None then 0 else previous.value.idx + 1;
    var rest := PlacesAfter(ts, prefix, None, c + 1);
    StepsInto(ts, prefix, previous, c, from, rest);
    ScanStops(ts[c], prefix, c, from, idx, rest);
    if idx < |ts[c]| {
      AfterPlace(ts, prefix, Place(c, idx), 0);
    }
  }

  lemma StepsInto(ts: seq<seq<Entry>>, prefix: CString, previous: Option<Place>, c: nat, from: nat, rest: seq<Place>)
    requires c < |ts| && (previous == None || (previous.value.cfg == c && previous.value.idx < |ts[c]|))
    requires from == if previous == None then 0 else previous.value.idx + 1
    requires rest == PlacesAfter(ts, prefix, None, c + 1)
    ensures PlacesAfter(ts, prefix, previous, c) == PlacesIn(ts[c], prefix, c, from) + rest
  {
  }

  /** Looks in one configuration; `prev` becomes none once its place has been passed. */
  method NextFrom(cs: seq<Option<Image>>, prefix: CString, previous: Option<Place>, c: nat)
    returns (r: Option<Place>, prev: Option<Place>)
    requires AllWellFormed(cs) && c < 2
    ensures PlacesAfter(Tables(cs), prefix, previous, c)
         == if r == None then PlacesAfter(Tables(cs), prefix, prev, c + 1)
            else [r.value] + PlacesAfter(Tables(cs), prefix, r, 0)
  {
    r, prev := None, previous;
    if cs[c] == None {
      assert Tables(cs)[c] == [];
      return;
    }
    var hd := cs[c].value;
    var inside := prev.Some? && prev.value.cfg == c && prev.value.idx < Num(hd);
    if prev == None || inside {
      var idx := NextIn(hd, prefix, if inside then prev.value.idx + 1 else 0);
      ScanEnds(Tables(cs), prefix, previous, c, idx);
      if idx < Num(hd) {
        r := Some(Place(c, idx));
      }
      prev := None;
    }
  }

  /** The next entry with the prefix, in the order of all places. */
  method GetNext(cs: seq<Option<Image>>, prefix: CString, previous: Option<Place>) returns (r: Option<Place>)
    requires AllWellFormed(cs)
    ensures var ps := PlacesAfter(Tables(cs), prefix, previous, 0);
      if ps == [] then r == None else r == Some(ps[0]) && PlacesAfter(Tables(cs), prefix, r, 0) == ps[1..]
  {
    var prev := previous;
    for c := 0 to 2
      invariant PlacesAfter(Tables(cs), prefix, previous, 0) == PlacesAfter(Tables(cs), prefix, prev, c)
    {
      r, prev := NextFrom(cs, prefix, prev, c);
      if r.Some? {
        return;
      }
    }
    r := None;
  }

  /** Asking for the next entry until there is none visits all entries with the prefix, once each, in order. */
  method VisitAll(cs: seq<Option<Image>>, prefix: CString) returns (visited: seq<Place>)
    requires AllWellFormed(cs)
    ensures visited == PlacesAfter(Tables(cs), prefix, None, 0)
  {
    visited := [];
    var p: Option<Place> := None;
    p := GetNext(cs, prefix, None);
    while p.Some?
      invariant p == None ==> visited == PlacesAfter(Tables(cs), prefix, None, 0)
      invariant p.Some? ==> visited + [p.value] + PlacesAfter(Tables(cs), prefix, p, 0) == PlacesAfter(Tables(cs), prefix, None, 0)
      decreases |PlacesAfter(Tables(cs), prefix, None, 0)| - |visited|
    {
      visited := visited + [p.value];
      p := GetNext(cs, prefix, p);
    }
  }

  ghost predicate Earlier(p: Place, q: Place) {
    p.cfg < q.cfg || (p.cfg == q.cfg && p.idx < q.idx)
  }

  lemma {:induction false} PlacesInExact(es: seq<Entry>, prefix: CString, c: nat, i: nat)
    requires i <= |es|
    ensures var ps := PlacesIn(es, prefix, c, i);
      && (forall p :: p in ps <==> p.cfg == c && i <= p.idx < |es| && StartsWith(es[p.idx], prefix))
      && (forall k, l :: 0 <= k < l < |ps| ==> Earlier(ps[k], ps[l]))
    decreases |es| - i
  {
    if i < |es| {
      PlacesInExact(es, prefix, c, i + 1);
    }
  }

  lemma PlacesAll(ts: seq<seq<Entry>>, prefix: CString)
    requires |ts| == 2
    ensures PlacesAfter(ts, prefix, None, 0) == PlacesIn(ts[0], prefix, 0, 0) + PlacesIn(ts[1], prefix, 1, 0)
  {
    assert PlacesAfter(ts, prefix, None, 2) == [];
    assert PlacesAfter(ts, prefix, None, 1) == PlacesIn(ts[1], prefix, 1, 0);
  }

  ghost predicate Hit(es: seq<Entry>, prefix: CString, i: nat) {
    i < |es| && StartsWith(es[i], prefix)
  }

  lemma BothExact(es: seq<Entry>, fs: seq<Entry>, prefix: CString)
    ensures var ps := PlacesIn(es, prefix, 0, 0) + PlacesIn(fs, prefix, 1, 0);
      && (forall p :: p in ps <==> (p.cfg == 0 && Hit(es, prefix, p.idx)) || (p.cfg == 1 && Hit(fs, prefix, p.idx)))
      && (forall k, l :: 0 <= k < l < |ps| ==> Earlier(ps[k], ps[l]))
  {
    PlacesInExact(es, prefix, 0, 0);
    PlacesInExact(fs, prefix, 1, 0);
  }

  /** They are exactly the entries with the prefix, the user's first, in table order, without repetition. */
  lemma AllPlacesExact(ts: seq<seq<Entry>>, prefix: CString)
    requires |ts| == 2
    ensures var ps := PlacesAfter(ts, prefix, None, 0);
      && (forall p :: p in ps <==> p.cfg < 2 && Hit(ts[p.cfg], prefix, p.idx))
      && (forall k, l :: 0 <= k < l < |ps| ==> Earlier(ps[k], ps[l]))
  {
    PlacesAll(ts, prefix);
    BothExact(ts[0], ts[1], prefix);
  }
}
