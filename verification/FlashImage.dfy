/**
 * What the bytes of the settings flash mean: two header banks, each holding a table of
 * 24-byte entries that grows up and value bytes that grow down, followed by data pages.
 * Everything here is a function or lemma on an image, a `seq<byte>`; addresses are offsets
 * from the base of the store.
 */
module FlashImage {
  import opened Bytes

  const ERASED: byte := 255
  const ENTRY := 24
  const HEADER := 24
  const KEYSIZE := 15
  const MAGIC0 := 0x52545346
  const MAGIC1 := 0x6becea0a
  const MAX_GEN := WORD - 1

  /** `n` pages of `page` bytes, as repeated addition, which keeps products out of the proofs. */
  function Times(n: nat, page: nat): (r: nat) {
    if n == 0 then 0 else Times(n - 1, page) + page
  }

  lemma {:induction false} TimesMono(a: nat, b: nat, page: nat)
    requires a <= b
    ensures Times(a, page) <= Times(b, page)
    ensures a < b ==> Times(a, page) + page <= Times(b, page)
    decreases b
  {
    if a < b {
      TimesMono(a, b - 1, page);
    }
  }

  lemma {:induction false} TimesSum(a: nat, b: nat, page: nat)
    ensures Times(a + b, page) == Times(a, page) + Times(b, page)
  {
    if b > 0 {
      TimesSum(a, b - 1, page);
    }
  }

  lemma {:induction false} TimesIsProduct(n: nat, page: nat)
    ensures Times(n, page) == n * page
  {
    if n > 0 {
      TimesIsProduct(n - 1, page);
    }
  }

  lemma TimesDiv(n: nat, page: nat)
    requires page > 0
    ensures Times(n, page) / page == n
  {
    TimesIsProduct(n, page);
    DivOfProduct(n, page);
  }

  lemma ProductMono(a: nat, b: nat, d: nat)
    requires a <= b
    ensures a * d <= b * d
  {
  }

  lemma DivOfProduct(n: nat, d: nat)
    requires d > 0
    ensures n * d / d == n
  {
    var q := n * d / d;
    assert q * d <= n * d < q * d + d;
    assert q < n ==> (q + 1) * d <= n * d by {
      if q < n { ProductMono(q + 1, n, d); }
    }
  }

  lemma DivSmaller(a: nat, d: nat)
    requires d >= 256 && a < WORD
    ensures 0 <= a / d < WORD / 256
  {
    var q := a / d;
    assert q * d <= a;
    ProductMono(256, d, q);
  }

  datatype Geometry = Geometry(page: nat, headerPages: nat, totalPages: nat) {
    predicate Ok() {
      && page >= 256 && page % 8 == 0
      && 1 <= headerPages <= 0xf0
      && 2 * headerPages <= totalPages < 0x1_0000
      && Total() < WORD - 1
    }

    /** Size in bytes of one header bank. */
    function Bank(): (b: nat)
      requires Ok()
      ensures b >= page && 2 * b <= Total()
    {
      TimesMono(1, headerPages, page);
      TimesSum(headerPages, headerPages, page);
      TimesMono(2 * headerPages, totalPages, page);
      Times(headerPages, page)
    }

    function Total(): nat { Times(totalPages, page) }

    function DataPages(): nat
      requires Ok()
    {
      totalPages - 2 * headerPages
    }

    /** The address of data page `p`. */
    function PageAddr(p: nat): (a: nat)
      requires Ok() && p <= DataPages()
      ensures 2 * Bank() <= a <= Total()
      ensures p < DataPages() ==> a + page <= Total()
    {
      TimesSum(headerPages, headerPages, page);
      TimesMono(2 * headerPages, 2 * headerPages + p, page);
      TimesMono(2 * headerPages + p, totalPages, page);
      Times(2 * headerPages + p, page)
    }

    /** The data page that an address falls in. */
    function PageOf(a: nat): int
      requires Ok()
    {
      a / page - 2 * headerPages
    }

    /** Pages needed by a blob of `size` bytes, in the source's 32-bit arithmetic. */
    function NumPages(size: nat): (n: nat)
      requires Ok()
      ensures n < WORD / 256
    {
      TimesMono(1, totalPages, page);
      var padded := if size == 0 then page else (size + page - 1) % WORD;
      DivSmaller(padded, page);
      padded / page
    }
  }

  lemma PageOfAddr(g: Geometry, p: nat)
    requires g.Ok() && p <= g.DataPages()
    ensures g.PageOf(g.PageAddr(p)) == p
  {
    TimesDiv(2 * g.headerPages + p, g.page);
  }

  predicate IsBank(g: Geometry, bank: nat)
    requires g.Ok()
  {
    bank == 0 || bank == g.Bank()
  }

  /** One row of the entry table. */
  datatype Entry = Entry(key: CString, offset: nat, size: nat)

  /** What a mounted store holds: small values by content, large ones by place and size. */
  datatype View = View(small: map<CString, seq<byte>>, large: map<CString, (nat, nat)>)

  predicate IsLarge(key: CString) {
    |key| > 0 && key[0] == 42
  }

  predicate EntryOk(e: Entry) {
    |e.key| <= KEYSIZE && e.offset < WORD - 1 && e.size < WORD
  }

  /** Bytes reserved for a value: `size` rounded up to a multiple of 8, and never none. */
  function Align(size: nat): (r: nat)
    ensures size <= r <= size + 8 && r >= 8
  {
    if size <= 8 then 8 else 8 + Align(size - 8)
  }

  /** This is the rounding that the source does with a mask. */
  lemma {:induction false} AlignIsRounding(size: nat)
    ensures Align(size) == if size == 0 then 8 else (size + 7) / 8 * 8
  {
    if size > 8 {
      AlignIsRounding(size - 8);
    }
  }

  function EntryBytes(e: Entry): (s: seq<byte>)
    requires EntryOk(e)
    ensures |s| == ENTRY
  {
    e.key + Zeros(KEYSIZE + 1 - |e.key|) + Le32(e.offset) + Le32(e.size)
  }

  function OffsetAt(img: seq<byte>, p: nat): (x: int)
    requires p + ENTRY <= |img|
    ensures 0 <= x < WORD
  {
    FromLe32(img[p + 16..p + 20])
  }

  function ReadEntry(img: seq<byte>, p: nat): (e: Entry)
    requires p + ENTRY <= |img|
  {
    Entry(CStr(img[p..p + 16]), OffsetAt(img, p), FromLe32(img[p + 20..p + 24]))
  }

  lemma SubSlice(s: seq<byte>, a: nat, b: nat, c: nat, d: nat)
    requires c <= d && a + d <= b <= |s|
    ensures s[a..b][c..d] == s[a + c..a + d]
  {
    var t := s[a..b][c..d];
    assert forall i :: 0 <= i < |t| ==> t[i] == s[a + c + i];
  }

  lemma ReadOfWritten(img: seq<byte>, p: nat, e: Entry)
    requires EntryOk(e) && p + ENTRY <= |img| && img[p..p + ENTRY] == EntryBytes(e)
    ensures ReadEntry(img, p) == e
  {
    SubSlice(img, p, p + ENTRY, 0, 16);
    SubSlice(img, p, p + ENTRY, 16, 20);
    SubSlice(img, p, p + ENTRY, 20, 24);
    EntryParts(e);
    CStrOfPadded(e.key, KEYSIZE + 1 - |e.key|);
    Le32RoundTrip(e.offset);
    Le32RoundTrip(e.size);
  }

  lemma EntryParts(e: Entry)
    requires EntryOk(e)
    ensures var s := EntryBytes(e);
      s[0..16] == e.key + Zeros(KEYSIZE + 1 - |e.key|) && s[16..20] == Le32(e.offset) && s[20..24] == Le32(e.size)
  {
    ThreeParts(e.key + Zeros(KEYSIZE + 1 - |e.key|), Le32(e.offset), Le32(e.size));
  }

  lemma ThreeParts(a: seq<byte>, b: seq<byte>, c: seq<byte>)
    ensures var s := a + b + c;
      s[0..|a|] == a && s[|a|..|a| + |b|] == b && s[|a| + |b|..|a| + |b| + |c|] == c
  {
  }

  // ---------------------------------------------------------------- headers

  function Magic(): (s: seq<byte>)
    ensures |s| == 8
  {
    Le32(MAGIC0) + Le32(MAGIC1)
  }

  /** The part of a header that says how the flash is laid out. */
  function LayoutBytes(g: Geometry): (s: seq<byte>)
    requires g.Ok()
    ensures |s| == 8 && s[7] == 0
  {
    PageBelowWord(g);
    Le32(g.page) + Le16(g.totalPages) + Le16(g.headerPages)
  }

  function HeaderBytes(g: Geometry, gen: nat): (s: seq<byte>)
    requires g.Ok() && gen < WORD
    ensures |s| == HEADER
  {
    Magic() + Le32(gen) + LayoutBytes(g) + Le32(0)
  }

  lemma HeaderBytesWhole(g: Geometry, gen: nat)
    requires g.Ok() && gen < WORD
    ensures HeaderBytes(g, gen)[..HEADER] == HeaderBytes(g, gen)
  {
  }

  lemma PageBelowWord(g: Geometry)
    requires g.Ok()
    ensures g.page <= g.Total() < WORD
  {
    TimesMono(1, g.totalPages, g.page);
  }

  predicate HeaderOk(g: Geometry, img: seq<byte>, b: nat)
    requires g.Ok() && b + HEADER <= |img|
  {
    img[b..b + 8] == Magic() && img[b + 12..b + 20] == LayoutBytes(g)
  }

  function Gen(img: seq<byte>, b: nat): (x: nat)
    requires b + HEADER <= |img|
    ensures x < WORD
  {
    FromLe32(img[b + 8..b + 12])
  }

  /** A header is recognised once its first 20 bytes are in place, and not one byte sooner. */
  lemma HeaderPrefix(g: Geometry, img: seq<byte>, b: nat, gen: nat, k: nat)
    requires g.Ok() && gen < WORD && b + HEADER <= |img| && k <= HEADER
    requires img[b..b + k] == HeaderBytes(g, gen)[..k]
    requires forall i :: b + k <= i < b + HEADER ==> img[i] == ERASED
    ensures HeaderOk(g, img, b) <==> k >= 20
    ensures k >= 20 ==> Gen(img, b) == gen
  {
    var s := HeaderBytes(g, gen);
    if k < 20 {
      assert img[b + 12..b + 20][7] == img[b + 19] == ERASED;
    } else {
      assert forall i :: 0 <= i < k ==> img[b + i] == img[b..b + k][i] == s[i];
      assert img[b..b + 8] == s[0..8] == Magic();
      assert img[b + 8..b + 12] == s[8..12] == Le32(gen);
      assert img[b + 12..b + 20] == s[12..20] == LayoutBytes(g);
      Le32RoundTrip(gen);
    }
  }

  lemma Le32Iff(s: seq<byte>, x: nat)
    requires |s| == 4 && x < WORD
    ensures s == Le32(x) <==> FromLe32(s) == x
  {
    Le32RoundTrip(x);
    if FromLe32(s) == x {
      FromLeFour(s);
      var a := (s[3] as int * 256 + s[2]) * 256 + s[1];
      assert x == a * 256 + s[0] && x / 0x100 == a && a / 0x100 == s[3] as int * 256 + s[2];
      assert x / 0x1_0000 == x / 0x100 / 0x100 && x / 0x100_0000 == x / 0x100 / 0x100 / 0x100;
    }
  }

  lemma Le16Iff(s: seq<byte>, x: nat)
    requires |s| == 2 && x < 0x1_0000
    ensures s == Le16(x) <==> s[0] as int + 256 * s[1] as int == x
  {
  }

  /** Which bytes make a valid header: two magic words, and from byte 12 on the sizes of the flash. Other bytes do not matter. */
  lemma HeaderInBytes(g: Geometry, img: seq<byte>, b: nat)
    requires g.Ok() && b + 24 <= |img|
    ensures HeaderOk(g, img, b) <==>
      && FromLe32(img[b..b + 4]) == 0x5254_5346 && FromLe32(img[b + 4..b + 8]) == 0x6bec_ea0a
      && FromLe32(img[b + 12..b + 16]) == g.page
      && img[b + 16] as int + 256 * img[b + 17] as int == g.totalPages
      && img[b + 18] as int + 256 * img[b + 19] as int == g.headerPages
    ensures Gen(img, b) == FromLe32(img[b + 8..b + 12])
  {
    PageBelowWord(g);
    MagicInBytes(img[b..b + 8]);
    SubSlice(img, b, b + 8, 0, 4);
    SubSlice(img, b, b + 8, 4, 8);
    LayoutInBytes(g, img[b + 12..b + 20]);
    SubSlice(img, b + 12, b + 20, 0, 4);
  }

  lemma MagicInBytes(s: seq<byte>)
    requires |s| == 8
    ensures s == Magic() <==> FromLe32(s[0..4]) == 0x5254_5346 && FromLe32(s[4..8]) == 0x6bec_ea0a
  {
    Le32Iff(s[0..4], 0x5254_5346);
    Le32Iff(s[4..8], 0x6bec_ea0a);
    assert Magic()[0..4] == Le32(MAGIC0) && Magic()[4..8] == Le32(MAGIC1);
    assert s == s[0..4] + s[4..8];
  }

  lemma LayoutInBytes(g: Geometry, s: seq<byte>)
    requires g.Ok() && |s| == 8
    ensures s == LayoutBytes(g) <==>
      && g.page < WORD && FromLe32(s[0..4]) == g.page
      && s[4] as int + 256 * s[5] as int == g.totalPages && s[6] as int + 256 * s[7] as int == g.headerPages
  {
    PageBelowWord(g);
    Le32Iff(s[0..4], g.page);
    Le16Iff(s[4..6], g.totalPages);
    Le16Iff(s[6..8], g.headerPages);
    var t := LayoutBytes(g);
    assert t[0..4] == Le32(g.page) && t[4..6] == Le16(g.totalPages) && t[6..8] == Le16(g.headerPages);
    assert s == s[0..4] + s[4..6] + s[6..8];
  }

  /** A header counts for flash of exactly the geometry that it was written for. */
  lemma HeaderTellsGeometry(g: Geometry, h: Geometry, img: seq<byte>, b: nat, gen: nat)
    requires g.Ok() && h.Ok() && gen < WORD && b + HEADER <= |img| && img[b..b + HEADER] == HeaderBytes(h, gen)
    ensures HeaderOk(g, img, b) <==> g == h
  {
    var s := HeaderBytes(h, gen);
    SubSlice(img, b, b + HEADER, 0, 8);
    SubSlice(img, b, b + HEADER, 12, 20);
    assert img[b..b + 8] == s[0..8] == Magic() && img[b + 12..b + 20] == s[12..20] == LayoutBytes(h);
    if LayoutBytes(g) == LayoutBytes(h) {
      LayoutTells(g, h);
    }
  }

  lemma LayoutTells(g: Geometry, h: Geometry)
    requires g.Ok() && h.Ok() && LayoutBytes(g) == LayoutBytes(h)
    ensures g == h
  {
    var s, t := LayoutBytes(g), LayoutBytes(h);
    PageBelowWord(g);
    PageBelowWord(h);
    assert s[0..4] == Le32(g.page) && s[4..6] == Le16(g.totalPages) && s[6..8] == Le16(g.headerPages);
    assert t[0..4] == Le32(h.page) && t[4..6] == Le16(h.totalPages) && t[6..8] == Le16(h.headerPages);
    Le32RoundTrip(g.page);
    Le32RoundTrip(h.page);
    Le16Tells(g.totalPages, h.totalPages);
    Le16Tells(g.headerPages, h.headerPages);
  }

  lemma Le16Tells(x: nat, y: nat)
    requires x < 0x1_0000 && y < 0x1_0000 && Le16(x) == Le16(y)
    ensures x == y
  {
    assert Le16(x)[0] == Le16(y)[0] && Le16(x)[1] == Le16(y)[1];
  }

  /** The bank that a mount selects, if either has a valid header. */
  function PickBank(g: Geometry, img: seq<byte>): (r: Option<nat>)
    requires g.Ok() && |img| == g.Total()
    ensures r.Some? ==> IsBank(g, r.value)
  {
    var b0, b1 := HeaderOk(g, img, 0), HeaderOk(g, img, g.Bank());
    if b0 && b1 then
      if Gen(img, 0) > Gen(img, g.Bank()) then Some(0) else Some(g.Bank())
    else if b0 then Some(0)
    else if b1 then Some(g.Bank())
    else None
  }

  // ---------------------------------------------------------------- the log

  function DataWeight(e: Entry): nat {
    if IsLarge(e.key) then 0 else Align(e.size)
  }

  /** Bytes that the small values among the first `n` entries reserve. */
  function DataUpTo(log: seq<Entry>, n: nat): nat
    requires n <= |log|
  {
    if n == 0 then 0 else DataUpTo(log, n - 1) + DataWeight(log[n - 1])
  }

  function DataBytes(log: seq<Entry>): nat {
    DataUpTo(log, |log|)
  }

  function EntryWeight(e: Entry): nat {
    ENTRY + DataWeight(e)
  }

  /** Bytes of a bank that a log takes up, table rows included. */
  function Weight(log: seq<Entry>): nat {
    ENTRY * |log| + DataBytes(log)
  }

  /** Each small value sits just below the values logged before it. */
  ghost predicate Placed(g: Geometry, log: seq<Entry>, bank: nat)
    requires g.Ok()
  {
    forall i {:trigger PlacedRow(g, log, bank, i)} :: 0 <= i < |log| ==> PlacedRow(g, log, bank, i)
  }

  ghost predicate PlacedRow(g: Geometry, log: seq<Entry>, bank: nat, i: nat)
    requires g.Ok() && i < |log|
  {
    && EntryOk(log[i])
    && if IsLarge(log[i].key) then log[i].offset >= 2 * g.Bank()
       else log[i].offset == bank + g.Bank() - DataUpTo(log, i + 1)
  }

  function Slot(bank: nat, i: nat): nat {
    bank + HEADER + ENTRY * i
  }

  /** `log` is the table of the bank at `bank`, with its free bytes erased. */
  ghost predicate Table(g: Geometry, img: seq<byte>, bank: nat, log: seq<Entry>) {
    && g.Ok() && |img| == g.Total() && IsBank(g, bank)
    && Placed(g, log, bank)
    && Weight(log) <= g.Bank() - HEADER - ENTRY
    && RowsAre(img, bank, log)
    && ErasedFromTo(img, Slot(bank, |log|), bank + g.Bank() - DataBytes(log))
  }

  ghost predicate RowsAre(img: seq<byte>, bank: nat, log: seq<Entry>) {
    forall i {:trigger RowIs(img, Slot(bank, i), log[i])} ::
      0 <= i < |log| ==> RowIs(img, Slot(bank, i), log[i])
  }

  predicate RowIs(img: seq<byte>, p: nat, e: Entry) {
    p + ENTRY <= |img| && ReadEntry(img, p) == e
  }

  lemma {:induction false} DataMono(log: seq<Entry>, i: nat, n: nat)
    requires i <= n <= |log|
    ensures DataUpTo(log, i) <= DataUpTo(log, n)
  {
    if i < n {
      DataMono(log, i, n - 1);
    }
  }

  /** Every entry of a placed log is well formed, and its value lies in the data part of the bank. */
  lemma PlacedAt(g: Geometry, log: seq<Entry>, bank: nat, i: nat)
    requires g.Ok() && Placed(g, log, bank) && i < |log|
    ensures EntryOk(log[i])
    ensures if IsLarge(log[i].key) then log[i].offset >= 2 * g.Bank()
            else log[i].offset == bank + g.Bank() - DataUpTo(log, i + 1) && log[i].offset + log[i].size <= bank + g.Bank()
    ensures DataUpTo(log, i + 1) <= DataBytes(log)
  {
    assert PlacedRow(g, log, bank, i);
    DataMono(log, i + 1, |log|);
  }

  /** The entry that counts for each key: the last one logged. */
  function Latest(log: seq<Entry>): map<CString, Entry> {
    LatestUpTo(log, |log|)
  }

  function LatestUpTo(log: seq<Entry>, n: nat): map<CString, Entry>
    requires n <= |log|
  {
    if n == 0 then map[] else LatestUpTo(log, n - 1)[log[n - 1].key := log[n - 1]]
  }

  function LastIndex(log: seq<Entry>, key: CString): (r: int)
    ensures -1 <= r < |log|
  {
    LastIndexUpTo(log, |log|, key)
  }

  function LastIndexUpTo(log: seq<Entry>, n: nat, key: CString): (r: int)
    requires n <= |log|
    ensures -1 <= r < n
  {
    if n == 0 then -1
    else if log[n - 1].key == key then n - 1
    else LastIndexUpTo(log, n - 1, key)
  }

  lemma LatestIsLast(log: seq<Entry>, key: CString)
    ensures key in Latest(log) <==> LastIndex(log, key) >= 0
    ensures key in Latest(log) ==> Latest(log)[key] == log[LastIndex(log, key)] && Latest(log)[key].key == key
    ensures forall j :: LastIndex(log, key) < j < |log| ==> log[j].key != key
  {
    LatestIsLastUpTo(log, |log|, key);
  }

  lemma {:induction false} LatestIsLastUpTo(log: seq<Entry>, n: nat, key: CString)
    requires n <= |log|
    ensures var m, l := LatestUpTo(log, n), LastIndexUpTo(log, n, key);
            && (key in m <==> l >= 0)
            && (key in m ==> m[key] == log[l] && m[key].key == key)
            && forall j :: l < j < n ==> log[j].key != key
  {
    if n > 0 {
      LatestIsLastUpTo(log, n - 1, key);
    }
  }

  lemma LatestSnoc(log: seq<Entry>, e: Entry)
    ensures Latest(log + [e]) == Latest(log)[e.key := e]
  {
    LatestUpToSnoc(log, e, |log|);
  }

  lemma {:induction false} LatestUpToSnoc(log: seq<Entry>, e: Entry, n: nat)
    requires n <= |log|
    ensures LatestUpTo(log + [e], n) == LatestUpTo(log, n)
  {
    if n > 0 {
      LatestUpToSnoc(log, e, n - 1);
    }
  }

  lemma LastIndexIs(log: seq<Entry>, key: CString, i: nat)
    requires i < |log| && log[i].key == key
    requires forall j :: i < j < |log| ==> log[j].key != key
    ensures LastIndex(log, key) == i
  {
    LatestIsLast(log, key);
  }

  function Value(img: seq<byte>, e: Entry): seq<byte> {
    if e.offset + e.size <= |img| then img[e.offset..e.offset + e.size] else []
  }

  function ViewOf(img: seq<byte>, log: seq<Entry>): View {
    ViewOfLatest(img, Latest(log))
  }

  function ViewOfLatest(img: seq<byte>, m: map<CString, Entry>): View {
    View(map k | k in m && !IsLarge(k) :: Value(img, m[k]),
         map k | k in m && IsLarge(k) :: (m[k].offset, m[k].size))
  }

  lemma LatestOk(g: Geometry, log: seq<Entry>, bank: nat, key: CString)
    requires g.Ok() && Placed(g, log, bank) && key in Latest(log)
    ensures var e := Latest(log)[key];
            && EntryOk(e) && e.key == key
            && (!IsLarge(key) ==> bank + g.Bank() - DataBytes(log) <= e.offset && e.offset + e.size <= bank + g.Bank())
  {
    LatestIsLast(log, key);
    PlacedAt(g, log, bank, LastIndex(log, key));
  }

  /** Changing bytes outside a log's data part does not change what the log means. */
  lemma ViewFrame(g: Geometry, img: seq<byte>, img': seq<byte>, bank: nat, log: seq<Entry>)
    requires g.Ok() && Placed(g, log, bank) && DataBytes(log) <= bank + g.Bank() <= |img| == |img'|
    requires forall i :: bank + g.Bank() - DataBytes(log) <= i < bank + g.Bank() ==> img[i] == img'[i]
    ensures ViewOf(img, log) == ViewOf(img', log)
  {
    forall k | k in Latest(log) && !IsLarge(k)
      ensures Value(img, Latest(log)[k]) == Value(img', Latest(log)[k])
    {
      LatestOk(g, log, bank, k);
    }
  }

  // ---------------------------------------------------------------- mounting

  /** Outcome of scanning a bank: its number of rows and where its values start. */
  datatype Scanned = Broken | Rows(count: nat, start: nat)

  /** The entry scan of a mount, from row `i` on, with `minoff` the lowest value seen so far. */
  function Scan(g: Geometry, img: seq<byte>, bank: nat, i: nat, minoff: nat): (r: Scanned)
    requires g.Ok() && |img| == g.Total() && IsBank(g, bank)
    ensures r.Rows? ==> i <= r.count && Slot(bank, r.count) + ENTRY <= |img| && r.start <= minoff
    decreases |img| - Slot(bank, i)
  {
    var e := Slot(bank, i);
    if e + ENTRY > |img| then Broken
    else if OffsetAt(img, e) == WORD - 1 then Rows(i, minoff)
    else
      var m := if OffsetAt(img, e) < minoff then OffsetAt(img, e) else minoff;
      if e + ENTRY > m then Broken else Scan(g, img, bank, i + 1, m)
  }

  predicate ErasedFromTo(img: seq<byte>, lo: nat, hi: int)
    requires hi <= |img|
  {
    forall i :: lo <= i < hi ==> img[i] == ERASED
  }

  /** Mounting one bank: the scan, then a check that nothing was left between table and values. */
  function MountBank(g: Geometry, img: seq<byte>, bank: nat): (r: Scanned)
    requires g.Ok() && |img| == g.Total() && IsBank(g, bank)
    ensures r.Rows? ==> Slot(bank, r.count) + ENTRY <= |img|
  {
    var r := Scan(g, img, bank, 0, bank + g.Bank());
    if r.Rows? && ErasedFromTo(img, Slot(bank, r.count), r.start) then r else Broken
  }

  function ReadLog(img: seq<byte>, bank: nat, n: nat): (log: seq<Entry>)
    requires Slot(bank, n) <= |img|
    ensures |log| == n
  {
    if n == 0 then [] else ReadLog(img, bank, n - 1) + [ReadEntry(img, Slot(bank, n - 1))]
  }

  /** What the next mount of this image will hold, or None if it would reformat. */
  function Recovered(g: Geometry, img: seq<byte>): Option<View>
    requires g.Ok() && |img| == g.Total()
  {
    match PickBank(g, img)
    case None => None
    case Some(b) =>
      match MountBank(g, img, b)
      case Broken => None
      case Rows(n, _) => Some(ViewOf(img, ReadLog(img, b, n)))
  }

  /** Where the values of a table start. */
  function DataStart(g: Geometry, bank: nat, log: seq<Entry>): int
    requires g.Ok()
  {
    bank + g.Bank() - DataBytes(log)
  }

  /** The scan gets through the rows of a table, also in an image that differs behind them. */
  lemma {:induction false} ScanThrough(g: Geometry, img: seq<byte>, img2: seq<byte>, bank: nat, log: seq<Entry>, i: nat, m: nat, d0: nat, r: Scanned)
    requires Table(g, img, bank, log) && SameIn(img, img2, bank, Slot(bank, |log|)) && i <= |log|
    requires m == bank + g.Bank() - DataUpTo(log, i) && d0 == DataStart(g, bank, log)
    requires Scan(g, img2, bank, |log|, d0) == r
    ensures Scan(g, img2, bank, i, m) == r
    decreases |log| - i
  {
    if i < |log| {
      DataMono(log, i + 1, |log|);
      var next := bank + g.Bank() - DataUpTo(log, i + 1);
      ScanThrough(g, img, img2, bank, log, i + 1, next, d0, r);
      ThroughRow(g, img, img2, bank, log, i, m, next);
    }
  }

  lemma ThroughRow(g: Geometry, img: seq<byte>, img2: seq<byte>, bank: nat, log: seq<Entry>, i: nat, m: nat, next: nat)
    requires Table(g, img, bank, log) && SameIn(img, img2, bank, Slot(bank, |log|)) && i < |log|
    requires m == bank + g.Bank() - DataUpTo(log, i) && next == bank + g.Bank() - DataUpTo(log, i + 1)
    ensures Scan(g, img2, bank, i, m) == Scan(g, img2, bank, i + 1, next)
  {
    TableEntry(g, img, bank, log, i);
    SameSlice(img, img2, Slot(bank, i) + 16, Slot(bank, i) + 20);
    ScanStep(g, img2, bank, i, m, next);
  }

  lemma ScanAll(g: Geometry, img: seq<byte>, img2: seq<byte>, bank: nat, log: seq<Entry>, d0: nat, r: Scanned)
    requires Table(g, img, bank, log) && SameIn(img, img2, bank, Slot(bank, |log|)) && d0 == DataStart(g, bank, log)
    requires Scan(g, img2, bank, |log|, d0) == r
    ensures Scan(g, img2, bank, 0, bank + g.Bank()) == r
  {
    ScanThrough(g, img, img2, bank, log, 0, bank + g.Bank(), d0, r);
  }

  lemma ScanEnds(g: Geometry, img: seq<byte>, bank: nat, log: seq<Entry>)
    requires Table(g, img, bank, log)
    ensures Scan(g, img, bank, |log|, bank + g.Bank() - DataBytes(log)) == Rows(|log|, bank + g.Bank() - DataBytes(log))
  {
    ErasedRow(img, Slot(bank, |log|));
  }

  lemma {:induction false} ScanStep(g: Geometry, img: seq<byte>, bank: nat, i: nat, minoff: nat, m: nat)
    requires g.Ok() && |img| == g.Total() && IsBank(g, bank) && Slot(bank, i) + ENTRY <= |img|
    requires OffsetAt(img, Slot(bank, i)) < WORD - 1
    requires m <= minoff && (if m == minoff then OffsetAt(img, Slot(bank, i)) >= m else OffsetAt(img, Slot(bank, i)) == m)
    requires Slot(bank, i) + ENTRY <= m
    ensures Scan(g, img, bank, i, minoff) == Scan(g, img, bank, i + 1, m)
  {
  }

  lemma TableEntry(g: Geometry, img: seq<byte>, bank: nat, log: seq<Entry>, i: nat)
    requires Table(g, img, bank, log) && i < |log|
    ensures Slot(bank, i) + ENTRY <= |img| && OffsetAt(img, Slot(bank, i)) == log[i].offset
    ensures Slot(bank, i + 1) <= bank + g.Bank() - DataBytes(log) && EntryOk(log[i])
    ensures DataUpTo(log, i + 1) == DataUpTo(log, i) + DataWeight(log[i])
    ensures DataUpTo(log, i + 1) <= DataBytes(log)
    ensures if IsLarge(log[i].key) then log[i].offset >= 2 * g.Bank()
            else log[i].offset == bank + g.Bank() - DataUpTo(log, i + 1)
                 && log[i].offset + log[i].size <= bank + g.Bank()
  {
    PlacedAt(g, log, bank, i);
    assert RowIs(img, Slot(bank, i), log[i]);
  }

  lemma ErasedRow(img: seq<byte>, p: nat)
    requires p + ENTRY <= |img| && forall i :: p <= i < p + ENTRY ==> img[i] == ERASED
    ensures OffsetAt(img, p) == WORD - 1
  {
    var s := img[p + 16..p + 20];
    assert s == [255, 255, 255, 255];
    FromLeFour(s);
  }

  lemma {:induction false} ReadLogOfTable(g: Geometry, img: seq<byte>, bank: nat, log: seq<Entry>, n: nat)
    requires Table(g, img, bank, log) && n <= |log|
    ensures Slot(bank, n) <= |img| && ReadLog(img, bank, n) == log[..n]
  {
    if n > 0 {
      ReadLogOfTable(g, img, bank, log, n - 1);
      assert RowIs(img, Slot(bank, n - 1), log[n - 1]);
      assert log[..n] == log[..n - 1] + [log[n - 1]];
    }
  }

  /**
   * What a mount looks for: `n` rows whose offsets are not erased, then one whose offset is; they end
   * before the lowest place `d` that they tell, or the end of the bank, with erased bytes in between.
   */
  ghost predicate Mounts(g: Geometry, img: seq<byte>, bank: nat, n: nat, d: nat)
    requires g.Ok() && |img| == g.Total() && IsBank(g, bank)
  {
    && Slot(bank, n) + ENTRY <= |img| && Lowest(img, bank, 0, n, bank + g.Bank(), d)
    && OffsetAt(img, Slot(bank, n)) == WORD - 1
    && Slot(bank, n) <= d && forall p :: Slot(bank, n) <= p < d ==> img[p] == ERASED
  }

  /** The rows from `i` to `n` have offsets, and the lowest of them and of `m` is `d`. */
  ghost predicate Lowest(img: seq<byte>, bank: nat, i: nat, n: nat, m: nat, d: nat)
    requires Slot(bank, n) <= |img|
  {
    && i <= n && (forall k :: i <= k < n ==> OffsetAt(img, Slot(bank, k)) != WORD - 1)
    && d <= m && (forall k :: i <= k < n ==> d <= OffsetAt(img, Slot(bank, k)))
    && (d == m || exists k :: i <= k < n && OffsetAt(img, Slot(bank, k)) == d)
  }

  lemma LowestStep(img: seq<byte>, bank: nat, i: nat, n: nat, m: nat, next: nat, d: nat)
    requires Slot(bank, n) <= |img| && i < n && OffsetAt(img, Slot(bank, i)) != WORD - 1
    requires next == if OffsetAt(img, Slot(bank, i)) < m then OffsetAt(img, Slot(bank, i)) else m
    ensures Lowest(img, bank, i, n, m, d) <==> Lowest(img, bank, i + 1, n, next, d)
  {
  }

  lemma {:induction false} ScanFindsLowest(g: Geometry, img: seq<byte>, bank: nat, i: nat, m: nat, n: nat, d: nat)
    requires g.Ok() && |img| == g.Total() && IsBank(g, bank) && Slot(bank, i) <= m
    requires Scan(g, img, bank, i, m) == Rows(n, d)
    ensures Slot(bank, n) + ENTRY <= |img| && Slot(bank, n) <= d
    ensures Lowest(img, bank, i, n, m, d) && OffsetAt(img, Slot(bank, n)) == WORD - 1
    decreases |img| - Slot(bank, i)
  {
    var e := Slot(bank, i);
    if OffsetAt(img, e) != WORD - 1 {
      var next := if OffsetAt(img, e) < m then OffsetAt(img, e) else m;
      ScanFindsLowest(g, img, bank, i + 1, next, n, d);
      LowestStep(img, bank, i, n, m, next, d);
    }
  }

  lemma LowestFirst(img: seq<byte>, bank: nat, i: nat, n: nat, m: nat, d: nat)
    requires Slot(bank, n) <= |img| && Lowest(img, bank, i, n, m, d)
    ensures i == n ==> d == m
    ensures i < n ==> OffsetAt(img, Slot(bank, i)) != WORD - 1 && d <= OffsetAt(img, Slot(bank, i)) && d <= m
  {
  }

  lemma ScanLast(g: Geometry, img: seq<byte>, bank: nat, n: nat, d: nat)
    requires g.Ok() && |img| == g.Total() && IsBank(g, bank) && Slot(bank, n) + ENTRY <= |img|
    requires OffsetAt(img, Slot(bank, n)) == WORD - 1
    ensures Scan(g, img, bank, n, d) == Rows(n, d)
  {
  }

  /** What is left of a scan that ends at row `n`. */
  ghost predicate ScansTo(g: Geometry, img: seq<byte>, bank: nat, i: nat, m: nat, n: nat, d: nat) {
    && g.Ok() && |img| == g.Total() && IsBank(g, bank) && Slot(bank, n) + ENTRY <= |img|
    && Lowest(img, bank, i, n, m, d) && OffsetAt(img, Slot(bank, n)) == WORD - 1 && Slot(bank, n) <= d
  }

  lemma {:induction false} LowestIsScanned(g: Geometry, img: seq<byte>, bank: nat, i: nat, m: nat, n: nat, d: nat, r: Scanned)
    requires ScansTo(g, img, bank, i, m, n, d) && r == Scan(g, img, bank, i, m)
    ensures r == Rows(n, d)
    decreases n - i
  {
    if i == n {
      LowestEnds(g, img, bank, m, n, d);
    } else {
      var next := Lower(img, bank, i, m);
      LowestNext(g, img, bank, i, m, n, d, next);
      LowestIsScanned(g, img, bank, i + 1, next, n, d, r);
    }
  }

  function Lower(img: seq<byte>, bank: nat, i: nat, m: nat): nat
    requires Slot(bank, i + 1) <= |img|
  {
    var o := OffsetAt(img, Slot(bank, i));
    if o < m then o else m
  }

  lemma LowestEnds(g: Geometry, img: seq<byte>, bank: nat, m: nat, n: nat, d: nat)
    requires ScansTo(g, img, bank, n, m, n, d)
    ensures Scan(g, img, bank, n, m) == Rows(n, d)
  {
    LowestFirst(img, bank, n, n, m, d);
    ScanLast(g, img, bank, n, d);
  }

  lemma LowestNext(g: Geometry, img: seq<byte>, bank: nat, i: nat, m: nat, n: nat, d: nat, next: nat)
    requires ScansTo(g, img, bank, i, m, n, d) && i < n && next == Lower(img, bank, i, m)
    ensures ScansTo(g, img, bank, i + 1, next, n, d) && Scan(g, img, bank, i, m) == Scan(g, img, bank, i + 1, next)
  {
    LowestFirst(img, bank, i, n, m, d);
    LowestStep(img, bank, i, n, m, next, d);
    LowestGoesOn(g, img, bank, i, m, n, d, next);
  }

  lemma {:induction false} LowestGoesOn(g: Geometry, img: seq<byte>, bank: nat, i: nat, m: nat, n: nat, d: nat, next: nat)
    requires g.Ok() && |img| == g.Total() && IsBank(g, bank) && i < n && Slot(bank, n) + ENTRY <= |img|
    requires Lowest(img, bank, i, n, m, d) && Slot(bank, n) <= d
    requires next == (if OffsetAt(img, Slot(bank, i)) < m then OffsetAt(img, Slot(bank, i)) else m)
    ensures Scan(g, img, bank, i, m) == Scan(g, img, bank, i + 1, next)
  {
    LowestFirst(img, bank, i, n, m, d);
    ScanStep(g, img, bank, i, m, next);
  }

  lemma MountOf(g: Geometry, img: seq<byte>, bank: nat)
    requires g.Ok() && |img| == g.Total() && IsBank(g, bank)
    ensures var r := Scan(g, img, bank, 0, bank + g.Bank());
      MountBank(g, img, bank) == if r.Rows? && ErasedFromTo(img, Slot(bank, r.count), r.start) then r else Broken
  {
  }

  lemma MountedThen(g: Geometry, img: seq<byte>, bank: nat, n: nat, d: nat)
    requires g.Ok() && |img| == g.Total() && IsBank(g, bank) && MountBank(g, img, bank) == Rows(n, d)
    ensures Mounts(g, img, bank, n, d)
  {
    MountOf(g, img, bank);
    ScanFindsLowest(g, img, bank, 0, bank + g.Bank(), n, d);
  }

  lemma MountsThen(g: Geometry, img: seq<byte>, bank: nat, n: nat, d: nat)
    requires g.Ok() && |img| == g.Total() && IsBank(g, bank) && Mounts(g, img, bank, n, d)
    ensures MountBank(g, img, bank) == Rows(n, d)
  {
    LowestIsScanned(g, img, bank, 0, bank + g.Bank(), n, d, Scan(g, img, bank, 0, bank + g.Bank()));
    MountOf(g, img, bank);
  }

  /** A mount accepts a bank exactly if it finds that. */
  lemma MountIff(g: Geometry, img: seq<byte>, bank: nat, n: nat, d: nat)
    requires g.Ok() && |img| == g.Total() && IsBank(g, bank)
    ensures MountBank(g, img, bank) == Rows(n, d) <==> Mounts(g, img, bank, n, d)
  {
    if MountBank(g, img, bank) == Rows(n, d) {
      MountedThen(g, img, bank, n, d);
    }
    if Mounts(g, img, bank, n, d) {
      MountsThen(g, img, bank, n, d);
    }
  }

  lemma MountOfTable(g: Geometry, img: seq<byte>, bank: nat, log: seq<Entry>)
    requires Table(g, img, bank, log)
    ensures MountBank(g, img, bank) == Rows(|log|, bank + g.Bank() - DataBytes(log))
  {
    ScanEnds(g, img, bank, log);
    ScanAll(g, img, img, bank, log, DataStart(g, bank, log), Rows(|log|, DataStart(g, bank, log)));
  }

  /** A bank whose header wins and whose table is `log` is what the next mount finds. */
  lemma RecoveredTable(g: Geometry, img: seq<byte>, bank: nat, log: seq<Entry>)
    requires Table(g, img, bank, log) && PickBank(g, img) == Some(bank)
    ensures Recovered(g, img) == Some(ViewOf(img, log))
  {
    MountOfTable(g, img, bank, log);
    ReadLogOfTable(g, img, bank, log, |log|);
    assert log[..|log|] == log;
  }

  // ---------------------------------------------------------------- writing

  /** The image after programming `src` at `p`. */
  ghost function Program(img: seq<byte>, p: nat, src: seq<byte>): (r: seq<byte>)
    requires p + |src| <= |img|
    ensures |r| == |img|
    ensures forall i :: 0 <= i < |img| ==> r[i] == if p <= i < p + |src| then src[i - p] else img[i]
  {
    img[..p] + src + img[p + |src|..]
  }

  /** The two images hold the same bytes in [lo, hi). */
  ghost predicate SameIn(img: seq<byte>, img': seq<byte>, lo: int, hi: int) {
    |img| == |img'| && forall i :: lo <= i < hi && 0 <= i < |img| ==> img[i] == img'[i]
  }

  lemma SameSlice(img: seq<byte>, img': seq<byte>, lo: nat, hi: nat)
    requires lo <= hi <= |img| && SameIn(img, img', lo, hi)
    ensures img[lo..hi] == img'[lo..hi]
  {
  }

  lemma RowFrame(img: seq<byte>, img': seq<byte>, p: nat, e: Entry)
    requires RowIs(img, p, e) && SameIn(img, img', p, p + ENTRY)
    ensures RowIs(img', p, e)
  {
    SameSlice(img, img', p, p + 16);
    SameSlice(img, img', p + 16, p + 20);
    SameSlice(img, img', p + 20, p + 24);
  }

  lemma HeaderFrame(g: Geometry, img: seq<byte>, img': seq<byte>, b: nat)
    requires g.Ok() && b + HEADER <= |img| && SameIn(img, img', b, b + HEADER)
    ensures HeaderOk(g, img, b) == HeaderOk(g, img', b) && Gen(img, b) == Gen(img', b)
  {
    SameSlice(img, img', b, b + 8);
    SameSlice(img, img', b + 8, b + 12);
    SameSlice(img, img', b + 12, b + 20);
  }

  /** A table is a matter of its own bank's bytes, header aside. */
  lemma TableFrame(g: Geometry, img: seq<byte>, img': seq<byte>, bank: nat, log: seq<Entry>)
    requires Table(g, img, bank, log) && SameIn(img, img', bank + HEADER, bank + g.Bank())
    ensures Table(g, img', bank, log) && ViewOf(img', log) == ViewOf(img, log)
  {
    forall i | 0 <= i < |log|
      ensures RowIs(img', Slot(bank, i), log[i])
    {
      assert RowIs(img, Slot(bank, i), log[i]);
      RowFrame(img, img', Slot(bank, i), log[i]);
    }
    ViewFrame(g, img, img', bank, log);
  }

  lemma EmptyTable(g: Geometry, img: seq<byte>, bank: nat)
    requires g.Ok() && |img| == g.Total() && IsBank(g, bank)
    requires ErasedFromTo(img, bank + HEADER, bank + g.Bank())
    ensures Table(g, img, bank, [])
  {
  }

  function Put(v: View, img: seq<byte>, e: Entry): View {
    if IsLarge(e.key) then v.(large := v.large[e.key := (e.offset, e.size)])
    else v.(small := v.small[e.key := Value(img, e)])
  }

  lemma ViewSnoc(img: seq<byte>, log: seq<Entry>, e: Entry)
    ensures ViewOf(img, log + [e]) == Put(ViewOf(img, log), img, e)
  {
    LatestSnoc(log, e);
    ViewPut(img, Latest(log), e);
  }

  lemma ViewPut(img: seq<byte>, m: map<CString, Entry>, e: Entry)
    ensures ViewOfLatest(img, m[e.key := e]) == Put(ViewOfLatest(img, m), img, e)
  {
    var v, w := ViewOfLatest(img, m[e.key := e]), Put(ViewOfLatest(img, m), img, e);
    SmallPut(img, m, e);
    LargePut(img, m, e);
  }

  lemma SmallPut(img: seq<byte>, m: map<CString, Entry>, e: Entry)
    ensures ViewOfLatest(img, m[e.key := e]).small == Put(ViewOfLatest(img, m), img, e).small
  {
    var v, w := ViewOfLatest(img, m[e.key := e]).small, Put(ViewOfLatest(img, m), img, e).small;
    assert v.Keys == w.Keys;
  }

  lemma LargePut(img: seq<byte>, m: map<CString, Entry>, e: Entry)
    ensures ViewOfLatest(img, m[e.key := e]).large == Put(ViewOfLatest(img, m), img, e).large
  {
    var v, w := ViewOfLatest(img, m[e.key := e]).large, Put(ViewOfLatest(img, m), img, e).large;
    assert v.Keys == w.Keys;
  }

  ghost predicate Fits(g: Geometry, bank: nat, log: seq<Entry>, e: Entry)
    requires g.Ok()
  {
    && EntryOk(e)
    && Weight(log + [e]) <= g.Bank() - HEADER - ENTRY
    && if IsLarge(e.key) then e.offset >= 2 * g.Bank()
       else e.offset == bank + g.Bank() - DataBytes(log + [e])
  }

  lemma {:induction false} DataUpToSnoc(log: seq<Entry>, e: Entry, n: nat)
    requires n <= |log|
    ensures DataUpTo(log + [e], n) == DataUpTo(log, n)
  {
    if n > 0 {
      DataUpToSnoc(log, e, n - 1);
    }
  }

  lemma DataBytesSnoc(log: seq<Entry>, e: Entry)
    ensures DataBytes(log + [e]) == DataBytes(log) + DataWeight(e)
  {
    DataUpToSnoc(log, e, |log|);
  }

  lemma PlacedSnoc(g: Geometry, log: seq<Entry>, bank: nat, e: Entry)
    requires g.Ok() && Placed(g, log, bank) && EntryOk(e)
    requires if IsLarge(e.key) then e.offset >= 2 * g.Bank() else e.offset == bank + g.Bank() - DataBytes(log + [e])
    ensures Placed(g, log + [e], bank)
  {
    var log' := log + [e];
    forall i | 0 <= i < |log'|
      ensures PlacedRow(g, log', bank, i)
    {
      if i < |log| {
        assert PlacedRow(g, log, bank, i);
        DataUpToSnoc(log, e, i + 1);
      }
    }
  }

  lemma RowsSnoc(img: seq<byte>, img': seq<byte>, bank: nat, log: seq<Entry>, e: Entry)
    requires RowsAre(img, bank, log) && EntryOk(e) && Slot(bank, |log| + 1) <= |img|
    requires SameIn(img, img', bank + HEADER, Slot(bank, |log|))
    requires img'[Slot(bank, |log|)..Slot(bank, |log| + 1)] == EntryBytes(e)
    ensures RowsAre(img', bank, log + [e])
  {
    var log' := log + [e];
    ReadOfWritten(img', Slot(bank, |log|), e);
    forall i | 0 <= i < |log'|
      ensures RowIs(img', Slot(bank, i), log'[i])
    {
      if i < |log| {
        assert RowIs(img, Slot(bank, i), log[i]);
        RowFrame(img, img', Slot(bank, i), log[i]);
      }
    }
  }

  /** Writing a value below the others and then its row extends the table by that entry. */
  lemma AppendRow(g: Geometry, img: seq<byte>, img': seq<byte>, bank: nat, log: seq<Entry>, e: Entry)
    requires Table(g, img, bank, log) && Fits(g, bank, log, e)
    requires SameIn(img, img', bank + HEADER, Slot(bank, |log|))
    requires SameIn(img, img', Slot(bank, |log| + 1), bank + g.Bank() - DataBytes(log + [e]))
    requires SameIn(img, img', bank + g.Bank() - DataBytes(log), bank + g.Bank())
    requires Slot(bank, |log| + 1) <= |img|
    requires img'[Slot(bank, |log|)..Slot(bank, |log| + 1)] == EntryBytes(e)
    ensures Table(g, img', bank, log + [e])
  {
    DataBytesSnoc(log, e);
    PlacedSnoc(g, log, bank, e);
    RowsSnoc(img, img', bank, log, e);
  }

  /** ... and what the store holds by that entry's value. */
  lemma AppendView(g: Geometry, img: seq<byte>, img': seq<byte>, bank: nat, log: seq<Entry>, e: Entry)
    requires Table(g, img, bank, log)
    requires SameIn(img, img', bank + g.Bank() - DataBytes(log), bank + g.Bank())
    ensures ViewOf(img', log + [e]) == Put(ViewOf(img, log), img', e)
  {
    ViewFrame(g, img, img', bank, log);
    ViewSnoc(img', log, e);
  }

  // ---------------------------------------------------------------- garbage collection

  /** `a` and `b` stand for the same setting, wherever their values are kept. */
  ghost predicate SameValue(img: seq<byte>, a: Entry, b: Entry) {
    && a.key == b.key && a.size == b.size
    && if IsLarge(a.key) then a.offset == b.offset else Value(img, a) == Value(img, b)
  }

  /** `copied` holds exactly the settings whose last entry is among the first `i` of `log`. */
  ghost predicate Moved(img: seq<byte>, copied: seq<Entry>, log: seq<Entry>, i: nat) {
    && (forall k :: k in Latest(copied) ==>
          0 <= LastIndex(log, k) < i && SameValue(img, Latest(copied)[k], log[LastIndex(log, k)]))
    && (forall k :: 0 <= LastIndex(log, k) < i ==> k in Latest(copied))
  }

  /** The row that stands for `ent` once its value is copied below the `copied` ones of bank `alt`. */
  function Relocated(g: Geometry, alt: nat, copied: seq<Entry>, ent: Entry): Entry
    requires g.Ok()
  {
    if IsLarge(ent.key) then ent
    else
      var off := alt + g.Bank() - DataBytes(copied) - Align(ent.size);
      ent.(offset := if off >= 0 then off else 0)
  }

  /** There is room for a copy of `ent`, and its value lies outside the bank being filled. */
  ghost predicate CanCopy(g: Geometry, img: seq<byte>, alt: nat, copied: seq<Entry>, ent: Entry)
    requires g.Ok()
  {
    && EntryOk(ent)
    && Weight(copied) + EntryWeight(ent) <= g.Bank() - HEADER - ENTRY
    && if IsLarge(ent.key) then ent.offset >= 2 * g.Bank()
       else ent.offset + ent.size <= |img|
            && (ent.offset + ent.size <= alt || alt + g.Bank() <= ent.offset)
  }

  lemma RelocatedFits(g: Geometry, img: seq<byte>, alt: nat, copied: seq<Entry>, ent: Entry)
    requires Table(g, img, alt, copied) && CanCopy(g, img, alt, copied, ent)
    ensures var e := Relocated(g, alt, copied, ent);
            && Fits(g, alt, copied, e)
            && (!IsLarge(ent.key) ==>
                  e.offset == alt + g.Bank() - DataBytes(copied) - Align(ent.size)
                  && Slot(alt, |copied| + 1) <= e.offset)
  {
    DataBytesSnoc(copied, Relocated(g, alt, copied, ent));
  }

  /** The effect of copying one entry: first the value when it is small, then the row. */
  ghost predicate CopyDone(g: Geometry, img: seq<byte>, img1: seq<byte>, img2: seq<byte>,
                           alt: nat, copied: seq<Entry>, ent: Entry, e: Entry)
    requires g.Ok() && EntryOk(e)
  {
    && |img| == |img1| == |img2| == g.Total()
    && e.key == ent.key && e.size == ent.size
    && Slot(alt, |copied| + 1) <= |img|
    && img2 == Program(img1, Slot(alt, |copied|), EntryBytes(e))
    && if IsLarge(ent.key) then img1 == img
       else
         && e.offset == alt + g.Bank() - DataBytes(copied) - Align(ent.size)
         && Slot(alt, |copied| + 1) <= e.offset
         && e.offset + ent.size <= |img| && ent.offset + ent.size <= |img|
         && img1 == Program(img, e.offset, img[ent.offset..ent.offset + ent.size])
  }

  lemma CopyEffect(g: Geometry, img: seq<byte>, img1: seq<byte>, img2: seq<byte>,
                   alt: nat, copied: seq<Entry>, ent: Entry, e: Entry)
    requires Table(g, img, alt, copied) && CanCopy(g, img, alt, copied, ent)
    requires e == Relocated(g, alt, copied, ent) && Fits(g, alt, copied, e)
    requires CopyDone(g, img, img1, img2, alt, copied, ent, e)
    ensures Table(g, img2, alt, copied + [e]) && SameValue(img2, e, ent)
  {
    CopiedSame(g, img, img1, img2, alt, copied, ent, e);
    CopiedTable(g, img, img1, img2, alt, copied, ent, e);
  }

  lemma CopiedTable(g: Geometry, img: seq<byte>, img1: seq<byte>, img2: seq<byte>,
                    alt: nat, copied: seq<Entry>, ent: Entry, e: Entry)
    requires Table(g, img, alt, copied) && Fits(g, alt, copied, e)
    requires CopyDone(g, img, img1, img2, alt, copied, ent, e)
    ensures Table(g, img2, alt, copied + [e])
  {
    DataBytesSnoc(copied, e);
    assert img2[Slot(alt, |copied|)..Slot(alt, |copied| + 1)] == EntryBytes(e);
    AppendRow(g, img, img2, alt, copied, e);
  }

  lemma CopiedSame(g: Geometry, img: seq<byte>, img1: seq<byte>, img2: seq<byte>,
                   alt: nat, copied: seq<Entry>, ent: Entry, e: Entry)
    requires g.Ok() && EntryOk(e) && CopyDone(g, img, img1, img2, alt, copied, ent, e)
    requires IsLarge(ent.key) ==> e == ent
    requires !IsLarge(ent.key) ==> ent.offset + ent.size <= alt || alt + g.Bank() <= ent.offset
    ensures SameValue(img2, e, ent)
  {
    if !IsLarge(ent.key) {
      CopiedValue(img, img1, img2, ent, e, Slot(alt, |copied|), EntryBytes(e));
    }
  }

  lemma CopiedValue(img: seq<byte>, img1: seq<byte>, img2: seq<byte>,
                    ent: Entry, e: Entry, slot: nat, row: seq<byte>)
    requires e.size == ent.size && ent.offset + ent.size <= |img| && e.offset + ent.size <= |img|
    requires slot + |row| <= e.offset && slot + |row| <= |img|
    requires ent.offset + ent.size <= slot || e.offset + ent.size <= ent.offset
    requires img1 == Program(img, e.offset, img[ent.offset..ent.offset + ent.size])
    requires img2 == Program(img1, slot, row)
    ensures Value(img2, e) == Value(img2, ent)
  {
    CopiedRange(img, img1, img2, ent.offset, e.offset, ent.size, slot, row);
  }

  lemma CopiedRange(img: seq<byte>, img1: seq<byte>, img2: seq<byte>,
                    from: nat, to: nat, n: nat, slot: nat, row: seq<byte>)
    requires from + n <= |img| && to + n <= |img| && slot + |row| <= to && slot + |row| <= |img|
    requires from + n <= slot || to + n <= from
    requires img1 == Program(img, to, img[from..from + n]) && img2 == Program(img1, slot, row)
    ensures |img2| == |img| && img2[to..to + n] == img2[from..from + n]
  {
    var a, b := img2[to..to + n], img2[from..from + n];
    forall j | 0 <= j < n
      ensures a[j] == b[j]
    {
      CopiedByte(img, img1, img2, from, to, n, slot, row, j);
    }
  }

  lemma CopiedByte(img: seq<byte>, img1: seq<byte>, img2: seq<byte>,
                   from: nat, to: nat, n: nat, slot: nat, row: seq<byte>, j: nat)
    requires from + n <= |img| && to + n <= |img| && slot + |row| <= to && slot + |row| <= |img| && j < n
    requires from + n <= slot || to + n <= from
    requires img1 == Program(img, to, img[from..from + n]) && img2 == Program(img1, slot, row)
    ensures |img2| == |img| && img2[to + j] == img2[from + j]
  {
    assert img2[to + j] == img1[to + j] == img[from..from + n][j];
    assert img2[from + j] == img1[from + j] == img[from + j];
  }

  predicate HasLaterCopy(log: seq<Entry>, i: nat)
    requires i < |log|
  {
    exists j :: i < j < |log| && log[j].key == log[i].key
  }

  lemma MovedSkip(img: seq<byte>, copied: seq<Entry>, log: seq<Entry>, i: nat)
    requires i < |log| && HasLaterCopy(log, i) && Moved(img, copied, log, i)
    ensures Moved(img, copied, log, i + 1)
  {
    forall k | LastIndex(log, k) == i
      ensures false
    {
      LatestIsLast(log, k);
    }
  }

  lemma MovedCopy(img: seq<byte>, copied: seq<Entry>, log: seq<Entry>, i: nat, e: Entry)
    requires i < |log| && !HasLaterCopy(log, i) && Moved(img, copied, log, i)
    requires SameValue(img, e, log[i])
    ensures Moved(img, copied + [e], log, i + 1)
  {
    LastIndexIs(log, e.key, i);
    LatestSnoc(copied, e);
    forall k | LastIndex(log, k) == i
      ensures k == e.key
    {
      LatestIsLast(log, k);
    }
  }

  lemma MovedFrame(img: seq<byte>, img': seq<byte>, copied: seq<Entry>, log: seq<Entry>, i: nat)
    requires Moved(img, copied, log, i)
    requires forall k :: k in Latest(copied) && !IsLarge(k) ==>
      Value(img', Latest(copied)[k]) == Value(img, Latest(copied)[k])
    requires forall k :: 0 <= LastIndex(log, k) && !IsLarge(k) ==>
      Value(img', log[LastIndex(log, k)]) == Value(img, log[LastIndex(log, k)])
    ensures Moved(img', copied, log, i)
  {
    forall k | k in Latest(copied)
      ensures SameValue(img', Latest(copied)[k], log[LastIndex(log, k)])
    {
      LatestIsLast(copied, k);
    }
  }

  /** Once every entry has been looked at, the copy holds what the log holds. */
  lemma MovedAll(img: seq<byte>, copied: seq<Entry>, log: seq<Entry>)
    requires Moved(img, copied, log, |log|)
    ensures ViewOf(img, copied) == ViewOf(img, log)
  {
    forall k
      ensures k in Latest(copied) <==> k in Latest(log)
      ensures k in Latest(copied) ==> SameValue(img, Latest(copied)[k], Latest(log)[k]) && Latest(log)[k].key == k
    {
      LatestIsLast(log, k);
    }
  }

  // ---------------------------------------------------------------- the whole store

  function OtherBank(g: Geometry, bank: nat): (r: nat)
    requires g.Ok() && IsBank(g, bank)
    ensures IsBank(g, r) && r != bank
  {
    if bank == 0 then g.Bank() else 0
  }

  /** A formatted store: the bank in use outranks the other one. */
  ghost predicate Store(g: Geometry, img: seq<byte>, bank: nat, log: seq<Entry>) {
    && Table(g, img, bank, log)
    && HeaderOk(g, img, bank)
    && var alt := OtherBank(g, bank);
       HeaderOk(g, img, alt) ==> Gen(img, alt) < Gen(img, bank)
  }

  lemma RecoveredStore(g: Geometry, img: seq<byte>, bank: nat, log: seq<Entry>)
    requires Store(g, img, bank, log)
    ensures PickBank(g, img) == Some(bank)
    ensures Recovered(g, img) == Some(ViewOf(img, log))
  {
    RecoveredTable(g, img, bank, log);
  }

  /** Whatever happened to the other bank, while its header is not valid the old bank wins. */
  lemma OldBankSurvives(g: Geometry, img: seq<byte>, img': seq<byte>, bank: nat, log: seq<Entry>)
    requires Store(g, img, bank, log)
    requires SameIn(img, img', bank, bank + g.Bank()) && !HeaderOk(g, img', OtherBank(g, bank))
    ensures Store(g, img', bank, log) && ViewOf(img', log) == ViewOf(img, log)
    ensures Recovered(g, img') == Some(ViewOf(img, log))
  {
    HeaderFrame(g, img, img', bank);
    TableFrame(g, img, img', bank, log);
    RecoveredStore(g, img', bank, log);
  }

  /**
   * The generation counter is 32 bits wide. The bank written by a garbage collection outranks
   * the old one exactly while the old generation is not the largest one.
   */
  lemma NewBankWinsIff(g: Geometry, img: seq<byte>, bank: nat)
    requires g.Ok() && |img| == g.Total() && IsBank(g, bank)
    requires HeaderOk(g, img, bank) && HeaderOk(g, img, OtherBank(g, bank))
    requires Gen(img, OtherBank(g, bank)) == (Gen(img, bank) + 1) % WORD
    ensures PickBank(g, img) == Some(OtherBank(g, bank)) <==> Gen(img, bank) != MAX_GEN
  {
  }

  /** Only bytes in [lo, hi) differ. */
  ghost predicate Confined(img: seq<byte>, img': seq<byte>, lo: int, hi: int) {
    |img| == |img'| && forall i :: 0 <= i < |img| && !(lo <= i < hi) ==> img[i] == img'[i]
  }

  /** A complete copy in the other bank whose header is partly written. */
  ghost predicate HalfHeader(g: Geometry, img: seq<byte>, img1: seq<byte>, img': seq<byte>, bank: nat, k: nat)
    requires g.Ok() && IsBank(g, bank) && k <= HEADER && |img| == |img1| == g.Total()
  {
    && Gen(img, bank) < MAX_GEN
    && SameIn(img, img1, bank, bank + g.Bank()) && SameIn(img, img1, 2 * g.Bank(), |img|)
    && ErasedFromTo(img1, OtherBank(g, bank), OtherBank(g, bank) + HEADER)
    && img' == Program(img1, OtherBank(g, bank), HeaderBytes(g, Gen(img, bank) + 1)[..k])
  }

  lemma HalfHeaderRead(g: Geometry, img: seq<byte>, img1: seq<byte>, img': seq<byte>, bank: nat, k: nat)
    requires g.Ok() && IsBank(g, bank) && k <= HEADER && |img| == |img1| == g.Total()
    requires HalfHeader(g, img, img1, img', bank, k)
    ensures |img'| == |img| && SameIn(img, img', bank, bank + g.Bank()) && SameIn(img, img', 2 * g.Bank(), |img|)
    ensures SameIn(img1, img', OtherBank(g, bank) + HEADER, OtherBank(g, bank) + g.Bank())
    ensures HeaderOk(g, img', bank) == HeaderOk(g, img, bank) && Gen(img', bank) == Gen(img, bank)
    ensures HeaderOk(g, img', OtherBank(g, bank)) <==> k >= 20
    ensures k >= 20 ==> Gen(img', OtherBank(g, bank)) == Gen(img, bank) + 1
  {
    var alt := OtherBank(g, bank);
    var s := HeaderBytes(g, Gen(img, bank) + 1)[..k];
    assert img'[alt..alt + k] == s;
    HeaderPrefix(g, img', alt, Gen(img, bank) + 1, k);
    HeaderFrame(g, img, img', bank);
  }

  /**
   * The image `img'`, left behind by a power cut, holds a store of `v` of at most generation `gen`,
   * and its data pages are those of `img`.
   */
  ghost predicate Survives(g: Geometry, img: seq<byte>, img': seq<byte>, v: View, gen: nat)
    requires g.Ok()
  {
    && |img| == |img'| == g.Total() && SameIn(img, img', 2 * g.Bank(), g.Total())
    && exists b, l {:trigger Store(g, img', b, l)} :: Store(g, img', b, l) && ViewOf(img', l) == v && Gen(img', b) <= gen
  }

  lemma SurvivesIn(g: Geometry, img: seq<byte>, img': seq<byte>, b: nat, l: seq<Entry>, v: View, gen: nat)
    requires g.Ok() && |img| == |img'| == g.Total() && SameIn(img, img', 2 * g.Bank(), g.Total())
    requires Store(g, img', b, l) && ViewOf(img', l) == v && Gen(img', b) <= gen
    ensures Survives(g, img, img', v, gen)
  {
  }

  /** It would be mounted as `v`. */
  lemma SurvivesMount(g: Geometry, img: seq<byte>, img': seq<byte>, v: View, gen: nat)
    requires g.Ok() && Survives(g, img, img', v, gen)
    ensures Recovered(g, img') == Some(v)
  {
    var b, l :| Store(g, img', b, l) && ViewOf(img', l) == v && Gen(img', b) <= gen;
    RecoveredStore(g, img', b, l);
  }

  /**
   * The new bank is complete but for its header. After any number of header bytes the next
   * mount finds the same settings: from the old bank up to byte 19, from the new one after.
   */
  lemma HeaderStep(g: Geometry, img: seq<byte>, img1: seq<byte>, img': seq<byte>,
                   bank: nat, log: seq<Entry>, copied: seq<Entry>, k: nat)
    requires Store(g, img, bank, log) && k <= HEADER && |img1| == |img|
    requires HalfHeader(g, img, img1, img', bank, k)
    requires Table(g, img1, OtherBank(g, bank), copied) && ViewOf(img1, copied) == ViewOf(img, log)
    ensures Survives(g, img, img', ViewOf(img, log), Gen(img, bank) + 1)
    ensures k >= 20 ==> Store(g, img', OtherBank(g, bank), copied) && ViewOf(img', copied) == ViewOf(img, log)
                        && Gen(img', OtherBank(g, bank)) == Gen(img, bank) + 1
  {
    HalfHeaderRead(g, img, img1, img', bank, k);
    if k < 20 {
      OldBankSurvives(g, img, img', bank, log);
      SurvivesIn(g, img, img', bank, log, ViewOf(img, log), Gen(img, bank) + 1);
    } else {
      TableFrame(g, img1, img', OtherBank(g, bank), copied);
      SurvivesIn(g, img, img', OtherBank(g, bank), copied, ViewOf(img, log), Gen(img, bank) + 1);
    }
  }

  // ---------------------------------------------------------------- one collection

  ghost predicate NoDuplicates(log: seq<Entry>) {
    forall i :: 0 <= i < |log| ==> !HasLaterCopy(log, i)
  }

  /** A collection of the store `img` has looked at `i` entries and reached the image `now`. */
  ghost predicate Copying(g: Geometry, img: seq<byte>, now: seq<byte>, bank: nat,
                          log: seq<Entry>, copied: seq<Entry>, i: nat)
    requires g.Ok() && IsBank(g, bank) && i <= |log|
  {
    var alt := OtherBank(g, bank);
    && SameIn(img, now, bank, bank + g.Bank()) && SameIn(img, now, 2 * g.Bank(), |img|)
    && ErasedFromTo0(now, alt, alt + HEADER)
    && Table(g, now, alt, copied)
    && Moved(now, copied, log, i)
    && Weight(copied) <= WeightUpTo(log, i)
    && NoDuplicates(copied)
  }

  ghost predicate ErasedFromTo0(img: seq<byte>, lo: nat, hi: nat) {
    hi <= |img| && ErasedFromTo(img, lo, hi)
  }

  function WeightUpTo(log: seq<Entry>, n: nat): nat
    requires n <= |log|
  {
    ENTRY * n + DataUpTo(log, n)
  }

  lemma WeightStep(log: seq<Entry>, i: nat)
    requires i < |log|
    ensures WeightUpTo(log, i + 1) == WeightUpTo(log, i) + EntryWeight(log[i])
    ensures WeightUpTo(log, i + 1) <= Weight(log)
  {
    DataMono(log, i + 1, |log|);
  }

  lemma CopyingStart(g: Geometry, img: seq<byte>, now: seq<byte>, bank: nat, log: seq<Entry>)
    requires Table(g, img, bank, log) && SameIn(img, now, bank, bank + g.Bank())
    requires SameIn(img, now, 2 * g.Bank(), |img|)
    requires |now| == |img| && ErasedFromTo(now, OtherBank(g, bank), OtherBank(g, bank) + g.Bank())
    ensures Copying(g, img, now, bank, log, [], 0)
  {
    EmptyTable(g, now, OtherBank(g, bank));
  }

  lemma CopyingSkip(g: Geometry, img: seq<byte>, now: seq<byte>, bank: nat,
                    log: seq<Entry>, copied: seq<Entry>, i: nat)
    requires Table(g, img, bank, log) && i < |log| && Copying(g, img, now, bank, log, copied, i)
    requires HasLaterCopy(log, i)
    ensures Copying(g, img, now, bank, log, copied, i + 1)
  {
    MovedSkip(now, copied, log, i);
    WeightStep(log, i);
  }

  /**
   * Copying `ent` turned `img` into `img2`: its value, when it is small, went just below
   * `dstData`, giving `img1`, and the row `e` went to `dstE`.
   */
  ghost predicate EntryCopied(img: seq<byte>, img1: seq<byte>, img2: seq<byte>,
                              dstE: nat, dstData: nat, ent: Entry, e: Entry, data': nat)
  {
    && EntryOk(e) && data' + DataWeight(ent) == dstData
    && |img1| == |img| == |img2| && dstE + ENTRY <= |img| && data' + DataWeight(ent) <= |img|
    && img2 == Program(img1, dstE, EntryBytes(e))
    && (if IsLarge(ent.key) then e == ent && img1 == img
        else
          && e == ent.(offset := data')
          && ent.offset + ent.size <= |img|
          && img1 == Program(img, data', img[ent.offset..ent.offset + ent.size]))
    && Confined(img, img2, dstE, dstData)
  }

  lemma EntryCopiedDone(g: Geometry, img: seq<byte>, img1: seq<byte>, img2: seq<byte>,
                        alt: nat, copied: seq<Entry>, ent: Entry, e: Entry, data': nat)
    requires g.Ok() && |img| == g.Total() && DataBytes(copied) <= alt + g.Bank()
    requires EntryCopied(img, img1, img2, Slot(alt, |copied|), alt + g.Bank() - DataBytes(copied), ent, e, data')
    requires Slot(alt, |copied|) + EntryWeight(ent) <= alt + g.Bank() - DataBytes(copied)
    ensures e == Relocated(g, alt, copied, ent)
    ensures CopyDone(g, img, img1, img2, alt, copied, ent, e)
  {
  }

  /** A live entry always fits into the bank being filled. */
  lemma CopyingFits(g: Geometry, img: seq<byte>, now: seq<byte>, bank: nat,
                    log: seq<Entry>, copied: seq<Entry>, i: nat)
    requires Table(g, img, bank, log) && i < |log| && Copying(g, img, now, bank, log, copied, i)
    ensures CanCopy(g, now, OtherBank(g, bank), copied, log[i])
    ensures EntryOk(log[i]) && (!IsLarge(log[i].key) ==> log[i].offset + log[i].size <= |now|)
    ensures Slot(OtherBank(g, bank), |copied|) + EntryWeight(log[i])
         <= OtherBank(g, bank) + g.Bank() - DataBytes(copied)
    ensures ErasedFromTo0(now, Slot(OtherBank(g, bank), |copied|), OtherBank(g, bank) + g.Bank() - DataBytes(copied))
  {
    WeightStep(log, i);
    TableEntry(g, img, bank, log, i);
  }

  lemma ValuesKept(g: Geometry, img: seq<byte>, img': seq<byte>, bank: nat, log: seq<Entry>)
    requires g.Ok() && Placed(g, log, bank) && DataBytes(log) <= bank + g.Bank() <= |img|
    requires SameIn(img, img', bank + g.Bank() - DataBytes(log), bank + g.Bank())
    ensures forall k :: k in Latest(log) && !IsLarge(k) ==> Value(img', Latest(log)[k]) == Value(img, Latest(log)[k])
  {
    forall k | k in Latest(log) && !IsLarge(k)
      ensures Value(img', Latest(log)[k]) == Value(img, Latest(log)[k])
    {
      LatestOk(g, log, bank, k);
    }
  }

  /** Copying one entry keeps every value that is already accounted for. */
  lemma MovedKept(g: Geometry, img: seq<byte>, now: seq<byte>, now2: seq<byte>, bank: nat,
                  log: seq<Entry>, copied: seq<Entry>, i: nat)
    requires Table(g, img, bank, log) && Table(g, now, OtherBank(g, bank), copied) && i <= |log|
    requires Confined(now, now2, Slot(OtherBank(g, bank), |copied|), OtherBank(g, bank) + g.Bank() - DataBytes(copied))
    requires Moved(now, copied, log, i)
    ensures Moved(now2, copied, log, i)
  {
    ValuesKept(g, now, now2, OtherBank(g, bank), copied);
    ValuesKept(g, now, now2, bank, log);
    forall k | 0 <= LastIndex(log, k) && !IsLarge(k)
      ensures Value(now2, log[LastIndex(log, k)]) == Value(now, log[LastIndex(log, k)])
    {
      LatestIsLast(log, k);
    }
    MovedFrame(now, now2, copied, log, i);
  }

  lemma NoDuplicatesSnoc(img: seq<byte>, log: seq<Entry>, copied: seq<Entry>, i: nat, e: Entry)
    requires i < |log| && !HasLaterCopy(log, i) && Moved(img, copied, log, i) && e.key == log[i].key
    requires NoDuplicates(copied)
    ensures NoDuplicates(copied + [e])
  {
    LastIndexIs(log, e.key, i);
    LatestIsLast(copied, e.key);
    var copied' := copied + [e];
    forall j | 0 <= j < |copied'|
      ensures !HasLaterCopy(copied', j)
    {
      if j < |copied| {
        assert !HasLaterCopy(copied, j);
        assert copied'[j].key != e.key;
      }
    }
  }

  lemma CopyingOne(g: Geometry, img: seq<byte>, now: seq<byte>, now1: seq<byte>, now2: seq<byte>, bank: nat,
                   log: seq<Entry>, copied: seq<Entry>, i: nat, e: Entry, data': nat)
    requires Table(g, img, bank, log) && i < |log| && Copying(g, img, now, bank, log, copied, i)
    requires !HasLaterCopy(log, i)
    requires DataBytes(copied) <= OtherBank(g, bank) + g.Bank()
    requires EntryCopied(now, now1, now2, Slot(OtherBank(g, bank), |copied|),
                         OtherBank(g, bank) + g.Bank() - DataBytes(copied), log[i], e, data')
    ensures Copying(g, img, now2, bank, log, copied + [e], i + 1)
    ensures data' == OtherBank(g, bank) + g.Bank() - DataBytes(copied + [e])
  {
    var alt := OtherBank(g, bank);
    CopyingFrame(g, img, now, now2, bank, Slot(alt, |copied|), alt + g.Bank() - DataBytes(copied));
    CopyingBank(g, img, now, now1, now2, bank, log, copied, i, e, data');
    CopyingMap(g, img, now, now1, now2, bank, log, copied, i, e, data');
    WeightStep(log, i);
    DataBytesSnoc(copied, e);
  }

  /** It changes nothing but the bank being filled, behind its header. */
  lemma CopyingFrame(g: Geometry, img: seq<byte>, now: seq<byte>, now2: seq<byte>, bank: nat, dstE: nat, dstData: nat)
    requires g.Ok() && IsBank(g, bank) && |img| == |now| == g.Total() && Confined(now, now2, dstE, dstData)
    requires dstE >= OtherBank(g, bank) + HEADER && dstData <= OtherBank(g, bank) + g.Bank()
    requires SameIn(img, now, bank, bank + g.Bank()) && SameIn(img, now, 2 * g.Bank(), |img|)
    requires ErasedFromTo0(now, OtherBank(g, bank), OtherBank(g, bank) + HEADER)
    ensures |now2| == |img| && SameIn(img, now2, bank, bank + g.Bank()) && SameIn(img, now2, 2 * g.Bank(), |img|)
    ensures ErasedFromTo0(now2, OtherBank(g, bank), OtherBank(g, bank) + HEADER)
  {
  }

  /** What it does to the table being filled. */
  lemma CopyingBank(g: Geometry, img: seq<byte>, now: seq<byte>, now1: seq<byte>, now2: seq<byte>, bank: nat,
                   log: seq<Entry>, copied: seq<Entry>, i: nat, e: Entry, data': nat)
    requires Table(g, img, bank, log) && i < |log| && Copying(g, img, now, bank, log, copied, i)
    requires !HasLaterCopy(log, i)
    requires DataBytes(copied) <= OtherBank(g, bank) + g.Bank()
    requires EntryCopied(now, now1, now2, Slot(OtherBank(g, bank), |copied|),
                         OtherBank(g, bank) + g.Bank() - DataBytes(copied), log[i], e, data')
    ensures e.key == log[i].key && DataWeight(e) == DataWeight(log[i])
    ensures Table(g, now2, OtherBank(g, bank), copied + [e])
  {
    CopyingFits(g, img, now, bank, log, copied, i);
    EntryCopiedDone(g, now, now1, now2, OtherBank(g, bank), copied, log[i], e, data');
    RelocatedFits(g, now, OtherBank(g, bank), copied, log[i]);
    CopyEffect(g, now, now1, now2, OtherBank(g, bank), copied, log[i], e);
  }

  /** What it does to the settings copied so far. */
  lemma CopyingMap(g: Geometry, img: seq<byte>, now: seq<byte>, now1: seq<byte>, now2: seq<byte>, bank: nat,
                   log: seq<Entry>, copied: seq<Entry>, i: nat, e: Entry, data': nat)
    requires Table(g, img, bank, log) && i < |log| && Copying(g, img, now, bank, log, copied, i)
    requires !HasLaterCopy(log, i)
    requires DataBytes(copied) <= OtherBank(g, bank) + g.Bank()
    requires EntryCopied(now, now1, now2, Slot(OtherBank(g, bank), |copied|),
                         OtherBank(g, bank) + g.Bank() - DataBytes(copied), log[i], e, data')
    ensures Moved(now2, copied + [e], log, i + 1) && NoDuplicates(copied + [e])
  {
    CopyingFits(g, img, now, bank, log, copied, i);
    EntryCopiedDone(g, now, now1, now2, OtherBank(g, bank), copied, log[i], e, data');
    RelocatedFits(g, now, OtherBank(g, bank), copied, log[i]);
    CopyEffect(g, now, now1, now2, OtherBank(g, bank), copied, log[i], e);
    MovedKept(g, img, now, now2, bank, log, copied, i);
    MovedCopy(now2, copied, log, i, e);
    NoDuplicatesSnoc(now, log, copied, i, e);
  }

  /** `now` has the bank `b` of `img` untouched and no valid header in the other bank. */
  ghost predicate Held(g: Geometry, img: seq<byte>, now: seq<byte>, b: nat)
    requires g.Ok() && IsBank(g, b) && |img| == g.Total()
  {
    && |now| == |img|
    && SameIn(img, now, b, b + g.Bank()) && SameIn(img, now, 2 * g.Bank(), |img|)
    && !HeaderOk(g, now, OtherBank(g, b))
  }

  lemma ErasedHeader(g: Geometry, img: seq<byte>, b: nat)
    requires g.Ok() && b + HEADER <= |img| && ErasedFromTo(img, b, b + HEADER)
    ensures !HeaderOk(g, img, b)
  {
    assert img[b + 12..b + 20][7] == ERASED;
  }

  lemma HeldConfined(g: Geometry, img: seq<byte>, now: seq<byte>, later: seq<byte>, b: nat)
    requires g.Ok() && IsBank(g, b) && |img| == g.Total() && |now| == |img|
    requires SameIn(img, now, b, b + g.Bank()) && SameIn(img, now, 2 * g.Bank(), |img|)
    requires ErasedFromTo(now, OtherBank(g, b), OtherBank(g, b) + HEADER)
    requires Confined(now, later, OtherBank(g, b) + HEADER, OtherBank(g, b) + g.Bank())
    ensures Held(g, img, later, b)
  {
    ErasedHeader(g, later, OtherBank(g, b));
  }

  /** The images `imgs` follow `img1` while the header of its other bank is written. */
  ghost predicate HeaderTrace(g: Geometry, img1: seq<byte>, imgs: seq<seq<byte>>, alt: nat, gen: nat)
    requires g.Ok() && gen < WORD && alt + HEADER <= |img1|
  {
    |imgs| == HEADER && forall k :: 0 <= k < HEADER ==> imgs[k] == Program(img1, alt, HeaderBytes(g, gen)[..k + 1])
  }

  /** Once the copy is finished, every image up to the complete header holds the same settings. */
  lemma CommitSteps(g: Geometry, img: seq<byte>, img1: seq<byte>, imgs: seq<seq<byte>>,
                    bank: nat, alt: nat, gen: nat, log: seq<Entry>, copied: seq<Entry>)
    requires Store(g, img, bank, log) && gen == Gen(img, bank) + 1 < WORD && |img1| == |img|
    requires alt == OtherBank(g, bank) && Copying(g, img, img1, bank, log, copied, |log|)
    requires HeaderTrace(g, img1, imgs, alt, gen)
    ensures AllRecover(g, img, imgs, ViewOf(img, log), gen)
    ensures Store(g, imgs[HEADER - 1], alt, copied) && Gen(imgs[HEADER - 1], alt) == gen
    ensures ViewOf(imgs[HEADER - 1], copied) == ViewOf(img, log)
  {
    MovedAll(img1, copied, log);
    TableFrame(g, img, img1, bank, log);
    forall k | 0 <= k < HEADER
      ensures Survives(g, img, imgs[k], ViewOf(img, log), gen)
    {
      HeaderStep(g, img, img1, imgs[k], bank, log, copied, k + 1);
    }
    HeaderStep(g, img, img1, imgs[HEADER - 1], bank, log, copied, HEADER);
  }

  /** Each of the images, left behind by a power cut, holds `v`. */
  ghost predicate AllRecover(g: Geometry, img: seq<byte>, imgs: seq<seq<byte>>, v: View, gen: nat)
    requires g.Ok()
  {
    forall k :: 0 <= k < |imgs| ==> Survives(g, img, imgs[k], v, gen)
  }

  lemma AllRecoverOn(g: Geometry, img: seq<byte>, a: seq<seq<byte>>, m: seq<seq<byte>>, z: seq<seq<byte>>, v: View, gen: nat)
    requires g.Ok() && a <= m <= z && AllRecover(g, img, m[|a|..], v, gen) && AllRecover(g, img, z[|m|..], v, gen)
    ensures AllRecover(g, img, z[|a|..], v, gen)
  {
    assert z[|a|..] == m[|a|..] + z[|m|..];
  }

  lemma AllRecoverLater(g: Geometry, img: seq<byte>, imgs: seq<seq<byte>>, v: View, gen: nat, gen': nat)
    requires g.Ok() && AllRecover(g, img, imgs, v, gen) && gen <= gen'
    ensures AllRecover(g, img, imgs, v, gen')
  {
    forall k | 0 <= k < |imgs|
      ensures Survives(g, img, imgs[k], v, gen')
    {
      assert Survives(g, img, imgs[k], v, gen);
      var b, l :| Store(g, imgs[k], b, l) && ViewOf(imgs[k], l) == v && Gen(imgs[k], b) <= gen;
      SurvivesIn(g, img, imgs[k], b, l, v, gen');
    }
  }

  ghost predicate AllHeld(g: Geometry, img: seq<byte>, imgs: seq<seq<byte>>, b: nat)
    requires g.Ok() && IsBank(g, b) && |img| == g.Total()
  {
    forall k :: 0 <= k < |imgs| ==> Held(g, img, imgs[k], b)
  }

  lemma AllHeldOn(g: Geometry, img: seq<byte>, a: seq<seq<byte>>, m: seq<seq<byte>>, z: seq<seq<byte>>, b: nat)
    requires g.Ok() && IsBank(g, b) && |img| == g.Total()
    requires a <= m <= z && AllHeld(g, img, m[|a|..], b) && AllHeld(g, img, z[|m|..], b)
    ensures AllHeld(g, img, z[|a|..], b)
  {
    assert z[|a|..] == m[|a|..] + z[|m|..];
  }

  lemma HeldSurvives(g: Geometry, img: seq<byte>, now: seq<byte>, b: nat, log: seq<Entry>)
    requires Store(g, img, b, log) && Held(g, img, now, b)
    ensures Survives(g, img, now, ViewOf(img, log), Gen(img, b))
  {
    OldBankSurvives(g, img, now, b, log);
    HeaderFrame(g, img, now, b);
    SurvivesIn(g, img, now, b, log, ViewOf(img, log), Gen(img, b));
  }

  /** While the old bank is held, a power cut is harmless. */
  lemma HeldRecovers(g: Geometry, img: seq<byte>, imgs: seq<seq<byte>>, b: nat, log: seq<Entry>)
    requires Store(g, img, b, log) && AllHeld(g, img, imgs, b)
    ensures AllRecover(g, img, imgs, ViewOf(img, log), Gen(img, b))
  {
    forall k | 0 <= k < |imgs|
      ensures Survives(g, img, imgs[k], ViewOf(img, log), Gen(img, b))
    {
      assert Held(g, img, imgs[k], b);
      HeldSurvives(g, img, imgs[k], b, log);
    }
  }

  // ---------------------------------------------------------------- adding one setting

  /** The value `val` was programmed at `e.offset` (none for a large entry), and then the row of `e`. */
  ghost predicate EntryAdded(img: seq<byte>, img1: seq<byte>, img2: seq<byte>, slot: nat, e: Entry, val: seq<byte>)
  {
    && EntryOk(e) && |img1| == |img| == |img2| && slot + ENTRY <= |img|
    && img2 == Program(img1, slot, EntryBytes(e))
    && if IsLarge(e.key) then img1 == img
       else slot + ENTRY <= e.offset && e.size == |val| && e.offset + |val| <= |img|
            && img1 == Program(img, e.offset, val)
  }

  /** Room for a small setting: its value goes right below the others. */
  lemma RoomFits(g: Geometry, img: seq<byte>, bank: nat, log: seq<Entry>, e: Entry)
    requires Table(g, img, bank, log) && |e.key| <= KEYSIZE && !IsLarge(e.key) && e.size < WORD
    requires Weight(log) + EntryWeight(e) <= g.Bank() - HEADER - ENTRY
    requires e.offset == bank + g.Bank() - DataBytes(log) - Align(e.size)
    ensures Fits(g, bank, log, e) && Slot(bank, |log| + 1) <= e.offset
    ensures e.offset + e.size <= bank + g.Bank() - DataBytes(log) <= |img|
    ensures ErasedFromTo(img, Slot(bank, |log|), e.offset + e.size)
  {
    DataBytesSnoc(log, e);
  }

  lemma AddedTable(g: Geometry, img: seq<byte>, img1: seq<byte>, img2: seq<byte>,
                   bank: nat, log: seq<Entry>, e: Entry, val: seq<byte>)
    requires Table(g, img, bank, log) && Fits(g, bank, log, e)
    requires EntryAdded(img, img1, img2, Slot(bank, |log|), e, val)
    ensures Table(g, img2, bank, log + [e])
    ensures Confined(img, img2, Slot(bank, |log|), bank + g.Bank() - DataBytes(log))
  {
    DataBytesSnoc(log, e);
    assert img2[Slot(bank, |log|)..Slot(bank, |log| + 1)] == EntryBytes(e);
    AppendRow(g, img, img2, bank, log, e);
  }

  lemma AddedValue(img: seq<byte>, img1: seq<byte>, img2: seq<byte>, slot: nat, e: Entry, val: seq<byte>)
    requires !IsLarge(e.key) && EntryAdded(img, img1, img2, slot, e, val)
    ensures Value(img2, e) == val
  {
    var v := Value(img2, e);
    forall j | 0 <= j < |val|
      ensures v[j] == val[j]
    {
      assert v[j] == img2[e.offset + j] == img1[e.offset + j];
    }
  }

  /** Adding a setting to a store adds exactly that setting. */
  lemma AddedStore(g: Geometry, img: seq<byte>, img1: seq<byte>, img2: seq<byte>,
                   bank: nat, log: seq<Entry>, e: Entry, val: seq<byte>)
    requires Store(g, img, bank, log) && Fits(g, bank, log, e)
    requires EntryAdded(img, img1, img2, Slot(bank, |log|), e, val)
    ensures Store(g, img2, bank, log + [e]) && Gen(img2, bank) == Gen(img, bank)
    ensures ViewOf(img2, log + [e]) == Added(ViewOf(img, log), e, val)
    ensures Confined(img, img2, bank, bank + g.Bank())
  {
    AddedTable(g, img, img1, img2, bank, log, e, val);
    HeaderFrame(g, img, img2, bank);
    HeaderFrame(g, img, img2, OtherBank(g, bank));
    AppendView(g, img, img2, bank, log, e);
    if !IsLarge(e.key) {
      AddedValue(img, img1, img2, Slot(bank, |log|), e, val);
    }
  }

  function Added(v: View, e: Entry, val: seq<byte>): View {
    if IsLarge(e.key) then v.(large := v.large[e.key := (e.offset, e.size)])
    else v.(small := v.small[e.key := val])
  }

  lemma PickSame(g: Geometry, img: seq<byte>, img1: seq<byte>, bank: nat)
    requires g.Ok() && |img| == g.Total() && PickBank(g, img) == Some(bank)
    requires Confined(img, img1, bank + HEADER, bank + g.Bank())
    ensures PickBank(g, img1) == Some(bank)
  {
    HeaderFrame(g, img, img1, 0);
    HeaderFrame(g, img, img1, g.Bank());
  }

  /** A byte that is not erased between the rows and the values makes a bank unmountable. */
  lemma MountBroken(g: Geometry, img: seq<byte>, img1: seq<byte>, bank: nat, n: nat, d: nat, p: nat)
    requires g.Ok() && |img| == g.Total() && IsBank(g, bank) && MountBank(g, img, bank) == Rows(n, d)
    requires Slot(bank, n + 1) <= p < d <= |img| && SameIn(img, img1, bank, Slot(bank, n + 1)) && img1[p] != ERASED
    ensures MountBank(g, img1, bank) == Broken
  {
    ScanSame(g, img, img1, bank, n, 0, bank + g.Bank());
    assert !ErasedFromTo(img1, Slot(bank, n), d);
  }

  lemma SameOffset(img: seq<byte>, img': seq<byte>, bank: nat, n: nat, i: nat)
    requires i <= n && Slot(bank, n + 1) <= |img| == |img'| && SameIn(img, img', bank, Slot(bank, n + 1))
    ensures Slot(bank, i) + ENTRY <= |img| && OffsetAt(img', Slot(bank, i)) == OffsetAt(img, Slot(bank, i))
  {
    SameSlice(img, img', Slot(bank, i) + 16, Slot(bank, i) + 20);
  }

  /** The scan reads nothing but rows, up to and including the first erased one. */
  lemma {:induction false} ScanSame(g: Geometry, img: seq<byte>, img': seq<byte>, bank: nat, n: nat, i: nat, m: nat)
    requires g.Ok() && |img| == |img'| == g.Total() && IsBank(g, bank) && i <= n
    requires SameIn(img, img', bank, Slot(bank, n + 1))
    requires Scan(g, img, bank, i, m).Rows? && Scan(g, img, bank, i, m).count == n
    ensures Scan(g, img', bank, i, m) == Scan(g, img, bank, i, m)
    decreases n - i
  {
    SameOffset(img, img', bank, n, i);
    var off := OffsetAt(img, Slot(bank, i));
    if off != WORD - 1 {
      var low := if off < m then off else m;
      assert Scan(g, img, bank, i, m) == Scan(g, img, bank, i + 1, low);
      ScanSame(g, img, img', bank, n, i + 1, low);
    }
  }

  /** The data pages are no part of what a store's banks mean. */
  lemma StoreFrame(g: Geometry, img: seq<byte>, img': seq<byte>, bank: nat, log: seq<Entry>)
    requires Store(g, img, bank, log) && SameIn(img, img', 0, 2 * g.Bank())
    ensures Store(g, img', bank, log) && ViewOf(img', log) == ViewOf(img, log)
    ensures Gen(img', bank) == Gen(img, bank)
  {
    HeaderFrame(g, img, img', bank);
    HeaderFrame(g, img, img', OtherBank(g, bank));
    TableFrame(g, img, img', bank, log);
  }

  /** Room for the row of a large blob. */
  lemma RowFits(g: Geometry, img: seq<byte>, bank: nat, log: seq<Entry>, e: Entry)
    requires Table(g, img, bank, log) && EntryOk(e) && IsLarge(e.key) && e.offset >= 2 * g.Bank()
    requires Weight(log) + ENTRY <= g.Bank() - HEADER - ENTRY
    ensures Fits(g, bank, log, e) && Slot(bank, |log| + 1) <= bank + g.Bank() - DataBytes(log) <= |img|
    ensures ErasedFromTo0(img, Slot(bank, |log|), Slot(bank, |log| + 1))
  {
    DataBytesSnoc(log, e);
  }
}
