/**
 * The log-structured settings store of source/jd_fstor.c: key/value settings in two flash
 * banks with copying garbage collection, and page-granular large blobs. Flash bytes live in
 * `mem`; `log` is the entry table in use and `trace` the flash image after every single
 * change, which is what a power cut could leave behind.
 */
module FStore {
  import opened Bytes
  import opened FlashImage
  import Cuts = FlashCuts
  import opened LiveWeight

  const KEY_ERROR := -1
  const NOT_FOUND := -2
  const TOO_LARGE := -2
  const NO_SPACE := -3
  const STAR: byte := 42

  /** First data page and number of data pages of a large blob. */
  ghost function RunStart(g: Geometry, b: (nat, nat)): int
    requires g.Ok()
  {
    g.PageOf(b.0)
  }

  ghost predicate BlobOk(g: Geometry, b: (nat, nat))
    requires g.Ok()
  {
    && b.1 < WORD && 1 <= g.NumPages(b.1)
    && 0 <= RunStart(g, b) && RunStart(g, b) + g.NumPages(b.1) <= g.DataPages()
    && b.0 == g.PageAddr(RunStart(g, b))
  }

  ghost predicate Apart(g: Geometry, b: (nat, nat), c: (nat, nat))
    requires g.Ok()
  {
    RunStart(g, b) + g.NumPages(b.1) <= RunStart(g, c) || RunStart(g, c) + g.NumPages(c.1) <= RunStart(g, b)
  }

  /** Large blobs lie in pairwise disjoint runs of data pages. */
  ghost predicate LargesOk(g: Geometry, large: map<CString, (nat, nat)>)
    requires g.Ok()
  {
    && (forall k :: k in large ==> BlobOk(g, large[k]))
    && (forall k, l :: k in large && l in large && k != l ==> Apart(g, large[k], large[l]))
  }

  ghost predicate InRun(g: Geometry, b: (nat, nat), p: int)
    requires g.Ok()
  {
    RunStart(g, b) <= p < RunStart(g, b) + g.NumPages(b.1)
  }

  /** Every page of every blob is marked as used. */
  ghost predicate Covers(g: Geometry, used: seq<bool>, large: map<CString, (nat, nat)>)
    requires g.Ok() && |used| == g.DataPages()
  {
    forall k, p :: k in large && 0 <= p < |used| && InRun(g, large[k], p) ==> used[p]
  }

  function KeyOk(key: Option<CString>): bool {
    key.Some? && |key.value| <= KEYSIZE && !IsLarge(key.value)
  }

  function LargeKeyOk(key: Option<CString>): bool {
    key.Some? && |key.value| <= KEYSIZE && IsLarge(key.value)
  }

  function Blob(e: Entry): (nat, nat) {
    (e.offset, e.size)
  }

  /** The large entries among the first `i` that no later entry replaces use page `p`. */
  ghost predicate UsedByFirst(g: Geometry, log: seq<Entry>, i: nat, p: int)
    requires g.Ok() && i <= |log|
  {
    exists j :: 0 <= j < i && IsLarge(log[j].key) && !HasLaterCopy(log, j) && InRun(g, Blob(log[j]), p)
  }

  lemma UsedByNext(g: Geometry, log: seq<Entry>, i: nat, p: int)
    requires g.Ok() && i < |log|
    ensures UsedByFirst(g, log, i + 1, p) <==>
      UsedByFirst(g, log, i, p) || (IsLarge(log[i].key) && !HasLaterCopy(log, i) && InRun(g, Blob(log[i]), p))
  {
  }

  ghost predicate UsedBy(g: Geometry, large: map<CString, (nat, nat)>, p: int)
    requires g.Ok()
  {
    exists k :: k in large && InRun(g, large[k], p)
  }

  /** The marks that mounting sets. */
  ghost function AllUsed(g: Geometry, large: map<CString, (nat, nat)>): (m: seq<bool>)
    requires g.Ok()
    ensures |m| == g.DataPages() && forall p :: 0 <= p < |m| ==> (m[p] <==> UsedBy(g, large, p))
  {
    seq(g.DataPages(), p requires 0 <= p < g.DataPages() => UsedBy(g, large, p))
  }

  lemma LiveIsLatest(img: seq<byte>, log: seq<Entry>, j: nat)
    requires j < |log| && !HasLaterCopy(log, j)
    ensures log[j].key in Latest(log) && Latest(log)[log[j].key] == log[j]
    ensures IsLarge(log[j].key) ==>
      log[j].key in ViewOf(img, log).large && ViewOf(img, log).large[log[j].key] == Blob(log[j])
  {
    LastIndexIs(log, log[j].key, j);
    LatestIsLast(log, log[j].key);
  }

  /** What the latest entry of a key tells about what the store holds. */
  lemma InView(img: seq<byte>, log: seq<Entry>, key: CString)
    ensures var v := ViewOf(img, log);
      if key !in Latest(log) then key !in v.small && key !in v.large
      else if IsLarge(key) then key in v.large && v.large[key] == Blob(Latest(log)[key])
      else key in v.small && v.small[key] == Value(img, Latest(log)[key])
  {
  }

  lemma UsedByAll(g: Geometry, img: seq<byte>, log: seq<Entry>, p: int)
    requires g.Ok()
    ensures UsedByFirst(g, log, |log|, p) <==> UsedBy(g, ViewOf(img, log).large, p)
  {
    var large := ViewOf(img, log).large;
    if UsedByFirst(g, log, |log|, p) {
      var j :| 0 <= j < |log| && IsLarge(log[j].key) && !HasLaterCopy(log, j) && InRun(g, Blob(log[j]), p);
      LiveIsLatest(img, log, j);
      assert InRun(g, large[log[j].key], p);
    }
    if UsedBy(g, large, p) {
      var k :| k in large && InRun(g, large[k], p);
      LatestIsLast(log, k);
      var j := LastIndex(log, k);
      assert !HasLaterCopy(log, j) && InRun(g, Blob(log[j]), p);
    }
  }

  /** A start `s` from which `n` data pages in a row are free. */
  ghost predicate FreeFrom(used: seq<bool>, s: nat, n: nat) {
    s + n <= |used| && forall p :: s <= p < s + n ==> !used[p]
  }

  /** Some run of `n` free pages that is tried: the one that ends at the last page is not. */
  ghost predicate HasRun(used: seq<bool>, n: nat) {
    exists s {:trigger FreeFrom(used, s, n)} :: 0 <= s && s + n < |used| && FreeFrom(used, s, n)
  }

  /** The marks without those of the blob of `key`. */
  ghost function Unmarked(g: Geometry, used: seq<bool>, large: map<CString, (nat, nat)>, key: CString): (r: seq<bool>)
    requires g.Ok()
    ensures |r| == |used|
    ensures forall p :: 0 <= p < |used| ==> r[p] == (used[p] && !(key in large && InRun(g, large[key], p)))
  {
    seq(|used|, p requires 0 <= p < |used| => used[p] && !(key in large && InRun(g, large[key], p)))
  }

  /** The marks with those of a blob. */
  ghost function WithRun(g: Geometry, used: seq<bool>, b: (nat, nat)): (r: seq<bool>)
    requires g.Ok()
    ensures |r| == |used|
    ensures forall p :: 0 <= p < |used| ==> r[p] == (used[p] || InRun(g, b, p))
  {
    seq(|used|, p requires 0 <= p < |used| => used[p] || InRun(g, b, p))
  }

  /** The first run of `n` free pages. */
  ghost predicate FirstRun(used: seq<bool>, s: nat, n: nat) {
    FreeFrom(used, s, n) && forall t :: 0 <= t < s ==> !FreeFrom(used, t, n)
  }

  /** The marks did not change, unless a collection has made them exact. */
  ghost predicate KeptOrExact(g: Geometry, was: seq<bool>, now: seq<bool>, large: map<CString, (nat, nat)>)
    requires g.Ok()
  {
    now == was || now == AllUsed(g, large)
  }

  /** The same, with the marks of a blob of `key` taken away before and those of its new place added. */
  ghost predicate MovedOrExact(g: Geometry, was: seq<bool>, now: seq<bool>, large: map<CString, (nat, nat)>, key: CString, b: (nat, nat))
    requires g.Ok()
  {
    now == WithRun(g, Unmarked(g, was, large, key), b) || now == WithRun(g, AllUsed(g, large), b)
  }

  /** The new blob `b` of `key` is at the first run of pages that were free or its own. */
  ghost predicate PlacedFirst(g: Geometry, used: seq<bool>, large: map<CString, (nat, nat)>, key: CString, b: (nat, nat))
    requires g.Ok()
  {
    var page := RunStart(g, b);
    && 0 <= page && page + g.NumPages(b.1) <= g.DataPages() && b.0 == g.PageAddr(page)
    && FirstRun(Unmarked(g, used, large, key), page, g.NumPages(b.1))
  }

  /** A bank has no room for `n` more bytes beside what the store holds, however it is arranged. */
  ghost predicate NoRoom(g: Geometry, v: View, n: nat)
    requires g.Ok()
  {
    NeededBy(v) + n > g.Bank() - HEADER - ENTRY
  }

  /**
   * The code of a write of a setting: which keys and sizes are not allowed, and when there is no room
   * for a value that is not there already.
   */
  ghost function SetCode(g: Geometry, v: View, key: Option<CString>, val: seq<byte>): int
    requires g.Ok()
  {
    if !KeyOk(key) then KEY_ERROR
    else if |val| > g.Bank() - 200 then TOO_LARGE
    else if key.value in v.small && v.small[key.value] == val then 0
    else if NoRoom(g, v, Align(|val|) + ENTRY) then NO_SPACE
    else 0
  }

  /** What each code tells about the key, the size and the room, in numbers. */
  lemma SetCodeMeans(g: Geometry, v: View, key: Option<CString>, val: seq<byte>)
    requires g.Ok()
    ensures -3 <= SetCode(g, v, key, val) <= 0
    ensures SetCode(g, v, key, val) == -1 <==> key == None || |key.value| > 15 || (key.value != [] && key.value[0] == 42)
    ensures SetCode(g, v, key, val) == -2 <==> KeyOk(key) && |val| > g.Bank() - 200
    ensures SetCode(g, v, key, val) == -3 <==>
      && KeyOk(key) && |val| <= g.Bank() - 200 && !(key.value in v.small && v.small[key.value] == val)
      && NeededBy(v) + 24 + (if val == [] then 8 else (|val| + 7) / 8 * 8) > g.Bank() - 48
  {
    AlignIsRounding(|val|);
  }

  /** A blob can be placed: some run that is tried is free, and there is room for its row. */
  ghost predicate CanPlace(g: Geometry, used: seq<bool>, v: View, key: CString, size: nat)
    requires g.Ok()
  {
    HasRun(Unmarked(g, used, v.large, key), g.NumPages(size)) && !NoRoom(g, v, ENTRY)
  }

  /** The `n` pages from `s` on lie before the last page, and each of them is free or one of the key's own. */
  ghost predicate Usable(g: Geometry, used: seq<bool>, v: View, key: CString, s: nat, n: nat)
    requires g.Ok() && |used| == g.DataPages()
  {
    s + n < |used| && forall p :: s <= p < s + n ==> !used[p] || (key in v.large && InRun(g, v.large[key], p))
  }

  /** Where a blob can be placed, by the pages themselves and the weight of what is held. */
  lemma CanPlaceIff(g: Geometry, used: seq<bool>, v: View, key: CString, size: nat)
    requires g.Ok() && |used| == g.DataPages()
    ensures CanPlace(g, used, v, key, size) <==>
      NeededBy(v) + 24 <= g.Bank() - 48 && exists s :: 0 <= s && Usable(g, used, v, key, s, g.NumPages(size))
  {
    var n, free := g.NumPages(size), Unmarked(g, used, v.large, key);
    forall s: nat
      ensures s + n < |used| && FreeFrom(free, s, n) <==> Usable(g, used, v, key, s, n)
    {
      if s + n < |used| && FreeFrom(free, s, n) {
        assert forall p :: s <= p < s + n ==> !free[p];
      }
    }
  }

  /** A blob that needs no more pages than the one it replaces never lacks pages, unless that one ends at the last. */
  lemma OwnPagesServe(g: Geometry, used: seq<bool>, v: View, key: CString, size: nat)
    requires g.Ok() && |used| == g.DataPages() && LargesOk(g, v.large) && key in v.large
    requires g.NumPages(size) <= g.NumPages(v.large[key].1)
    requires RunStart(g, v.large[key]) + g.NumPages(size) < g.DataPages()
    ensures CanPlace(g, used, v, key, size) <==> NeededBy(v) + 24 <= g.Bank() - 48
  {
    assert Usable(g, used, v, key, RunStart(g, v.large[key]), g.NumPages(size));
    CanPlaceIff(g, used, v, key, size);
  }

  /** The marks cover every blob but that of `key`. */
  ghost predicate CoversBut(g: Geometry, used: seq<bool>, large: map<CString, (nat, nat)>, key: CString)
    requires g.Ok() && |used| == g.DataPages()
  {
    forall k, p :: k in large && k != key && 0 <= p < |used| && InRun(g, large[k], p) ==> used[p]
  }

  lemma MarkedCovers(g: Geometry, used: seq<bool>, used': seq<bool>, large: map<CString, (nat, nat)>, key: CString,
                     b: (nat, nat))
    requires g.Ok() && |used| == |used'| == g.DataPages() && CoversBut(g, used, large, key)
    requires key in large && large[key] == b
    requires forall p :: 0 <= p < |used| ==> used'[p] == if InRun(g, b, p) then true else used[p]
    ensures Covers(g, used', large)
  {
  }

  lemma FreeRunIsApart(g: Geometry, used: seq<bool>, large: map<CString, (nat, nat)>, key: CString, b: (nat, nat))
    requires g.Ok() && |used| == g.DataPages() && LargesOk(g, large) && BlobOk(g, b)
    requires CoversBut(g, used, large, key) && FreeFrom(used, RunStart(g, b), g.NumPages(b.1))
    ensures LargesOk(g, large[key := b])
  {
    forall k | k in large && k != key
      ensures Apart(g, large[k], b)
    {
      var c := large[k];
      var cs, bs := RunStart(g, c), RunStart(g, b);
      var p := if cs < bs then bs else cs;
      assert InRun(g, c, p) ==> 0 <= p < |used| && used[p];
    }
  }

  /** The run of `num` data pages from `page` is erased, and no other data page has changed. */
  ghost predicate Reserved(g: Geometry, img: seq<byte>, img': seq<byte>, page: nat, num: nat)
    requires g.Ok() && page + num <= g.DataPages() && |img| == |img'| == g.Total()
  {
    && SameIn(img, img', 2 * g.Bank(), g.PageAddr(page))
    && SameIn(img, img', g.PageAddr(page + num), g.Total())
    && ErasedFromTo(img', g.PageAddr(page), g.PageAddr(page + num))
  }

  /** The other bank with its first `n` pages erased. */
  lemma ErasedHeld(g: Geometry, img: seq<byte>, now: seq<byte>, bank: nat, alt: nat, n: nat)
    requires g.Ok() && IsBank(g, bank) && alt == OtherBank(g, bank) && 1 <= n <= g.headerPages
    requires |img| == |now| == g.Total()
    requires forall i :: 0 <= i < |img| ==> now[i] == if alt <= i < alt + Times(n, g.page) then ERASED else img[i]
    ensures Held(g, img, now, bank)
  {
    TimesMono(1, n, g.page);
    TimesMono(n, g.headerPages, g.page);
    ErasedHeader(g, now, alt);
  }

  lemma ProgramNext(before: seq<byte>, p: nat, src: seq<byte>, now: seq<byte>, next: seq<byte>, k: nat)
    requires p + |src| <= |before| && k < |src| && now == Program(before, p, src[..k])
    requires next == now[p + k := src[k]]
    ensures next == Program(before, p, src[..k + 1])
  {
  }

  /** One image for each of the first `k` bytes that are programmed. */
  ghost predicate ProgramTrace(before: seq<byte>, p: nat, src: seq<byte>, seen: seq<seq<byte>>, trace: seq<seq<byte>>, k: nat)
    requires p + |src| <= |before| && k <= |src|
  {
    && |trace| == |seen| + k && seen <= trace
    && forall t :: |seen| <= t < |trace| ==> trace[t] == Program(before, p, src[..t - |seen| + 1])
  }

  /** The images after each byte of adding an entry to `img`, behind those seen before. */
  ghost predicate AddTrace(img: seq<byte>, slot: nat, e: Entry, val: seq<byte>, seen: seq<seq<byte>>, trace: seq<seq<byte>>)
    requires EntryOk(e) && e.offset + |val| <= |img| && slot + ENTRY <= |img|
  {
    && |trace| == |seen| + |val| + ENTRY && seen <= trace
    && forall t :: |seen| <= t < |trace| ==> trace[t] == Cuts.CutImage(img, slot, e, val, t - |seen| + 1)
  }

  lemma AddTraceOf(img: seq<byte>, slot: nat, e: Entry, val: seq<byte>, seen: seq<seq<byte>>, mid: seq<seq<byte>>, trace: seq<seq<byte>>)
    requires EntryOk(e) && e.offset + |val| <= |img| && slot + ENTRY <= |img|
    requires ProgramTrace(img, e.offset, val, seen, mid, |val|)
    requires ProgramTrace(Program(img, e.offset, val), slot, EntryBytes(e), mid, trace, ENTRY)
    ensures AddTrace(img, slot, e, val, seen, trace)
  {
    forall t | |seen| <= t < |trace|
      ensures trace[t] == Cuts.CutImage(img, slot, e, val, t - |seen| + 1)
    {
      if t < |mid| {
        assert trace[t] == mid[t];
      }
    }
  }

  /** After which of these images the next mount finds the old entries, or all of them with the new one. */
  ghost predicate CutsJudged(g: Geometry, log: seq<Entry>, e: Entry, val: seq<byte>, seen: nat, trace: seq<seq<byte>>)
    requires g.Ok() && EntryOk(e)
  {
    && |trace| == seen + |val| + ENTRY
    && forall t :: seen <= t < |trace| ==> (Cuts.KeptOrAdded(g, trace[t], log, e) <==> Cuts.Harmless(e, val, t - seen + 1))
  }

  lemma CutsJudgedOf(g: Geometry, img: seq<byte>, bank: nat, log: seq<Entry>, e: Entry, val: seq<byte>,
                     seen: seq<seq<byte>>, trace: seq<seq<byte>>)
    requires FlashImage.Store(g, img, bank, log) && Fits(g, bank, log, e) && !IsLarge(e.key) && e.size == |val|
    requires e.offset + |val| <= |img| && Slot(bank, |log| + 1) <= |img|
    requires AddTrace(img, Slot(bank, |log|), e, val, seen, trace)
    ensures CutsJudged(g, log, e, val, |seen|, trace)
  {
    forall t | |seen| <= t < |trace|
      ensures Cuts.KeptOrAdded(g, trace[t], log, e) <==> Cuts.Harmless(e, val, t - |seen| + 1)
    {
      Cuts.CutAnywhereIff(g, img, bank, log, e, val, t - |seen| + 1);
    }
  }

  lemma GenKept(g: Geometry, img: seq<byte>, img': seq<byte>, bank: int)
    requires g.Ok() && |img| == |img'| == g.Total() && SameIn(img, img', 0, 2 * g.Bank())
    requires bank == -1 || (bank >= 0 && IsBank(g, bank))
    ensures bank >= 0 ==> bank + HEADER <= |img| && Gen(img, bank) == Gen(img', bank)
  {
    if bank >= 0 {
      assert img[bank..bank + HEADER] == img'[bank..bank + HEADER];
      HeaderFrame(g, img, img', bank);
    }
  }

  lemma ReservedAfter(g: Geometry, img: seq<byte>, mid: seq<byte>, img': seq<byte>, page: nat, num: nat)
    requires g.Ok() && page + num <= g.DataPages() && |img| == |mid| == |img'| == g.Total()
    requires SameIn(img, mid, 2 * g.Bank(), g.Total()) && Reserved(g, mid, img', page, num)
    ensures Reserved(g, img, img', page, num)
  {
  }

  lemma ReservedThen(g: Geometry, img: seq<byte>, mid: seq<byte>, img': seq<byte>, page: nat, num: nat)
    requires g.Ok() && page + num <= g.DataPages() && |img| == |mid| == |img'| == g.Total()
    requires Reserved(g, img, mid, page, num) && SameIn(mid, img', 2 * g.Bank(), g.Total())
    ensures Reserved(g, img, img', page, num)
  {
  }

  /** Reserving pages for one blob leaves the bytes of every blob apart from it alone. */
  lemma OtherBlobKept(g: Geometry, img: seq<byte>, img': seq<byte>, b: (nat, nat), c: (nat, nat))
    requires g.Ok() && BlobOk(g, b) && BlobOk(g, c) && Apart(g, b, c) && |img| == |img'| == g.Total()
    requires Reserved(g, img, img', RunStart(g, b), g.NumPages(b.1))
    ensures SameIn(img, img', c.0, g.PageAddr(RunStart(g, c) + g.NumPages(c.1)))
  {
    var bs, cs := RunStart(g, b), RunStart(g, c);
    if cs + g.NumPages(c.1) <= bs {
      TimesMono(2 * g.headerPages + (cs + g.NumPages(c.1)), 2 * g.headerPages + bs, g.page);
    } else {
      TimesMono(2 * g.headerPages + (bs + g.NumPages(b.1)), 2 * g.headerPages + cs, g.page);
    }
  }

  /** What the page search of the large-blob allocator comes to. */
  datatype FreeRun = Found(page: nat) | NoRun | Panicked

  datatype Prepared = Ready(page: nat) | Failed | Asserted

  class Store {
    const g: Geometry
    const mem: array<byte>
    const used: array<bool>
    var settings: int   // address of the bank in use, or -1 while not mounted
    var lastEntry: int
    var dataStart: int

    ghost var bank: int // -1 for flash that has never been formatted
    ghost var log: seq<Entry>
    /** All images the flash has gone through: what a power cut may leave behind. */
    var trace: seq<seq<byte>>

    ghost predicate Shape()
      reads this
    {
      g.Ok() && mem.Length == g.Total() && used.Length == g.DataPages()
    }

    /** The flash holds a store, or none yet. */
    ghost predicate FlashOk()
      requires Shape()
      reads this, mem
    {
      if bank == -1 then
        log == [] && !HeaderOk(g, mem[..], 0) && !HeaderOk(g, mem[..], g.Bank())
      else
        bank >= 0 && FlashImage.Store(g, mem[..], bank, log)
    }

    ghost predicate Mounted()
      requires Shape()
      reads this, used
    {
      && settings == bank && settings >= 0
      && lastEntry == settings + ENTRY * |log|
      && dataStart == settings + g.Bank() - DataBytes(log)
    }

    /** Everything but the marks of used data pages. */
    ghost predicate Sound()
      reads this, mem, used
    {
      && Shape() && FlashOk()
      && LargesOk(g, Holds().large)
      && (settings != -1 ==> Mounted())
    }

    ghost predicate Valid()
      reads this, mem, used
    {
      Sound() && (settings != -1 ==> Covers(g, used[..], Holds().large))
    }

    /** The settings that the store holds. */
    ghost function Holds(): View
      reads this, mem
    {
      ViewOf(mem[..], log)
    }

    /** The marks of used pages: those in memory, or the ones that mounting will set. */
    ghost function Marks(): (m: seq<bool>)
      requires Shape()
      reads this, mem, used
      ensures |m| == g.DataPages()
    {
      if settings != -1 then used[..] else AllUsed(g, Holds().large)
    }

    /** Free space that is reported is there, and after a collection what is not reported is not. */
    lemma RoomLeft(n: nat)
      requires Sound() && settings != -1 && n > 0
      ensures FreeSpace() >= n ==> !NoRoom(g, Holds(), n)
      ensures FreeSpace() < n && NoDuplicates(log) ==> NoRoom(g, Holds(), n)
    {
      NeededOfTable(g, mem[..], bank, log);
    }

    ghost function Generation(): nat
      requires Shape()
      reads this, mem
    {
      if bank < 0 || bank + HEADER > mem.Length then 0 else Gen(mem[..], bank)
    }

    /** Any flash without a valid header, blank flash for one, is a store still to be formatted. */
    constructor (g: Geometry, mem: array<byte>, used: array<bool>)
      requires g.Ok() && mem.Length == g.Total() && used.Length == g.DataPages()
      requires !HeaderOk(g, mem[..], 0) && !HeaderOk(g, mem[..], g.Bank())
      ensures Valid() && this.mem == mem && this.used == used && this.g == g
      ensures Holds() == View(map[], map[]) && Generation() == 0
    {
      this.g, this.mem, this.used := g, mem, used;
      settings, lastEntry, dataStart := -1, 0, 0;
      bank, log, trace := -1, [], [];
    }

    /** Flash that holds a store, as it is found after a restart. */
    constructor Resume(g: Geometry, mem: array<byte>, used: array<bool>, ghost b: nat, ghost l: seq<Entry>)
      requires g.Ok() && mem.Length == g.Total() && used.Length == g.DataPages()
      requires FlashImage.Store(g, mem[..], b, l) && LargesOk(g, ViewOf(mem[..], l).large)
      ensures Valid() && settings == -1 && this.mem == mem && this.used == used && this.g == g
      ensures Holds() == ViewOf(mem[..], l) && Generation() == Gen(mem[..], b)
    {
      this.g, this.mem, this.used := g, mem, used;
      settings, lastEntry, dataStart := -1, 0, 0;
      bank, log, trace := b, l, [];
    }

    // -------------------------------------------------------------- flash

    method FlashErase(p: nat)
      requires g.Ok() && p + g.page <= mem.Length
      modifies mem, this`trace
      ensures forall i :: 0 <= i < mem.Length ==> mem[i] == if p <= i < p + g.page then ERASED else old(mem[i])
      ensures trace == old(trace) + [mem[..]]
    {
      forall i | p <= i < p + g.page {
        mem[i] := ERASED;
      }
      trace := trace + [mem[..]];
    }

    /** Programs flash byte by byte; only erased bytes may be written. */
    method FlashProgram(p: nat, src: seq<byte>)
      requires p + |src| <= mem.Length
      requires ErasedFromTo(mem[..], p, p + |src|)
      modifies mem, this`trace
      ensures mem[..] == Program(old(mem[..]), p, src)
      ensures |trace| == |old(trace)| + |src| && old(trace) <= trace
      ensures forall t :: |old(trace)| <= t < |trace| ==>
        trace[t] == Program(old(mem[..]), p, src[..t - |old(trace)| + 1])
    {
      ghost var before, seen := mem[..], trace;
      for k := 0 to |src|
        invariant mem[..] == Program(before, p, src[..k])
        invariant ProgramTrace(before, p, src, seen, trace, k)
      {
        ghost var now := mem[..];
        mem[p + k] := src[k];
        ProgramNext(before, p, src, now, mem[..], k);
        trace := trace + [mem[..]];
      }
      assert src[..|src|] == src;
    }

    /** The same, with the images in between described only by where they may differ. */
    method ProgramRange(p: nat, src: seq<byte>)
      requires p + |src| <= mem.Length
      requires ErasedFromTo(mem[..], p, p + |src|)
      modifies mem, this`trace
      ensures mem[..] == Program(old(mem[..]), p, src) && old(trace) <= trace
      ensures Confined(old(mem[..]), mem[..], p, p + |src|)
      ensures forall t :: |old(trace)| <= t < |trace| ==> Confined(old(mem[..]), trace[t], p, p + |src|)
    {
      FlashProgram(p, src);
    }

    method ErasePages(p: nat, num: nat)
      requires g.Ok() && p + Times(num, g.page) <= mem.Length
      modifies mem, this`trace
      ensures forall i :: 0 <= i < mem.Length ==>
        mem[i] == if p <= i < p + Times(num, g.page) then ERASED else old(mem[i])
      ensures |trace| == |old(trace)| + num && old(trace) <= trace
      ensures forall t :: |old(trace)| <= t < |trace| ==>
        && |trace[t]| == mem.Length
        && forall i :: 0 <= i < mem.Length ==>
             trace[t][i] == if p <= i < p + Times(t - |old(trace)| + 1, g.page) then ERASED else old(mem[i])
    {
      for k := 0 to num
        invariant forall i :: 0 <= i < mem.Length ==>
          mem[i] == if p <= i < p + Times(k, g.page) then ERASED else old(mem[i])
        invariant |trace| == |old(trace)| + k && old(trace) <= trace
        invariant forall t :: |old(trace)| <= t < |trace| ==>
          && |trace[t]| == mem.Length
          && forall i :: 0 <= i < mem.Length ==>
               trace[t][i] == if p <= i < p + Times(t - |old(trace)| + 1, g.page) then ERASED else old(mem[i])
      {
        TimesMono(k + 1, num, g.page);
        FlashErase(p + Times(k, g.page));
      }
    }

    // -------------------------------------------------------------- reading the table

    function FreeSpace(): (n: nat)
      reads this
    {
      var sz := dataStart - lastEntry - 2 * ENTRY;
      if sz < 0 then 0 else sz
    }

    function KeyAt(p: nat): CString
      requires p + ENTRY <= mem.Length
      reads mem
    {
      CStr(mem[p..p + 16])
    }

    lemma RowAt(i: nat)
      requires Shape() && settings >= 0 && RowsAre(mem[..], settings, log) && i < |log|
      ensures Slot(settings, i) + ENTRY <= mem.Length
      ensures ReadEntry(mem[..], Slot(settings, i)) == log[i]
      ensures KeyAt(Slot(settings, i)) == log[i].key
    {
      assert RowIs(mem[..], Slot(settings, i), log[i]);
      var p := Slot(settings, i);
      assert mem[p..p + 16] == mem[..][p..p + 16];
    }

    method LaterCopy(e: nat, ghost i: nat) returns (r: bool)
      requires Shape() && settings >= 0 && RowsAre(mem[..], settings, log)
      requires i < |log| && e == Slot(settings, i) && lastEntry == settings + ENTRY * |log|
      ensures r == HasLaterCopy(log, i)
    {
      RowAt(i);
      var key := KeyAt(e);
      var q := e + ENTRY;
      ghost var j := i + 1;
      while q <= lastEntry
        invariant i < j <= |log| && q == Slot(settings, j)
        invariant forall l :: i < l < j ==> log[l].key != key
      {
        RowAt(j);
        if KeyAt(q) == key {
          return true;
        }
        q := q + ENTRY;
        j := j + 1;
      }
      return false;
    }

    method FindRow(key: CString) returns (e: int)
      requires Shape() && settings >= 0 && RowsAre(mem[..], settings, log)
      requires lastEntry == settings + ENTRY * |log|
      ensures e == if LastIndex(log, key) < 0 then -1 else Slot(settings, LastIndex(log, key))
    {
      e := lastEntry;
      ghost var j := |log|;
      while e >= settings + HEADER
        invariant 0 <= j <= |log| && e == settings + ENTRY * j
        invariant forall l :: j <= l < |log| ==> log[l].key != key
      {
        RowAt(j - 1);
        if KeyAt(e) == key {
          LastIndexIs(log, key, j - 1);
          return;
        }
        e := e - ENTRY;
        j := j - 1;
      }
      LatestIsLast(log, key);
      e := -1;
    }

    // -------------------------------------------------------------- mounting

    method MarkLarge(b: (nat, nat), flag: bool)
      requires Shape() && BlobOk(g, b)
      modifies used
      ensures forall p :: 0 <= p < used.Length ==> used[p] == if InRun(g, b, p) then flag else old(used[p])
    {
      var off := g.PageOf(b.0);
      for i := 0 to g.NumPages(b.1)
        invariant forall p :: 0 <= p < used.Length ==> used[p] == if off <= p < off + i then flag else old(used[p])
      {
        if used[off + i] != flag {
          used[off + i] := !used[off + i];
        }
      }
    }

    method MarkAll()
      requires Shape() && settings >= 0 && RowsAre(mem[..], settings, log)
      requires lastEntry == settings + ENTRY * |log| && LargesOk(g, Holds().large)
      modifies used
      ensures forall p :: 0 <= p < used.Length ==> (used[p] <==> UsedBy(g, Holds().large, p))
    {
      forall i | 0 <= i < used.Length {
        used[i] := false;
      }
      var e := settings + HEADER;
      ghost var i := 0;
      while e <= lastEntry
        invariant 0 <= i <= |log| && e == Slot(settings, i) && mem[..] == old(mem[..])
        invariant forall p :: 0 <= p < used.Length ==> (used[p] <==> UsedByFirst(g, log, i, p))
      {
        RowAt(i);
        var ent := ReadEntry(mem[..], e);
        var later := LaterCopy(e, i);
        ghost var before := used[..];
        if IsLarge(ent.key) && !later {
          LiveIsLatest(mem[..], log, i);
          MarkLarge(Blob(ent), true);
        }
        forall p | 0 <= p < used.Length
          ensures used[p] <==> UsedByFirst(g, log, i + 1, p)
        {
          UsedByNext(g, log, i, p);
        }
        e := e + ENTRY;
        i := i + 1;
      }
      forall p | 0 <= p < used.Length
        ensures used[p] <==> UsedBy(g, Holds().large, p)
      {
        UsedByAll(g, mem[..], log, p);
      }
    }

    /** Reads the rows of a bank; gives up when a row would run into the values. */
    method ScanRows(base: nat) returns (r: Scanned)
      requires Shape() && IsBank(g, base)
      ensures r == Scan(g, mem[..], base, 0, base + g.Bank())
    {
      var img := mem[..];
      var minoff: nat := base + g.Bank();
      var i: nat := 0;
      ghost var goal := Scan(g, img, base, 0, minoff);
      while Slot(base, i) + ENTRY <= |img| && OffsetAt(img, Slot(base, i)) != WORD - 1
        invariant goal == Scan(g, img, base, i, minoff)
        decreases |img| - Slot(base, i)
      {
        var off := OffsetAt(img, Slot(base, i));
        var m := if off < minoff then off else minoff;
        if Slot(base, i + 1) > m {
          return Broken;
        }
        i, minoff := i + 1, m;
      }
      r := if Slot(base, i) + ENTRY <= |img| then Rows(i, minoff) else Broken;
    }

    method AllErased(lo: nat, hi: int) returns (ok: bool)
      requires hi <= mem.Length
      ensures ok == ErasedFromTo(mem[..], lo, hi)
    {
      var p := lo;
      while p < hi
        invariant lo <= p
        invariant forall i :: lo <= i < p && i < hi ==> mem[..][i] == ERASED
      {
        if mem[p] != ERASED {
          return false;
        }
        p := p + 1;
      }
      return true;
    }

    /** Rebuilds the cached positions from flash; on a broken bank the store is left unmounted. */
    method ScanTable()
      requires Shape() && settings >= 0 && IsBank(g, settings)
      modifies this`settings, this`lastEntry, this`dataStart
      ensures match MountBank(g, mem[..], old(settings))
              case Broken => settings == -1
              case Rows(n, d) =>
                settings == old(settings) && lastEntry == settings + ENTRY * n && dataStart == d
    {
      var r := ScanRows(settings);
      var ok := r.Rows?;
      if ok {
        ok := AllErased(Slot(settings, r.count), r.start);
      }
      if ok {
        lastEntry, dataStart := Slot(settings, r.count) - ENTRY, r.start;
      } else {
        settings := -1;
      }
    }

    /** Caches the positions of the table `l` that the bank being mounted holds, unless it is broken. */
    method RecomputeCache(ghost l: seq<Entry>)
      requires Shape() && settings >= 0 && IsBank(g, settings)
      requires MountBank(g, mem[..], settings) != Broken ==>
        Table(g, mem[..], settings, l) && LargesOk(g, ViewOf(mem[..], l).large)
      modifies this`settings, this`lastEntry, this`dataStart, this`log, this`bank, used
      ensures mem[..] == old(mem[..]) && Shape()
      ensures MountBank(g, mem[..], old(settings)) == Broken ==> settings == -1
      ensures MountBank(g, mem[..], old(settings)) != Broken ==>
        && settings == old(settings) == bank && log == l && Mounted()
        && forall p :: 0 <= p < used.Length ==> (used[p] <==> UsedBy(g, Holds().large, p))
    {
      ghost var broken := MountBank(g, mem[..], settings) == Broken;
      if !broken {
        MountOfTable(g, mem[..], settings, l);
      }
      ScanTable();
      if settings != -1 {
        log, bank := l, settings;
        MarkAll();
      }
    }

    /** The same for a bank that is known to hold the table `l`. */
    method RecomputeTable(ghost l: seq<Entry>)
      requires Shape() && settings >= 0 && Table(g, mem[..], settings, l)
      requires LargesOk(g, ViewOf(mem[..], l).large)
      modifies this`settings, this`lastEntry, this`dataStart, this`log, this`bank, used
      ensures settings == old(settings) && log == l && Shape() && bank == settings && Mounted()
      ensures mem[..] == old(mem[..])
      ensures forall p :: 0 <= p < used.Length ==> (used[p] <==> UsedBy(g, Holds().large, p))
    {
      MountOfTable(g, mem[..], settings, l);
      RecomputeCache(l);
    }

    method WriteHeader(gen: nat)
      requires Shape() && 0 <= settings && settings + HEADER <= mem.Length && gen < WORD
      requires ErasedFromTo(mem[..], settings, settings + HEADER)
      modifies mem, this`trace
      ensures mem[..] == Program(old(mem[..]), settings, HeaderBytes(g, gen))
      ensures |trace| == |old(trace)| + HEADER && old(trace) <= trace && trace[|trace| - 1] == mem[..]
      ensures HeaderTrace(g, old(mem[..]), trace[|old(trace)|..], settings, gen)
    {
      FlashProgram(settings, HeaderBytes(g, gen));
      HeaderBytesWhole(g, gen);
    }

    /** Bank 0 holds an empty table of the first generation once its pages are erased and its header written. */
    lemma FormattedIsEmpty(img: seq<byte>, img': seq<byte>)
      requires g.Ok() && |img| == g.Total() && ErasedFromTo(img, 0, g.Bank())
      requires img' == Program(img, 0, HeaderBytes(g, 1))
      ensures Table(g, img', 0, []) && HeaderOk(g, img', 0) && Gen(img', 0) == 1
    {
      EmptyTable(g, img', 0);
      assert img'[0..0 + HEADER] == HeaderBytes(g, 1)[..HEADER];
      HeaderPrefix(g, img', 0, 1, HEADER);
    }

    /** The flash operations of formatting: bank 0 is erased and gets a header of the first generation. */
    method FormatBank()
      requires Shape() && settings == 0
      modifies mem, this`trace
      ensures Shape() && Table(g, mem[..], 0, []) && HeaderOk(g, mem[..], 0) && Gen(mem[..], 0) == 1
      ensures SameIn(old(mem[..]), mem[..], g.Bank(), mem.Length) && old(trace) <= trace
    {
      assert g.Bank() <= mem.Length;
      ErasePages(settings, g.headerPages);
      ghost var erased := mem[..];
      WriteHeader(1);
      FormattedIsEmpty(erased, mem[..]);
    }

    /** Starts an empty store in bank 0. It is a sound one unless bank 1 has a header of its generation or more. */
    method Format()
      requires Shape()
      modifies this, mem, used
      ensures Shape() && bank == 0 && Mounted() && log == []
      ensures Table(g, mem[..], 0, log) && HeaderOk(g, mem[..], 0) && Generation() == 1
      ensures Valid() <==> !HeaderOk(g, old(mem[..]), g.Bank()) || Gen(old(mem[..]), g.Bank()) == 0
      ensures SameIn(old(mem[..]), mem[..], g.Bank(), mem.Length) && old(trace) <= trace
      ensures forall p :: 0 <= p < used.Length ==> !used[p]
    {
      ghost var before := mem[..];
      settings := 0;
      FormatBank();
      HeaderFrame(g, before, mem[..], g.Bank());
      RecomputeTable([]);
    }

    /** The bank that the headers select, or -1. */
    method SelectBank()
      requires Shape() && settings == -1
      modifies this`settings
      ensures match PickBank(g, mem[..]) case None => settings == -1 case Some(b) => settings == b
    {
      var s0, s1 := HeaderOk(g, mem[..], 0), HeaderOk(g, mem[..], g.Bank());
      if s0 && s1 {
        settings := if Gen(mem[..], 0) > Gen(mem[..], g.Bank()) then 0 else g.Bank();
      } else if s0 {
        settings := 0;
      } else if s1 {
        settings := g.Bank();
      }
    }

    /** The flash can be mounted: the bank with the winning header holds a table, or no mount finds any. */
    ghost predicate Mountable()
      requires Shape()
      reads this, mem
    {
      match PickBank(g, mem[..])
      case None => true
      case Some(b) =>
        MountBank(g, mem[..], b) == Broken || (Table(g, mem[..], b, log) && LargesOk(g, ViewOf(mem[..], log).large))
    }

    /** Mounts what the flash holds, formatting it when there is nothing to be mounted. */
    method Mount()
      requires Shape() && settings == -1 && Mountable()
      modifies this, mem, used
      ensures Shape() && Mounted() && old(trace) <= trace
      ensures Cuts.Found(g, old(mem[..])) != None ==>
        && mem[..] == old(mem[..]) && log == old(log) && PickBank(g, mem[..]) == Some(bank)
        && forall p :: 0 <= p < used.Length ==> (used[p] <==> UsedBy(g, Holds().large, p))
      ensures Cuts.Found(g, old(mem[..])) == None ==>
        && bank == 0 && log == [] && Table(g, mem[..], 0, log) && HeaderOk(g, mem[..], 0) && Generation() == 1
        && (Valid() <==> !HeaderOk(g, old(mem[..]), g.Bank()) || Gen(old(mem[..]), g.Bank()) == 0)
        && forall p :: 0 <= p < used.Length ==> !used[p]
      ensures SameIn(old(mem[..]), mem[..], g.Bank(), mem.Length)
    {
      SelectBank();
      if settings != -1 {
        RecomputeCache(log);
      }
      if settings == -1 {
        Format();
      }
    }

    /** Mounts the store unless it is mounted, formatting flash that has no valid header. */
    method Init()
      requires Valid()
      modifies this, mem, used
      ensures Valid() && settings != -1
      ensures Holds() == old(Holds())
      ensures old(bank) != -1 ==> mem[..] == old(mem[..]) && Generation() == old(Generation())
      ensures old(bank) == -1 ==> Generation() == 1
      ensures SameIn(old(mem[..]), mem[..], 2 * g.Bank(), mem.Length)
      ensures old(settings) == -1 ==>
        forall p :: 0 <= p < used.Length ==> (used[p] <==> UsedBy(g, Holds().large, p))
      ensures old(settings) != -1 ==> unchanged(this) && unchanged(mem) && unchanged(used)
      ensures old(trace) <= trace
    {
      if settings != -1 {
        return;
      }
      if bank != -1 {
        Cuts.FoundOfTable(g, mem[..], bank, log);
      }
      Mount();
    }

    /** Forgets the cached positions, as the remount of source/jd_fstor.c does. */
    method Remount()
      requires Valid()
      modifies this, mem, used
      ensures Valid() && settings != -1 && Holds() == old(Holds())
      ensures Generation() == if old(bank) == -1 then 1 else old(Generation())
      ensures old(bank) != -1 ==> mem[..] == old(mem[..])
      ensures SameIn(old(mem[..]), mem[..], 2 * g.Bank(), mem.Length)
      ensures forall p :: 0 <= p < used.Length ==> (used[p] <==> UsedBy(g, Holds().large, p))
    {
      settings := -1;
      Init();
    }

    // -------------------------------------------------------------- garbage collection

    /** Copies the value of a small entry to `dst`; returns the row that will stand for it. */
    method CopyValue(dst: nat, ent: Entry) returns (tmp: Entry)
      requires dst + ent.size <= mem.Length && ent.offset + ent.size <= mem.Length
      requires ErasedFromTo(mem[..], dst, dst + ent.size)
      modifies mem, this`trace
      ensures tmp == ent.(offset := dst) && old(trace) <= trace
      ensures mem[..] == Program(old(mem[..]), dst, old(mem[..])[ent.offset..ent.offset + ent.size])
      ensures forall t :: |old(trace)| <= t < |trace| ==> Confined(old(mem[..]), trace[t], dst, dst + ent.size)
    {
      var value := mem[ent.offset..ent.offset + ent.size];
      assert value == mem[..][ent.offset..ent.offset + ent.size];
      ProgramRange(dst, value);
      tmp := ent.(offset := dst);
    }

    /** Copies one entry, and its value when it is small; `between` is the image before the row. */
    method CopyEntry(dstE: nat, dstData: nat, ent: Entry)
      returns (data': nat, moved: Entry, ghost between: seq<byte>)
      requires EntryOk(ent) && dstE + EntryWeight(ent) <= dstData <= mem.Length < WORD - 1
      requires ErasedFromTo(mem[..], dstE, dstData)
      requires !IsLarge(ent.key) ==> ent.offset + ent.size <= mem.Length
      modifies mem, this`trace
      ensures EntryCopied(old(mem[..]), between, mem[..], dstE, dstData, ent, moved, data')
      ensures old(trace) <= trace
      ensures forall t :: |old(trace)| <= t < |trace| ==> Confined(old(mem[..]), trace[t], dstE, dstData)
    {
      data' := dstData;
      moved := ent;
      if !IsLarge(ent.key) {
        data' := dstData - Align(ent.size);
        moved := CopyValue(data', ent);
      }
      between := mem[..];
      ProgramRange(dstE, EntryBytes(moved));
    }

    /** Erases the bank that is not in use, its header first. */
    method EraseOther(alt: nat)
      requires Shape() && settings >= 0 && FlashImage.Store(g, mem[..], settings, log)
      requires alt == OtherBank(g, settings)
      modifies mem, this`trace
      ensures Confined(old(mem[..]), mem[..], alt, alt + g.Bank())
      ensures ErasedFromTo(mem[..], alt, alt + g.Bank())
      ensures old(trace) <= trace && AllHeld(g, old(mem[..]), trace[|old(trace)|..], settings)
    {
      ghost var img := mem[..];
      ErasePages(alt, g.headerPages);
      forall t | |old(trace)| <= t < |trace|
        ensures Held(g, img, trace[t], settings)
      {
        ErasedHeld(g, img, trace[t], settings, alt, t - |old(trace)| + 1);
      }
    }

    /** One step of a collection: copies the `i`-th entry, which is live. */
    method CopyOne(alt: nat, dstE: nat, dstData: nat, ent: Entry,
                   ghost img: seq<byte>, ghost copied: seq<Entry>, ghost i: nat)
      returns (data': nat, ghost moved: Entry)
      requires Shape() && settings >= 0 && IsBank(g, settings) && alt == OtherBank(g, settings)
      requires Table(g, img, settings, log) && i < |log| && ent == log[i] && !HasLaterCopy(log, i)
      requires Copying(g, img, mem[..], settings, log, copied, i)
      requires dstE == Slot(alt, |copied|) && dstData == alt + g.Bank() - DataBytes(copied)
      modifies mem, this`trace
      ensures Copying(g, img, mem[..], settings, log, copied + [moved], i + 1)
      ensures data' == alt + g.Bank() - DataBytes(copied + [moved])
      ensures Confined(old(mem[..]), mem[..], alt + HEADER, alt + g.Bank())
      ensures old(trace) <= trace && AllHeld(g, img, trace[|old(trace)|..], settings)
    {
      ghost var now := mem[..];
      CopyingFits(g, img, now, settings, log, copied, i);
      var m;
      ghost var now1;
      data', m, now1 := CopyEntry(dstE, dstData, ent);
      moved := m;
      CopyingOne(g, img, now, now1, mem[..], settings, log, copied, i, m, data');
      forall t | |old(trace)| <= t < |trace|
        ensures Held(g, img, trace[t], settings)
      {
        HeldConfined(g, img, now, trace[t], settings);
      }
    }

    /** Looks at the `i`-th entry, at address `e`: skips it or copies it. */
    method CopyStep(alt: nat, e: nat, dstE: nat, dstData: nat,
                    ghost img: seq<byte>, ghost copied: seq<Entry>, ghost i: nat, ghost from: seq<seq<byte>>)
      returns (dstE': nat, dstData': nat, ghost copied': seq<Entry>)
      requires Shape() && settings >= 0 && IsBank(g, settings) && alt == OtherBank(g, settings)
      requires Table(g, img, settings, log) && i < |log| && e == Slot(settings, i)
      requires lastEntry == settings + ENTRY * |log|
      requires Copying(g, img, mem[..], settings, log, copied, i)
      requires dstE == Slot(alt, |copied|) && dstData == alt + g.Bank() - DataBytes(copied)
      requires from <= trace && AllHeld(g, img, trace[|from|..], settings)
      modifies mem, this`trace
      ensures Copying(g, img, mem[..], settings, log, copied', i + 1)
      ensures dstE' == Slot(alt, |copied'|) && dstData' == alt + g.Bank() - DataBytes(copied')
      ensures Confined(old(mem[..]), mem[..], alt + HEADER, alt + g.Bank())
      ensures from <= trace && AllHeld(g, img, trace[|from|..], settings)
    {
      TableFrame(g, img, mem[..], settings, log);
      ghost var seen := trace;
      var later := LaterCopy(e, i);
      if later {
        CopyingSkip(g, img, mem[..], settings, log, copied, i);
        dstE', dstData', copied' := dstE, dstData, copied;
      } else {
        RowAt(i);
        ghost var moved;
        dstData', moved := CopyOne(alt, dstE, dstData, ReadEntry(mem[..], e), img, copied, i);
        dstE', copied' := dstE + ENTRY, copied + [moved];
        AllHeldOn(g, img, from, seen, trace, settings);
      }
    }

    /** Copies every live entry to the erased bank `alt`. */
    method CopyLive(alt: nat, ghost img: seq<byte>) returns (ghost copied: seq<Entry>)
      requires Shape() && settings >= 0 && IsBank(g, settings) && lastEntry == settings + ENTRY * |log|
      requires alt == OtherBank(g, settings) && Table(g, img, settings, log)
      requires Confined(img, mem[..], alt, alt + g.Bank()) && ErasedFromTo(mem[..], alt, alt + g.Bank())
      modifies mem, this`trace
      ensures Copying(g, img, mem[..], settings, log, copied, |log|)
      ensures Confined(img, mem[..], alt, alt + g.Bank())
      ensures old(trace) <= trace && AllHeld(g, img, trace[|old(trace)|..], settings)
    {
      copied := [];
      CopyingStart(g, img, mem[..], settings, log);
      var dstE, dstData := alt + HEADER, alt + g.Bank();
      var e := settings + HEADER;
      ghost var i := 0;
      while e <= lastEntry
        invariant 0 <= i <= |log| && e == Slot(settings, i)
        invariant Copying(g, img, mem[..], settings, log, copied, i)
        invariant Confined(img, mem[..], alt, alt + g.Bank())
        invariant dstE == Slot(alt, |copied|) && dstData == alt + g.Bank() - DataBytes(copied)
        invariant old(trace) <= trace && AllHeld(g, img, trace[|old(trace)|..], settings)
      {
        dstE, dstData, copied := CopyStep(alt, e, dstE, dstData, img, copied, i, old(trace));
        e := e + ENTRY;
        i := i + 1;
      }
    }

    /** Writes the header of the filled bank `alt` and makes it the current one. */
    method CommitHeader(alt: nat, ghost img: seq<byte>, ghost copied: seq<Entry>)
      requires Shape() && settings >= 0 && IsBank(g, settings) && alt == OtherBank(g, settings)
      requires FlashImage.Store(g, img, settings, log) && Gen(img, settings) < MAX_GEN
      requires Copying(g, img, mem[..], settings, log, copied, |log|)
      modifies mem, this`trace, this`settings
      ensures settings == alt
      ensures FlashImage.Store(g, mem[..], alt, copied) && Gen(mem[..], alt) == Gen(img, old(settings)) + 1
      ensures ViewOf(mem[..], copied) == ViewOf(img, log)
      ensures Confined(old(mem[..]), mem[..], alt, alt + g.Bank())
      ensures old(trace) <= trace && AllRecover(g, img, trace[|old(trace)|..], ViewOf(img, log), Gen(img, old(settings)) + 1)
    {
      HeaderFrame(g, img, mem[..], settings);
      ghost var img1, from: nat := mem[..], settings;
      var newgen := Gen(mem[..], settings) + 1;
      assert newgen == Gen(img, from) + 1;
      settings := alt;
      WriteHeader(newgen);
      ghost var imgs := trace[|old(trace)|..];
      assert imgs[HEADER - 1] == mem[..];
      CommitSteps(g, img, img1, imgs, from, alt, newgen, log, copied);
    }

    /** Fills the other bank and switches the flash over to it. */
    method Collect() returns (ghost copied: seq<Entry>)
      requires Shape() && settings >= 0 && bank == settings && lastEntry == settings + ENTRY * |log|
      requires FlashImage.Store(g, mem[..], settings, log) && Generation() < MAX_GEN
      modifies mem, this`trace, this`settings
      ensures settings == OtherBank(g, old(settings))
      ensures FlashImage.Store(g, mem[..], settings, copied)
      ensures Gen(mem[..], settings) == Gen(old(mem[..]), old(settings)) + 1
      ensures ViewOf(mem[..], copied) == old(Holds())
      ensures NoDuplicates(copied) && Weight(copied) <= Weight(log)
      ensures Confined(old(mem[..]), mem[..], settings, settings + g.Bank())
      ensures old(trace) <= trace
      ensures AllRecover(g, old(mem[..]), trace[|old(trace)|..], old(Holds()), old(Generation()) + 1)
    {
      ghost var img := mem[..];
      var alt := 0;
      if alt == settings {
        alt := g.Bank();
      }
      EraseOther(alt);
      ghost var mid := trace;
      copied := CopyLive(alt, img);
      AllHeldOn(g, img, old(trace), mid, trace, settings);
      ghost var end, gen := trace, Gen(img, settings) + 1;
      HeldRecovers(g, img, trace[|old(trace)|..], settings, log);
      AllRecoverLater(g, img, trace[|old(trace)|..], ViewOf(img, log), gen - 1, gen);
      CommitHeader(alt, img, copied);
      AllRecoverOn(g, img, old(trace), end, trace, ViewOf(img, log), gen);
    }

    /**
     * Garbage collection. The settings stay the same, also if the power fails in the middle
     * of it, and no free space is lost.
     */
    method Gc()
      requires Sound() && settings != -1 && Generation() < MAX_GEN
      modifies this, mem, used
      ensures Valid() && settings != -1
      ensures Holds() == old(Holds()) && Generation() == old(Generation()) + 1
      ensures FreeSpace() >= old(FreeSpace()) && NoDuplicates(log)
      ensures old(trace) <= trace
      ensures AllRecover(g, old(mem[..]), trace[|old(trace)|..], old(Holds()), old(Generation()) + 1)
      ensures SameIn(old(mem[..]), mem[..], 2 * g.Bank(), mem.Length)
      ensures forall p :: 0 <= p < used.Length ==> (used[p] <==> UsedBy(g, Holds().large, p))
    {
      ghost var copied := Collect();
      RecomputeTable(copied);
    }

    // -------------------------------------------------------------- small settings

    /** Mounts the store if needed and finds the row that counts for `key`, or -1. */
    method FindEntry(key: CString) returns (e: int)
      requires Valid()
      modifies this, mem, used
      ensures Valid() && settings != -1 && Holds() == old(Holds())
      ensures Generation() == if old(bank) == -1 then 1 else old(Generation())
      ensures SameIn(old(mem[..]), mem[..], 2 * g.Bank(), mem.Length)
      ensures old(settings) != -1 ==> unchanged(this) && unchanged(mem) && unchanged(used)
      ensures used[..] == old(Marks())
      ensures old(trace) <= trace
      ensures IsEntryFor(e, key)
    {
      ghost var marks := Marks();
      Init();
      assert used[..] == marks;
      e := FindRow(key);
    }

    /** `e` is the address of the last row of `key`, or -1 when there is none. */
    ghost predicate IsEntryFor(e: int, key: CString)
      reads this
    {
      if LastIndex(log, key) < 0 then e == -1
      else settings >= 0 && e == Slot(settings, LastIndex(log, key))
    }

    /** Everything a caller may rely on about the row that `FindEntry` found. */
    lemma FoundEntry(key: CString, e: int)
      requires Valid() && settings != -1 && IsEntryFor(e, key)
      ensures e == -1 <==> key !in Latest(log)
      ensures e == -1 ==> key !in Holds().small && key !in Holds().large
      ensures e != -1 ==>
        && 0 <= e && e + ENTRY <= mem.Length
        && var ent := ReadEntry(mem[..], e);
           && ent.key == key && EntryOk(ent)
           && (!IsLarge(key) ==> ent.offset + ent.size <= mem.Length
                                 && key in Holds().small && Holds().small[key] == mem[..][ent.offset..ent.offset + ent.size])
           && (IsLarge(key) ==> key in Holds().large && Holds().large[key] == Blob(ent))
    {
      LatestIsLast(log, key);
      InView(mem[..], log, key);
      if e != -1 {
        RowAt(LastIndex(log, key));
        LatestOk(g, log, bank, key);
      }
    }

    /**
     * Reads a setting into `dst`. The source copies `dst.Length` bytes, of which the first
     * `r` are the value; the copy here stops at the end of the flash.
     */
    method GetBin(key: Option<CString>, dst: array<byte>) returns (r: int)
      requires Valid() && dst != mem
      modifies this, mem, used, dst
      ensures Valid() && Holds() == old(Holds()) && Generation() <= old(Generation()) + 1
      ensures Marks() == old(Marks())
      ensures old(settings) != -1 ==> Generation() == old(Generation())
      ensures KeyOk(key) ==> settings != -1
      ensures SameIn(old(mem[..]), mem[..], 2 * g.Bank(), mem.Length)
      ensures r >= 0 || r == KEY_ERROR || r == NOT_FOUND
      ensures r == KEY_ERROR <==> !KeyOk(key)
      ensures r == NOT_FOUND <==> KeyOk(key) && key.value !in Holds().small
      ensures r >= 0 ==> r == |Holds().small[key.value]|
      ensures 0 <= r <= dst.Length ==> dst[..r] == Holds().small[key.value]
      ensures r < 0 || r > dst.Length ==> dst[..] == old(dst[..])
    {
      if !KeyOk(key) {
        return KEY_ERROR;
      }
      var e := FindEntry(key.value);
      FoundEntry(key.value, e);
      if e == -1 {
        return NOT_FOUND;
      }
      r := ReadInto(key.value, e, dst);
    }

    method ReadInto(key: CString, e: int, dst: array<byte>) returns (r: int)
      requires Valid() && settings != -1 && IsEntryFor(e, key) && !IsLarge(key) && e != -1 && dst != mem
      modifies dst
      ensures mem[..] == old(mem[..]) && used[..] == old(used[..])
      ensures key in Holds().small && r == |Holds().small[key]|
      ensures if r <= dst.Length then dst[..r] == Holds().small[key] else dst[..] == old(dst[..])
    {
      FoundEntry(key, e);
      var ent := ReadEntry(mem[..], e);
      if dst.Length >= ent.size {
        CopyOut(dst, ent.offset, ent.size);
      }
      r := ent.size;
    }

    method CopyOut(dst: array<byte>, off: nat, ghost size: nat)
      requires dst != mem && size <= dst.Length && off + size <= mem.Length
      modifies dst
      ensures dst[..size] == mem[..][off..off + size]
    {
      forall i | 0 <= i < dst.Length && off + i < mem.Length {
        dst[i] := mem[off + i];
      }
    }

    /** Programs a value and its row; `between` is the image before the row. */
    method AddEntry(data: nat, slot: nat, e: Entry, val: seq<byte>) returns (ghost between: seq<byte>)
      requires EntryOk(e) && !IsLarge(e.key) && e.offset == data && e.size == |val|
      requires slot + ENTRY <= data && data + |val| <= mem.Length
      requires ErasedFromTo(mem[..], slot, data + |val|)
      modifies mem, this`trace
      ensures EntryAdded(old(mem[..]), between, mem[..], slot, e, val)
      ensures AddTrace(old(mem[..]), slot, e, val, old(trace), trace)
    {
      ghost var before, seen := mem[..], trace;
      FlashProgram(data, val);
      ghost var mid := trace;
      between := mem[..];
      FlashProgram(slot, EntryBytes(e));
      AddTraceOf(before, slot, e, val, seen, mid, trace);
    }

    /** Writes a small setting, for which there is room, to flash. */
    method AddSmall(slot: nat, e: Entry, val: seq<byte>)
      requires Shape() && bank >= 0 && FlashImage.Store(g, mem[..], bank, log)
      requires |e.key| <= KEYSIZE && !IsLarge(e.key) && e.size == |val| < WORD
      requires Weight(log) + EntryWeight(e) <= g.Bank() - HEADER - ENTRY
      requires slot == Slot(bank, |log|) && e.offset == bank + g.Bank() - DataBytes(log) - Align(e.size)
      modifies mem, this`trace
      ensures FlashImage.Store(g, mem[..], bank, log + [e]) && Gen(mem[..], bank) == Gen(old(mem[..]), bank)
      ensures ViewOf(mem[..], log + [e]) == Added(old(Holds()), e, val)
      ensures Confined(old(mem[..]), mem[..], bank, bank + g.Bank())
      ensures old(trace) <= trace && CutsJudged(g, log, e, val, |old(trace)|, trace)
    {
      ghost var img, seen := mem[..], trace;
      RoomFits(g, img, bank, log, e);
      ghost var between := AddEntry(e.offset, slot, e, val);
      AddedStore(g, img, between, mem[..], bank, log, e, val);
      CutsJudgedOf(g, img, bank, log, e, val, seen, trace);
    }

    /** Appends a small setting for which there is room, as the entry `e`, and passes through images of every cut. */
    method PutSmall(key: CString, val: seq<byte>) returns (ghost e: Entry)
      requires Valid() && settings != -1 && KeyOk(Some(key)) && |val| < WORD
      requires FreeSpace() >= Align(|val|) + ENTRY
      modifies this`lastEntry, this`dataStart, this`log, this`trace, mem
      ensures Valid() && Generation() == old(Generation())
      ensures Holds() == old(Holds()).(small := old(Holds()).small[key := val])
      ensures SameIn(old(mem[..]), mem[..], 2 * g.Bank(), mem.Length)
      ensures log == old(log) + [e] && e.key == key && EntryOk(e)
      ensures old(trace) <= trace && CutsJudged(g, old(log), e, val, |old(trace)|, trace)
      ensures |trace| == |old(trace)| + |val| + ENTRY
    {
      ghost var v := Holds();
      dataStart := dataStart - Align(|val|);
      var ent := Entry(key, dataStart, |val|);
      lastEntry := lastEntry + ENTRY;
      AddSmall(lastEntry, ent, val);
      DataBytesSnoc(log, ent);
      NoteEntry(ent, Added(v, ent, val));
      e := ent;
    }

    /** Takes an entry that has been written into account; the store then holds `v`. */
    ghost method NoteEntry(e: Entry, v: View)
      requires Shape() && bank >= 0 && settings == bank && FlashImage.Store(g, mem[..], bank, log + [e])
      requires lastEntry == settings + ENTRY * |log + [e]| && dataStart == settings + g.Bank() - DataBytes(log + [e])
      requires ViewOf(mem[..], log + [e]) == v && LargesOk(g, v.large) && Covers(g, used[..], v.large)
      modifies this`log
      ensures Valid() && log == old(log) + [e] && Holds() == v
    {
      log := log + [e];
    }

    /** Appends a small setting, collecting garbage first when there is no room. */
    method StoreSmall(key: CString, val: seq<byte>, n: nat, ghost v: View) returns (r: int)
      requires v == Holds() && n == Align(|val|) + ENTRY && Valid() && settings != -1 && KeyOk(Some(key)) && |val| < WORD && Generation() < MAX_GEN
      modifies this, mem, used
      ensures Valid() && Generation() <= old(Generation()) + 1
      ensures r == 0 || r == NO_SPACE
      ensures r == 0 ==> Holds() == v.(small := v.small[key := val])
      ensures r == NO_SPACE ==> Holds() == v
      ensures r == NO_SPACE <==> NoRoom(g, v, n)
      ensures settings != -1 && KeptOrExact(g, old(used[..]), used[..], v.large)
      ensures SameIn(old(mem[..]), mem[..], 2 * g.Bank(), mem.Length)
      ensures old(FreeSpace()) >= n ==> Generation() == old(Generation()) && |trace| == |old(trace)| + |val| + ENTRY
    {
      var room := MakeRoom(n, v);
      if !room {
        return NO_SPACE;
      }
      ghost var _ := PutSmall(key, val);
      r := 0;
    }

    /** Collects garbage when there are not `n` bytes of free space, and tells whether there are then. */
    method MakeRoom(n: nat, ghost v: View) returns (ok: bool)
      requires v == Holds() && Sound() && settings != -1 && Generation() < MAX_GEN && n > 0
      modifies this, mem, used
      ensures Sound() && settings != -1 && Generation() <= old(Generation()) + 1
      ensures old(Valid()) || !ok ==> Valid()
      ensures Holds() == v && SameIn(old(mem[..]), mem[..], 2 * g.Bank(), mem.Length)
      ensures ok <==> !NoRoom(g, v, n)
      ensures ok ==> FreeSpace() >= n
      ensures used[..] == old(used[..]) || Valid()
      ensures used[..] == if old(FreeSpace()) >= n then old(used[..]) else AllUsed(g, v.large)
      ensures !ok ==> old(FreeSpace()) < n
      ensures old(FreeSpace()) >= n ==> ok && Generation() == old(Generation()) && trace == old(trace)
    {
      ok := true;
      if FreeSpace() < n {
        Gc();
        assert used[..] == AllUsed(g, v.large);
        ok := FreeSpace() >= n;
      }
      RoomLeft(n);
    }

    method AlreadyStored(key: CString, e: int, val: seq<byte>) returns (same: bool)
      requires Valid() && settings != -1 && IsEntryFor(e, key) && !IsLarge(key)
      ensures same <==> key in Holds().small && Holds().small[key] == val
    {
      FoundEntry(key, e);
      if e == -1 {
        return false;
      }
      var ent := ReadEntry(mem[..], e);
      same := ent.size == |val| && mem[..][ent.offset..ent.offset + ent.size] == val;
    }

    /** Every setting that is held has a key that a write takes. */
    lemma KeysHeld(key: Option<CString>)
      requires Valid() && key.Some? && key.value in Holds().small
      ensures KeyOk(key)
    {
      LatestIsLast(log, key.value);
      PlacedAt(g, log, bank, LastIndex(log, key.value));
    }

    /**
     * Stores `val` under `key`; any failure leaves the settings alone. A value that is there already is
     * not written again, and garbage is collected only when there is no room.
     */
    method SetBin(key: Option<CString>, val: seq<byte>) returns (r: int)
      requires Valid() && Generation() < MAX_GEN - 1 && |val| < WORD
      modifies this, mem, used
      ensures Valid() && Generation() <= old(Generation()) + 2
      ensures r == SetCode(g, old(Holds()), key, val)
      ensures key.Some? && key.value in old(Holds()).small && old(Holds()).small[key.value] == val && |val| <= g.Bank() - 200 ==>
        r == 0 && (old(settings) != -1 ==> mem[..] == old(mem[..]) && trace == old(trace))
      ensures r == 0 && old(settings) != -1 && old(FreeSpace()) >= Align(|val|) + ENTRY ==>
        Generation() == old(Generation()) && |trace| <= |old(trace)| + |val| + ENTRY
      ensures r == 0 ==> Holds() == old(Holds()).(small := old(Holds()).small[key.value := val])
      ensures r != 0 ==> Holds() == old(Holds())
      ensures KeptOrExact(g, old(Marks()), Marks(), old(Holds()).large)
      ensures SameIn(old(mem[..]), mem[..], 2 * g.Bank(), mem.Length)
    {
      if !KeyOk(key) {
        if key.Some? && key.value in Holds().small {
          KeysHeld(key);
        }
        return KEY_ERROR;
      }
      if |val| > g.Bank() - 200 {
        return TOO_LARGE;
      }
      var e := FindEntry(key.value);
      var same := AlreadyStored(key.value, e, val);
      if same {
        assert Holds().small == Holds().small[key.value := val];
        return 0;
      }
      r := StoreSmall(key.value, val, Align(|val|) + ENTRY, Holds());
    }

    // -------------------------------------------------------------- large blobs

    /**
     * First fit. Asking for more pages than there are runs into the assertion on page numbers;
     * the run that ends at the very last page is never tried.
     */
    method FindFreeData(size: nat) returns (r: FreeRun)
      requires Shape() && 1 <= g.NumPages(size)
      ensures r.Panicked? <==> g.NumPages(size) > g.DataPages()
      ensures r.Found? ==> r.page + g.NumPages(size) < g.DataPages() && FreeFrom(used[..], r.page, g.NumPages(size))
      ensures r.Found? ==> forall s :: 0 <= s < r.page ==> !FreeFrom(used[..], s, g.NumPages(size))
      ensures r.NoRun? ==>
        forall s :: 0 <= s && s + g.NumPages(size) < g.DataPages() ==> !FreeFrom(used[..], s, g.NumPages(size))
    {
      var pages := g.NumPages(size);
      var limit := (g.DataPages() - pages) % WORD;
      var off := 0;
      while off < limit
        invariant off <= g.DataPages()
        invariant forall s :: 0 <= s < off ==> !FreeFrom(used[..], s, pages)
        decreases g.DataPages() - off + 1
      {
        var i := 0;
        while i < pages
          invariant i < pages && off + i <= g.DataPages()
          invariant forall p :: off <= p < off + i ==> !used[p]
        {
          if off + i >= g.DataPages() {
            return Panicked;
          }
          if used[off + i] {
            forall s | off <= s < off + i + 1
              ensures !FreeFrom(used[..], s, pages)
            {
              assert used[..][off + i];
            }
            break;
          }
          if i == pages - 1 {
            return Found(off);
          }
          i := i + 1;
        }
        off := off + i + 1;
      }
      return NoRun;
    }

    /** Erases the pages of a blob and leaves everything else as it was. */
    method EraseRun(addr: nat, page: nat, num: nat)
      requires Shape() && page + num <= g.DataPages() && addr == g.PageAddr(page)
      modifies mem, this`trace
      ensures Reserved(g, old(mem[..]), mem[..], page, num)
      ensures SameIn(old(mem[..]), mem[..], 0, 2 * g.Bank())
    {
      TimesSum(2 * g.headerPages + page, num, g.page);
      assert g.PageAddr(page + num) == addr + Times(num, g.page);
      ErasePages(addr, num);
    }

    /** Writes the row of a large blob to flash. */
    method AddRow(slot: nat, e: Entry)
      requires Shape() && bank >= 0 && FlashImage.Store(g, mem[..], bank, log)
      requires EntryOk(e) && IsLarge(e.key) && e.offset >= 2 * g.Bank()
      requires Weight(log) + ENTRY <= g.Bank() - HEADER - ENTRY && slot == Slot(bank, |log|)
      modifies mem, this`trace
      ensures FlashImage.Store(g, mem[..], bank, log + [e]) && Gen(mem[..], bank) == Gen(old(mem[..]), bank)
      ensures ViewOf(mem[..], log + [e]) == Added(old(Holds()), e, [])
      ensures Confined(old(mem[..]), mem[..], bank, bank + g.Bank())
    {
      ghost var img := mem[..];
      RowFits(g, img, bank, log, e);
      FlashProgram(slot, EntryBytes(e));
      AddedStore(g, img, img, mem[..], bank, log, e, []);
    }

    /** Erases the pages of a large blob, then writes its row. */
    method AddLarge(slot: nat, e: Entry, page: nat)
      requires Shape() && bank >= 0 && FlashImage.Store(g, mem[..], bank, log)
      requires EntryOk(e) && IsLarge(e.key)
      requires page + g.NumPages(e.size) <= g.DataPages() && e.offset == g.PageAddr(page)
      requires Weight(log) + ENTRY <= g.Bank() - HEADER - ENTRY && slot == Slot(bank, |log|)
      modifies mem, this`trace
      ensures FlashImage.Store(g, mem[..], bank, log + [e]) && Gen(mem[..], bank) == Gen(old(mem[..]), bank)
      ensures ViewOf(mem[..], log + [e]) == Added(old(Holds()), e, [])
      ensures Reserved(g, old(mem[..]), mem[..], page, g.NumPages(e.size))
    {
      ghost var img := mem[..];
      EraseRun(e.offset, page, g.NumPages(e.size));
      ghost var mid := mem[..];
      StoreFrame(g, img, mid, bank, log);
      AddRow(slot, e);
      ReservedThen(g, img, mid, mem[..], page, g.NumPages(e.size));
    }

    /** Erases the pages of a new blob and logs it. */
    method LogLarge(e: Entry, page: nat)
      requires Sound() && settings != -1 && EntryOk(e) && IsLarge(e.key) && FreeSpace() >= ENTRY
      requires page + g.NumPages(e.size) <= g.DataPages() && e.offset == g.PageAddr(page)
      requires LargesOk(g, Holds().large[e.key := Blob(e)])
      modifies this`lastEntry, this`log, this`trace, mem
      ensures Sound() && Generation() == old(Generation())
      ensures Holds() == Added(old(Holds()), e, [])
      ensures Reserved(g, old(mem[..]), mem[..], page, g.NumPages(e.size))
    {
      assert Weight(log) + ENTRY <= g.Bank() - HEADER - ENTRY && lastEntry + ENTRY == Slot(bank, |log|);
      DataBytesSnoc(log, e);
      ghost var v := Added(Holds(), e, []);
      assert v.large == Holds().large[e.key := Blob(e)];
      lastEntry := lastEntry + ENTRY;
      AddLarge(lastEntry, e, page);
      log := log + [e];
      assert Holds() == v && FlashOk();
    }

    /** Logs a large entry and marks its pages. */
    method LogAndMark(e: Entry, page: nat)
      requires Sound() && settings != -1 && EntryOk(e) && IsLarge(e.key) && FreeSpace() >= ENTRY
      requires page + g.NumPages(e.size) <= g.DataPages() && e.offset == g.PageAddr(page)
      requires LargesOk(g, Holds().large[e.key := Blob(e)]) && BlobOk(g, Blob(e))
      requires CoversBut(g, used[..], Holds().large, e.key)
      modifies this`lastEntry, this`log, this`trace, mem, used
      ensures Valid() && Generation() == old(Generation())
      ensures Holds() == Added(old(Holds()), e, [])
      ensures used[..] == WithRun(g, old(used[..]), Blob(e))
      ensures Reserved(g, old(mem[..]), mem[..], page, g.NumPages(e.size))
    {
      LogLarge(e, page);
      ghost var was := used[..];
      MarkLarge(Blob(e), true);
      assert used[..] == WithRun(g, was, Blob(e));
      MarkedCovers(g, was, used[..], Holds().large, e.key, Blob(e));
    }

    /**
     * Looks for free pages for a new blob of `key`, whose old pages, if any, may be taken.
     * When there are none the old pages are marked again.
     */
    method Search(key: CString, e: int, size: nat) returns (r: FreeRun)
      requires Valid() && settings != -1 && IsEntryFor(e, key) && IsLarge(key) && 1 <= g.NumPages(size)
      modifies used
      ensures Sound() && mem[..] == old(mem[..])
      ensures r.Panicked? <==> g.NumPages(size) > g.DataPages()
      ensures r.NoRun? ==> Valid() && used[..] == old(used[..])
      ensures r.Found? ==> CoversBut(g, used[..], Holds().large, key) && FreeFrom(used[..], r.page, g.NumPages(size))
      ensures var free := Unmarked(g, old(used[..]), Holds().large, key);
        && (r.Found? <==> HasRun(free, g.NumPages(size)))
        && (r.Found? ==> used[..] == free && FirstRun(free, r.page, g.NumPages(size)))
    {
      FoundEntry(key, e);
      if e != -1 {
        MarkLarge(Blob(ReadEntry(mem[..], e)), false);
      }
      assert used[..] == Unmarked(g, old(used[..]), Holds().large, key);
      r := FindFreeData(size);
      if r.Found? {
        assert FreeFrom(used[..], r.page, g.NumPages(size));
      }
      if r.NoRun? && e != -1 {
        MarkLarge(Blob(ReadEntry(mem[..], e)), true);
        assert used[..] == old(used[..]);
      }
    }

    /**
     * Reserves pages for `size` bytes under `key`; the caller then writes them. Sizes within
     * one page of 2^32 are excluded: their page count wraps around to 0, for which the
     * source's search does not end.
     */
    method PrepLarge(key: Option<CString>, size: nat) returns (r: Prepared)
      requires Valid() && Generation() < MAX_GEN - 1 && size < WORD && 1 <= g.NumPages(size)
      modifies this, mem, used
      ensures r.Asserted? <==> LargeKeyOk(key) && g.NumPages(size) > g.DataPages()
      ensures !r.Asserted? ==> Valid() && Generation() <= old(Generation()) + 2
      ensures r.Failed? <==>
        || !LargeKeyOk(key)
        || (g.NumPages(size) <= g.DataPages() && !CanPlace(g, old(Marks()), old(Holds()), key.value, size))
      ensures r.Ready? ==> FirstRun(Unmarked(g, old(Marks()), old(Holds()).large, key.value), r.page, g.NumPages(size))
      ensures r.Failed? ==> KeptOrExact(g, old(Marks()), Marks(), old(Holds()).large)
      ensures r.Ready? ==> MovedOrExact(g, old(Marks()), Marks(), old(Holds()).large, key.value, (g.PageAddr(r.page), size))
      ensures r.Ready? && old(settings) != -1 && key.value in old(Holds()).large ==>
        forall p :: 0 <= p < g.DataPages() && InRun(g, old(Holds()).large[key.value], p) && !(r.page <= p < r.page + g.NumPages(size)) ==>
          (Marks()[p] <==> old(FreeSpace()) < ENTRY)
      ensures !r.Ready? ==> Holds() == old(Holds()) && SameIn(old(mem[..]), mem[..], 2 * g.Bank(), mem.Length)
      ensures r.Ready? ==>
        && r.page + g.NumPages(size) <= g.DataPages()
        && Holds() == old(Holds()).(large := old(Holds()).large[key.value := (g.PageAddr(r.page), size)])
        && Reserved(g, old(mem[..]), mem[..], r.page, g.NumPages(size))
    {
      if !LargeKeyOk(key) {
        return Failed;
      }
      var e := FindEntry(key.value);
      var found := Search(key.value, e, size);
      if found.Panicked? {
        return Asserted;
      }
      if found.NoRun? {
        return Failed;
      }
      ghost var mid := mem[..];
      var ok := Claim(key.value, size, found.page);
      if ok {
        PageOfAddr(g, found.page);
        ReservedAfter(g, old(mem[..]), mid, mem[..], found.page, g.NumPages(size));
      }
      r := if ok then Ready(found.page) else Failed;
    }

    /** Logs a blob at a run of free pages, collecting garbage first when there is no room for its row. */
    method Claim(key: CString, size: nat, page: nat) returns (ok: bool)
      requires Sound() && settings != -1 && Generation() < MAX_GEN && LargeKeyOk(Some(key)) && size < WORD
      requires CoversBut(g, used[..], Holds().large, key)
      requires 1 <= g.NumPages(size) && FreeFrom(used[..], page, g.NumPages(size))
      modifies this, mem, used
      ensures Valid() && Generation() <= old(Generation()) + 1
      ensures ok <==> !NoRoom(g, old(Holds()), ENTRY)
      ensures settings != -1
      ensures !ok ==> used[..] == AllUsed(g, old(Holds()).large)
      ensures var was := if old(FreeSpace()) >= ENTRY then old(used[..]) else AllUsed(g, old(Holds()).large);
        ok ==> used[..] == WithRun(g, was, (g.PageAddr(page), size))
      ensures !ok ==> Holds() == old(Holds()) && SameIn(old(mem[..]), mem[..], 2 * g.Bank(), mem.Length)
      ensures ok ==>
        && Holds() == old(Holds()).(large := old(Holds()).large[key := (g.PageAddr(page), size)])
        && Reserved(g, old(mem[..]), mem[..], page, g.NumPages(size))
    {
      PageOfAddr(g, page);
      var e := Entry(key, g.PageAddr(page), size);
      FreeRunIsApart(g, used[..], Holds().large, key, Blob(e));
      ghost var img := mem[..];
      ok := MakeRoom(ENTRY, Holds());
      if ok {
        ghost var mid := mem[..];
        LogAndMark(e, page);
        ReservedAfter(g, img, mid, mem[..], page, g.NumPages(size));
      }
    }

    /** The latest blob of `key`: where it is and how long. */
    method GetLarge(key: Option<CString>) returns (r: Option<(nat, nat)>)
      requires Valid()
      modifies this, mem, used
      ensures Valid() && Holds() == old(Holds()) && Generation() <= old(Generation()) + 1
      ensures Marks() == old(Marks())
      ensures SameIn(old(mem[..]), mem[..], 2 * g.Bank(), mem.Length)
      ensures r == if LargeKeyOk(key) && key.value in Holds().large then Some(Holds().large[key.value]) else None
    {
      if !LargeKeyOk(key) {
        return None;
      }
      var e := FindEntry(key.value);
      FoundEntry(key.value, e);
      if e == -1 {
        return None;
      }
      var ent := ReadEntry(mem[..], e);
      r := Some(Blob(ent));
    }

    /** Fills reserved pages; settings and the places of blobs are not affected. */
    method WriteLarge(dst: nat, src: seq<byte>)
      requires Valid() && 2 * g.Bank() <= dst && dst + |src| <= mem.Length
      requires ErasedFromTo(mem[..], dst, dst + |src|)
      modifies mem, this`trace
      ensures Valid() && Holds() == old(Holds()) && Generation() == old(Generation())
      ensures mem[..] == Program(old(mem[..]), dst, src)
    {
      ghost var img := mem[..];
      FlashProgram(dst, src);
      BanksKept(img);
      GenKept(g, img, mem[..], bank);
    }

    /** The flash still holds the same store when only data pages differ from `img`. */
    lemma BanksKept(img: seq<byte>)
      requires Shape() && |img| == g.Total() && SameIn(img, mem[..], 0, 2 * g.Bank())
      requires if bank == -1 then log == [] && !HeaderOk(g, img, 0) && !HeaderOk(g, img, g.Bank())
               else bank >= 0 && FlashImage.Store(g, img, bank, log)
      ensures FlashOk() && Holds() == ViewOf(img, log)
    {
      if bank >= 0 {
        StoreFrame(g, img, mem[..], bank, log);
      } else {
        HeaderFrame(g, img, mem[..], 0);
        HeaderFrame(g, img, mem[..], g.Bank());
      }
    }
  }
}
