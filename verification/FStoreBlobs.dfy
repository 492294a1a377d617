/** Large blobs by content: storing one keeps the bytes of all others, and so does everything else. */
module FStoreBlobs {
  import opened Bytes
  import opened FlashImage
  import opened FStore

  type Contents = map<CString, seq<byte>>

  function BytesAt(img: seq<byte>, b: (nat, nat)): seq<byte> {
    if b.0 + b.1 <= |img| then img[b.0..b.0 + b.1] else []
  }

  /** The bytes of all blobs. */
  function ContentsOf(img: seq<byte>, large: map<CString, (nat, nat)>): Contents {
    map k | k in large :: BytesAt(img, large[k])
  }

  lemma PaddedIsEnough(size: nat, page: nat)
    requires page > 0 && size > 0
    ensures var n := (size + page - 1) / page; n >= 1 && (n - 1) * page < size <= n * page
  {
    var n := (size + page - 1) / page;
    assert size + page - 1 == n * page + (size + page - 1) % page;
    assert (n - 1) * page == n * page - page;
  }

  lemma SmallDivision(x: nat, page: nat)
    requires x < page
    ensures x / page == 0
  {
  }

  lemma PageByItself(page: nat)
    requires page > 0
    ensures page / page == 1
  {
  }

  /** The pages of a blob have room for it, and no fewer would; for sizes near 2^32 the count is 0. */
  lemma PagesAreEnough(g: Geometry, size: nat)
    requires g.Ok() && size < WORD
    ensures g.NumPages(size) == 0 <==> size + g.page > WORD
    ensures 1 <= g.NumPages(size) ==> size <= Times(g.NumPages(size), g.page)
    ensures 1 <= g.NumPages(size) && size > 0 ==> Times(g.NumPages(size) - 1, g.page) < size
  {
    var n := g.NumPages(size);
    TimesMono(1, g.totalPages, g.page);
    TimesIsProduct(n, g.page);
    if size == 0 {
      PageByItself(g.page);
    } else if size + g.page - 1 >= WORD {
      SmallDivision((size + g.page - 1) % WORD, g.page);
    } else {
      PaddedIsEnough(size, g.page);
      TimesIsProduct(n - 1, g.page);
    }
  }

  lemma BlobBounds(g: Geometry, b: (nat, nat))
    requires g.Ok() && BlobOk(g, b)
    ensures 2 * g.Bank() <= b.0 && b.0 + b.1 <= g.PageAddr(RunStart(g, b) + g.NumPages(b.1)) <= g.Total()
  {
    PagesAreEnough(g, b.1);
    TimesSum(2 * g.headerPages + RunStart(g, b), g.NumPages(b.1), g.page);
  }

  lemma BlobSame(g: Geometry, img: seq<byte>, img': seq<byte>, b: (nat, nat))
    requires g.Ok() && BlobOk(g, b) && |img| == |img'| == g.Total()
    requires SameIn(img, img', 2 * g.Bank(), g.Total())
    ensures BytesAt(img, b) == BytesAt(img', b)
  {
    BlobBounds(g, b);
    var x, y := BytesAt(img, b), BytesAt(img', b);
    forall j | 0 <= j < b.1
      ensures x[j] == y[j]
    {
      assert img[b.0 + j] == img'[b.0 + j];
    }
  }

  lemma ContentsSame(g: Geometry, img: seq<byte>, img': seq<byte>, large: map<CString, (nat, nat)>)
    requires g.Ok() && LargesOk(g, large) && |img| == |img'| == g.Total()
    requires SameIn(img, img', 2 * g.Bank(), g.Total())
    ensures ContentsOf(img, large) == ContentsOf(img', large)
  {
    forall k | k in large
      ensures BytesAt(img, large[k]) == BytesAt(img', large[k])
    {
      BlobSame(g, img, img', large[k]);
    }
  }

  /** `mid` has the pages of blob `b` reserved, `img'` has its content as well. */
  ghost predicate Filled(g: Geometry, img: seq<byte>, mid: seq<byte>, img': seq<byte>, b: (nat, nat), content: seq<byte>) {
    && g.Ok() && BlobOk(g, b) && |img| == |mid| == g.Total()
    && Reserved(g, img, mid, RunStart(g, b), g.NumPages(b.1))
    && |content| == b.1 && b.0 + b.1 <= |mid| && img' == Program(mid, b.0, content)
  }

  lemma FilledByte(g: Geometry, img: seq<byte>, mid: seq<byte>, img': seq<byte>, b: (nat, nat), content: seq<byte>,
                   lo: nat, hi: nat, i: nat)
    requires Filled(g, img, mid, img', b, content) && SameIn(img, mid, lo, hi)
    requires lo <= i < hi <= |img| && (i < b.0 || b.0 + b.1 <= i)
    ensures |img'| == |img| && img'[i] == img[i]
  {
    assert img'[i] == mid[i] == img[i];
  }

  /** Reserving pages for one blob and writing it keeps another. */
  lemma OtherKept(g: Geometry, img: seq<byte>, mid: seq<byte>, img': seq<byte>, b: (nat, nat), c: (nat, nat),
                  content: seq<byte>)
    requires Filled(g, img, mid, img', b, content) && BlobOk(g, c) && Apart(g, b, c)
    ensures BytesAt(img', c) == BytesAt(img, c)
  {
    BlobBounds(g, b);
    BlobBounds(g, c);
    OtherBlobKept(g, img, mid, b, c);
    OutsideRun(g, b, c);
    var end := g.PageAddr(RunStart(g, c) + g.NumPages(c.1));
    var x, y := BytesAt(img', c), BytesAt(img, c);
    forall j | 0 <= j < c.1
      ensures x[j] == y[j]
    {
      FilledByte(g, img, mid, img', b, content, c.0, end, c.0 + j);
    }
  }

  lemma OutsideRun(g: Geometry, b: (nat, nat), c: (nat, nat))
    requires g.Ok() && BlobOk(g, b) && BlobOk(g, c) && Apart(g, b, c)
    ensures c.0 + c.1 <= b.0 || b.0 + b.1 <= c.0
  {
    BlobBounds(g, b);
    BlobBounds(g, c);
    var bs, cs := RunStart(g, b), RunStart(g, c);
    if cs + g.NumPages(c.1) <= bs {
      TimesMono(2 * g.headerPages + (cs + g.NumPages(c.1)), 2 * g.headerPages + bs, g.page);
    } else {
      TimesMono(2 * g.headerPages + (bs + g.NumPages(b.1)), 2 * g.headerPages + cs, g.page);
    }
  }

  lemma OwnContent(g: Geometry, img: seq<byte>, mid: seq<byte>, img': seq<byte>, b: (nat, nat), content: seq<byte>)
    requires Filled(g, img, mid, img', b, content)
    ensures BytesAt(img', b) == content
  {
  }

  /** Storing a blob changes the contents at its key only. */
  lemma ContentsPut(g: Geometry, img: seq<byte>, mid: seq<byte>, img': seq<byte>,
                    large: map<CString, (nat, nat)>, key: CString, b: (nat, nat), content: seq<byte>)
    requires Filled(g, img, mid, img', b, content) && LargesOk(g, large[key := b])
    ensures ContentsOf(img', large[key := b]) == ContentsOf(img, large)[key := content]
  {
    var now := large[key := b];
    OwnContent(g, img, mid, img', b, content);
    forall k | k in large && k != key
      ensures BytesAt(img', now[k]) == BytesAt(img, large[k])
    {
      assert Apart(g, now[key], now[k]) && BlobOk(g, now[k]);
      OtherKept(g, img, mid, img', b, now[k], content);
    }
  }

  /** The contents of the blobs of a store. */
  ghost function Blobs(s: Store): Contents
    reads s, s.mem
  {
    ContentsOf(s.mem[..], s.Holds().large)
  }

  /** Reserves pages for a blob and fills them; tells whether that was possible. */
  method PutLarge(s: Store, key: Option<CString>, content: seq<byte>) returns (ok: bool)
    requires s.Valid() && s.Generation() < MAX_GEN - 1
    requires |content| < WORD && 1 <= s.g.NumPages(|content|) <= s.g.DataPages()
    modifies s, s.mem, s.used
    ensures s.Valid() && s.Generation() <= old(s.Generation()) + 2
    ensures ok <==> LargeKeyOk(key) && CanPlace(s.g, old(s.Marks()), old(s.Holds()), key.value, |content|)
    ensures s.Holds().small == old(s.Holds().small)
    ensures Blobs(s) == if ok then old(Blobs(s))[key.value := content] else old(Blobs(s))
    ensures !ok ==> s.Holds() == old(s.Holds()) && KeptOrExact(s.g, old(s.Marks()), s.Marks(), s.Holds().large)
    ensures ok ==> key.value in s.Holds().large && var b := s.Holds().large[key.value];
      && s.Holds().large == old(s.Holds().large)[key.value := b] && b.1 == |content|
      && PlacedFirst(s.g, old(s.Marks()), old(s.Holds()).large, key.value, b)
      && MovedOrExact(s.g, old(s.Marks()), s.Marks(), old(s.Holds()).large, key.value, b)
  {
    ghost var img, was := s.mem[..], s.Holds();
    var r := s.PrepLarge(key, |content|);
    ok := r.Ready?;
    if ok {
      PageOfAddr(s.g, r.page);
      Fill(s, key.value, content, r.page, img, was);
    } else {
      ContentsSame(s.g, img, s.mem[..], was.large);
    }
  }

  /** Fills the pages reserved for a blob. */
  method Fill(s: Store, key: CString, content: seq<byte>, page: nat, ghost img: seq<byte>, ghost was: View)
    requires s.Valid() && |content| < WORD && 1 <= s.g.NumPages(|content|)
    requires page + s.g.NumPages(|content|) <= s.g.DataPages() && |img| == |s.mem[..]|
    requires s.Holds() == was.(large := was.large[key := (s.g.PageAddr(page), |content|)])
    requires Reserved(s.g, img, s.mem[..], page, s.g.NumPages(|content|))
    modifies s.mem, s`trace
    ensures s.Valid() && s.Holds() == old(s.Holds()) && s.Generation() == old(s.Generation()) && s.Marks() == old(s.Marks())
    ensures Blobs(s) == ContentsOf(img, was.large)[key := content]
  {
    ghost var mid := s.mem[..];
    var p := s.g.PageAddr(page);
    ghost var b := (p, |content|);
    PageOfAddr(s.g, page);
    BlobBounds(s.g, b);
    s.WriteLarge(p, content);
    ContentsPut(s.g, img, mid, s.mem[..], was.large, key, b, content);
  }

  /** Reads a blob. */
  method ReadLarge(s: Store, key: Option<CString>) returns (r: Option<seq<byte>>)
    requires s.Valid()
    modifies s, s.mem, s.used
    ensures s.Valid() && s.Holds() == old(s.Holds()) && s.Generation() <= old(s.Generation()) + 1
    ensures Blobs(s) == old(Blobs(s)) && s.Marks() == old(s.Marks())
    ensures r == if LargeKeyOk(key) && key.value in Blobs(s) then Some(Blobs(s)[key.value]) else None
  {
    ghost var img := s.mem[..];
    var b := s.GetLarge(key);
    ContentsSame(s.g, img, s.mem[..], s.Holds().large);
    r := ReadAt(s, b);
  }

  method ReadAt(s: Store, b: Option<(nat, nat)>) returns (r: Option<seq<byte>>)
    ensures r == if b == None then None else Some(BytesAt(s.mem[..], b.value))
  {
    if b == None {
      return None;
    }
    var (p, n) := b.value;
    r := Some(if p + n <= s.mem.Length then s.mem[p..p + n] else []);
  }
}
