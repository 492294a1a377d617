/**
 * Whole runs of the store: any sequence of writes and reads of settings and of large blobs, of
 * remounts, of collections and of power cuts inside collections behaves as two maps from keys to
 * byte strings.
 */
module FStoreRuns {
  import opened Bytes
  import opened FlashImage
  import opened LiveWeight
  import FStore
  import FStoreBlobs

  datatype Op =
    | Set(key: Option<CString>, val: seq<byte>)
    | Get(key: Option<CString>)
    | SetLarge(key: Option<CString>, val: seq<byte>)
    | GetLarge(key: Option<CString>)
    | Remount
    | Collect
    | Cut(steps: nat) // a collection, in which the power fails after some of its erase and program steps

  /** `Null` is the null pointer of the calls for large blobs. */
  datatype Reply = Code(code: int) | Data(val: seq<byte>) | Null

  /** What a store holds, by content. */
  datatype Holdings = Holdings(small: map<CString, seq<byte>>, large: map<CString, seq<byte>>)

  /** Where it holds the blobs, and which pages are marked as used. */
  datatype Places = Places(view: View, marks: seq<bool>)

  ghost function HoldingsOf(s: FStore.Store): Holdings
    reads s, s.mem
  {
    Holdings(s.Holds().small, FStoreBlobs.Blobs(s))
  }

  ghost function PlacesOf(s: FStore.Store): Places
    requires s.Shape()
    reads s, s.mem, s.used
  {
    Places(s.Holds(), s.Marks())
  }

  /** The places are those of blobs with these contents: in range, disjoint and marked. */
  ghost predicate Agrees(g: Geometry, m: Holdings, at: Places)
    requires g.Ok()
  {
    && at.view.small == m.small && at.view.large.Keys == m.large.Keys
    && (forall k :: k in m.large ==> at.view.large[k].1 == |m.large[k]|)
    && FStore.LargesOk(g, at.view.large)
    && |at.marks| == g.DataPages() && FStore.Covers(g, at.marks, at.view.large)
  }

  /**
   * How an operation with reply `r` changes the places and the marks. A new blob goes to the first run of
   * pages that are free, its own old ones included; other blobs stay where they are. The marks are
   * exact after a restart or a collection, and whenever they are changed without need.
   */
  ghost predicate Follows(g: Geometry, at: Places, at': Places, op: Op, r: Reply)
    requires g.Ok()
  {
    match op
    case Set(_, _) => SamePlaces(at, at') && FStore.KeptOrExact(g, at.marks, at'.marks, at.view.large)
    case Get(_) => SamePlaces(at, at') && at'.marks == at.marks
    case SetLarge(key, val) =>
      if r == Code(0) && key.Some? then BlobPlaced(g, at, at', key.value, |val|)
      else SamePlaces(at, at') && FStore.KeptOrExact(g, at.marks, at'.marks, at.view.large)
    case GetLarge(_) => SamePlaces(at, at') && at'.marks == at.marks
    case _ => SamePlaces(at, at') && at'.marks == FStore.AllUsed(g, at.view.large)
  }

  ghost predicate SamePlaces(at: Places, at': Places) {
    at'.view.large == at.view.large
  }

  ghost predicate BlobPlaced(g: Geometry, at: Places, at': Places, key: CString, size: nat)
    requires g.Ok()
  {
    && key in at'.view.large
    && var b := at'.view.large[key];
      && at'.view.large == at.view.large[key := b] && b.1 == size
      && FStore.PlacedFirst(g, at.marks, at.view.large, key, b)
      && FStore.MovedOrExact(g, at.marks, at'.marks, at.view.large, key, b)
  }

  /** The holdings after one operation: only a write that reports success changes them, at its key. */
  function After(m: Holdings, op: Op, r: Reply): Holdings {
    if r != Code(0) then m
    else if op.Set? && op.key.Some? then m.(small := m.small[op.key.value := op.val])
    else if op.SetLarge? && op.key.Some? then m.(large := m.large[op.key.value := op.val])
    else m
  }

  /** The holdings after the first `n` operations. */
  function AfterAll(m: Holdings, ops: seq<Op>, rs: seq<Reply>, n: nat): Holdings
    requires n <= |ops| && n <= |rs|
  {
    if n == 0 then m else After(AfterAll(m, ops, rs, n - 1), ops[n - 1], rs[n - 1])
  }

  /**
   * The reply that maps with the holdings `m` give. A write of a setting is refused exactly when its key or
   * size is not allowed, or when there is no room for it beside everything that is held; one of a
   * blob exactly when its key is not allowed, no run of pages that is tried is free, or there is no
   * room for its row.
   */
  ghost function Answer(g: Geometry, m: Holdings, at: Places, op: Op): Reply
    requires g.Ok()
  {
    match op
    case Set(key, val) =>
      Code(FStore.SetCode(g, at.view, key, val))
    case Get(key) =>
      if !FStore.KeyOk(key) then Code(FStore.KEY_ERROR)
      else if key.value !in m.small then Code(FStore.NOT_FOUND)
      else Data(m.small[key.value])
    case SetLarge(key, val) =>
      if FStore.LargeKeyOk(key) && FStore.CanPlace(g, at.marks, at.view, key.value, |val|) then Code(0) else Null
    case GetLarge(key) =>
      if FStore.LargeKeyOk(key) && key.value in m.large then Data(m.large[key.value]) else Null
    case Remount => Code(0)
    case Collect => Code(0)
    case Cut(_) => Code(0)
  }

  /**
   * The replies `rs` to the first operations of `ops` are those of maps that start out as `m`, and `ats`
   * are the places before each of them and after the last.
   */
  ghost predicate Behaves(g: Geometry, m: Holdings, ops: seq<Op>, rs: seq<Reply>, ats: seq<Places>)
    requires g.Ok()
  {
    && |rs| <= |ops| && |ats| == |rs| + 1 && Agrees(g, m, ats[0])
    && forall i {:trigger FitsAt(g, m, ops, rs, ats, i)} :: 0 <= i < |rs| ==> FitsAt(g, m, ops, rs, ats, i)
  }

  ghost predicate FitsAt(g: Geometry, m: Holdings, ops: seq<Op>, rs: seq<Reply>, ats: seq<Places>, i: nat)
    requires g.Ok() && i < |rs| <= |ops| && |ats| == |rs| + 1
  {
    && rs[i] == Answer(g, AfterAll(m, ops, rs, i), ats[i], ops[i])
    && Follows(g, ats[i], ats[i + 1], ops[i], rs[i])
    && Agrees(g, AfterAll(m, ops, rs, i + 1), ats[i + 1])
  }

  lemma {:induction false} AfterAllSnoc(m: Holdings, ops: seq<Op>, rs: seq<Reply>, r: Reply, n: nat)
    requires n <= |rs| <= |ops|
    ensures AfterAll(m, ops, rs + [r], n) == AfterAll(m, ops, rs, n)
  {
    if n > 0 {
      AfterAllSnoc(m, ops, rs, r, n - 1);
    }
  }

  lemma BehavesSnoc(g: Geometry, m: Holdings, ops: seq<Op>, rs: seq<Reply>, ats: seq<Places>, r: Reply, at: Places)
    requires g.Ok() && Behaves(g, m, ops, rs, ats) && |rs| < |ops|
    requires r == Answer(g, AfterAll(m, ops, rs, |rs|), ats[|rs|], ops[|rs|])
    requires Follows(g, ats[|rs|], at, ops[|rs|], r) && Agrees(g, After(AfterAll(m, ops, rs, |rs|), ops[|rs|], r), at)
    ensures Behaves(g, m, ops, rs + [r], ats + [at])
    ensures AfterAll(m, ops, rs + [r], |rs| + 1) == After(AfterAll(m, ops, rs, |rs|), ops[|rs|], r)
  {
    AfterAllSnoc(m, ops, rs, r, |rs|);
    forall i | 0 <= i < |rs| + 1
      ensures FitsAt(g, m, ops, rs + [r], ats + [at], i)
    {
      if i < |rs| {
        AfterAllSnoc(m, ops, rs, r, i);
        AfterAllSnoc(m, ops, rs, r, i + 1);
        assert FitsAt(g, m, ops, rs, ats, i);
      }
    }
  }

  lemma AnswerAt(g: Geometry, m: Holdings, ops: seq<Op>, rs: seq<Reply>, ats: seq<Places>, i: nat)
    requires g.Ok() && Behaves(g, m, ops, rs, ats) && i < |rs|
    ensures rs[i] == Answer(g, AfterAll(m, ops, rs, i), ats[i], ops[i])
  {
    assert FitsAt(g, m, ops, rs, ats, i);
  }

  lemma PlacesAt(g: Geometry, m: Holdings, ops: seq<Op>, rs: seq<Reply>, ats: seq<Places>, i: nat)
    requires g.Ok() && Behaves(g, m, ops, rs, ats) && i < |ats|
    ensures Agrees(g, AfterAll(m, ops, rs, i), ats[i])
    ensures i < |rs| ==> Follows(g, ats[i], ats[i + 1], ops[i], rs[i])
  {
    if i > 0 {
      assert FitsAt(g, m, ops, rs, ats, i - 1);
    }
    if i < |rs| {
      assert FitsAt(g, m, ops, rs, ats, i);
    }
  }

  /** A page is marked after an operation only if it was before, or belongs to the blob just stored. */
  lemma MarksBelow(g: Geometry, m: Holdings, ops: seq<Op>, rs: seq<Reply>, ats: seq<Places>, i: nat, p: nat)
    requires g.Ok() && Behaves(g, m, ops, rs, ats) && i < |rs| && p < g.DataPages()
    ensures |ats[i].marks| == |ats[i + 1].marks| == g.DataPages()
    ensures ats[i + 1].marks[p] ==>
      || ats[i].marks[p]
      || (ops[i].SetLarge? && rs[i] == Code(0) && ops[i].key.Some? && ops[i].key.value in ats[i + 1].view.large
          && FStore.InRun(g, ats[i + 1].view.large[ops[i].key.value], p))
  {
    PlacesAt(g, m, ops, rs, ats, i);
    PlacesAt(g, m, ops, rs, ats, i + 1);
    ExactIsBelow(g, ats[i], p);
  }

  lemma ExactIsBelow(g: Geometry, at: Places, p: nat)
    requires g.Ok() && |at.marks| == g.DataPages() && FStore.Covers(g, at.marks, at.view.large) && p < g.DataPages()
    ensures FStore.AllUsed(g, at.view.large)[p] ==> at.marks[p]
  {
  }

  /** Right after a restart or a collection, whether a blob is refused depends on what is held alone. */
  lemma RefusedIff(g: Geometry, m: Holdings, ops: seq<Op>, rs: seq<Reply>, ats: seq<Places>, i: nat)
    requires g.Ok() && Behaves(g, m, ops, rs, ats) && 0 < i < |rs|
    requires ops[i - 1].Remount? || ops[i - 1].Collect? || ops[i - 1].Cut?
    requires ops[i].SetLarge? && FStore.LargeKeyOk(ops[i].key)
    ensures rs[i] == Null <==>
      !FStore.CanPlace(g, FStore.AllUsed(g, ats[i].view.large), ats[i].view, ops[i].key.value, |ops[i].val|)
  {
    PlacesAt(g, m, ops, rs, ats, i - 1);
    AnswerAt(g, m, ops, rs, ats, i);
  }

  /** A read returns what the last successful write of its key wrote. */
  lemma {:induction false} ReadsLastWrite(g: Geometry, m: Holdings, ops: seq<Op>, rs: seq<Reply>, ats: seq<Places>, j: nat, i: nat)
    requires g.Ok() && Behaves(g, m, ops, rs, ats) && |rs| == |ops| && j < i <= |ops|
    requires ops[j].Set? && rs[j] == Code(0)
    requires forall k :: j < k < i && ops[k].Set? && rs[k] == Code(0) ==> ops[k].key != ops[j].key
    ensures FStore.KeyOk(ops[j].key)
    ensures var m' := AfterAll(m, ops, rs, i); ops[j].key.value in m'.small && m'.small[ops[j].key.value] == ops[j].val
    ensures i < |ops| && ops[i] == Get(ops[j].key) ==> rs[i] == Data(ops[j].val)
    decreases i
  {
    AnswerAt(g, m, ops, rs, ats, j);
    if i > j + 1 {
      ReadsLastWrite(g, m, ops, rs, ats, j, i - 1);
      AnswerAt(g, m, ops, rs, ats, i - 1);
    }
    if i < |ops| {
      AnswerAt(g, m, ops, rs, ats, i);
    }
  }

  lemma KeepsBlob(m: Holdings, op: Op, r: Reply, key: CString)
    requires key in m.large && !(op.SetLarge? && r == Code(0) && op.key == Some(key))
    ensures key in After(m, op, r).large && After(m, op, r).large[key] == m.large[key]
  {
  }

  /** The same for large blobs, whatever happens to settings and other blobs in between. */
  lemma {:induction false} ReadsLastBlob(g: Geometry, m: Holdings, ops: seq<Op>, rs: seq<Reply>, ats: seq<Places>, j: nat, i: nat)
    requires g.Ok() && Behaves(g, m, ops, rs, ats) && |rs| == |ops| && j < i <= |ops|
    requires ops[j].SetLarge? && rs[j] == Code(0)
    requires forall k :: j < k < i && ops[k].SetLarge? && rs[k] == Code(0) ==> ops[k].key != ops[j].key
    ensures FStore.LargeKeyOk(ops[j].key)
    ensures var m' := AfterAll(m, ops, rs, i); ops[j].key.value in m'.large && m'.large[ops[j].key.value] == ops[j].val
    ensures i < |ops| && ops[i] == GetLarge(ops[j].key) ==> rs[i] == Data(ops[j].val)
    decreases i
  {
    AnswerAt(g, m, ops, rs, ats, j);
    if i > j + 1 {
      ReadsLastBlob(g, m, ops, rs, ats, j, i - 1);
      KeepsBlob(AfterAll(m, ops, rs, i - 1), ops[i - 1], rs[i - 1], ops[j].key.value);
    }
    if i < |ops| {
      AnswerAt(g, m, ops, rs, ats, i);
    }
  }

  /** Writing what is there already always succeeds, also in a full store, and changes nothing. */
  lemma RewriteSucceeds(g: Geometry, m: Holdings, ops: seq<Op>, rs: seq<Reply>, ats: seq<Places>, j: nat, i: nat)
    requires g.Ok() && Behaves(g, m, ops, rs, ats) && |rs| == |ops| && j < i < |ops|
    requires ops[j].Set? && rs[j] == Code(0) && ops[i] == ops[j]
    requires forall k :: j < k < i && ops[k].Set? && rs[k] == Code(0) ==> ops[k].key != ops[j].key
    ensures rs[i] == Code(0) && AfterAll(m, ops, rs, i + 1) == AfterAll(m, ops, rs, i)
  {
    var key, val := ops[j].key, ops[j].val;
    ReadsLastWrite(g, m, ops, rs, ats, j, i);
    AnswerAt(g, m, ops, rs, ats, j);
    AnswerAt(g, m, ops, rs, ats, i);
    PlacesAt(g, m, ops, rs, ats, i);
    FStore.SetCodeMeans(g, ats[j].view, key, val);
    FStore.SetCodeMeans(g, ats[i].view, key, val);
    var m' := AfterAll(m, ops, rs, i);
    assert m'.small[key.value := val] == m'.small;
  }

  /** A key that was never written is not held. */
  lemma {:induction false} NeverHeld(m: Holdings, ops: seq<Op>, rs: seq<Reply>, key: CString, i: nat)
    requires i <= |ops| && i <= |rs|
    requires forall k :: 0 <= k < i && rs[k] == Code(0) && (ops[k].Set? || ops[k].SetLarge?) ==> ops[k].key != Some(key)
    ensures key !in m.small ==> key !in AfterAll(m, ops, rs, i).small
    ensures key !in m.large ==> key !in AfterAll(m, ops, rs, i).large
  {
    if i > 0 {
      NeverHeld(m, ops, rs, key, i - 1);
    }
  }

  /** Reading what was never written gives -2 for a setting, and no place for a blob. */
  lemma ReadsNothing(g: Geometry, m: Holdings, ops: seq<Op>, rs: seq<Reply>, ats: seq<Places>, key: CString, i: nat)
    requires g.Ok() && Behaves(g, m, ops, rs, ats) && |rs| == |ops| && i < |ops|
    requires key !in m.small && key !in m.large
    requires forall k :: 0 <= k < i && rs[k] == Code(0) && (ops[k].Set? || ops[k].SetLarge?) ==> ops[k].key != Some(key)
    ensures ops[i] == Get(Some(key)) && |key| <= 15 && (key == [] || key[0] != 42) ==> rs[i] == Code(-2)
    ensures ops[i] == GetLarge(Some(key)) ==> rs[i] == Null
  {
    NeverHeld(m, ops, rs, key, i);
    AnswerAt(g, m, ops, rs, ats, i);
  }

  /** What an operation may ask: sizes in 32 bits, and blobs no larger than the data pages. */
  predicate OpOk(g: Geometry, op: Op)
    requires g.Ok()
  {
    (op.Set? || op.SetLarge? ==> |op.val| < WORD)
    && (op.SetLarge? ==> 1 <= g.NumPages(|op.val|) <= g.DataPages())
  }

  /** An operation that leaves the data pages alone keeps the blobs. */
  twostate lemma BlobsKept(s: FStore.Store)
    requires old(s.Valid()) && s.g.Ok() && s.Holds().large == old(s.Holds().large)
    requires s.mem.Length == s.g.Total() && SameIn(old(s.mem[..]), s.mem[..], 2 * s.g.Bank(), s.mem.Length)
    ensures FStoreBlobs.Blobs(s) == old(FStoreBlobs.Blobs(s))
  {
    FStoreBlobs.ContentsSame(s.g, old(s.mem[..]), s.mem[..], s.Holds().large);
  }

  lemma StoreAgrees(s: FStore.Store)
    requires s.Valid()
    ensures Agrees(s.g, HoldingsOf(s), PlacesOf(s))
  {
    SizesAgree(s.g, s.mem[..], s.Holds().large);
  }

  lemma SizesAgree(g: Geometry, img: seq<byte>, large: map<CString, (nat, nat)>)
    requires g.Ok() && |img| == g.Total() && FStore.LargesOk(g, large)
    ensures forall k :: k in large ==> large[k].1 == |FStoreBlobs.ContentsOf(img, large)[k]|
  {
    forall k | k in large
      ensures large[k].1 == |FStoreBlobs.ContentsOf(img, large)[k]|
    {
      FStoreBlobs.BlobBounds(g, large[k]);
    }
  }

  /** The store is the same object, or a new one on the same kind of flash. */
  twostate predicate Replaces(s: FStore.Store, new s': FStore.Store) {
    && s'.g == s.g && (s' == s || fresh(s'))
    && (s'.mem == s.mem || fresh(s'.mem)) && (s'.used == s.used || fresh(s'.used))
  }

  method Perform(s: FStore.Store, op: Op) returns (r: Reply, s': FStore.Store)
    requires s.Valid() && s.Generation() < MAX_GEN - 1 && OpOk(s.g, op)
    modifies s, s.mem, s.used
    ensures Replaces(s, s') && s'.Valid() && s'.Generation() <= old(s.Generation()) + 2
    ensures r == Answer(s.g, old(HoldingsOf(s)), old(PlacesOf(s)), op)
    ensures HoldingsOf(s') == After(old(HoldingsOf(s)), op, r)
    ensures Follows(s.g, old(PlacesOf(s)), PlacesOf(s'), op, r)
  {
    s' := s;
    match op {
      case Set(key, val) => r := Write(s, key, val);
      case Get(key) => r := Fetch(s, key);
      case SetLarge(key, val) =>
        var ok := FStoreBlobs.PutLarge(s, key, val);
        r := if ok then Code(0) else Null;
      case GetLarge(key) =>
        var found := FStoreBlobs.ReadLarge(s, key);
        r := if found == None then Null else Data(found.value);
      case Remount =>
        Restart(s);
        r := Code(0);
      case Collect =>
        Clean(s);
        r := Code(0);
      case Cut(steps) =>
        s' := CutCollection(s, steps);
        r := Code(0);
    }
  }

  method Write(s: FStore.Store, key: Option<CString>, val: seq<byte>) returns (r: Reply)
    requires s.Valid() && s.Generation() < MAX_GEN - 1 && |val| < WORD
    modifies s, s.mem, s.used
    ensures s.Valid() && s.Generation() <= old(s.Generation()) + 2
    ensures r == Answer(s.g, old(HoldingsOf(s)), old(PlacesOf(s)), Set(key, val))
    ensures HoldingsOf(s) == After(old(HoldingsOf(s)), Set(key, val), r)
    ensures Follows(s.g, old(PlacesOf(s)), PlacesOf(s), Set(key, val), r)
  {
    var code := s.SetBin(key, val);
    BlobsKept(s);
    r := Code(code);
  }

  method Restart(s: FStore.Store)
    requires s.Valid()
    modifies s, s.mem, s.used
    ensures s.Valid() && s.Generation() <= old(s.Generation()) + 1 && HoldingsOf(s) == old(HoldingsOf(s))
    ensures s.Holds() == old(s.Holds()) && s.Marks() == FStore.AllUsed(s.g, s.Holds().large)
  {
    s.Remount();
    BlobsKept(s);
  }

  method Clean(s: FStore.Store)
    requires s.Valid() && s.Generation() < MAX_GEN - 1
    modifies s, s.mem, s.used
    ensures s.Valid() && s.Generation() <= old(s.Generation()) + 2 && HoldingsOf(s) == old(HoldingsOf(s))
    ensures s.Holds() == old(s.Holds()) && s.Marks() == FStore.AllUsed(s.g, s.Holds().large)
  {
    s.Init();
    s.Gc();
    BlobsKept(s);
  }

  /**
   * A collection in which the power fails after `steps` of its erase and program steps, or after all
   * of them, and a restart from the image that is then in flash.
   */
  method CutCollection(s: FStore.Store, steps: nat) returns (s': FStore.Store)
    requires s.Valid() && s.Generation() < MAX_GEN - 1
    modifies s, s.mem, s.used
    ensures fresh(s') && fresh(s'.mem) && fresh(s'.used) && s'.g == s.g
    ensures s'.Valid() && s'.Generation() <= old(s.Generation()) + 2 && HoldingsOf(s') == old(HoldingsOf(s))
    ensures s'.Holds() == old(s.Holds()) && s'.Marks() == FStore.AllUsed(s.g, s'.Holds().large)
  {
    s.Init();
    BlobsKept(s);
    s' := CutMounted(s, steps);
  }

  method CutMounted(s: FStore.Store, steps: nat) returns (s': FStore.Store)
    requires s.Valid() && s.settings != -1 && s.Generation() < MAX_GEN
    modifies s, s.mem, s.used
    ensures fresh(s') && fresh(s'.mem) && fresh(s'.used) && s'.g == s.g
    ensures s'.Valid() && s'.Generation() <= old(s.Generation()) + 1 && HoldingsOf(s') == old(HoldingsOf(s))
    ensures s'.Holds() == old(s.Holds()) && s'.Marks() == FStore.AllUsed(s.g, s'.Holds().large)
  {
    var img, from := s.mem[..], |s.trace|;
    ghost var v, gen := s.Holds(), s.Generation();
    SurvivesIn(s.g, img, img, s.bank, s.log, v, gen + 1);
    s.Gc();
    var left := LeftBehind(img, s.trace[from..], steps);
    s' := PowerUp(s.g, img, left, v, gen + 1);
  }

  /** The image after `steps` of the steps that led to the images `imgs`. */
  method LeftBehind(img: seq<byte>, imgs: seq<seq<byte>>, steps: nat) returns (left: seq<byte>)
    ensures left == if steps == 0 || imgs == [] then img else if steps <= |imgs| then imgs[steps - 1] else imgs[|imgs| - 1]
    ensures left == img || exists k :: 0 <= k < |imgs| && imgs[k] == left
  {
    if steps == 0 || imgs == [] {
      return img;
    }
    var k := if steps <= |imgs| then steps - 1 else |imgs| - 1;
    left := imgs[k];
  }

  /** A store on flash that a power cut left behind. */
  method PowerUp(g: Geometry, ghost img: seq<byte>, left: seq<byte>, ghost v: View, ghost gen: nat) returns (s: FStore.Store)
    requires g.Ok() && Survives(g, img, left, v, gen) && FStore.LargesOk(g, v.large)
    ensures fresh(s) && fresh(s.mem) && fresh(s.used) && s.g == g
    ensures s.Valid() && s.Generation() <= gen && s.Holds() == v && s.Marks() == FStore.AllUsed(g, v.large)
    ensures HoldingsOf(s) == Holdings(v.small, FStoreBlobs.ContentsOf(img, v.large))
  {
    ghost var b, l :| Store(g, left, b, l) && ViewOf(left, l) == v && Gen(left, b) <= gen;
    var mem := new byte[|left|](i requires 0 <= i < |left| => left[i]);
    assert mem[..] == left;
    var used := new bool[g.DataPages()](_ => false);
    s := new FStore.Store.Resume(g, mem, used, b, l);
    FStoreBlobs.ContentsSame(g, img, left, v.large);
  }

  /** Asks for the size first and then for the value. */
  method Fetch(s: FStore.Store, key: Option<CString>) returns (r: Reply)
    requires s.Valid()
    modifies s, s.mem, s.used
    ensures s.Valid() && s.Generation() <= old(s.Generation()) + 1 && HoldingsOf(s) == old(HoldingsOf(s))
    ensures s.Holds() == old(s.Holds()) && s.Marks() == old(s.Marks())
    ensures r == Answer(s.g, HoldingsOf(s), old(PlacesOf(s)), Get(key))
  {
    var none := new byte[0];
    var n := s.GetBin(key, none);
    if n < 0 {
      r := Code(n);
    } else {
      r := FetchSized(s, key, n);
    }
    BlobsKept(s);
  }

  method FetchSized(s: FStore.Store, key: Option<CString>, n: nat) returns (r: Reply)
    requires s.Valid() && s.settings != -1 && FStore.KeyOk(key)
    requires key.value in s.Holds().small && n == |s.Holds().small[key.value]|
    modifies s, s.mem, s.used
    ensures s.Valid() && s.Generation() == old(s.Generation()) && s.Holds() == old(s.Holds()) && s.Marks() == old(s.Marks())
    ensures SameIn(old(s.mem[..]), s.mem[..], 2 * s.g.Bank(), s.mem.Length)
    ensures r == Data(s.Holds().small[key.value])
  {
    var dst := new byte[n](_ => 0);
    var n' := s.GetBin(key, dst);
    assert dst[..n'] == dst[..];
    r := Data(dst[..]);
  }

  /** A store that has run the first `i` operations like two maps. */
  ghost predicate Ran(s: FStore.Store, ops: seq<Op>, rs: seq<Reply>, ats: seq<Places>, m: Holdings, gen: nat, i: nat)
    reads s, s.mem, s.used
  {
    && s.Valid() && s.Generation() <= gen + 2 * i
    && |rs| == i && Behaves(s.g, m, ops, rs, ats)
    && HoldingsOf(s) == AfterAll(m, ops, rs, i) && PlacesOf(s) == ats[i]
  }

  method PerformNext(s: FStore.Store, ops: seq<Op>, i: nat, rs: seq<Reply>, ghost ats: seq<Places>, ghost m: Holdings, ghost gen: nat)
    returns (s': FStore.Store, rs': seq<Reply>, ghost ats': seq<Places>)
    requires i < |ops| && gen + 2 * |ops| < MAX_GEN && Ran(s, ops, rs, ats, m, gen, i) && OpOk(s.g, ops[i])
    modifies s, s.mem, s.used
    ensures Replaces(s, s') && Ran(s', ops, rs', ats', m, gen, i + 1) && ats'[0] == ats[0]
  {
    var r;
    r, s' := Perform(s, ops[i]);
    StoreAgrees(s');
    BehavesSnoc(s.g, m, ops, rs, ats, r, PlacesOf(s'));
    rs', ats' := rs + [r], ats + [PlacesOf(s')];
  }

  /** Any run of the store, from blank flash or later, with power cuts inside collections, is a run of two maps. */
  method Replay(s: FStore.Store, ops: seq<Op>) returns (rs: seq<Reply>, s': FStore.Store, ghost ats: seq<Places>)
    requires s.Valid() && s.Generation() + 2 * |ops| < MAX_GEN
    requires forall i :: 0 <= i < |ops| ==> OpOk(s.g, ops[i])
    modifies s, s.mem, s.used
    ensures s'.Valid() && s'.g == s.g && |rs| == |ops| && Behaves(s.g, old(HoldingsOf(s)), ops, rs, ats)
    ensures HoldingsOf(s') == AfterAll(old(HoldingsOf(s)), ops, rs, |ops|)
    ensures ats[0] == old(PlacesOf(s)) && PlacesOf(s') == ats[|ops|]
    ensures old(s.settings) == -1 ==> ats[0].marks == FStore.AllUsed(s.g, ats[0].view.large)
  {
    ghost var m, gen := HoldingsOf(s), s.Generation();
    StoreAgrees(s);
    rs, s', ats := [], s, [PlacesOf(s)];
    ghost var at := PlacesOf(s);
    for i := 0 to |ops|
      invariant Replaces(s, s') && Ran(s', ops, rs, ats, m, gen, i) && ats[0] == at
    {
      s', rs, ats := PerformNext(s', ops, i, rs, ats, m, gen);
    }
  }
}
