/** The room that the settings of a store need in a bank, however they came to be there. */
module LiveWeight {
  import opened Bytes
  import opened FlashImage

  /** Rows and values of small settings. */
  ghost function SmallWeight(m: map<CString, seq<byte>>): nat
    decreases |m|
  {
    if m == map[] then 0
    else
      var k :| k in m;
      ENTRY + Align(|m[k]|) + SmallWeight(m - {k})
  }

  /** Rows and values of everything a store holds. */
  ghost function NeededBy(v: View): nat {
    SmallWeight(v.small) + ENTRY * |v.large|
  }

  /** It does not matter which setting is counted first. */
  lemma {:induction false} SmallWeightAny(m: map<CString, seq<byte>>, k: CString)
    requires k in m
    ensures SmallWeight(m) == ENTRY + Align(|m[k]|) + SmallWeight(m - {k})
    decreases |m|
  {
    var l :| l in m && SmallWeight(m) == ENTRY + Align(|m[l]|) + SmallWeight(m - {l});
    if l != k {
      SmallWeightAny(m - {l}, k);
      SmallWeightAny(m - {k}, l);
      assert m - {l} - {k} == m - {k} - {l};
    }
  }

  lemma SmallWeightPut(m: map<CString, seq<byte>>, k: CString, val: seq<byte>)
    ensures SmallWeight(m[k := val]) == ENTRY + Align(|val|) + SmallWeight(m - {k})
    ensures SmallWeight(m - {k}) <= SmallWeight(m)
    ensures k !in m ==> m - {k} == m
  {
    SmallWeightAny(m[k := val], k);
    assert m[k := val] - {k} == m - {k};
    if k in m {
      SmallWeightAny(m, k);
    } else {
      assert m - {k} == m;
    }
  }

  lemma LargeMore(m: map<CString, (nat, nat)>, k: CString, b: (nat, nat))
    ensures |m[k := b]| <= |m| + 1 && (k !in m ==> |m[k := b]| == |m| + 1)
  {
    assert m[k := b].Keys == m.Keys + {k};
  }

  lemma NeededMore(img: seq<byte>, v: View, e: Entry)
    requires e.offset + e.size <= |img| || IsLarge(e.key)
    ensures NeededBy(Put(v, img, e)) <= NeededBy(v) + EntryWeight(e)
    ensures e.key !in v.small && e.key !in v.large ==> NeededBy(Put(v, img, e)) == NeededBy(v) + EntryWeight(e)
  {
    var w := Put(v, img, e);
    if IsLarge(e.key) {
      LargeMore(v.large, e.key, (e.offset, e.size));
      assert w.small == v.small && EntryWeight(e) == ENTRY;
    } else {
      var val := Value(img, e);
      assert |val| == e.size && EntryWeight(e) == ENTRY + Align(|val|);
      SmallWeightPut(v.small, e.key, val);
      assert w.small == v.small[e.key := val] && w.large == v.large;
    }
  }

  /** All small values are in the image. */
  ghost predicate InImage(img: seq<byte>, log: seq<Entry>) {
    forall i :: 0 <= i < |log| ==> IsLarge(log[i].key) || log[i].offset + log[i].size <= |img|
  }

  lemma TwoCopies(log: seq<Entry>, n: nat)
    requires n < |log| && log[n].key in LatestUpTo(log, n)
    ensures !NoDuplicates(log)
  {
    LatestIsLastUpTo(log, n, log[n].key);
    var j := LastIndexUpTo(log, n, log[n].key);
    assert log[j].key == log[n].key;
    assert HasLaterCopy(log, j);
  }

  lemma NeededStep(img: seq<byte>, m: map<CString, Entry>, e: Entry)
    requires e.offset + e.size <= |img| || IsLarge(e.key)
    ensures NeededBy(ViewOfLatest(img, m[e.key := e])) <= NeededBy(ViewOfLatest(img, m)) + EntryWeight(e)
    ensures e.key !in m ==> NeededBy(ViewOfLatest(img, m[e.key := e])) == NeededBy(ViewOfLatest(img, m)) + EntryWeight(e)
  {
    ViewPut(img, m, e);
    NeededMore(img, ViewOfLatest(img, m), e);
  }

  lemma NeededFirst(img: seq<byte>)
    ensures NeededBy(ViewOfLatest(img, map[])) == 0
  {
    assert ViewOfLatest(img, map[]) == View(map[], map[]);
  }

  lemma {:induction false} NeededUpTo(img: seq<byte>, log: seq<Entry>, n: nat)
    requires InImage(img, log) && n <= |log|
    ensures NeededBy(ViewOfLatest(img, LatestUpTo(log, n))) <= WeightUpTo(log, n)
    ensures NoDuplicates(log) ==> NeededBy(ViewOfLatest(img, LatestUpTo(log, n))) == WeightUpTo(log, n)
  {
    if n > 0 {
      NeededUpTo(img, log, n - 1);
      if log[n - 1].key in LatestUpTo(log, n - 1) {
        TwoCopies(log, n - 1);
      }
      NeededStep(img, LatestUpTo(log, n - 1), log[n - 1]);
      WeightStep(log, n - 1);
    } else {
      NeededFirst(img);
    }
  }

  /** A table takes no less room than what it stands for needs, and exactly that much without duplicates. */
  lemma NeededOfTable(g: Geometry, img: seq<byte>, bank: nat, log: seq<Entry>)
    requires Table(g, img, bank, log)
    ensures NeededBy(ViewOf(img, log)) <= Weight(log)
    ensures NoDuplicates(log) ==> NeededBy(ViewOf(img, log)) == Weight(log)
  {
    forall i | 0 <= i < |log|
      ensures IsLarge(log[i].key) || log[i].offset + log[i].size <= |img|
    {
      PlacedAt(g, log, bank, i);
    }
    NeededUpTo(img, log, |log|);
  }
}
