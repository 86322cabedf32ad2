/** Space accounting of splits and merges: which pages are guaranteed to fit. */
module PageSpace {
  import opened Bytes
  import opened Pages
  import opened Splits

  lemma {:induction false} StoredConcat(a: seq<Entry>, b: seq<Entry>, p: nat)
    ensures Stored(a + b, p) == Stored(a, p) + Stored(b, p)
  {
    if a == [] {
      assert a + b == b;
    } else {
      assert (a + b)[1..] == a[1..] + b;
      StoredConcat(a[1..], b, p);
    }
  }

  /** Changing the page prefix from p to q shortens every stored key by q - p. */
  lemma {:induction false} StoredRebase(es: seq<Entry>, p: nat, q: nat)
    ensures Stored(es, p) == Stored(es, q) + (q - p) * |es|
  {
    if es != [] {
      StoredRebase(es[1..], p, q);
      assert (q - p) * |es| == (q - p) + (q - p) * |es[1..]|;
    }
  }

  lemma {:induction false} StoredGrows(es: seq<Entry>, p: nat, q: nat)
    requires p <= q
    ensures Stored(es, q) <= Stored(es, p)
  {
    if es != [] { StoredGrows(es[1..], p, q); }
  }

  /** Sizes add up around any slot. */
  lemma {:induction false} StoredAround(es: seq<Entry>, i: nat, p: nat)
    requires i < |es|
    ensures Stored(es, p) == Stored(es[..i], p) + (|es[i].key| - p + es[i].val.Size()) + Stored(es[i + 1..], p)
    ensures Stored(es[..i + 1], p) == Stored(es[..i], p) + (|es[i].key| - p + es[i].val.Size())
  {
    assert es[..i + 1] == es[..i] + [es[i]];
    assert es == es[..i + 1] + es[i + 1..];
    StoredConcat(es[..i], [es[i]], p);
    StoredConcat(es[..i + 1], es[i + 1..], p);
    assert Stored([es[i]], p) == |es[i].key| - p + es[i].val.Size();
  }

  lemma {:induction false} StoredAtLeast(es: seq<Entry>, p: nat)
    requires forall i :: 0 <= i < |es| ==> p <= |es[i].key|
    ensures Stored(es, p) >= 0
  {
    if es != [] {
      assert forall i :: 0 <= i < |es[1..]| ==> es[1..][i] == es[i + 1];
      StoredAtLeast(es[1..], p);
    }
  }

  /** Prefix growth: both halves of a split have a prefix at least as long as the page's. */
  lemma {:induction false} HalvesGrowPrefix(p: Page, slot: nat, sep: Key, newPid: PID)
    requires p.Ok() && GoodSeparator(p, slot, sep)
    ensures p.PrefixLen() <= p.SplitLeft(slot, sep, newPid).PrefixLen()
    ensures p.PrefixLen() <= p.SplitRight(slot, sep).PrefixLen()
  {
    if p.lower != [] && p.upper != [] {
      LessTotal(p.lower, sep);
      LessTotal(sep, p.upper);
      CommonGrows(p.lower, sep, p.upper);
    }
  }

  /** No key stored on a half is shorter than the half's prefix, so key lengths never underflow. */
  lemma {:induction false} NoKeyUnderflow(p: Page, slot: nat, sep: Key, newPid: PID)
    requires p.Ok() && GoodSeparator(p, slot, sep)
    ensures var l := p.SplitLeft(slot, sep, newPid); forall e :: e in l.entries ==> l.PrefixLen() <= |e.key|
    ensures var r := p.SplitRight(slot, sep); forall e :: e in r.entries ==> r.PrefixLen() <= |e.key|
  {
    SplitOk(p, slot, sep, newPid);
    EntriesCarryPrefix(p.SplitLeft(slot, sep, newPid));
    EntriesCarryPrefix(p.SplitRight(slot, sep));
  }

  /** The separator is no longer than the key it is taken from or next to. */
  lemma {:induction false} SeparatorLength(p: Page, info: SeparatorInfo)
    requires p.Ok() && p.Describes(info)
    ensures p.PrefixLen() <= info.len <= |p.entries[info.slot].key|
    ensures info.isTruncated ==> info.len < |p.entries[info.slot + 1].key|
  {
    hide Less, Common, Page.Covers;
    EntriesCarryPrefix(p);
  }

  /** The right half of any split fits the page. */
  lemma {:induction false} RightHalfFits(p: Page, info: SeparatorInfo)
    requires p.Ok() && p.Fits() && p.Describes(info)
    ensures p.SplitRight(info.slot, p.Sep(info)).Fits()
  {
    var s, r := info.slot, p.SplitRight(info.slot, p.Sep(info));
    SeparatorSplits(p, info);
    SeparatorLength(p, info);
    HalvesGrowPrefix(p, s, p.Sep(info), 0);
    hide Less, Common, Page.Ok, Page.Describes, Page.Covers, GoodSeparator;
    StoredAround(p.entries, s, p.PrefixLen());
    StoredGrows(r.entries, p.PrefixLen(), r.PrefixLen());
    StoredAtLeastPrefix(p, s);
  }

  lemma {:induction false} StoredAtLeastPrefix(p: Page, n: nat)
    requires p.Ok() && n <= |p.entries|
    ensures Stored(p.entries[..n], p.PrefixLen()) >= 0 && Stored(p.entries[n..], p.PrefixLen()) >= 0
  {
    EntriesCarryPrefix(p);
    hide Less, Common, Page.Covers;
    StoredAtLeast(p.entries[..n], p.PrefixLen());
    StoredAtLeast(p.entries[n..], p.PrefixLen());
  }

  /** The left half of an inner page fits the page. */
  lemma {:induction false} InnerLeftHalfFits(p: Page, info: SeparatorInfo, newPid: PID)
    requires p.Ok() && !p.isLeaf && p.Fits() && p.Describes(info)
    ensures p.SplitLeft(info.slot, p.Sep(info), newPid).Fits()
  {
    var s, l := info.slot, p.SplitLeft(info.slot, p.Sep(info), newPid);
    SeparatorSplits(p, info);
    SeparatorLength(p, info);
    HalvesGrowPrefix(p, s, p.Sep(info), newPid);
    hide Less, Common, Page.Ok, Page.Describes, Page.Covers, GoodSeparator;
    StoredAround(p.entries, s, p.PrefixLen());
    StoredGrows(l.entries, p.PrefixLen(), l.PrefixLen());
    StoredAtLeastPrefix(p, s + 1);
  }

  /** What a leaf split gains on the left page: the free space, the slots and entries that move right,
      the old upper fence and the bytes saved by the longer prefix. */
  function LeftGain(p: Page, slot: nat, sep: Key): int
    requires slot < |p.entries|
  {
    p.FreeAfterCompaction() + SLOT_SIZE * (|p.entries| - slot - 1) + Stored(p.entries[slot + 1..], p.PrefixLen())
    + |p.upper| + (Common(p.lower, sep) - p.PrefixLen()) * (slot + 1)
  }

  /** The left half of a leaf fits exactly when that gain covers the new upper fence. */
  lemma {:induction false} LeafLeftHalfFits(p: Page, slot: nat, sep: Key, newPid: PID)
    requires p.isLeaf && slot < |p.entries|
    ensures p.SplitLeft(slot, sep, newPid).Fits() <==> |sep| <= LeftGain(p, slot, sep)
  {
    hide Common;
    StoredConcat(p.entries[..slot + 1], p.entries[slot + 1..], p.PrefixLen());
    assert p.entries == p.entries[..slot + 1] + p.entries[slot + 1..];
    StoredRebase(p.entries[..slot + 1], p.PrefixLen(), Common(p.lower, sep));
  }

  /** It does fit whenever the separator's suffix is no longer than the entry behind the split. */
  lemma {:induction false} LeafLeftHalfFitsIf(p: Page, info: SeparatorInfo, newPid: PID)
    requires p.Ok() && p.isLeaf && p.Fits() && p.Describes(info)
    requires var next := p.entries[info.slot + 1];
      info.isTruncated || info.len <= |next.key| + next.val.Size() + SLOT_SIZE
    ensures p.SplitLeft(info.slot, p.Sep(info), newPid).Fits()
  {
    hide Less, Common, Page.Ok, Page.Covers, Page.Sep, Stored;
    var s, l := info.slot, p.SplitLeft(info.slot, p.Sep(info), newPid);
    SeparatorSplits(p, info);
    SeparatorLength(p, info);
    HalvesGrowPrefix(p, s, p.Sep(info), newPid);
    hide Page.Describes, GoodSeparator;
    StoredAround(p.entries, s + 1, p.PrefixLen());
    StoredGrows(l.entries, p.PrefixLen(), l.PrefixLen());
    StoredAtLeastPrefix(p, s + 2);
  }

  /** The key is no longer than maxLen, and not much shorter: what the entry takes on a page is at least maxLen. */
  predicate Even(e: Entry, maxLen: nat) {
    |e.key| <= maxLen <= |e.key| + e.val.Size() + SLOT_SIZE
  }

  /** Leaves with keys of similar length, or of the same, always split into two pages that fit. */
  lemma {:induction false} EvenSplitFits(p: Page, info: SeparatorInfo, newPid: PID, maxLen: nat)
    requires p.Ok() && p.Fits() && p.Describes(info)
    requires p.isLeaf ==> forall e :: e in p.entries ==> Even(e, maxLen)
    ensures p.SplitLeft(info.slot, p.Sep(info), newPid).Fits() && p.SplitRight(info.slot, p.Sep(info)).Fits()
  {
    RightHalfFits(p, info);
    if p.isLeaf {
      SeparatorLength(p, info);
      assert p.entries[info.slot] in p.entries && p.entries[info.slot + 1] in p.entries;
      LeafLeftHalfFitsIf(p, info, newPid);
    } else {
      InnerLeftHalfFits(p, info, newPid);
    }
  }

  // ---------------------------------------------------------------------- refusals

  /** Legal records, and separators and fences that were keys of such records. */
  ghost predicate Sized(p: Page) {
    && |p.lower| <= MAX_KV_SIZE && |p.upper| <= MAX_KV_SIZE
    && forall i :: 0 <= i < |p.entries| ==>
         |p.entries[i].key| + (if p.isLeaf then p.entries[i].val.Size() else 0) <= MAX_KV_SIZE
  }

  /** Has enough entries for a split; the leftmost page of a level keeps one on its left half. */
  predicate Splittable(p: Page) {
    |p.entries| >= if p.isLeaf || p.lower == [] then 2 else 1
  }

  /** Exactly when a page with one entry refuses a pair: the fences, the entry and the pair are too long together. */
  lemma {:induction false} OneEntryRefuses(p: Page, keyLen: nat, payloadLen: nat)
    requires |p.entries| == 1
    ensures !p.HasSpaceFor(keyLen, payloadLen) <==>
            |p.lower| + |p.upper| + (|p.entries[0].key| + p.entries[0].val.Size()) + (keyLen + payloadLen)
            > 4 * MAX_KV_SIZE + 2 * p.PrefixLen()
  {
    hide Common;
    var e, n := p.entries[0], p.PrefixLen();
    assert p.entries[1..] == [];
    assert Stored(p.entries, n) == |e.key| - n + e.val.Size();
  }

  /** A page that refuses a legal pair has at least two entries, so a separator always exists. */
  lemma {:induction false} RefusalMeansTwoEntries(p: Page, keyLen: nat, payloadLen: nat)
    requires |p.lower| <= MAX_KV_SIZE && |p.upper| <= MAX_KV_SIZE
    requires forall e :: e in p.entries ==> |e.key| + e.val.Size() <= MAX_KV_SIZE
    requires keyLen + payloadLen <= MAX_KV_SIZE && !p.HasSpaceFor(keyLen, payloadLen)
    ensures |p.entries| >= 2
  {
    hide Common, Stored;
    OneEntryIsSmall(p.entries, p.PrefixLen());
    assert |p.entries| > 0 ==> p.entries[0] in p.entries;
  }

  lemma {:induction false} OneEntryIsSmall(es: seq<Entry>, p: nat)
    ensures |es| == 1 ==> Stored(es, p) <= |es[0].key| + es[0].val.Size()
    ensures |es| == 0 ==> Stored(es, p) == 0
  {
  }

  /** The same for inner pages and separators: they may have one entry only, but not on the left edge of the tree. */
  lemma {:induction false} RefusalMeansSplittable(p: Page, keyLen: nat, payloadLen: nat)
    requires Sized(p) && p.Ok() && keyLen <= MAX_KV_SIZE && !p.HasSpaceFor(keyLen, payloadLen)
    requires keyLen + payloadLen <= MAX_KV_SIZE + if p.isLeaf then 0 else PID_SIZE
    ensures Splittable(p)
  {
    hide Common, Stored, Less, Page.Covers;
    OneEntryIsSmall(p.entries, p.PrefixLen());
    if p.isLeaf { RefusalMeansTwoEntries(p, keyLen, payloadLen); }
  }

  // ---------------------------------------------------------------------- merges

  /** Merging two adjacent leaves never lengthens a prefix. */
  lemma {:induction false} MergeShrinksPrefix(l: Page, r: Page)
    requires l.Ok() && r.Ok() && l.upper == r.lower != [] && r.upper != []
    ensures l.Merge(r).PrefixLen() <= l.PrefixLen() && l.Merge(r).PrefixLen() <= r.PrefixLen()
  {
    LessTotal(l.lower, l.upper);
    LessTotal(r.lower, r.upper);
    if l.lower != [] { CommonGrows(l.lower, l.upper, r.upper); }
  }

  /** mergeNodes' size test, exactly: the merged page fits, and the two fences that go would fit as well. */
  lemma {:induction false} MergeFitsIs(l: Page, r: Page)
    ensures l.MergeFits(r) <==> l.Merge(r).FreeAfterCompaction() >= |l.upper| + |r.lower|
  {
    hide Less, Common, Page.Ok, Page.Covers;
    var m := l.Merge(r);
    StoredConcat(l.entries, r.entries, m.PrefixLen());
    StoredRebase(l.entries, m.PrefixLen(), l.PrefixLen());
    StoredRebase(r.entries, m.PrefixLen(), r.PrefixLen());
  }

  /** mergeNodes' size test is sound: a merged page that passes it fits. */
  lemma {:induction false} MergeFitsSound(l: Page, r: Page)
    requires l.MergeFits(r)
    ensures l.Merge(r).Fits()
  {
    MergeFitsIs(l, r);
  }
}
