/** Where findSeparator splits a page, and at which key: what its choice means for the two halves. */
module SplitChoice {
  import opened Bytes
  import opened Pages
  import opened Splits

  /** Bytes that entry i's key shares with the page's first key. */
  function SharedWithFirst(p: Page, i: nat): nat
    requires i < |p.entries|
  {
    Common(p.entries[i].key, p.entries[0].key)
  }

  /** Along a sorted page, keys share less and less with the first key. */
  lemma {:induction false} SharingFalls(p: Page, i: nat, j: nat)
    requires p.Ok() && i <= j < |p.entries|
    ensures SharedWithFirst(p, j) <= SharedWithFirst(p, i)
  {
    CommonSwaps(p.entries[i].key, p.entries[0].key);
    CommonSwaps(p.entries[j].key, p.entries[0].key);
    if i == 0 {
      CommonIs(p.entries[0].key, p.entries[0].key, |p.entries[0].key|);
    } else if i < j {
      CommonGrows(p.entries[0].key, p.entries[i].key, p.entries[j].key);
    }
  }

  lemma {:induction false} CommonSwaps(a: Key, b: Key)
    ensures Common(a, b) == Common(b, a)
  {
    CommonIs(b, a, Common(a, b));
  }

  /** Ordered mode leaves one entry to the right half of a leaf. */
  lemma {:induction false} OrderedSplit(p: Page, newPid: PID)
    requires p.Ok() && p.isLeaf && |p.entries| > 1
    ensures var info := p.FindSeparator(true);
      var l, r := p.SplitLeft(info.slot, p.Sep(info), newPid), p.SplitRight(info.slot, p.Sep(info));
      |l.entries| == |p.entries| - 1 && r.entries == [p.entries[|p.entries| - 1]]
  {
    hide Common, Less, Page.Ok, Page.Sep;
  }

  /** Otherwise a leaf of up to 16 entries, and an inner page in either mode, is split in the middle: the left half has
      as many entries as the right one, or one more. */
  lemma {:induction false} MiddleSplit(p: Page, splitOrdered: bool, newPid: PID)
    requires p.Ok() && (!p.isLeaf ==> p.InnerShape() && |p.entries| > 0)
    requires p.isLeaf ==> !splitOrdered && 1 < |p.entries| <= 16
    ensures var info := p.FindSeparator(splitOrdered);
      var l, r := p.SplitLeft(info.slot, p.Sep(info), newPid), p.SplitRight(info.slot, p.Sep(info));
      |r.entries| <= |l.entries| <= |r.entries| + 1
  {
    hide Common, Less, Page.Ok, Page.Sep;
  }

  /** A larger leaf is split in the last eighth of its lower half, at the first key there that shares less with the
      first key than the window's start does, or at the start if there is none. */
  lemma {:induction false} WindowSplit(p: Page)
    requires p.Ok() && p.isLeaf && |p.entries| > 16
    ensures var n := |p.entries|; var start, end, slot := n / 2 - n / 16, n / 2, p.FindSeparator(false).slot;
      && start <= slot < end
      && (forall j :: start <= j < slot ==> SharedWithFirst(p, j) == SharedWithFirst(p, start))
      && (slot != start ==> SharedWithFirst(p, slot) < SharedWithFirst(p, start))
      && (slot == start ==> forall j :: start <= j < end ==> SharedWithFirst(p, j) == SharedWithFirst(p, start))
  {
    hide SharedWithFirst, Page.Ok, Page.SuffixCommon, Page.Suffix, Page.PrefixLen, Common, Less;
    var n := |p.entries|;
    forall j | n / 2 - n / 16 <= j < n / 2
      ensures SharedWithFirst(p, n / 2 - 1) <= SharedWithFirst(p, j) <= SharedWithFirst(p, n / 2 - n / 16)
      ensures SharedWithFirst(p, j) == p.PrefixLen() + p.SuffixCommon(j, 0)
    {
      SharingFalls(p, n / 2 - n / 16, j);
      SharingFalls(p, j, n / 2 - 1);
      SharedIs(p, j);
    }
    ChosenSlot(p);
  }

  lemma {:induction false} SharedIs(p: Page, j: nat)
    requires p.Ok() && j < |p.entries|
    ensures SharedWithFirst(p, j) == p.PrefixLen() + p.SuffixCommon(j, 0)
  {
    hide Page.Ok, Page.SuffixCommon, Common;
    CommonOfSuffixes(p, j, 0);
  }

  /** Among a larger leaf's slots. */
  lemma {:induction false} ChosenSlot(p: Page)
    requires p.isLeaf && |p.entries| > 16
    ensures var n := |p.entries|; var start, end, slot := n / 2 - n / 16, n / 2, p.FindSeparator(false).slot;
      if p.SuffixCommon(start, 0) != p.SuffixCommon(end - 1, 0) then
        && start < slot < end && p.SuffixCommon(slot, 0) != p.SuffixCommon(start, 0)
        && forall j :: start < j < slot ==> p.SuffixCommon(j, 0) == p.SuffixCommon(start, 0)
      else slot == start
  {
    hide Page.SuffixCommon, Page.Suffix, Page.PrefixLen, Page.Describes, Common;
  }

  /** The separator of a leaf is truncated exactly if both keys leave something to cut; then it is as short as any key
      that separates the two. */
  lemma {:induction false} Truncation(p: Page, splitOrdered: bool)
    requires p.Ok() && p.isLeaf && |p.entries| > 1
    ensures var info := p.FindSeparator(splitOrdered);
      var a, b := p.entries[info.slot].key, p.entries[info.slot + 1].key;
      && (info.isTruncated <==> Common(a, b) < |a| && Common(a, b) + 1 < |b|)
      && p.Sep(info) == if info.isTruncated then b[..Common(a, b) + 1] else a
  {
    hide *;
    var info := p.FindSeparator(splitOrdered);
    TruncatesWhen(p, splitOrdered);
    SuffixFacts(p, info.slot);
    SuffixFacts(p, info.slot + 1);
    CommonOfSuffixes(p, info.slot, info.slot + 1);
    SepFacts(p, info);
  }

  lemma {:induction false} TruncatesWhen(p: Page, splitOrdered: bool)
    requires p.isLeaf && |p.entries| > 1
    ensures var info := p.FindSeparator(splitOrdered);
      && info.slot + 1 < |p.entries|
      && (info.isTruncated <==>
            && |p.Suffix(info.slot)| > p.SuffixCommon(info.slot, info.slot + 1)
            && |p.Suffix(info.slot + 1)| > p.SuffixCommon(info.slot, info.slot + 1) + 1)
      && info.len == p.PrefixLen() +
                     if info.isTruncated then p.SuffixCommon(info.slot, info.slot + 1) + 1 else |p.Suffix(info.slot)|
  {
    hide Common, Page.BestSlot, Page.SuffixCommon, Page.Suffix, Page.PrefixLen;
  }

  lemma {:induction false} SuffixFacts(p: Page, i: nat)
    requires p.Ok() && i < |p.entries|
    ensures |p.entries[i].key| == p.PrefixLen() + |p.Suffix(i)|
  {
    hide Page.Ok, Page.Suffix, Common;
    EntriesCarryPrefix(p);
  }

  lemma {:induction false} SepFacts(p: Page, info: SeparatorInfo)
    requires info.slot + 1 < |p.entries| && info.len <= |p.entries[info.slot + if info.isTruncated then 1 else 0].key|
    ensures p.Sep(info) == p.entries[info.slot + if info.isTruncated then 1 else 0].key[..info.len]
  {
  }

  lemma {:induction false} ShortestSeparator(a: Key, b: Key, k: Key)
    requires Less(a, b) && Common(a, b) < |a| && LessEq(a, k) && Less(k, b)
    ensures Common(a, b) + 1 <= |k|
  {
    var c, m := Common(a, b), Common(a, k);
    CommonSwaps(a, k);
    if |k| <= c {
      if m < |k| { CommonIs(k, b, m); }
    }
  }
}
