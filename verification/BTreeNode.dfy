/** BTreeNode of btree.hpp: a slotted page worked on in place. View is the page it stands for; every method
    is proved to do to View what the corresponding Page operation says. */
module Nodes {
  import opened Bytes
  import opened Pages
  import opened Splits
  import opened PageSpace
  import opened NodeImage
  import opened Hints
  import opened NodeSearch
  import opened NodeUpdates

  function Min(a: nat, b: nat): nat { if a < b then a else b }

  /** hint[i] was set to the head it stands for; the hints before it are as they were. */
  lemma {:induction false} HintWritten(was: seq<nat>, now: seq<nat>, heads: seq<nat>, i: nat)
    requires |was| == |now| == HINT_COUNT && i < HINT_COUNT
    requires forall j :: 0 <= j < HINT_COUNT && j != i ==> now[j] == was[j]
    requires heads != [] ==> Dist(|heads|) * (i + 1) < |heads| && now[i] == heads[Dist(|heads|) * (i + 1)]
    requires heads != [] ==> forall j :: 0 <= j < i && j < HINT_COUNT ==> HintMatches(was, heads, j)
    ensures heads != [] ==> forall j :: 0 <= j < i + 1 && j < HINT_COUNT ==> HintMatches(now, heads, j)
  {
    hide Dist;
    if heads != [] {
      forall j | 0 <= j < i + 1 && j < HINT_COUNT
        ensures HintMatches(now, heads, j)
      {
        if j < i { assert HintMatches(was, heads, j); }
      }
    }
  }

  lemma {:induction false} SuffixCommonIs(p: Page, a: nat, b: nat, suffixA: Key, suffixB: Key)
    requires a < |p.entries| && b < |p.entries| && p.Suffix(a) == suffixA && p.Suffix(b) == suffixB
    ensures p.SuffixCommon(a, b) == Common(suffixA, suffixB)
  {
  }

  lemma {:induction false} SepLength(p: Page, info: SeparatorInfo)
    requires p.Describes(info)
    ensures p.PrefixLen() <= info.len
    ensures info.len <= p.PrefixLen() + |p.Suffix(info.slot + if info.isTruncated then 1 else 0)|
  {
    hide Common;
  }

  /** The slots after memmove and the store. */
  lemma {:induction false} SlotsInserted(before: seq<Slot>, moved: seq<Slot>, after: seq<Slot>, slotId: nat, n: nat,
                                         s: Slot)
    requires slotId <= n < |before| == |moved| && after == moved[slotId := s]
    requires moved[..slotId] == before[..slotId] && moved[slotId + 1..n + 1] == before[slotId..n]
    ensures after[..n + 1] == before[..n][..slotId] + [s] + before[..n][slotId..]
  {
    assert after[..n + 1] == moved[..slotId] + [s] + moved[slotId + 1..n + 1];
  }

  class BTreeNode {
    const pid: nat
    const isLeaf: bool
    /** upperInnerNode of an inner page, nextLeafNode of a leaf. */
    var link: nat
    var lowerFence: FenceKeySlot
    var upperFence: FenceKeySlot
    var count: nat
    var spaceUsed: nat
    var dataOffset: nat
    var prefixLen: nat
    const hint: array<nat>
    const slot: array<Slot>
    /** The bytes of the page, by offset from its start. */
    const mem: array<byte>

    ghost predicate Shape()
      reads this
    {
      hint.Length == HINT_COUNT && slot.Length == MAX_SLOTS && mem.Length == PAGE_SIZE && count <= MAX_SLOTS
    }

    /** The page with its first n slots. */
    ghost function Img(n: nat): Image
      requires n <= slot.Length
      reads this, slot, mem
    {
      Image(mem[..], slot[..n], lowerFence, upperFence, dataOffset, spaceUsed, prefixLen, isLeaf, link)
    }

    ghost predicate HintsOk()
      requires Shape()
      reads this, hint, slot
    {
      count > 0 ==> HintsMatch(hint[..], Heads(slot[..count]))
    }

    ghost predicate Valid()
      reads this, hint, slot, mem
    {
      Shape() && Good(Img(count)) && HintsOk()
    }

    /** What this page means. */
    ghost function View(): Page
      requires Valid()
      reads this, hint, slot, mem
    {
      Img(count).View()
    }

    ghost function Repr(): set<object> { {this, hint, slot, mem} }

    constructor (pid: nat, isLeaf: bool)
      ensures Shape() && Fresh(Img(0)) && count == 0
      ensures this.pid == pid && this.isLeaf == isLeaf && link == NO_NEIGHBOUR
      ensures fresh(hint) && fresh(slot) && fresh(mem)
    {
      this.pid, this.isLeaf, link := pid, isLeaf, NO_NEIGHBOUR;
      lowerFence, upperFence := FenceKeySlot(0, 0), FenceKeySlot(0, 0);
      count, spaceUsed, dataOffset, prefixLen := 0, 0, PAGE_SIZE, 0;
      hint, slot, mem := new nat[HINT_COUNT], new Slot[MAX_SLOTS], new byte[PAGE_SIZE];
    }

    // -------------------------------------------------------------------- reading

    function FreeSpace(): int
      reads this
    {
      dataOffset - (HEADER_SIZE + SLOT_SIZE * count)
    }

    function FreeSpaceAfterCompaction(): int
      reads this
    {
      PAGE_SIZE - (HEADER_SIZE + SLOT_SIZE * count) - spaceUsed
    }

    function SpaceNeeded(keyLen: nat, payloadLen: nat): int
      reads this
    {
      SLOT_SIZE + (keyLen - prefixLen) + payloadLen
    }

    function GetLowerFence(): Key
      requires Valid()
      reads this, hint, slot, mem
      ensures GetLowerFence() == View().lower
    {
      mem[lowerFence.offset..lowerFence.offset + lowerFence.len]
    }

    function GetUpperFence(): Key
      requires Valid()
      reads this, hint, slot, mem
      ensures GetUpperFence() == View().upper
    {
      mem[upperFence.offset..upperFence.offset + upperFence.len]
    }

    /** Where things are on a valid page. */
    lemma {:induction false} Bounds()
      requires Valid()
      ensures Img(count).Layout() && prefixLen <= lowerFence.len
      ensures mem.Length == PAGE_SIZE && lowerFence.offset + lowerFence.len <= PAGE_SIZE
      ensures count <= slot.Length
    {
      hide Head, Common, HintsMatch, Page.Ok, Image.View;
    }

    lemma {:induction false} SlotBounds(slotId: nat)
      requires Valid() && slotId < count
      ensures Img(count).Layout() && mem.Length == PAGE_SIZE && count <= slot.Length
      ensures slot[slotId] == Img(count).slots[slotId]
      ensures Img(count).InHeap(slot[slotId].offset, slot[slotId].keyLen + slot[slotId].payloadLen)
    {
      Bounds();
      hide Good, HintsOk, Image.View;
      assert slot[slotId] == Img(count).slots[slotId];
    }

    function GetPrefix(): Key
      requires Valid()
      reads this, hint, slot, mem
      ensures Img(count).prefixLen <= Img(count).lowerFence.len && GetPrefix() == Img(count).Prefix()
    {
      Bounds();
      hide Valid;
      mem[lowerFence.offset..lowerFence.offset + prefixLen]
    }

    function GetKey(slotId: nat): Key
      requires Valid() && slotId < count
      reads this, hint, slot, mem
      ensures mem.Length == PAGE_SIZE
      ensures Img(count).InHeap(slot[slotId].offset, slot[slotId].keyLen + slot[slotId].payloadLen)
      ensures GetKey(slotId) == Img(count).Suffix(slot[slotId])
      ensures Img(count).Layout()
    {
      KeyIs(slotId);
      hide *;
      var s := slot[slotId];
      mem[s.offset..s.offset + s.keyLen]
    }

    lemma {:induction false} KeyIs(slotId: nat)
      requires Valid() && slotId < count
      ensures count <= slot.Length && mem.Length == PAGE_SIZE
      ensures Img(count).InHeap(slot[slotId].offset, slot[slotId].keyLen + slot[slotId].payloadLen)
      ensures mem[slot[slotId].offset..slot[slotId].offset + slot[slotId].keyLen] == Img(count).Suffix(slot[slotId])
      ensures Img(count).Layout()
    {
      SlotBounds(slotId);
      hide Valid, Image.Layout;
    }

    function GetPayload(slotId: nat): seq<byte>
      requires Valid() && slotId < count
      reads this, hint, slot, mem
      ensures Img(count).Layout() && GetPayload(slotId) == Img(count).Payload(slot[slotId])
    {
      SlotBounds(slotId);
      hide Valid, Image.Layout;
      var s := slot[slotId];
      mem[s.offset + s.keyLen..s.offset + s.keyLen + s.payloadLen]
    }

    lemma {:induction false} SpaceIsViews()
      requires Valid()
      ensures View().FreeAfterCompaction() == FreeSpaceAfterCompaction() && View().PrefixLen() == prefixLen
      ensures 0 <= FreeSpace() <= FreeSpaceAfterCompaction()
      ensures |View().entries| == count && View().isLeaf == isLeaf
    {
      SpaceUsedIsViews(Img(count));
      GoodPrefix(Img(count));
    }

    lemma {:induction false} ViewIs()
      requires Valid()
      ensures var img := Img(count);
        && img.Layout() && img.prefixLen <= img.lowerFence.len
        && View() == img.View() && |View().entries| == count
    {
      hide HintsMatch, Head, Common;
    }

    predicate HasSpaceFor(keyLen: nat, payloadLen: nat)
      requires Valid()
      reads this, hint, slot, mem
      ensures HasSpaceFor(keyLen, payloadLen) == View().HasSpaceFor(keyLen, payloadLen)
    {
      SpaceIsViews();
      SpaceNeeded(keyLen, payloadLen) <= FreeSpaceAfterCompaction()
    }

    // -------------------------------------------------------------------- hints

    /** The common loop of makeHint (begin = 0) and updateHint. The hint of an empty page means nothing. */
    method MakeHintFrom(begin: nat)
      requires Shape()
      requires count > 0 ==>
                 forall i :: 0 <= i < begin && i < HINT_COUNT ==> HintMatches(hint[..], Heads(slot[..count]), i)
      modifies hint
      ensures HintsOk()
    {
      var dist := Dist(count);
      ghost var heads := Heads(slot[..count]);
      var i := begin;
      while i < HINT_COUNT
        invariant begin <= i
        invariant count > 0 ==> forall j :: 0 <= j < i && j < HINT_COUNT ==> HintMatches(hint[..], heads, j)
      {
        DistBound(count, i);
        ghost var was := hint[..];
        hint[i] := slot[dist * (i + 1)].head;
        HintWritten(was, hint[..], heads, i);
        i := i + 1;
      }
    }

    method MakeHint()
      requires Shape()
      modifies hint
      ensures HintsOk()
    {
      MakeHintFrom(0);
    }

    /** Called with the new slot in place: leaves what makeHint would have made. */
    method UpdateHint(slotId: nat, ghost oldHeads: seq<nat>)
      requires Shape() && slotId < count == |oldHeads| + 1
      requires Heads(slot[..count]) == Inserted(oldHeads, slotId, slot[slotId].head)
      requires oldHeads != [] ==> HintsMatch(hint[..], oldHeads)
      modifies hint
      ensures HintsOk()
    {
      var dist := Dist(count);
      var begin := 0;
      if count > HINT_COUNT * 2 + 1 && (count - 1) / (HINT_COUNT + 1) == dist && slotId / dist > 1 {
        begin := slotId / dist - 1;
        forall i | 0 <= i < HINT_COUNT && i < begin
          ensures HintMatches(hint[..], Heads(slot[..count]), i)
        {
          KeptHint(hint[..], oldHeads, slotId, slot[slotId].head, i);
        }
      }
      MakeHintFrom(begin);
    }

    /** The first hint that is not below keyHead, and the first from there on that is not equal to it. */
    method HintRange(keyHead: nat) returns (pos: nat, pos2: nat)
      requires hint.Length == HINT_COUNT
      ensures pos <= pos2 <= HINT_COUNT && (pos > 0 ==> hint[..][pos - 1] < keyHead)
      ensures pos2 < HINT_COUNT ==> hint[..][pos2] != keyHead
      ensures (pos < HINT_COUNT ==> hint[..][pos] >= keyHead) && (pos < pos2 ==> hint[..][pos2 - 1] == keyHead)
    {
      pos := 0;
      while pos < HINT_COUNT && hint[pos] < keyHead
        invariant pos <= HINT_COUNT
        invariant pos > 0 ==> hint[pos - 1] < keyHead
      {
        pos := pos + 1;
      }
      pos2 := pos;
      while pos2 < HINT_COUNT && hint[pos2] == keyHead
        invariant pos <= pos2 <= HINT_COUNT && (pos < pos2 ==> hint[pos2 - 1] == keyHead)
      {
        pos2 := pos2 + 1;
      }
    }

    /** Everything before lower has a smaller head, everything from upper on a larger one; on a page with more than 32
        entries the range is no wider than the hints can tell. */
    method SearchHint(keyHead: nat) returns (lower: nat, upper: nat)
      requires Shape() && HintsOk() && Ascending(Heads(slot[..count]))
      ensures HeadsNarrowed(Heads(slot[..count]), keyHead, lower, upper)
      ensures count > HINT_COUNT * 2 ==> Tight(Heads(slot[..count]), keyHead, lower, upper)
    {
      hide HeadsNarrowed, Tight, HintsMatch, Heads, Ascending;
      lower, upper := 0, count;
      AllSlots(Heads(slot[..count]), keyHead);
      if count > HINT_COUNT * 2 {
        var dist := upper / (HINT_COUNT + 1);
        var pos, pos2 := HintRange(keyHead);
        lower := pos * dist;
        if pos2 < HINT_COUNT { upper := (pos2 + 1) * dist; }
        HintRangeIs(hint[..], Heads(slot[..count]), keyHead, pos, pos2);
      }
    }

    // -------------------------------------------------------------------- search

    /** Prefix test, hint, then binary search on heads and suffixes: the lower bound of the full key. */
    method LowerBound(skey: Key) returns (pos: nat, foundExact: bool)
      requires Valid()
      ensures pos == View().Pos(skey) <= count && foundExact == View().Found(skey)
    {
      hide Good, HintsOk, Image.View, Image.Prefix, Image.Layout, Pages.LowerBound;
      ghost var img := Img(count);
      var prefix := GetPrefix();
      ViewIs();
      GoodPrefix(img);
      var cmp := Memcmp(skey, prefix, Min(|skey|, prefixLen));
      PrefixDecides(img, skey);
      if cmp < 0 { return 0, false; }
      if cmp > 0 { return count, false; }
      if |skey| < prefixLen { return 0, false; }
      pos, foundExact := SearchSuffix(skey[prefixLen..], skey);
    }

    /** The search among the suffixes, for a key that carries the prefix. */
    method SearchSuffix(key: Key, ghost skey: Key) returns (pos: nat, foundExact: bool)
      requires Valid() && Rest(Img(count), skey, key)
      ensures Answer(Img(count), skey, pos, foundExact)
    {
      hide *;
      HintReady();
      var lower, upper := SearchHint(Head(key));
      NarrowsKeys(key, lower, upper);
      pos, foundExact := BinarySearch(key, skey, lower, upper);
    }

    lemma {:induction false} HintReady()
      requires Valid()
      ensures Shape() && HintsOk() && Ascending(Heads(slot[..count]))
    {
      HeadsAscend(Img(count));
    }

    lemma {:induction false} NarrowsKeys(key: Key, lower: nat, upper: nat)
      requires Valid() && HeadsNarrowed(Heads(slot[..count]), Head(key), lower, upper)
      ensures Img(count).Layout() && Narrowed(Img(count), key, lower, upper)
    {
      hide HintsOk, Good, HeadsNarrowed, Narrowed, Head, Image.Layout;
      HintNarrows(Img(count), key, lower, upper);
    }

    method BinarySearch(key: Key, ghost skey: Key, from: nat, to: nat) returns (pos: nat, foundExact: bool)
      requires Valid() && Rest(Img(count), skey, key) && Narrowed(Img(count), key, from, to)
      ensures Answer(Img(count), skey, pos, foundExact)
    {
      hide Rest, Answer, Image.Layout, Less, Head, Common, HintsMatch;
      ghost var img := Img(count);
      assert from <= to <= count;
      var keyHead, lower, upper := Head(key), from, to;
      while lower < upper
        invariant 0 <= lower <= upper <= count && Narrowed(img, key, lower, upper)
      {
        var mid := (upper - lower) / 2 + lower;
        var order := CompareWith(mid, key, keyHead);
        if order < 0 {
          NarrowDown(img, key, lower, upper, mid);
          upper := mid;
        } else if order > 0 {
          NarrowUp(img, key, lower, upper, mid);
          lower := mid + 1;
        } else {
          SearchHits(img, skey, key, mid);
          return mid, true;
        }
      }
      SearchEnds(img, skey, key, lower);
      return lower, false;
    }

    /** One comparison of the binary search: by head, then by the common length, then by length. */
    method CompareWith(mid: nat, key: Key, keyHead: nat) returns (order: int)
      requires Valid() && mid < count && keyHead == Head(key)
      ensures Img(count).Layout()
      ensures order < 0 ==> Less(key, Img(count).Suffix(Img(count).slots[mid]))
      ensures order > 0 ==> Less(Img(count).Suffix(Img(count).slots[mid]), key)
      ensures order == 0 ==> key == Img(count).Suffix(Img(count).slots[mid])
    {
      var stored := GetKey(mid);
      FullKey(Img(count), mid);
      hide *;
      assert stored == Img(count).Suffix(Img(count).slots[mid]);
      if keyHead < slot[mid].head {
        HeadLess(key, stored);
        return -1;
      }
      if keyHead > slot[mid].head {
        HeadLess(stored, key);
        return 1;
      }
      var n := Min(|key|, slot[mid].keyLen);
      order := Memcmp(key, stored, n);
      CompareDecides(key, stored, n);
      if order == 0 {
        order := if |key| < slot[mid].keyLen then -1 else if |key| > slot[mid].keyLen then 1 else 0;
      }
    }

    // -------------------------------------------------------------------- writing bytes and slots

    /** memcpy into the page. */
    method WriteBytes(offset: nat, bytes: seq<byte>)
      requires mem.Length == PAGE_SIZE && offset + |bytes| <= PAGE_SIZE
      modifies mem
      ensures mem[..] == Splice(old(mem[..]), offset, bytes)
    {
      forall i | 0 <= i < |bytes| {
        mem[offset + i] := bytes[i];
      }
      assert forall k :: 0 <= k < PAGE_SIZE ==> mem[..][k] == Splice(old(mem[..]), offset, bytes)[k];
    }

    /** storeKeyValue, given the part of the key behind the prefix. */
    method StoreSuffix(slotId: nat, suffix: Key, payload: seq<byte>)
      requires Shape() && slotId < MAX_SLOTS && |suffix| + |payload| <= dataOffset <= PAGE_SIZE
      modifies this`dataOffset, this`spaceUsed, slot, mem
      ensures Shape() && dataOffset == old(dataOffset) - (|suffix| + |payload|)
      ensures spaceUsed == old(spaceUsed) + |suffix| + |payload|
      ensures slot[..] == old(slot[..])[slotId := Slot(dataOffset, |suffix|, |payload|, Head(suffix))]
      ensures mem[..] == Splice(old(mem[..]), dataOffset, suffix + payload)
      ensures Img(slotId + 1) == StoreAt(old(Img(slotId)), slotId, suffix, payload)
    {
      var space := |suffix| + |payload|;
      dataOffset := dataOffset - space;
      spaceUsed := spaceUsed + space;
      slot[slotId] := Slot(dataOffset, |suffix|, |payload|, Head(suffix));
      WriteBytes(dataOffset, suffix + payload);
    }

    method StoreKeyValue(slotId: nat, skey: Key, payload: seq<byte>)
      requires Shape() && slotId < MAX_SLOTS && prefixLen <= |skey|
      requires |skey| - prefixLen + |payload| <= dataOffset <= PAGE_SIZE
      modifies this`dataOffset, this`spaceUsed, slot, mem
      ensures var suffix := skey[prefixLen..];
        && Shape() && dataOffset == old(dataOffset) - (|suffix| + |payload|)
        && spaceUsed == old(spaceUsed) + |suffix| + |payload|
        && slot[..] == old(slot[..])[slotId := Slot(dataOffset, |suffix|, |payload|, Head(suffix))]
        && mem[..] == Splice(old(mem[..]), dataOffset, suffix + payload)
        && Img(slotId + 1) == StoreAt(old(Img(slotId)), slotId, suffix, payload)
    {
      StoreSuffix(slotId, skey[prefixLen..], payload);
    }

    // -------------------------------------------------------------------- fences

    method InsertFence(key: Key) returns (fk: FenceKeySlot)
      requires Shape() && |key| <= dataOffset <= PAGE_SIZE
      modifies this`dataOffset, this`spaceUsed, mem
      ensures dataOffset == old(dataOffset) - |key| && spaceUsed == old(spaceUsed) + |key|
      ensures mem[..] == Splice(old(mem[..]), dataOffset, key) && fk == FenceKeySlot(dataOffset, |key|)
    {
      dataOffset := dataOffset - |key|;
      spaceUsed := spaceUsed + |key|;
      fk := FenceKeySlot(dataOffset, |key|);
      WriteBytes(dataOffset, key);
    }

    method SetFences(lower: Key, upper: Key)
      requires Shape() && count == 0 && Fresh(Img(0)) && |lower| + |upper| <= PAGE_SIZE - HEADER_SIZE
      modifies this`lowerFence, this`upperFence, this`dataOffset, this`spaceUsed, this`prefixLen, mem
      ensures Shape() && count == 0 && Img(0) == WithFences(old(Img(0)), lower, upper)
    {
      hide Splice, Common;
      lowerFence := InsertFence(lower);
      upperFence := InsertFence(upper);
      SetPrefixLen(lower, upper);
    }

    method SetPrefixLen(lower: Key, upper: Key)
      modifies this`prefixLen
      ensures prefixLen == Common(lower, upper)
    {
      prefixLen := 0;
      while prefixLen < Min(|lower|, |upper|) && lower[prefixLen] == upper[prefixLen]
        invariant prefixLen <= Min(|lower|, |upper|)
        invariant forall i :: 0 <= i < prefixLen ==> lower[i] == upper[i]
      {
        prefixLen := prefixLen + 1;
      }
      CommonIs(lower, upper, prefixLen);
    }

    // -------------------------------------------------------------------- copying entries

    /** The two ways copyKeyValueRange stores an entry with stored suffix s, from a page with prefix p: if this
        page's prefix is the longer one, the rest of the suffix is stored, else the full key is built first. */
    method StoreCopied(slotId: nat, p: Key, s: Key, payload: seq<byte>, ghost suffix: Key)
      requires Shape() && slotId < MAX_SLOTS && |suffix| + |payload| <= dataOffset <= PAGE_SIZE
      requires |p| <= prefixLen ==> prefixLen - |p| <= |s| && s[prefixLen - |p|..] == suffix
      requires prefixLen <= |p + s| && (p + s)[prefixLen..] == suffix
      modifies this`dataOffset, this`spaceUsed, slot, mem
      ensures Shape() && Img(slotId + 1) == StoreAt(old(Img(slotId)), slotId, suffix, payload)
    {
      hide *;
      if |p| <= prefixLen {
        var diff := prefixLen - |p|;
        StoreSuffix(slotId, s[diff..], payload);
      } else {
        StoreKeyValue(slotId, p + s, payload);
      }
    }

    /** Entry srcSlot of this page, the i-th of es, written behind the first dstSlot slots of dst. */
    method CopyOne(dst: BTreeNode, dstSlot: nat, srcSlot: nat, ghost img0: Image, ghost es: seq<Entry>, ghost i: nat)
      requires Valid() && srcSlot < count && this.Repr() !! dst.Repr() && dst.Shape() && dstSlot < MAX_SLOTS
      requires CopyReady(Img(count), srcSlot, img0, dst.Img(dstSlot), es, i)
      modifies dst`dataOffset, dst`spaceUsed, dst.slot, dst.mem
      ensures dst.Shape() && i < |es| && Appended(img0, dst.Img(dstSlot + 1), es[..i + 1])
    {
      hide CopyReady, Appended, StoreAt, GetPrefix, GetKey, GetPayload, Good, HintsMatch;
      var payload, p, s := GetPayload(srcSlot), GetPrefix(), GetKey(srcSlot);
      ghost var suffix := CopySuffix(Img(count), srcSlot, img0, dst.Img(dstSlot), es, i, p, s, payload);
      dst.StoreCopied(dstSlot, p, s, payload, suffix);
    }

    /** i of the entries es, taken from srcSlot on, have been appended to dst, which was img0. */
    ghost predicate Copying(dst: BTreeNode, dstSlot: nat, srcSlot: nat, img0: Image, es: seq<Entry>, i: nat)
      reads this, hint, slot, mem, dst, dst.slot, dst.mem
    {
      && Valid() && this.Repr() !! dst.Repr() && dst.Shape() && dst.isLeaf == isLeaf && dst.count == dstSlot
      && i <= |es| && srcSlot + |es| <= count && es == View().entries[srcSlot..srcSlot + |es|]
      && dstSlot + i <= MAX_SLOTS && CopyFits(img0, es) && Appended(img0, dst.Img(dstSlot + i), es[..i])
    }

    lemma {:induction false} CopyingOn(dst: BTreeNode, dstSlot: nat, srcSlot: nat, img0: Image, es: seq<Entry>, i: nat)
      requires Copying(dst, dstSlot, srcSlot, img0, es, i) && i < |es|
      ensures Valid() && dst.Shape() && srcSlot + i < count <= slot.Length && dstSlot + i < dst.slot.Length == MAX_SLOTS
      ensures CopyReady(Img(count), srcSlot + i, img0, dst.Img(dstSlot + i), es, i)
    {
      hide Image.WellFormed, Image.View, Good, Appended, CopyFits, StoreAt, HintsMatch, Head, Common, CopyReady;
      var src, img := Img(count), dst.Img(dstSlot + i);
      ViewIs();
      assert src.View().entries[srcSlot + i] == es[i] && |img.slots| == dstSlot + i;
      ReadyToCopy(src, srcSlot + i, img0, img, es, i);
      ReadyRoom(src, srcSlot + i, img0, img, es, i);
    }

    lemma {:induction false} CopyStart(dst: BTreeNode, dstSlot: nat, srcSlot: nat, img0: Image, es: seq<Entry>)
      requires Valid() && this.Repr() !! dst.Repr() && dst.Shape() && dst.isLeaf == isLeaf && dst.count == dstSlot
      requires srcSlot + |es| <= count && |View().entries| == count && es == View().entries[srcSlot..srcSlot + |es|]
      requires img0 == dst.Img(dstSlot) && CopyFits(img0, es)
      ensures Copying(dst, dstSlot, srcSlot, img0, es, 0)
    {
      hide Appended, Good, HintsOk, View, Valid;
      assert img0.WellFormed();
      AppendedNone(img0);
      assert es[..0] == [];
    }

    method CopyNext(dst: BTreeNode, dstSlot: nat, srcSlot: nat, i: nat, ghost img0: Image, ghost es: seq<Entry>)
      requires Copying(dst, dstSlot, srcSlot, img0, es, i) && i < |es|
      modifies dst`dataOffset, dst`spaceUsed, dst.slot, dst.mem
      ensures Copying(dst, dstSlot, srcSlot, img0, es, i + 1)
    {
      hide CopyReady, Appended, CopyFits, Valid, View, Shape;
      CopyingOn(dst, dstSlot, srcSlot, img0, es, i);
      CopyOne(dst, dstSlot + i, srcSlot + i, img0, es, i);
    }

    method CopyKeyValueRange(dst: BTreeNode, dstSlot: nat, srcSlot: nat, srcCount: nat)
      requires Valid() && this.Repr() !! dst.Repr() && dst.Shape() && dst.isLeaf == isLeaf && dst.count == dstSlot
      requires srcSlot + srcCount <= count == |View().entries|
      requires CopyFits(dst.Img(dstSlot), View().entries[srcSlot..srcSlot + srcCount])
      modifies dst`count, dst`dataOffset, dst`spaceUsed, dst.slot, dst.mem
      ensures dst.Shape() && dst.count == dstSlot + srcCount
      ensures Appended(old(dst.Img(dstSlot)), dst.Img(dst.count), old(View()).entries[srcSlot..srcSlot + srcCount])
    {
      hide Appended, CopyFits, Good, HintsOk, View, Copying, Valid;
      ghost var img0, es := dst.Img(dstSlot), View().entries[srcSlot..srcSlot + srcCount];
      CopyStart(dst, dstSlot, srcSlot, img0, es);
      var i := 0;
      while i < srcCount
        invariant i <= srcCount && Copying(dst, dstSlot, srcSlot, img0, es, i)
        modifies dst`dataOffset, dst`spaceUsed, dst.slot, dst.mem
      {
        CopyNext(dst, dstSlot, srcSlot, i, img0, es);
        i := i + 1;
      }
      Copied(dst, dstSlot, srcSlot, img0, es, i);
      dst.count := dst.count + srcCount;
    }

    lemma {:induction false} Copied(dst: BTreeNode, dstSlot: nat, srcSlot: nat, img0: Image, es: seq<Entry>, i: nat)
      requires Copying(dst, dstSlot, srcSlot, img0, es, i) && i == |es|
      ensures dst.Shape() && dst.count == dstSlot && dstSlot + i <= MAX_SLOTS
      ensures Appended(img0, dst.Img(dstSlot + i), es)
    {
      hide Appended, CopyFits, Good, View;
      assert es[..i] == es;
    }

    // -------------------------------------------------------------------- compaction

    /** memcpy of everything behind the pid. */
    method CopyNode(src: BTreeNode)
      requires Shape() && src.Shape() && this.Repr() !! src.Repr() && isLeaf == src.isLeaf
      modifies this, hint, slot, mem
      ensures Shape() && count == src.count && Img(count) == src.Img(src.count) && hint[..] == src.hint[..]
    {
      link, count, spaceUsed, dataOffset, prefixLen := src.link, src.count, src.spaceUsed, src.dataOffset,
          src.prefixLen;
      lowerFence, upperFence := src.lowerFence, src.upperFence;
      forall i | 0 <= i < HINT_COUNT { hint[i] := src.hint[i]; }
      forall i | 0 <= i < MAX_SLOTS { slot[i] := src.slot[i]; }
      forall i | 0 <= i < PAGE_SIZE { mem[i] := src.mem[i]; }
      assert mem[..] == src.mem[..] && hint[..] == src.hint[..];
      assert slot[..] == src.slot[..];
      assert slot[..count] == slot[..][..count] && src.slot[..count] == src.slot[..][..count];
    }

    /** A new page with the fences of p. */
    static method NewPage(pid: nat, ghost p: Page, lower: Key, upper: Key, isLeaf: bool) returns (node: BTreeNode)
      requires lower == p.lower && upper == p.upper && isLeaf == p.isLeaf
      requires |p.lower| + |p.upper| <= PAGE_SIZE - HEADER_SIZE
      ensures fresh(node) && fresh(node.hint) && fresh(node.slot) && fresh(node.mem) && node.pid == pid
      ensures node.isLeaf == isLeaf
      ensures node.Shape() && node.count == 0 && Emptied(node.Img(0), p) && node.link == NO_NEIGHBOUR
    {
      hide WithFences, Fresh, Emptied, Image.WellFormed;
      node := new BTreeNode(pid, isLeaf);
      FreshFences(node.Img(0), p);
      node.SetFences(lower, upper);
    }

    /** Repacks the page: same meaning, and all free space is contiguous. */
    method Compactify()
      requires Valid()
      modifies this, hint, slot, mem
      ensures Valid() && View() == old(View()) && count == old(count) && prefixLen == old(prefixLen)
      ensures FreeSpace() == old(FreeSpaceAfterCompaction()) == FreeSpaceAfterCompaction()
    {
      hide Image.WellFormed, Image.View, Good, HintsOk, Emptied, Appended, CopyFits, Page.Ok, Page.FreeAfterCompaction,
        Page.PrefixLen;
      ghost var p := View();
      var should := FreeSpaceAfterCompaction();
      PageFits();
      var tmp := NewPage(pid, p, GetLowerFence(), GetUpperFence(), isLeaf);
      ghost var img0 := tmp.Img(0);
      RebuildFits(img0, p);
      assert p.entries[0..count] == p.entries;
      CopyKeyValueRange(tmp, 0, 0, count);
      Rebuilt(img0, tmp.Img(tmp.count), p, link);
      tmp.link := link;
      CopyNode(tmp);
      MakeHint();
      PageFits();
    }

    lemma {:induction false} PageFits()
      requires Valid()
      ensures View().Ok() && View().Fits() && View().link == Img(count).ViewLink() && View().isLeaf == isLeaf
      ensures View().FreeAfterCompaction() == FreeSpaceAfterCompaction() && |View().entries| == count
      ensures View().PrefixLen() == prefixLen
      ensures |View().lower| + |View().upper| <= PAGE_SIZE - HEADER_SIZE
    {
      hide HintsOk, Page.Ok, Head, Common;
      SpaceIsViews();
      FencesFit(View());
    }

    // -------------------------------------------------------------------- inserting and removing

    /** memmove of the slots from slotId on, by one to the back. */
    method MoveSlotsUp(slotId: nat)
      requires Shape() && slotId <= count < MAX_SLOTS
      modifies slot
      ensures slot[..][..slotId] == old(slot[..])[..slotId]
      ensures slot[..][slotId + 1..count + 1] == old(slot[..])[slotId..count]
    {
      forall i | slotId < i <= count { slot[i] := slot[i - 1]; }
      assert forall i :: 0 <= i < count - slotId ==>
          slot[..][slotId + 1..count + 1][i] == old(slot[..])[slotId..count][i];
    }

    /** memmove, storeKeyValue and count++ of insertInPage. */
    method PlaceSlot(slotId: nat, key: Key, payload: seq<byte>)
      requires Shape() && slotId <= count < MAX_SLOTS && prefixLen <= |key|
      requires |key| - prefixLen + |payload| <= dataOffset <= PAGE_SIZE
      modifies this`dataOffset, this`spaceUsed, this`count, slot, mem
      ensures Shape() && count == old(count) + 1
      ensures Img(count) == StoreAt(old(Img(count)), slotId, old(key[prefixLen..]), payload)
    {
      hide Head, Splice;
      ghost var before := slot[..];
      MoveSlotsUp(slotId);
      ghost var moved := slot[..];
      StoreKeyValue(slotId, key, payload);
      SlotsInserted(before, moved, slot[..], slotId, count, slot[slotId]);
      count := count + 1;
    }

    /** The new entry at slotId, on a page with enough contiguous space. */
    method PlaceEntry(slotId: nat, key: Key, payload: seq<byte>)
      requires Shape() && slotId <= count && prefixLen <= |key| && HintsOk()
      requires CanStore(Img(count), slotId, key[prefixLen..], payload)
      modifies this`dataOffset, this`spaceUsed, this`count, hint, slot, mem
      ensures Shape() && HintsOk() && count == old(count) + 1
      ensures Img(count) == StoreAt(old(Img(count)), slotId, old(key[prefixLen..]), payload)
    {
      ghost var img, heads, suffix := Img(count), Heads(slot[..count]), key[prefixLen..];
      hide HintsMatch, CanStore, Head, Heads, Inserted, StoreAt;
      StoreRoom(img, slotId, suffix, payload);
      InsertedHeads(img, slotId, suffix, payload);
      PlaceSlot(slotId, key, payload);
      StoredSlot(img, slotId, suffix, payload);
      assert slot[..count] == Img(count).slots;
      UpdateHint(slotId, heads);
    }

    /** Inserts a key that is not on the page; repacks the page first if the gap is too small. */
    method InsertInPage(key: Key, payload: seq<byte>)
      requires Valid() && CanInsert(View(), key, payload) && View().HasSpaceFor(|key|, |payload|)
      modifies this, hint, slot, mem
      ensures Valid() && View() == old(View()).Insert(key, ValueOf(isLeaf, payload))
    {
      hide Good, HintsOk, CanInsert, Page.HasSpaceFor, Page.Insert, CanStore, StoreAt, Image.View;
      ghost var p := View();
      NeededIs(|key|, |payload|);
      if SpaceNeeded(|key|, |payload|) > FreeSpace() {
        Compactify();
      }
      var slotId, _ := LowerBound(key);
      InsertIs(p, key, payload);
      PlaceEntry(slotId, key, payload);
    }

    lemma {:induction false} NeededIs(keyLen: nat, payloadLen: nat)
      requires Valid()
      ensures SpaceNeeded(keyLen, payloadLen) == View().SpaceNeeded(keyLen, payloadLen)
      ensures View().HasSpaceFor(keyLen, payloadLen) <==> SpaceNeeded(keyLen, payloadLen) <= FreeSpaceAfterCompaction()
    {
      SpaceIsViews();
    }

    lemma {:induction false} InsertIs(p: Page, key: Key, payload: seq<byte>)
      requires Valid() && View() == p && CanInsert(p, key, payload)
      requires SpaceNeeded(|key|, |payload|) <= FreeSpace()
      ensures prefixLen <= |key| && p.Pos(key) <= count
      ensures CanStore(Img(count), p.Pos(key), key[prefixLen..], payload)
      ensures var r := StoreAt(Img(count), p.Pos(key), key[prefixLen..], payload);
        Good(r) && r.View() == p.Insert(key, ValueOf(isLeaf, payload))
    {
      hide Good, HintsOk, CanStore, StoreAt, CanInsert, Page.Insert, Image.WellFormed, Head, Common;
      ViewIs();
      assert p.Covers(key) by { CanInsertCovers(p, key, payload); }
      CoveredLength(Img(count), key);
      InsertGood(Img(count), key, payload);
    }

    method RemoveSlot(slotId: nat)
      requires Valid() && slotId < count
      modifies this`spaceUsed, this`count, hint, slot
      ensures Valid() && View() == old(View()).RemoveAt(slotId)
    {
      hide Good, HintsOk, Page.RemoveAt, Image.View;
      ghost var img := Img(count);
      RemoveGood(img, slotId);
      spaceUsed := spaceUsed - slot[slotId].keyLen;
      spaceUsed := spaceUsed - slot[slotId].payloadLen;
      forall i | slotId <= i < count - 1 { slot[i] := slot[i + 1]; }
      count := count - 1;
      assert slot[..count] == img.slots[..slotId] + img.slots[slotId + 1..];
      assert Img(count) == RemoveSlotAt(img, slotId);
      MakeHint();
    }

    /** Removes the key's entry, if there is one. */
    method RemoveInPage(key: Key) returns (removed: bool)
      requires Valid()
      modifies this`spaceUsed, this`count, hint, slot
      ensures Valid() && removed == old(View()).Found(key)
      ensures View() == if removed then old(View()).RemoveAt(old(View()).Pos(key)) else old(View())
    {
      hide Good, HintsOk, Page.RemoveAt;
      ViewIs();
      var slotId, found := LowerBound(key);
      if !found { return false; }
      RemoveSlot(slotId);
      return true;
    }

    // -------------------------------------------------------------------- inner pages

    function GetChild(slotId: nat): nat
      requires Valid() && !isLeaf && slotId < count
      reads this, hint, slot, mem
    {
      LoadLittleEndian(GetPayload(slotId))
    }

    lemma {:induction false} KidIs(slotId: nat)
      requires Valid() && !isLeaf && slotId < count
      ensures View().InnerShape() && |View().entries| == count && View().Kid(slotId) == GetChild(slotId)
    {
      ViewEntry(Img(count), slotId);
    }

    lemma {:induction false} LastKidIs()
      requires Valid() && !isLeaf
      ensures View().InnerShape() && |View().entries| == count && View().Kid(count) == link
    {
    }

    /** The child a key belongs to. */
    method LookupInner(key: Key) returns (child: nat)
      requires Valid() && !isLeaf
      ensures View().InnerShape() && child == View().LookupInner(key)
    {
      hide Good, HintsOk, GetChild, Page.Kid;
      ViewIs();
      LastKidIs();
      var pos, _ := LowerBound(key);
      if pos == count { return link; }
      KidIs(pos);
      return GetChild(pos);
    }

    /** memcpy of a page id over the payload of a slot. */
    method SetChild(slotId: nat, child: nat)
      requires Valid() && !isLeaf && slotId < count && child <= NO_NEIGHBOUR
      modifies mem
      ensures Valid() && old(View()).InnerShape() && View() == old(View()).SetKid(slotId, child)
    {
      hide Good, HintsOk, Image.View, Page.SetKid, StoreLittleEndian, LoadLittleEndian, Splice;
      ghost var img := Img(count);
      SetPayloadGood(img, slotId, child);
      ViewIs();
      LastKidIs();
      WriteBytes(slot[slotId].offset + slot[slotId].keyLen, PidBytes(child));
      assert Img(count) == SetPayload(img, slotId, PidBytes(child));
    }

    /** Assignment to upperInnerNode or nextLeafNode. */
    method SetLink(link: nat)
      requires Valid()
      modifies this`link
      ensures Valid()
      ensures View() == old(View()).(link := if isLeaf && link == NO_NEIGHBOUR then NoNeighbour else To(link))
    {
      hide Good, HintsMatch, Image.View;
      ghost var img := Img(count);
      SetLinkGood(img, link);
      this.link := link;
      assert Img(count) == img.(link := link);
    }

    // -------------------------------------------------------------------- separators

    /** Length of the longest common prefix of two stored suffixes. */
    method CommonPrefix(slotA: nat, slotB: nat) returns (i: nat)
      requires Valid() && slotA < count && slotB < count && count == |View().entries|
      ensures i == View().SuffixCommon(slotA, slotB)
    {
      hide Good, HintsOk, GetKey, View, Page.Suffix, Page.SuffixCommon, Page.PrefixLen, Common;
      var limit := Min(slot[slotA].keyLen, slot[slotB].keyLen);
      var a, b := GetKey(slotA), GetKey(slotB);
      SuffixIs(slotA);
      SuffixIs(slotB);
      hide Valid;
      i := 0;
      while i < limit && a[i] == b[i]
        invariant i <= limit
        invariant forall j :: 0 <= j < i ==> a[j] == b[j]
      {
        i := i + 1;
      }
      CommonIs(a, b, i);
      SuffixCommonIs(View(), slotA, slotB, a, b);
    }

    lemma {:induction false} SuffixIs(slotId: nat)
      requires Valid() && slotId < count
      ensures |View().entries| == count && |GetKey(slotId)| == slot[slotId].keyLen
      ensures View().Suffix(slotId) == GetKey(slotId) && |View().entries[slotId].key| == prefixLen + slot[slotId].keyLen
    {
      ViewIs();
      SpaceIsViews();
      FullKey(Img(count), slotId);
      GoodPrefix(Img(count));
      hide Good, HintsOk, Image.View, Image.Prefix, Image.Suffix, Common;
    }

    method FindSeparator(splitOrdered: bool) returns (info: SeparatorInfo)
      requires Valid() && count == |View().entries| && View().isLeaf == isLeaf && count > if isLeaf then 1 else 0
      ensures info == View().FindSeparator(splitOrdered)
    {
      hide Good, HintsOk, View, Page.SuffixCommon, Page.Suffix, GetKey, Page.BestSlot, Page.Describes, Page.PrefixLen;
      SpaceIsViews();
      if !isLeaf {
        SuffixIs(count / 2);
        return SeparatorInfo(prefixLen + slot[count / 2].keyLen, count / 2, false);
      }
      var bestSlot := BestSlot(splitOrdered);
      var common := CommonPrefix(bestSlot, bestSlot + 1);
      SuffixIs(bestSlot);
      SuffixIs(bestSlot + 1);
      if slot[bestSlot].keyLen > common && slot[bestSlot + 1].keyLen > common + 1 {
        return SeparatorInfo(prefixLen + common + 1, bestSlot, true);
      }
      return SeparatorInfo(prefixLen + slot[bestSlot].keyLen, bestSlot, false);
    }

    /** The slot at which to split a leaf: near the end, or where the keys' common prefix changes, or the middle. */
    method BestSlot(splitOrdered: bool) returns (bestSlot: nat)
      requires Valid() && count > 1 && count == |View().entries|
      ensures bestSlot == View().BestSlot(splitOrdered)
    {
      hide View, Page.SuffixCommon, Page.FirstDifferent, Valid;
      if splitOrdered { return count - 2; }
      if count <= 16 { return (count - 1) / 2; }
      bestSlot := PrefixChange(count / 2 - count / 16, count / 2);
    }

    /** The first slot in the range whose common prefix with slot 0 differs from that of lower, if the last one's
        does. */
    method PrefixChange(lower: nat, upper: nat) returns (bestSlot: nat)
      requires Valid() && lower < upper <= count == |View().entries|
      ensures var p := View(); var len := p.SuffixCommon(lower, 0);
        bestSlot == if len != p.SuffixCommon(upper - 1, 0) then p.FirstDifferent(lower + 1, upper, len) else lower
    {
      hide View, Page.SuffixCommon, Page.FirstDifferent, Valid;
      var bestPrefixLen := CommonPrefix(lower, 0);
      var last := CommonPrefix(upper - 1, 0);
      if bestPrefixLen == last { return lower; }
      bestSlot := FirstDifferent(lower + 1, upper, bestPrefixLen);
    }

    method FirstDifferent(from: nat, upper: nat, len: nat) returns (bestSlot: nat)
      requires Valid() && count > 0 && from <= upper <= count == |View().entries|
      ensures bestSlot == View().FirstDifferent(from, upper, len)
    {
      hide Valid, View, Page.SuffixCommon;
      bestSlot := from;
      while bestSlot < upper
        invariant from <= bestSlot <= upper
        invariant View().FirstDifferent(from, upper, len) == View().FirstDifferent(bestSlot, upper, len)
      {
        var common := CommonPrefix(bestSlot, 0);
        if common != len { return; }
        bestSlot := bestSlot + 1;
      }
    }

    method GetSep(info: SeparatorInfo) returns (sep: Key)
      requires Valid() && View().Describes(info) && count == |View().entries|
      ensures sep == View().Sep(info)
    {
      var from := info.slot + if info.isTruncated then 1 else 0;
      var suffix, prefix := GetKey(from), GetPrefix();
      SepIs(info, from, suffix, prefix);
      hide *;
      sep := prefix + suffix[..info.len - prefixLen];
    }

    lemma {:induction false} SepIs(info: SeparatorInfo, from: nat, suffix: Key, prefix: Key)
      requires Valid() && View().Describes(info) && from == info.slot + if info.isTruncated then 1 else 0
      requires from < count == |View().entries| && suffix == GetKey(from) && prefix == GetPrefix()
      ensures prefixLen <= info.len <= prefixLen + |suffix| && |prefix| == prefixLen
      ensures View().Sep(info) == prefix + suffix[..info.len - prefixLen]
    {
      hide Good, HintsOk, Page.Describes, Page.Suffix, Image.View, Image.Prefix, Image.Suffix, Page.PrefixLen;
      SuffixIs(from);
      SpaceIsViews();
      FullKey(Img(count), from);
      SepLength(View(), info);
      assert View().entries[from].key == prefix + suffix;
    }

    // -------------------------------------------------------------------- splitting and merging

    /** The parent's part of splitNode: the child that held sep's range becomes newPid, and sep with left goes in
        front. */
    method InsertSeparator(sep: Key, left: nat, newPid: nat)
      requires Valid() && TakesSeparator(View(), sep, left) && left <= NO_NEIGHBOUR && newPid <= NO_NEIGHBOUR
      modifies this, hint, slot, mem
      ensures Valid() && Separated(old(View()), sep, left, newPid, View())
    {
      hide Good, HintsMatch, Image.View, Page.Covers, Page.Kid, Page.KidUpper, Page.HasSpaceFor, CanInsert, Page.Insert,
        Page.Ok,
        StoreLittleEndian, LoadLittleEndian, Less, Pages.LowerBound;
      ghost var q := View();
      PageFits();
      SeparatorFits(q, sep, newPid, PidBytes(left));
      var oldSlot, _ := LowerBound(sep);
      if oldSlot == count {
        SetLink(newPid);
      } else {
        SetChild(oldSlot, newPid);
      }
      assert View() == q.SetKid(q.Pos(sep), newPid);
      PidRange();
      LoadStore(left, PID_SIZE);
      InsertInPage(sep, PidBytes(left));
    }

    /** The entries [from, from + n) of this page fill the fresh page node, whose fences are p's. */
    method FillFrom(node: BTreeNode, ghost p: Page, from: nat, n: nat, link: nat)
      requires Valid() && this.Repr() !! node.Repr() && node.Shape() && node.count == 0 && node.isLeaf == isLeaf
      requires Emptied(node.Img(0), p) && p.Ok() && p.Fits() && LinkIs(isLeaf, link, p.link)
      requires from + n <= count == |View().entries| && p.entries == View().entries[from..from + n]
      modifies node, node.hint, node.slot, node.mem
      ensures node.Valid() && node.View() == p
    {
      hide Good, HintsOk, View, Emptied, Appended, CopyFits, Page.Ok, Page.Fits, Valid;
      ghost var img0 := node.Img(0);
      RebuildFits(img0, p);
      CopyKeyValueRange(node, 0, from, n);
      ghost var filled := node.Img(n);
      node.link := link;
      assert node.Img(n).(link := img0.link) == filled;
      node.MakeHint();
      node.Finish(img0, p);
    }

    /** A fresh page without entries, with its fences and link, means p. */
    method BecomeEmpty(ghost p: Page, link: nat)
      requires Shape() && count == 0 && Emptied(Img(0), p) && isLeaf == p.isLeaf && p.Ok() && p.entries == []
      requires LinkIs(isLeaf, link, p.link)
      modifies this, hint
      ensures Valid() && View() == p
    {
      hide Good, HintsOk, View, Emptied, Appended, Page.Ok, Valid, LinkIs;
      ghost var img0 := Img(0);
      EmptiedIsWell(img0, p);
      AppendedNone(img0);
      this.link := link;
      assert Img(0).(link := img0.link) == img0;
      MakeHint();
      Finish(img0, p);
    }

    lemma {:induction false} Finish(img0: Image, p: Page)
      requires Shape() && HintsOk() && Emptied(img0, p) && Appended(img0, Img(count).(link := img0.link), p.entries)
      requires p.Ok() && LinkIs(isLeaf, link, p.link)
      ensures Valid() && View() == p
    {
      hide Good, HintsOk, Emptied, Appended, Image.View, Page.Ok;
      SameKind(img0, Img(count).(link := img0.link), p);
      Rebuilt(img0, Img(count).(link := img0.link), p, link);
      assert Img(count).(link := img0.link).(link := link) == Img(count);
    }

    /** The bytes of src become this page's. */
    method Adopt(src: BTreeNode)
      requires Valid() && src.Valid() && this.Repr() !! src.Repr() && isLeaf == src.isLeaf
      modifies this, hint, slot, mem
      ensures Valid() && View() == src.View()
    {
      hide Good, HintsMatch, Image.View;
      CopyNode(src);
    }

    /** l and r are what this page's halves must become, and they fit. */
    ghost predicate Halves(l: Page, r: Page, sepSlot: nat, newPid: nat)
      requires Valid()
      reads this, hint, slot, mem
    {
      && sepSlot < count == |View().entries| && l.Ok() && r.Ok() && l.Fits() && r.Fits()
      && l.entries == View().entries[0..if isLeaf then sepSlot + 1 else sepSlot]
      && r.entries == View().entries[sepSlot + 1..sepSlot + 1 + (count - (sepSlot + 1))]
      && LinkIs(isLeaf, if isLeaf then newPid else GetChild(sepSlot), l.link) && LinkIs(isLeaf, link, r.link)
    }

    /** splitNode's copying: both halves of this page, on fresh pages with the halves' fences. */
    method FillHalves(left: BTreeNode, right: BTreeNode, sepSlot: nat, newPid: nat, ghost l: Page, ghost r: Page)
      requires Valid() && Halves(l, r, sepSlot, newPid)
      requires this.Repr() !! left.Repr() && this.Repr() !! right.Repr() && left.Repr() !! right.Repr()
      requires left.Shape() && left.count == 0 && left.isLeaf == isLeaf && Emptied(left.Img(0), l)
      requires right.Shape() && right.count == 0 && right.isLeaf == isLeaf && Emptied(right.Img(0), r)
      modifies left, left.hint, left.slot, left.mem, right, right.hint, right.slot, right.mem
      ensures left.Valid() && left.View() == l && right.Valid() && right.View() == r
    {
      hide Valid, View, Emptied, Page.Ok, Page.Fits, LinkIs, GetChild;
      var leftCount, leftLink := sepSlot + 1, newPid;
      if !isLeaf {
        leftCount, leftLink := sepSlot, GetChild(sepSlot);
      }
      FillFrom(left, l, 0, leftCount, leftLink);
      FillFrom(right, r, sepSlot + 1, count - (sepSlot + 1), link);
    }

    lemma {:induction false} HalvesOfSplit(sepSlot: nat, sep: Key, newPid: nat)
      requires Valid() && GoodSeparator(View(), sepSlot, sep) && newPid < NO_NEIGHBOUR
      requires !isLeaf ==> View().InnerShape()
      requires View().SplitLeft(sepSlot, sep, newPid).Fits() && View().SplitRight(sepSlot, sep).Fits()
      ensures Halves(View().SplitLeft(sepSlot, sep, newPid), View().SplitRight(sepSlot, sep), sepSlot, newPid)
    {
      hide Page.Ok, Good, HintsOk, Less, GetChild, Page.Fits;
      PageFits();
      SplitOk(View(), sepSlot, sep, newPid);
      if !isLeaf { KidIs(sepSlot); }
    }

    /** What splitNode demands: a separator of this page, halves that fit, and a parent that routes the
        separator here and has space for it. */
    ghost predicate MaySplit(parent: BTreeNode, sepSlot: nat, sep: Key, newPid: nat)
      requires Valid() && parent.Valid()
      reads this, hint, slot, mem, parent, parent.hint, parent.slot, parent.mem
    {
      && newPid < NO_NEIGHBOUR && pid <= NO_NEIGHBOUR
      && GoodSeparator(View(), sepSlot, sep) && (!isLeaf ==> View().InnerShape())
      && View().SplitLeft(sepSlot, sep, newPid).Fits() && View().SplitRight(sepSlot, sep).Fits()
      && TakesSeparator(parent.View(), sep, pid)
    }

    /** The halves' fences and contents. */
    lemma {:induction false} SplitStart(parent: BTreeNode, sepSlot: nat, sep: Key, newPid: nat)
      returns (l: Page, r: Page)
      requires Valid() && parent.Valid() && MaySplit(parent, sepSlot, sep, newPid)
      ensures newPid <= NO_NEIGHBOUR && pid <= NO_NEIGHBOUR && TakesSeparator(parent.View(), sep, pid)
      ensures IsSplit(View(), sepSlot, sep, newPid, l, r) && Halves(l, r, sepSlot, newPid)
      ensures l.isLeaf == isLeaf && l.lower == View().lower && l.upper == sep
      ensures |l.lower| + |l.upper| <= PAGE_SIZE - HEADER_SIZE
      ensures r.isLeaf == isLeaf && r.lower == sep && r.upper == View().upper
      ensures |r.lower| + |r.upper| <= PAGE_SIZE - HEADER_SIZE
    {
      hide Good, HintsOk, Page.Ok, Halves, TakesSeparator, Page.Fits;
      l, r := View().SplitLeft(sepSlot, sep, newPid), View().SplitRight(sepSlot, sep);
      HalvesOfSplit(sepSlot, sep, newPid);
      HalvesFit(l, r, sepSlot, newPid);
    }

    lemma {:induction false} HalvesFit(l: Page, r: Page, sepSlot: nat, newPid: nat)
      requires Valid() && Halves(l, r, sepSlot, newPid)
      ensures |l.lower| + |l.upper| <= PAGE_SIZE - HEADER_SIZE && |r.lower| + |r.upper| <= PAGE_SIZE - HEADER_SIZE
    {
      hide Page.Ok, Page.Fits, Valid, View;
      FencesFit(l);
      FencesFit(r);
    }

    /** The two halves of this page, on new pages. */
    method MakeHalves(sepSlot: nat, sep: Key, newPid: nat, ghost l: Page, ghost r: Page)
      returns (nodeLeft: BTreeNode, nodeRight: BTreeNode)
      requires Valid() && Halves(l, r, sepSlot, newPid)
      requires l.isLeaf == isLeaf && l.lower == View().lower && l.upper == sep
      requires |l.lower| + |l.upper| <= PAGE_SIZE - HEADER_SIZE
      requires r.isLeaf == isLeaf && r.lower == sep && r.upper == View().upper
      requires |r.lower| + |r.upper| <= PAGE_SIZE - HEADER_SIZE
      ensures fresh(nodeLeft.Repr()) && nodeLeft.isLeaf == isLeaf && nodeLeft.Valid() && nodeLeft.View() == l
      ensures fresh(nodeRight.Repr()) && nodeRight.pid == newPid && nodeRight.Valid() && nodeRight.View() == r
    {
      hide Good, HintsOk, View, Emptied, Halves, GetLowerFence, GetUpperFence, Valid;
      nodeLeft := NewPage(pid, l, GetLowerFence(), sep, isLeaf);
      nodeRight := NewPage(newPid, r, sep, GetUpperFence(), isLeaf);
      FillHalves(nodeLeft, nodeRight, sepSlot, newPid, l, r);
    }

    /** Splits this page at sep: it keeps the left half, a new page gets the right half, the parent both. */
    method SplitNode(parent: BTreeNode, sepSlot: nat, sep: Key, newPid: nat) returns (nodeRight: BTreeNode)
      requires Valid() && parent.Valid() && this.Repr() !! parent.Repr() && MaySplit(parent, sepSlot, sep, newPid)
      modifies this, hint, slot, mem, parent, parent.hint, parent.slot, parent.mem
      ensures Valid() && parent.Valid() && nodeRight.Valid() && fresh(nodeRight.Repr()) && nodeRight.pid == newPid
      ensures IsSplit(old(View()), sepSlot, sep, newPid, View(), nodeRight.View())
      ensures Separated(old(parent.View()), sep, pid, newPid, parent.View())
    {
      hide Valid, View, MaySplit, Halves, IsSplit, Separated, TakesSeparator;
      ghost var l, r := SplitStart(parent, sepSlot, sep, newPid);
      var nodeLeft;
      nodeLeft, nodeRight := MakeHalves(sepSlot, sep, newPid, l, r);
      parent.InsertSeparator(sep, pid, newPid);
      Adopt(nodeLeft);
    }

    /** The entries of this page and then those of right, appended to a fresh page. */
    method CopyBoth(tmp: BTreeNode, right: BTreeNode, ghost img0: Image, ghost es: seq<Entry>, ghost fs: seq<Entry>)
      requires Valid() && right.Valid() && this.Repr() !! tmp.Repr() && right.Repr() !! tmp.Repr()
      requires tmp.Shape() && tmp.count == 0 && tmp.isLeaf == isLeaf == right.isLeaf && img0 == tmp.Img(0)
      requires es == View().entries && fs == right.View().entries && CopyFits(img0, es + fs)
      modifies tmp`count, tmp`dataOffset, tmp`spaceUsed, tmp.slot, tmp.mem
      ensures tmp.Shape() && Appended(img0, tmp.Img(tmp.count), es + fs)
    {
      hide Good, HintsOk, View, Appended, CopyFits, Valid;
      ViewIs();
      right.ViewIs();
      RebuildInTwo(img0, img0, es, fs);
      assert es[0..count] == es && fs[0..right.count] == fs;
      CopyKeyValueRange(tmp, 0, 0, count);
      ghost var img1 := tmp.Img(count);
      RebuildInTwo(img0, img1, es, fs);
      right.CopyKeyValueRange(tmp, count, 0, right.count);
      AppendedTwice(img0, img1, tmp.Img(tmp.count), es, fs);
    }

    /** The entries of this page and then those of right fill the fresh page tmp, whose fences are p's. */
    method JoinInto(tmp: BTreeNode, right: BTreeNode, ghost p: Page)
      requires Valid() && right.Valid() && this.Repr() !! tmp.Repr() && right.Repr() !! tmp.Repr()
      requires tmp.Shape() && tmp.count == 0 && tmp.isLeaf == isLeaf == right.isLeaf
      requires Emptied(tmp.Img(0), p) && p.Ok() && p.Fits() && LinkIs(isLeaf, right.link, p.link)
      requires p.entries == View().entries + right.View().entries
      modifies tmp, tmp.hint, tmp.slot, tmp.mem
      ensures tmp.Valid() && tmp.View() == p
    {
      hide Good, HintsOk, View, Emptied, Appended, CopyFits, Page.Ok, Page.Fits, Valid, LinkIs;
      ghost var img0 := tmp.Img(0);
      RebuildFits(img0, p);
      CopyBoth(tmp, right, img0, View().entries, right.View().entries);
      ghost var img2 := tmp.Img(tmp.count);
      tmp.link := right.link;
      assert tmp.Img(tmp.count).(link := img0.link) == img2;
      tmp.MakeHint();
      tmp.Finish(img0, p);
    }

    /** The parent's part of mergeNodes: the entry after slotId is redirected, the one at slotId goes. */
    method DropSeparator(slotId: nat, left: nat)
      requires Valid() && !isLeaf && slotId + 1 < count && left <= NO_NEIGHBOUR
      modifies this`spaceUsed, this`count, hint, slot, mem
      ensures Valid() && Dropped(old(View()), slotId, left, View())
    {
      hide Good, HintsOk, View, Page.SetKid, Page.RemoveAt;
      LastKidIs();
      SetChild(slotId + 1, left);
      RemoveSlot(slotId);
    }

    /** What mergeNodes' callers guarantee about two leaves: they are neighbours, and their outer fences fit a page. */
    ghost predicate CanMerge(right: BTreeNode)
      requires Valid() && right.Valid()
      reads this, hint, slot, mem, right, right.hint, right.slot, right.mem
    {
      && right.isLeaf && View().upper == right.View().lower != []
      && |View().lower| + |right.View().upper| <= PAGE_SIZE - HEADER_SIZE
    }

    lemma {:induction false} MergedIs(right: BTreeNode) returns (p: Page)
      requires Valid() && right.Valid() && isLeaf && CanMerge(right)
      ensures p == View().Merge(right.View()) && p.Ok() && p.isLeaf && LinkIs(isLeaf, right.link, p.link)
      ensures p.lower == View().lower && p.upper == right.View().upper
      ensures |p.lower| + |p.upper| <= PAGE_SIZE - HEADER_SIZE
      ensures p.entries == View().entries + right.View().entries && right.isLeaf
      ensures View().MergeFits(right.View()) ==> p.Fits()
      ensures View().MergeFits(right.View()) <==>
        spaceUsed + right.spaceUsed + (HEADER_SIZE + SLOT_SIZE * (count + right.count))
        + (prefixLen - p.PrefixLen()) * count + (right.prefixLen - p.PrefixLen()) * right.count <= PAGE_SIZE
    {
      hide Page.Ok, Good, HintsOk, Image.View, Stored, Page.Fits, Common;
      p := View().Merge(right.View());
      PageFits();
      right.PageFits();
      MergeOk(View(), right.View());
      if View().MergeFits(right.View()) { MergeFitsSound(View(), right.View()); }
    }

    /** Merges right into this leaf if both fit one page; tells an inner page that there is nothing to do. */
    method MergeNodes(slotId: nat, parent: BTreeNode, right: BTreeNode) returns (merged: bool)
      requires Valid() && parent.Valid() && right.Valid() && pid <= NO_NEIGHBOUR
      requires this.Repr() !! parent.Repr() && right.Repr() !! parent.Repr() && this.Repr() !! right.Repr()
      requires isLeaf ==> CanMerge(right) && !parent.isLeaf && slotId + 1 < parent.count
      modifies this, hint, slot, mem, parent`spaceUsed, parent`count, parent.hint, parent.slot, parent.mem
      ensures Valid() && parent.Valid() && right.Valid() && right.View() == old(right.View())
      ensures merged <==> (isLeaf ==> old(View()).MergeFits(old(right.View())))
      ensures if isLeaf && merged then View() == old(View()).Merge(right.View()) else View() == old(View())
      ensures if isLeaf && merged then Dropped(old(parent.View()), slotId, pid, parent.View())
          else parent.View() == old(parent.View())
    {
      hide Valid, View, CanMerge, Dropped, Page.MergeFits, Page.Merge;
      if !isLeaf { return true; }
      var tmp;
      merged, tmp := TryJoin(right);
      if merged {
        parent.DropSeparator(slotId, pid);
        Adopt(tmp);
      }
    }

    /** The merged leaf on a new page, if the test says that it fits. */
    method TryJoin(right: BTreeNode) returns (fits: bool, tmp: BTreeNode)
      requires Valid() && right.Valid() && isLeaf && CanMerge(right)
      ensures fits == View().MergeFits(right.View())
      ensures fresh(tmp.Repr()) && tmp.isLeaf == isLeaf
      ensures fits ==> tmp.Valid() && tmp.View() == View().Merge(right.View())
    {
      hide Good, HintsOk, View, CanMerge, Emptied, Page.MergeFits, Page.Ok, Page.Fits, LinkIs, GetLowerFence,
        GetUpperFence, Page.PrefixLen;
      ghost var p := MergedIs(right);
      tmp := NewPage(pid, p, GetLowerFence(), right.GetUpperFence(), isLeaf);
      EmptiedSpace(tmp.Img(0), p);
      var leftGrow := (prefixLen - tmp.prefixLen) * count;
      var rightGrow := (right.prefixLen - tmp.prefixLen) * right.count;
      var spaceUpperBound :=
        spaceUsed + right.spaceUsed + (HEADER_SIZE + SLOT_SIZE * (count + right.count)) + leftGrow + rightGrow;
      fits := spaceUpperBound <= PAGE_SIZE;
      if fits { JoinInto(tmp, right, p); }
    }
  }
}
