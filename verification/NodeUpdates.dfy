/** What single writes to a page mean for its view: an entry inserted, removed, redirected or copied. */
module NodeUpdates {
  import opened Bytes
  import opened Pages
  import opened Splits
  import opened PageSpace
  import opened NodeImage
  import opened Hints
  import opened NodeSearch

  /** What insertInPage's callers guarantee. */
  ghost predicate CanInsert(v: Page, key: Key, payload: seq<byte>) {
    && v.Covers(key) && key != [] && !v.Found(key)
    && (!v.isLeaf ==> |payload| == PID_SIZE && (v.upper == [] || Less(key, v.upper)))
  }

  lemma {:induction false} CanInsertCovers(v: Page, key: Key, payload: seq<byte>)
    requires CanInsert(v, key, payload)
    ensures v.Covers(key)
  {
  }

  /** A covered key carries the page's prefix, so no stored length underflows. */
  lemma {:induction false} CoveredLength(img: Image, key: Key)
    requires Good(img)
    ensures img.Layout() && img.prefixLen <= img.lowerFence.len
    ensures img.View().Covers(key) ==> img.prefixLen <= |key| && StartsWith(key, img.Prefix())
  {
    GoodPrefix(img);
    if img.View().Covers(key) { KeyCarriesPrefix(img.View(), key); }
    hide Common, Less, Head;
  }

  lemma {:induction false} InsertStores(img: Image, key: Key, payload: seq<byte>)
    requires Good(img) && img.Layout() && img.prefixLen <= img.lowerFence.len && img.prefixLen <= |key|
    requires !img.isLeaf ==> |payload| == PID_SIZE
    requires SLOT_SIZE + (|key| - img.prefixLen) + |payload| <= img.FreeSpace()
    ensures CanStore(img, img.View().Pos(key), key[img.prefixLen..], payload)
  {
    assert img.WellFormed() && |img.View().entries| == |img.slots|;
    hide Image.WellFormed, Image.Layout, Image.View;
  }

  lemma {:induction false} GoodOk(img: Image)
    requires Good(img)
    ensures img.WellFormed() && img.View().Ok() && img.View().isLeaf == img.isLeaf && |img.Prefix()| == img.prefixLen
  {
    hide Page.Ok, Head, Common;
  }

  /** insertInPage, on a page with enough contiguous space. */
  lemma {:induction false} InsertGood(img: Image, key: Key, payload: seq<byte>)
    requires Good(img) && img.Layout() && img.prefixLen <= img.lowerFence.len && img.prefixLen <= |key|
    requires CanInsert(img.View(), key, payload)
    requires SLOT_SIZE + (|key| - img.prefixLen) + |payload| <= img.FreeSpace()
    ensures CanStore(img, img.View().Pos(key), key[img.prefixLen..], payload)
    ensures var r := StoreAt(img, img.View().Pos(key), key[img.prefixLen..], payload);
      Good(r) && r.View() == img.View().Insert(key, ValueOf(img.isLeaf, payload))
  {
    hide Image.WellFormed, Less, Common, Head, LowerBound, Image.View, StoreAt, Image.Prefix, CanStore, Page.Pos,
      Image.FreeSpace, Page.Ok, Page.Covers, Page.Found;
    var v, pos, suffix := img.View(), img.View().Pos(key), key[img.prefixLen..];
    GoodOk(img);
    CoveredLength(img, key);
    InsertStores(img, key, payload);
    assert key == img.Prefix() + suffix;
    StoreKeeps(img, pos, suffix, payload);
    StoreView(img, pos, suffix, payload);
    InsertOk(v, key, ValueOf(img.isLeaf, payload));
  }

  lemma {:induction false} InsertedHeads(img: Image, slotId: nat, suffix: Key, payload: seq<byte>)
    requires CanStore(img, slotId, suffix, payload)
    ensures Heads(StoreAt(img, slotId, suffix, payload).slots) == Inserted(Heads(img.slots), slotId, Head(suffix))
  {
    hide Head, StoreAt;
    StoreSlots(img, slotId, suffix, payload);
  }

  lemma {:induction false} StoredSlot(img: Image, slotId: nat, suffix: Key, payload: seq<byte>)
    requires CanStore(img, slotId, suffix, payload)
    ensures var r := StoreAt(img, slotId, suffix, payload); slotId < |r.slots| && r.slots[slotId].head == Head(suffix)
  {
    hide Head, Common;
    StoreSlots(img, slotId, suffix, payload);
  }

  lemma {:induction false} RemoveGood(img: Image, slotId: nat)
    requires Good(img) && slotId < |img.slots|
    ensures img.slots[slotId].keyLen + img.slots[slotId].payloadLen <= img.spaceUsed
    ensures var r := RemoveSlotAt(img, slotId); Good(r) && r.View() == img.View().RemoveAt(slotId)
  {
    RemoveSlotKeeps(img, slotId);
    RemoveOk(img.View(), slotId);
  }

  lemma {:induction false} SetPayloadGood(img: Image, slotId: nat, pid: nat)
    requires Good(img) && slotId < |img.slots| && !img.isLeaf && pid <= NO_NEIGHBOUR
    ensures img.slots[slotId].payloadLen == PID_SIZE
    ensures img.InHeap(img.slots[slotId].offset, img.slots[slotId].keyLen + PID_SIZE)
    ensures var r := SetPayload(img, slotId, PidBytes(pid)); Good(r) && r.View() == img.View().SetKid(slotId, pid)
  {
    SetPayloadKeeps(img, slotId, PidBytes(pid));
    PidRange();
    LoadStore(pid, PID_SIZE);
    var v := img.View();
    assert v.Ok() && v.InnerShape();
    hide Image.WellFormed, Less, Common, Head, Image.View, SetPayload, LoadLittleEndian;
    SetKidKeeps(v, slotId, pid);
  }

  lemma {:induction false} SetLinkWellFormed(img: Image, link: nat)
    requires img.WellFormed()
    ensures img.(link := link).WellFormed()
  {
    hide Head, Common, Clear, HeapUsed;
  }

  lemma {:induction false} SetLinkEntries(img: Image, link: nat)
    requires img.Layout() && img.prefixLen <= img.lowerFence.len
    ensures var r := img.(link := link); r.Layout() && r.Entries() == img.Entries()
  {
    var r := img.(link := link);
    assert forall i :: 0 <= i < |r.slots| ==> r.Entries()[i] == img.Entries()[i];
  }

  /** The link plays no part in what makes a page well-formed. */
  lemma {:induction false} SetLinkOk(v: Page, link: Link)
    requires v.Ok() && (!v.isLeaf ==> link.To?)
    ensures v.(link := link).Ok()
  {
    hide Less, Common;
  }

  lemma {:induction false} SetLinkView(img: Image, link: nat)
    requires img.WellFormed()
    ensures var r := img.(link := link); r.WellFormed() && r.View() == img.View().(link := r.ViewLink())
  {
    SetLinkWellFormed(img, link);
    SetLinkEntries(img, link);
    hide Head, Common, Image.Entries;
  }

  lemma {:induction false} SetLinkGood(img: Image, link: nat)
    requires Good(img)
    ensures Good(img.(link := link))
    ensures img.(link := link).View() == img.View().(link := img.(link := link).ViewLink())
  {
    SetLinkView(img, link);
    SetLinkOk(img.View(), img.(link := link).ViewLink());
  }

  // ---------------------------------------------------------------------- copying entries

  /** img is img0 with the entries es appended. */
  ghost predicate Appended(img0: Image, img: Image, es: seq<Entry>) {
    && img0.WellFormed() && img.WellFormed() && |img.slots| == |img0.slots| + |es|
    && img.isLeaf == img0.isLeaf && img.Prefix() == img0.Prefix()
    && img.View() == img0.View().(entries := img0.View().entries + es)
    && img.FreeSpace() == img0.FreeSpace() - SLOT_SIZE * |es| - Stored(es, img0.prefixLen)
  }

  lemma {:induction false} AppendedNone(img: Image)
    requires img.WellFormed()
    ensures Appended(img, img, [])
  {
    assert img.View().entries + [] == img.View().entries;
    hide Head, Common;
  }

  lemma {:induction false} AppendedFrame(img0: Image, img: Image, es: seq<Entry>)
    requires Appended(img0, img, es)
    ensures img0.Layout() && img.Layout() && img.isLeaf == img0.isLeaf
    ensures |img0.Prefix()| == img0.prefixLen == img.prefixLen <= img0.lowerFence.len
    ensures img.prefixLen <= img.lowerFence.len
  {
    hide Stored, Common, Head, Image.View;
    assert img.prefixLen == |img.Prefix()| && img0.prefixLen == |img0.Prefix()|;
  }

  lemma {:induction false} AppendedSpace(es: seq<Entry>, e: Entry, p: nat)
    ensures Stored(es + [e], p) == Stored(es, p) + (|e.key| - p + e.val.Size())
  {
    StoredConcat(es, [e], p);
    assert Stored([e], p) == |e.key| - p + e.val.Size();
  }

  /** One more entry, stored behind the others. */
  lemma {:induction false} AppendOne(img0: Image, img: Image, es: seq<Entry>, suffix: Key, payload: seq<byte>)
    requires Appended(img0, img, es) && (!img.isLeaf ==> |payload| == PID_SIZE)
    requires SLOT_SIZE + |suffix| + |payload| <= img.FreeSpace()
    ensures CanStore(img, |img.slots|, suffix, payload)
    ensures img0.WellFormed() && Appended(img0, StoreAt(img, |img.slots|, suffix, payload),
                                          es + [Entry(img0.Prefix() + suffix, ValueOf(img.isLeaf, payload))])
  {
    var n, e := |img.slots|, Entry(img0.Prefix() + suffix, ValueOf(img.isLeaf, payload));
    var r := StoreAt(img, n, suffix, payload);
    assert CanStore(img, n, suffix, payload);
    assert |img0.Prefix()| == img0.prefixLen;
    hide Image.View, Image.Entries, ValueOf, Splice;
    AppendedSpace(es, e, img0.prefixLen);
    hide Image.WellFormed, CanStore, Head, Common, Stored;
    StoreKeeps(img, n, suffix, payload);
    StoreView(img, n, suffix, payload);
    StorePrefix(img, n, suffix, payload);
    StoreSlots(img, n, suffix, payload);
    assert r.FreeSpace() == img.FreeSpace() - SLOT_SIZE - |suffix| - |payload|;
    assert |payload| == e.val.Size();
    AppendedEntries(img0.View().entries, es, e);
    hide StoreAt, Image.Prefix, Image.Layout, Image.Entries;
  }

  lemma {:induction false} AppendedEntries(a: seq<Entry>, b: seq<Entry>, e: Entry)
    ensures var es := a + b; es[..|es|] + [e] + es[|es|..] == a + (b + [e])
  {
  }

  /** p + s and prefix + suffix are the same key, split differently. */
  predicate Rebased(p: Key, s: Key, prefix: Key, suffix: Key) {
    p + s == prefix + suffix
  }

  /** How copyKeyValueRange gets suffix: from the stored suffix if the prefix grew, else from the full key. */
  lemma {:induction false} RebasedSuffix(p: Key, s: Key, prefix: Key, suffix: Key)
    requires Rebased(p, s, prefix, suffix)
    ensures |p| <= |prefix| ==> |prefix| - |p| <= |s| && s[|prefix| - |p|..] == suffix
    ensures |prefix| <= |p + s| && (p + s)[|prefix|..] == suffix
  {
    var k := prefix + suffix;
    assert |k| == |p| + |s| && k[|prefix|..] == suffix;
    if |p| <= |prefix| { assert (p + s)[|prefix|..] == s[|prefix| - |p|..]; }
  }

  /** What of slot i of img goes to a page with the given prefix. */
  lemma {:induction false} CopiedEntry(img: Image, i: nat, prefix: Key)
    requires Good(img) && i < |img.slots|
    ensures img.Layout() && img.prefixLen <= img.lowerFence.len
    ensures var e := img.View().entries[i];
      StartsWith(e.key, prefix) ==>
        && e == Entry(prefix + e.key[|prefix|..], ValueOf(img.isLeaf, img.Payload(img.slots[i])))
        && Rebased(img.Prefix(), img.Suffix(img.slots[i]), prefix, e.key[|prefix|..])
  {
    FullKey(img, i);
    ViewEntry(img, i);
    hide Good, Image.WellFormed, Image.View, Image.Prefix, Image.Suffix, Image.Payload, Image.Layout, Head, Common;
  }

  lemma {:induction false} PayloadSize(img: Image, i: nat)
    requires Good(img) && i < |img.slots|
    ensures img.Layout() && img.prefixLen <= img.lowerFence.len
    ensures |img.Payload(img.slots[i])| == img.View().entries[i].val.Size()
    ensures !img.isLeaf ==> |img.Payload(img.slots[i])| == PID_SIZE
  {
    ViewEntry(img, i);
    assert img.HeadsOk();
    hide Common, Head;
  }

  /** The entries es carry dst's prefix and fit into dst behind what it has. */
  ghost predicate CopyFits(dst: Image, es: seq<Entry>) {
    && dst.WellFormed()
    && (forall i :: 0 <= i < |es| ==> StartsWith(es[i].key, dst.Prefix()))
    && SLOT_SIZE * |es| + Stored(es, dst.prefixLen) <= dst.FreeSpace()
  }

  /** There is room for the next entry. */
  lemma {:induction false} RoomForNext(img0: Image, img: Image, es: seq<Entry>, i: nat)
    requires CopyFits(img0, es) && i < |es| && Appended(img0, img, es[..i])
    ensures SLOT_SIZE + (|es[i].key| - img0.prefixLen) + es[i].val.Size() <= img.FreeSpace()
    ensures |img0.Prefix()| == img0.prefixLen <= |es[i].key|
  {
    var p := img0.prefixLen;
    assert |img0.Prefix()| == p;
    assert forall j :: 0 <= j < |es| ==> p <= |es[j].key|;
    hide Image.WellFormed, StartsWith, Image.View;
    StoredAround(es, i, p);
    var rest := es[i + 1..];
    assert forall j :: 0 <= j < |rest| ==> p <= |rest[j].key|;
    StoredAtLeast(rest, p);
    hide Stored;
  }

  /** e is stored with this suffix and payload on a page with img's prefix. */
  ghost predicate StoredAs(img: Image, e: Entry, suffix: Key, payload: seq<byte>) {
    && img.Layout() && img.prefixLen <= img.lowerFence.len
    && e == Entry(img.Prefix() + suffix, ValueOf(img.isLeaf, payload))
    && (!img.isLeaf ==> |payload| == PID_SIZE)
  }

  /** Slot slotId of src, as it must be stored in dst. */
  lemma {:induction false} NextStored(src: Image, slotId: nat, dst: Image, suffix: Key)
    requires Good(src) && slotId < |src.slots| && dst.WellFormed() && src.isLeaf == dst.isLeaf
    requires var e := src.View().entries[slotId]; StartsWith(e.key, dst.Prefix()) && suffix == e.key[dst.prefixLen..]
    ensures Rebased(src.Prefix(), src.Suffix(src.slots[slotId]), dst.Prefix(), suffix)
    ensures StoredAs(dst, src.View().entries[slotId], suffix, src.Payload(src.slots[slotId]))
  {
    CopiedEntry(src, slotId, dst.Prefix());
    PayloadSize(src, slotId);
    assert |dst.Prefix()| == dst.prefixLen <= dst.lowerFence.len && dst.Layout();
    hide Good, Image.WellFormed, Image.View, Image.Prefix, Image.Suffix, Image.Payload, Image.Layout, Head, Common;
  }

  lemma {:induction false} NextAppended(img0: Image, img: Image, es: seq<Entry>, i: nat, suffix: Key,
                                        payload: seq<byte>)
    requires CopyFits(img0, es) && i < |es| && Appended(img0, img, es[..i]) && StoredAs(img0, es[i], suffix, payload)
    ensures CanStore(img, |img.slots|, suffix, payload)
    ensures Appended(img0, StoreAt(img, |img.slots|, suffix, payload), es[..i + 1])
  {
    hide Image.WellFormed, Image.View, Image.Prefix, CopyFits, Appended, CanStore, StoreAt, Stored, StartsWith;
    RoomForNext(img0, img, es, i);
    AppendedFrame(img0, img, es[..i]);
    assert |es[i].key| == img0.prefixLen + |suffix| && es[i].val.Size() == |payload|;
    AppendOne(img0, img, es[..i], suffix, payload);
    assert es[..i] + [es[i]] == es[..i + 1];
  }

  lemma {:induction false} NextCarries(img0: Image, es: seq<Entry>, i: nat)
    requires CopyFits(img0, es) && i < |es|
    ensures img0.WellFormed() && StartsWith(es[i].key, img0.Prefix()) && img0.prefixLen <= |es[i].key|
  {
    assert |img0.Prefix()| == img0.prefixLen;
  }

  /** Slot slotId of src can be appended to img, and then img0 has i + 1 entries of es appended. */
  ghost predicate CopyReady(src: Image, slotId: nat, img0: Image, img: Image, es: seq<Entry>, i: nat) {
    && src.WellFormed() && slotId < |src.slots| && img0.WellFormed() && i < |es|
    && |img0.Prefix()| == img0.prefixLen == img.prefixLen <= |es[i].key|
    && var suffix, payload := es[i].key[img0.prefixLen..], src.Payload(src.slots[slotId]);
    && Rebased(src.Prefix(), src.Suffix(src.slots[slotId]), img0.Prefix(), suffix)
    && |img.mem| == PAGE_SIZE && |img.slots| < MAX_SLOTS && |suffix| + |payload| <= img.dataOffset <= PAGE_SIZE
    && Appended(img0, StoreAt(img, |img.slots|, suffix, payload), es[..i + 1])
  }

  lemma {:induction false} ReadyToCopy(src: Image, slotId: nat, img0: Image, img: Image, es: seq<Entry>, i: nat)
    requires Good(src) && slotId < |src.slots| && src.isLeaf == img.isLeaf
    requires CopyFits(img0, es) && i < |es| && Appended(img0, img, es[..i]) && src.View().entries[slotId] == es[i]
    ensures CopyReady(src, slotId, img0, img, es, i)
  {
    hide CopyFits, Image.View, Image.Suffix, Image.Payload, Stored, Rebased, StoreAt, StartsWith, CanStore;
    assert img.prefixLen == |img.Prefix()| == |img0.Prefix()| == img0.prefixLen && img.isLeaf == img0.isLeaf
        && |img.mem| == PAGE_SIZE;
    NextCarries(img0, es, i);
    var suffix, payload := es[i].key[img0.prefixLen..], src.Payload(src.slots[slotId]);
    NextStored(src, slotId, img0, suffix);
    NextAppended(img0, img, es, i, suffix, payload);
    StoreRoom(img, |img.slots|, suffix, payload);
  }

  lemma {:induction false} ReadyRoom(src: Image, slotId: nat, img0: Image, img: Image, es: seq<Entry>, i: nat)
    requires CopyReady(src, slotId, img0, img, es, i)
    ensures |img.slots| < MAX_SLOTS
  {
  }

  /** The suffix to store, computed the way copyKeyValueRange computes it. */
  lemma {:induction false} CopySuffix(src: Image, slotId: nat, img0: Image, img: Image, es: seq<Entry>, i: nat,
                                      p: Key, s: Key, payload: seq<byte>) returns (suffix: Key)
    requires CopyReady(src, slotId, img0, img, es, i)
    requires p == src.Prefix() && s == src.Suffix(src.slots[slotId]) && payload == src.Payload(src.slots[slotId])
    ensures |p| <= img.prefixLen ==> img.prefixLen - |p| <= |s| && s[img.prefixLen - |p|..] == suffix
    ensures img.prefixLen <= |p + s| && (p + s)[img.prefixLen..] == suffix
    ensures |img.mem| == PAGE_SIZE && |suffix| + |payload| <= img.dataOffset <= PAGE_SIZE
    ensures i < |es| && Appended(img0, StoreAt(img, |img.slots|, suffix, payload), es[..i + 1])
  {
    suffix := es[i].key[img0.prefixLen..];
    RebasedSuffix(p, s, img0.Prefix(), suffix);
  }

  lemma {:induction false} StoreRoom(img: Image, slotId: nat, suffix: Key, payload: seq<byte>)
    requires CanStore(img, slotId, suffix, payload)
    ensures |img.slots| < MAX_SLOTS && |suffix| + |payload| <= img.dataOffset <= PAGE_SIZE
  {
  }

  // ---------------------------------------------------------------------- rebuilding a page

  /** img has the fences of p and no entries. */
  ghost predicate Emptied(img: Image, p: Page) {
    && img.WellFormed() && img.isLeaf == p.isLeaf
    && img.View() == Page(p.isLeaf, p.lower, p.upper, [], img.ViewLink())
    && img.FreeSpace() == img.FreeSpaceAfterCompaction()
  }

  /** A page whose entries fit has room for its fences. */
  lemma {:induction false} FencesFit(p: Page)
    requires p.Ok() && p.Fits()
    ensures |p.lower| + |p.upper| <= PAGE_SIZE - HEADER_SIZE
  {
    EntriesCarryPrefix(p);
    hide Less, Common, Page.Ok;
    StoredAtLeast(p.entries, p.PrefixLen());
  }

  lemma {:induction false} NoneStored(p: nat)
    ensures Stored([], p) == 0
  {
  }

  lemma {:induction false} EmptiedIsWell(img: Image, p: Page)
    requires Emptied(img, p)
    ensures img.WellFormed()
  {
  }

  lemma {:induction false} EmptiedSpace(img: Image, p: Page)
    requires Emptied(img, p)
    ensures img.prefixLen == p.PrefixLen() == |img.Prefix()|
    ensures img.Prefix() == p.lower[..p.PrefixLen()]
    ensures img.FreeSpace() == PAGE_SIZE - HEADER_SIZE - |p.lower| - |p.upper|
  {
    hide Common, Head, HeapUsed, Image.WellFormed, Image.Lower, Image.Upper, Image.Prefix, Image.Entries, Stored;
    WellFormedLayout(img);
    PrefixOfLower(img);
    SpaceUsedIsViews(img);
    NoneStored(p.PrefixLen());
  }

  /** The entries of a page that fits can be copied behind its fences. */
  lemma {:induction false} RebuildFits(img: Image, p: Page)
    requires Emptied(img, p) && p.Ok() && p.Fits()
    ensures CopyFits(img, p.entries)
  {
    EmptiedSpace(img, p);
    EntriesCarryPrefix(p);
    hide Page.Ok, Image.WellFormed, Image.View, Image.Prefix, Common, StartsWith, Stored;
  }

  /** Part by part: first a, then b. */
  lemma {:induction false} RebuildInTwo(img0: Image, img: Image, a: seq<Entry>, b: seq<Entry>)
    requires CopyFits(img0, a + b)
    ensures CopyFits(img0, a)
    ensures Appended(img0, img, a) ==> CopyFits(img, b)
  {
    StoredConcat(a, b, img0.prefixLen);
    assert |img0.Prefix()| == img0.prefixLen;
    assert forall i :: 0 <= i < |a| ==> a[i] == (a + b)[i];
    assert forall i :: 0 <= i < |b| ==> b[i] == (a + b)[|a| + i];
    assert forall i :: 0 <= i < |b| ==> img0.prefixLen <= |b[i].key|;
    StoredAtLeast(b, img0.prefixLen);
    assert Appended(img0, img, a) ==> img.prefixLen == |img.Prefix()| == img0.prefixLen;
    hide Image.WellFormed, Image.View, Image.Prefix, StartsWith, Stored;
  }

  lemma {:induction false} AppendedTwice(img0: Image, img1: Image, img2: Image, a: seq<Entry>, b: seq<Entry>)
    requires Appended(img0, img1, a) && Appended(img1, img2, b)
    ensures Appended(img0, img2, a + b)
  {
    hide Image.WellFormed, Image.Prefix, Image.Entries, Stored;
    AppendedFrame(img0, img1, a);
    AppendedFrame(img1, img2, b);
    StoredConcat(a, b, img0.prefixLen);
    assert (img0.View().entries + a) + b == img0.View().entries + (a + b);
  }

  lemma {:induction false} SameKind(img0: Image, img: Image, p: Page)
    requires Emptied(img0, p) && Appended(img0, img, p.entries)
    ensures img.isLeaf == p.isLeaf
  {
    hide Image.WellFormed, Image.View;
  }

  /** The page id stored in a header stands for this link. */
  predicate LinkIs(isLeaf: bool, link: nat, l: Link) {
    l == if isLeaf && link == NO_NEIGHBOUR then NoNeighbour else To(link)
  }

  /** The rebuilt page means p, and has no gaps. */
  lemma {:induction false} Rebuilt(img0: Image, img: Image, p: Page, link: nat)
    requires Emptied(img0, p) && Appended(img0, img, p.entries) && p.Ok() && LinkIs(p.isLeaf, link, p.link)
    ensures Good(img.(link := link)) && img.(link := link).View() == p
    ensures img.FreeSpace() == p.FreeAfterCompaction()
  {
    hide Page.Ok, Image.WellFormed, Image.View, Image.Prefix, Common, StartsWith, Stored;
    EmptiedSpace(img0, p);
    AppendedFrame(img0, img, p.entries);
    assert [] + p.entries == p.entries;
    SetLinkView(img, link);
  }

  lemma {:induction false} FreshFences(img: Image, p: Page)
    requires Fresh(img) && img.isLeaf == p.isLeaf && |p.lower| + |p.upper| <= PAGE_SIZE - HEADER_SIZE
    ensures Emptied(WithFences(img, p.lower, p.upper), p)
  {
    WithFencesKeeps(img, p.lower, p.upper);
    hide Image.WellFormed, Image.View, Splice, Common;
  }

  // ---------------------------------------------------------------------- the parent of a split

  /** l and r are the halves of p. */
  predicate IsSplit(p: Page, slot: nat, sep: Key, newPid: nat, l: Page, r: Page) {
    && slot < |p.entries| && (!p.isLeaf ==> p.InnerShape())
    && l == p.SplitLeft(slot, sep, newPid) && r == p.SplitRight(slot, sep)
  }

  /** The page q routes sep to the child left, strictly inside its range, and has space for sep. */
  predicate TakesSeparator(q: Page, sep: Key, left: nat) {
    && q.InnerShape() && q.Covers(sep) && sep != [] && q.Kid(q.Pos(sep)) == left
    && (q.KidUpper(q.Pos(sep)) == [] || Less(sep, q.KidUpper(q.Pos(sep))))
    && q.HasSpaceFor(|sep|, PID_SIZE)
  }

  predicate Separated(q: Page, sep: Key, left: nat, newPid: nat, r: Page) {
    q.InnerShape() && r == q.AddSeparator(sep, left, newPid)
  }

  predicate Dropped(q: Page, slot: nat, left: nat, r: Page) {
    q.InnerShape() && slot + 1 <= |q.entries| && r == q.DropSeparator(slot, left)
  }

  lemma {:induction false} StoredSame(es: seq<Entry>, fs: seq<Entry>, p: nat)
    requires |es| == |fs|
    requires forall i :: 0 <= i < |es| ==> |es[i].key| == |fs[i].key| && es[i].val.Size() == fs[i].val.Size()
    ensures Stored(es, p) == Stored(fs, p)
  {
    if es != [] { StoredSame(es[1..], fs[1..], p); }
  }

  /** After the split child was redirected, its separator can be inserted. */
  lemma {:induction false} SeparatorFits(q: Page, sep: Key, newPid: nat, payload: seq<byte>)
    requires q.Ok() && q.InnerShape() && q.Covers(sep) && sep != [] && |payload| == PID_SIZE
    requires q.KidUpper(q.Pos(sep)) == [] || Less(sep, q.KidUpper(q.Pos(sep)))
    requires q.HasSpaceFor(|sep|, PID_SIZE)
    ensures CanInsert(q.SetKid(q.Pos(sep), newPid), sep, payload)
    ensures q.SetKid(q.Pos(sep), newPid).HasSpaceFor(|sep|, PID_SIZE)
  {
    var s := q.Pos(sep);
    var m := q.SetKid(s, newPid);
    hide Less, Common, Page.Ok, LowerBound;
    InsideKidIsFresh(q, sep);
    SetKidKeeps(q, s, newPid);
    LowerBoundIs(m.entries, sep, s);
    StoredSame(m.entries, q.entries, q.PrefixLen());
  }
}
