/** The bytes of a slotted page: slots growing from the front, keys and payloads growing from the back.
    View reads such an image as a Page; the lemmas say what single writes do to it. */
module NodeImage {
  import opened Bytes
  import opened Pages
  import opened Splits

  const NO_NEIGHBOUR: nat := 0xFFFF_FFFF_FFFF_FFFF

  /** A stretch of the page, by absolute offset. */
  datatype FenceKeySlot = FenceKeySlot(offset: nat, len: nat)

  datatype Slot = Slot(offset: nat, keyLen: nat, payloadLen: nat, head: nat)

  // ---------------------------------------------------------------------- page ids as eight bytes

  function LoadLittleEndian(b: seq<byte>): nat {
    if b == [] then 0 else b[0] as nat + 256 * LoadLittleEndian(b[1..])
  }

  function StoreLittleEndian(n: nat, len: nat): (b: seq<byte>)
    ensures |b| == len
  {
    if len == 0 then [] else [n % 256] + StoreLittleEndian(n / 256, len - 1)
  }

  function Pow256(k: nat): (p: nat)
    ensures p > 0
  {
    if k == 0 then 1 else 256 * Pow256(k - 1)
  }

  /** Storing a page id and loading it back gives the same page id. */
  lemma {:induction false} LoadStore(n: nat, len: nat)
    requires n < Pow256(len)
    ensures LoadLittleEndian(StoreLittleEndian(n, len)) == n
  {
    if len > 0 {
      var b := StoreLittleEndian(n, len);
      assert b[1..] == StoreLittleEndian(n / 256, len - 1);
      LoadStore(n / 256, len - 1);
    }
  }

  lemma {:induction false} PidRange()
    ensures Pow256(PID_SIZE) == NO_NEIGHBOUR + 1
  {
    assert Pow256(2) == 65536;
    assert Pow256(4) == 65536 * Pow256(2);
    assert Pow256(6) == 65536 * Pow256(4);
  }

  function PidBytes(pid: nat): seq<byte> { StoreLittleEndian(pid, PID_SIZE) }

  function ValueOf(isLeaf: bool, payload: seq<byte>): Value {
    if isLeaf then Record(payload) else Child(LoadLittleEndian(payload))
  }

  // ---------------------------------------------------------------------- images

  /** Space taken by the keys and payloads in the heap. */
  function HeapUsed(slots: seq<Slot>): nat {
    if slots == [] then 0 else slots[0].keyLen + slots[0].payloadLen + HeapUsed(slots[1..])
  }

  datatype Image = Image(mem: seq<byte>, slots: seq<Slot>, lowerFence: FenceKeySlot, upperFence: FenceKeySlot,
                         dataOffset: nat, spaceUsed: nat, prefixLen: nat, isLeaf: bool, link: nat) {

    /** Slots and heap do not meet. */
    predicate Framed() {
      |mem| == PAGE_SIZE && HEADER_SIZE + SLOT_SIZE * |slots| <= dataOffset <= PAGE_SIZE
    }

    predicate InHeap(offset: nat, len: nat) {
      dataOffset <= offset && offset + len <= PAGE_SIZE
    }

    predicate FenceOk(f: FenceKeySlot) {
      f.offset + f.len <= PAGE_SIZE && (f.len > 0 ==> dataOffset <= f.offset)
    }

    ghost predicate SlotsOk() {
      forall i :: 0 <= i < |slots| ==> InHeap(slots[i].offset, slots[i].keyLen + slots[i].payloadLen)
    }

    ghost predicate Layout() {
      Framed() && FenceOk(lowerFence) && FenceOk(upperFence) && SlotsOk()
    }

    function Lower(): Key
      requires |mem| == PAGE_SIZE && FenceOk(lowerFence)
    {
      mem[lowerFence.offset..lowerFence.offset + lowerFence.len]
    }

    function Upper(): Key
      requires |mem| == PAGE_SIZE && FenceOk(upperFence)
    {
      mem[upperFence.offset..upperFence.offset + upperFence.len]
    }

    function Suffix(s: Slot): Key
      requires |mem| == PAGE_SIZE && InHeap(s.offset, s.keyLen + s.payloadLen)
    {
      mem[s.offset..s.offset + s.keyLen]
    }

    function Payload(s: Slot): seq<byte>
      requires |mem| == PAGE_SIZE && InHeap(s.offset, s.keyLen + s.payloadLen)
    {
      mem[s.offset + s.keyLen..s.offset + s.keyLen + s.payloadLen]
    }

    /** The entry a slot stands for, given the page prefix. */
    function EntryOf(prefix: Key, s: Slot): Entry
      requires |mem| == PAGE_SIZE && InHeap(s.offset, s.keyLen + s.payloadLen)
    {
      Entry(prefix + Suffix(s), ValueOf(isLeaf, Payload(s)))
    }

    function Prefix(): Key
      requires |mem| == PAGE_SIZE && FenceOk(lowerFence) && prefixLen <= lowerFence.len
    {
      mem[lowerFence.offset..lowerFence.offset + prefixLen]
    }

    ghost predicate HeadsOk()
      requires Layout()
    {
      && (forall i :: 0 <= i < |slots| ==> slots[i].head == Head(Suffix(slots[i])))
      && (!isLeaf ==> forall i :: 0 <= i < |slots| ==> slots[i].payloadLen == PID_SIZE)
    }

    predicate Accounted() {
      && spaceUsed == lowerFence.len + upperFence.len + HeapUsed(slots)
      && spaceUsed + dataOffset <= PAGE_SIZE
    }

    /** No two entries share bytes, and no entry shares bytes with a fence. */
    ghost predicate Separate() {
      && (forall i, j :: 0 <= i < j < |slots| ==> Clear(Extent(slots[i]), Extent(slots[j])))
      && (forall i :: 0 <= i < |slots| ==> Clear(Extent(slots[i]), lowerFence) && Clear(Extent(slots[i]), upperFence))
    }

    ghost predicate WellFormed() {
      && Layout()
      && prefixLen == Common(Lower(), Upper())
      && HeadsOk()
      && Accounted()
      && Separate()
    }

    function ViewLink(): Link {
      if isLeaf && link == NO_NEIGHBOUR then NoNeighbour else To(link)
    }

    ghost function Entries(): (es: seq<Entry>)
      requires Layout() && prefixLen <= lowerFence.len
      ensures |es| == |slots|
    {
      seq(|slots|, i requires 0 <= i < |slots| => EntryOf(Prefix(), slots[i]))
    }

    /** What the image means. */
    ghost function View(): Page
      requires Layout() && prefixLen <= lowerFence.len
    {
      Page(isLeaf, Lower(), Upper(), Entries(), ViewLink())
    }

    function FreeSpace(): int { dataOffset - (HEADER_SIZE + SLOT_SIZE * |slots|) }

    function FreeSpaceAfterCompaction(): int { PAGE_SIZE - (HEADER_SIZE + SLOT_SIZE * |slots|) - spaceUsed }
  }

  function Extent(s: Slot): FenceKeySlot { FenceKeySlot(s.offset, s.keyLen + s.payloadLen) }

  predicate Clear(a: FenceKeySlot, b: FenceKeySlot) {
    a.len == 0 || b.len == 0 || a.offset + a.len <= b.offset || b.offset + b.len <= a.offset
  }

  // ---------------------------------------------------------------------- space

  lemma {:induction false} HeapUsedConcat(a: seq<Slot>, b: seq<Slot>)
    ensures HeapUsed(a + b) == HeapUsed(a) + HeapUsed(b)
  {
    if a == [] {
      assert a + b == b;
    } else {
      assert (a + b)[1..] == a[1..] + b;
      HeapUsedConcat(a[1..], b);
    }
  }

  lemma {:induction false} HeapUsedIsStored(img: Image, slots: seq<Slot>, prefix: Key, es: seq<Entry>)
    requires |img.mem| == PAGE_SIZE && |es| == |slots|
    requires forall i :: 0 <= i < |slots| ==>
      img.InHeap(slots[i].offset, slots[i].keyLen + slots[i].payloadLen) && es[i] == img.EntryOf(prefix, slots[i])
    requires !img.isLeaf ==> forall i :: 0 <= i < |slots| ==> slots[i].payloadLen == PID_SIZE
    ensures Stored(es, |prefix|) == HeapUsed(slots)
  {
    if slots != [] { HeapUsedIsStored(img, slots[1..], prefix, es[1..]); }
  }

  /** The page's own accounting is the accounting of what it stores. */
  lemma {:induction false} SpaceUsedIsViews(img: Image)
    requires img.WellFormed()
    ensures img.View().SpaceUsed() == img.spaceUsed
    ensures img.View().FreeAfterCompaction() == img.FreeSpaceAfterCompaction()
    ensures 0 <= img.FreeSpace() <= img.FreeSpaceAfterCompaction()
  {
    hide Head;
    HeapUsedIsStored(img, img.slots, img.Prefix(), img.View().entries);
    assert img.View().PrefixLen() == |img.Prefix()|;
    hide Stored, HeapUsed;
  }

  // ---------------------------------------------------------------------- writes

  /** mem with the bytes at offset replaced. */
  function Splice(mem: seq<byte>, offset: nat, bytes: seq<byte>): (r: seq<byte>)
    requires offset + |bytes| <= |mem|
    ensures |r| == |mem|
  {
    mem[..offset] + bytes + mem[offset + |bytes|..]
  }

  lemma {:induction false} SpliceElsewhere(mem: seq<byte>, offset: nat, bytes: seq<byte>, a: nat, b: nat)
    requires offset + |bytes| <= |mem| && a <= b <= |mem|
    requires b <= offset || offset + |bytes| <= a || a == b || bytes == []
    ensures Splice(mem, offset, bytes)[a..b] == mem[a..b]
  {
    var r := Splice(mem, offset, bytes);
    forall i | a <= i < b
      ensures r[i] == mem[i]
    {
      if i < offset {
        assert r[i] == mem[..offset][i];
      } else {
        assert r[i] == mem[offset + |bytes|..][i - (offset + |bytes|)];
      }
    }
  }

  lemma {:induction false} SpliceHere(mem: seq<byte>, offset: nat, bytes: seq<byte>, a: nat, b: nat)
    requires offset + |bytes| <= |mem| && a <= b <= |bytes|
    ensures Splice(mem, offset, bytes)[offset + a..offset + b] == bytes[a..b]
  {
  }

  /** storeKeyValue on image img, at slot slotId after the slots behind it moved up by one. */
  function StoreAt(img: Image, slotId: nat, suffix: Key, payload: seq<byte>): Image
    requires |img.mem| == PAGE_SIZE && slotId <= |img.slots| && |suffix| + |payload| <= img.dataOffset <= PAGE_SIZE
  {
    var offset := img.dataOffset - (|suffix| + |payload|);
    img.(mem := Splice(img.mem, offset, suffix + payload),
         slots := img.slots[..slotId] + [Slot(offset, |suffix|, |payload|, Head(suffix))] + img.slots[slotId..],
         dataOffset := offset,
         spaceUsed := img.spaceUsed + |suffix| + |payload|)
  }

  ghost predicate CanStore(img: Image, slotId: nat, suffix: Key, payload: seq<byte>) {
    && img.WellFormed() && slotId <= |img.slots|
    && SLOT_SIZE + |suffix| + |payload| <= img.FreeSpace()
    && (!img.isLeaf ==> |payload| == PID_SIZE)
  }

  /** The new slot, and the old ones, moved. */
  lemma {:induction false} StoreSlots(img: Image, slotId: nat, suffix: Key, payload: seq<byte>)
    requires CanStore(img, slotId, suffix, payload)
    ensures var r := StoreAt(img, slotId, suffix, payload);
      && |r.slots| == |img.slots| + 1
      && r.slots[slotId] == Slot(r.dataOffset, |suffix|, |payload|, Head(suffix))
      && r.dataOffset + |suffix| + |payload| == img.dataOffset
      && forall i :: 0 <= i < |r.slots| && i != slotId ==> r.slots[i] == img.slots[Before(i, slotId)]
  {
    hide Common, Head;
  }

  /** r has the bytes of img from img's data offset on. */
  ghost predicate SameAbove(img: Image, r: Image) {
    |img.mem| == |r.mem| == PAGE_SIZE && img.dataOffset <= PAGE_SIZE
        && img.mem[img.dataOffset..] == r.mem[img.dataOffset..]
  }

  lemma {:induction false} SliceAbove(img: Image, r: Image, a: nat, b: nat)
    requires SameAbove(img, r) && img.dataOffset <= a <= b <= PAGE_SIZE
    ensures img.mem[a..b] == r.mem[a..b]
  {
    assert forall m: seq<byte> {:trigger m[a..b]} :: |m| == PAGE_SIZE ==>
      m[a..b] == m[img.dataOffset..][a - img.dataOffset..b - img.dataOffset];
  }

  lemma {:induction false} SlotAbove(img: Image, r: Image, s: Slot)
    requires SameAbove(img, r) && img.InHeap(s.offset, s.keyLen + s.payloadLen) && r.dataOffset <= img.dataOffset
    ensures r.InHeap(s.offset, s.keyLen + s.payloadLen) && r.Suffix(s) == img.Suffix(s)
    ensures r.Payload(s) == img.Payload(s)
  {
    SliceAbove(img, r, s.offset, s.offset + s.keyLen);
    SliceAbove(img, r, s.offset + s.keyLen, s.offset + s.keyLen + s.payloadLen);
  }

  lemma {:induction false} FencesAbove(img: Image, r: Image)
    requires SameAbove(img, r) && img.FenceOk(img.lowerFence) && img.FenceOk(img.upperFence)
    requires r.lowerFence == img.lowerFence && r.upperFence == img.upperFence && r.dataOffset <= img.dataOffset
    ensures r.FenceOk(r.lowerFence) && r.FenceOk(r.upperFence) && r.Lower() == img.Lower() && r.Upper() == img.Upper()
  {
    if r.lowerFence.len > 0 { SliceAbove(img, r, img.lowerFence.offset, img.lowerFence.offset + img.lowerFence.len); }
    if r.upperFence.len > 0 { SliceAbove(img, r, img.upperFence.offset, img.upperFence.offset + img.upperFence.len); }
  }

  /** A write that ends at the data offset changes nothing that is stored. */
  lemma {:induction false} WriteBelow(img: Image, r: Image, offset: nat, bytes: seq<byte>)
    requires |img.mem| == PAGE_SIZE && offset + |bytes| == img.dataOffset <= PAGE_SIZE
    requires r.mem == Splice(img.mem, offset, bytes)
    ensures SameAbove(img, r)
    ensures r.mem[offset..img.dataOffset] == bytes
  {
  }

  lemma {:induction false} StoreLayout(img: Image, slotId: nat, suffix: Key, payload: seq<byte>)
    requires CanStore(img, slotId, suffix, payload)
    ensures StoreAt(img, slotId, suffix, payload).Layout()
  {
    StoreSlots(img, slotId, suffix, payload);
    hide Common, Head, Image.HeadsOk, Image.Separate, HeapUsed, Splice;
  }

  /** The new slot, read from the new image. */
  lemma {:induction false} StoreReadsNew(img: Image, slotId: nat, suffix: Key, payload: seq<byte>)
    requires CanStore(img, slotId, suffix, payload)
    ensures var r := StoreAt(img, slotId, suffix, payload);
      r.Layout() && r.Suffix(r.slots[slotId]) == suffix && r.Payload(r.slots[slotId]) == payload
  {
    var r := StoreAt(img, slotId, suffix, payload);
    StoreSlots(img, slotId, suffix, payload);
    StoreLayout(img, slotId, suffix, payload);
    WriteBelow(img, r, r.dataOffset, suffix + payload);
    hide StoreAt, CanStore, Splice, Head;
    var o := r.dataOffset;
    assert r.mem[o..img.dataOffset][..|suffix|] == r.mem[o..o + |suffix|];
    assert r.mem[o..img.dataOffset][|suffix|..] == r.mem[o + |suffix|..img.dataOffset];
  }

  /** The fences and the old slots, read from the new image. */
  lemma {:induction false} StoreReadsOld(img: Image, slotId: nat, suffix: Key, payload: seq<byte>)
    requires CanStore(img, slotId, suffix, payload)
    ensures var r := StoreAt(img, slotId, suffix, payload);
      && r.Layout()
      && r.Lower() == img.Lower() && r.Upper() == img.Upper()
      && forall i :: 0 <= i < |r.slots| && i != slotId ==>
           && r.Suffix(r.slots[i]) == img.Suffix(img.slots[Before(i, slotId)])
           && r.Payload(r.slots[i]) == img.Payload(img.slots[Before(i, slotId)])
  {
    var r := StoreAt(img, slotId, suffix, payload);
    StoreSlots(img, slotId, suffix, payload);
    StoreLayout(img, slotId, suffix, payload);
    WriteBelow(img, r, r.dataOffset, suffix + payload);
    FencesAbove(img, r);
    assert img.Layout();
    hide StoreAt, CanStore, Splice, Head, SameAbove, Image.Suffix, Image.Payload, Image.Lower, Image.Upper;
    forall i | 0 <= i < |r.slots| && i != slotId
      ensures r.Suffix(r.slots[i]) == img.Suffix(img.slots[Before(i, slotId)])
      ensures r.Payload(r.slots[i]) == img.Payload(img.slots[Before(i, slotId)])
    {
      SlotAbove(img, r, img.slots[Before(i, slotId)]);
    }
  }

  /** Entry i of the view. */
  lemma {:induction false} ViewEntry(img: Image, i: nat)
    requires img.Layout() && img.prefixLen <= img.lowerFence.len && i < |img.slots|
    ensures img.View().entries[i] == Entry(img.Prefix() + img.Suffix(img.slots[i]),
        ValueOf(img.isLeaf, img.Payload(img.slots[i])))
  {
  }

  lemma {:induction false} SeqInserted<T>(es: seq<T>, r: seq<T>, s: nat, e: T)
    requires |r| == |es| + 1 && s <= |es| && r[s] == e
    requires forall i :: 0 <= i < |r| && i != s ==> r[i] == es[Before(i, s)]
    ensures r == es[..s] + [e] + es[s..]
  {
  }

  lemma {:induction false} WellFormedLayout(img: Image)
    requires img.WellFormed()
    ensures img.Layout() && img.prefixLen == Common(img.Lower(), img.Upper()) <= img.lowerFence.len
  {
    hide Common, Head;
  }

  lemma {:induction false} PrefixOfLower(img: Image)
    requires img.Layout() && img.prefixLen <= img.lowerFence.len
    ensures img.Prefix() == img.Lower()[..img.prefixLen] && |img.Prefix()| == img.prefixLen
  {
  }

  lemma {:induction false} StorePrefix(img: Image, slotId: nat, suffix: Key, payload: seq<byte>)
    requires CanStore(img, slotId, suffix, payload)
    ensures var r := StoreAt(img, slotId, suffix, payload);
      && r.Layout() && img.Layout() && r.prefixLen == img.prefixLen <= r.lowerFence.len == img.lowerFence.len
      && r.Prefix() == img.Prefix() && r.isLeaf == img.isLeaf && r.link == img.link
  {
    hide Splice, Head, Image.WellFormed, Image.Lower, Image.Upper, Image.Prefix;
    WellFormedLayout(img);
    StoreReadsOld(img, slotId, suffix, payload);
    var r := StoreAt(img, slotId, suffix, payload);
    PrefixOfLower(img);
    PrefixOfLower(r);
  }

  /** The entries of the new image, one by one. */
  lemma {:induction false} StoreEntries(img: Image, slotId: nat, suffix: Key, payload: seq<byte>)
    requires CanStore(img, slotId, suffix, payload)
    ensures var r := StoreAt(img, slotId, suffix, payload);
      && r.Layout()
      && r.View().entries[slotId] == Entry(img.Prefix() + suffix, ValueOf(img.isLeaf, payload))
      && forall i :: 0 <= i < |r.slots| && i != slotId ==> r.View().entries[i] == img.View().entries[Before(i, slotId)]
  {
    var r := StoreAt(img, slotId, suffix, payload);
    StoreSlots(img, slotId, suffix, payload);
    StoreReadsNew(img, slotId, suffix, payload);
    StoreReadsOld(img, slotId, suffix, payload);
    StorePrefix(img, slotId, suffix, payload);
    ViewEntry(r, slotId);
    hide StoreAt, CanStore, Head, Common, Image.WellFormed, Image.Lower, Image.Upper, Image.Prefix, Image.Suffix,
      Image.Payload, Image.Layout, Image.View;
    forall i | 0 <= i < |r.slots| && i != slotId
      ensures r.View().entries[i] == img.View().entries[Before(i, slotId)]
    {
      ViewEntry(r, i);
      ViewEntry(img, Before(i, slotId));
    }
  }

  /** The view of the new image: the entry is there, at its slot, and nothing else changed. */
  lemma {:induction false} StoreView(img: Image, slotId: nat, suffix: Key, payload: seq<byte>)
    requires CanStore(img, slotId, suffix, payload)
    ensures var r := StoreAt(img, slotId, suffix, payload);
      && r.Layout()
      && var es := img.View().entries; var entry := Entry(img.Prefix() + suffix, ValueOf(img.isLeaf, payload));
      r.View() == img.View().(entries := es[..slotId] + [entry] + es[slotId..])
  {
    var r := StoreAt(img, slotId, suffix, payload);
    StoreEntries(img, slotId, suffix, payload);
    StoreReadsOld(img, slotId, suffix, payload);
    assert |r.View().entries| == |img.View().entries| + 1;
    SeqInserted(img.View().entries, r.View().entries, slotId,
        Entry(img.Prefix() + suffix, ValueOf(img.isLeaf, payload)));
    hide Image.Lower, Image.Upper, Image.Prefix, Image.Suffix, Image.Payload, Image.Layout, Image.Entries;
  }

  lemma {:induction false} StoreAccounted(img: Image, slotId: nat, suffix: Key, payload: seq<byte>)
    requires CanStore(img, slotId, suffix, payload)
    ensures StoreAt(img, slotId, suffix, payload).Accounted()
  {
    var r := StoreAt(img, slotId, suffix, payload);
    var added := [r.slots[slotId]];
    StoreSlots(img, slotId, suffix, payload);
    HeapUsedConcat(img.slots[..slotId], img.slots[slotId..]);
    assert img.slots[..slotId] + img.slots[slotId..] == img.slots;
    HeapUsedConcat(img.slots[..slotId] + added, img.slots[slotId..]);
    HeapUsedConcat(img.slots[..slotId], added);
    assert HeapUsed(added) == |suffix| + |payload|;
  }

  lemma {:induction false} StoreSeparate(img: Image, slotId: nat, suffix: Key, payload: seq<byte>)
    requires CanStore(img, slotId, suffix, payload)
    ensures StoreAt(img, slotId, suffix, payload).Separate()
  {
    StoreSlots(img, slotId, suffix, payload);
    var r := StoreAt(img, slotId, suffix, payload);
    assert img.Separate() && img.Layout();
    assert r.lowerFence == img.lowerFence && r.upperFence == img.upperFence;
    hide StoreAt, CanStore;
    forall i, j | 0 <= i < j < |r.slots|
      ensures Clear(Extent(r.slots[i]), Extent(r.slots[j]))
    {
      if i != slotId && j != slotId {
        assert Clear(Extent(img.slots[Before(i, slotId)]), Extent(img.slots[Before(j, slotId)]));
      }
    }
  }

  /** storeKeyValue keeps the page well-formed and stores exactly the given entry. */
  lemma {:induction false} StoreKeeps(img: Image, slotId: nat, suffix: Key, payload: seq<byte>)
    requires CanStore(img, slotId, suffix, payload)
    ensures StoreAt(img, slotId, suffix, payload).WellFormed()
  {
    var r := StoreAt(img, slotId, suffix, payload);
    StoreSlots(img, slotId, suffix, payload);
    StoreReadsNew(img, slotId, suffix, payload);
    StoreReadsOld(img, slotId, suffix, payload);
    StoreAccounted(img, slotId, suffix, payload);
    StoreSeparate(img, slotId, suffix, payload);
    assert img.HeadsOk() && img.prefixLen == Common(img.Lower(), img.Upper());
    assert r.isLeaf == img.isLeaf && (!r.isLeaf ==> |payload| == PID_SIZE) && r.prefixLen == img.prefixLen;
    hide StoreAt, CanStore, Image.Separate, Image.Accounted, Image.Lower, Image.Upper, Image.Suffix, Image.Payload,
      Head, Common;
  }

  // ---------------------------------------------------------------------- removing a slot

  function RemoveSlotAt(img: Image, slotId: nat): Image
    requires slotId < |img.slots| && img.slots[slotId].keyLen + img.slots[slotId].payloadLen <= img.spaceUsed
  {
    img.(slots := img.slots[..slotId] + img.slots[slotId + 1..],
         spaceUsed := img.spaceUsed - (img.slots[slotId].keyLen + img.slots[slotId].payloadLen))
  }

  lemma {:induction false} RemovedSpace(img: Image, slotId: nat)
    requires slotId < |img.slots|
    ensures HeapUsed(img.slots) ==
            HeapUsed(img.slots[..slotId] + img.slots[slotId + 1..])
            + img.slots[slotId].keyLen + img.slots[slotId].payloadLen
  {
    var a, b, c := img.slots[..slotId], [img.slots[slotId]], img.slots[slotId + 1..];
    assert img.slots == a + b + c;
    HeapUsedConcat(a + b, c);
    HeapUsedConcat(a, b);
    HeapUsedConcat(a, c);
    assert HeapUsed(b) == img.slots[slotId].keyLen + img.slots[slotId].payloadLen;
  }

  /** r is img without one slot. */
  ghost predicate Thinned(img: Image, r: Image, slotId: nat) {
    && slotId < |img.slots| && |r.slots| + 1 == |img.slots|
    && r.mem == img.mem && r.lowerFence == img.lowerFence && r.upperFence == img.upperFence
    && r.dataOffset == img.dataOffset && r.prefixLen == img.prefixLen && r.isLeaf == img.isLeaf && r.link == img.link
    && forall i :: 0 <= i < |r.slots| ==> r.slots[i] == img.slots[After(i, slotId)]
  }

  lemma {:induction false} ThinnedHeads(img: Image, r: Image, slotId: nat)
    requires Thinned(img, r, slotId) && img.Layout() && img.HeadsOk()
    ensures r.Layout() && r.HeadsOk() && r.Lower() == img.Lower() && r.Upper() == img.Upper()
  {
    hide Head;
  }

  lemma {:induction false} ThinnedSeparate(img: Image, r: Image, slotId: nat)
    requires Thinned(img, r, slotId) && img.Separate()
    ensures r.Separate()
  {
    hide Clear;
  }

  lemma {:induction false} ThinnedEntries(img: Image, r: Image, slotId: nat)
    requires Thinned(img, r, slotId) && img.Layout() && r.Layout() && r.prefixLen <= r.lowerFence.len
    ensures r.Entries() == img.Entries()[..slotId] + img.Entries()[slotId + 1..]
  {
    assert forall i :: 0 <= i < |r.slots| ==> r.Entries()[i] == img.Entries()[After(i, slotId)];
  }

  lemma {:induction false} RemoveSlotThins(img: Image, slotId: nat)
    requires img.Accounted() && slotId < |img.slots|
    ensures img.slots[slotId].keyLen + img.slots[slotId].payloadLen <= img.spaceUsed
    ensures var r := RemoveSlotAt(img, slotId); Thinned(img, r, slotId) && r.Accounted()
  {
    RemovedSpace(img, slotId);
    hide HeapUsed;
  }

  /** removeSlot keeps the page well-formed and removes exactly that entry. */
  lemma {:induction false} RemoveSlotKeeps(img: Image, slotId: nat)
    requires img.WellFormed() && slotId < |img.slots|
    ensures img.slots[slotId].keyLen + img.slots[slotId].payloadLen <= img.spaceUsed
    ensures RemoveSlotAt(img, slotId).WellFormed()
    ensures RemoveSlotAt(img, slotId).View() == img.View().RemoveAt(slotId)
  {
    assert img.Layout() && img.HeadsOk() && img.Separate() && img.Accounted();
    hide Common, Head, Image.Separate, Image.HeadsOk, RemoveSlotAt, Image.Accounted, Image.Layout, Image.Lower,
      Image.Upper;
    RemoveSlotThins(img, slotId);
    var r := RemoveSlotAt(img, slotId);
    ThinnedHeads(img, r, slotId);
    ThinnedSeparate(img, r, slotId);
    assert img.prefixLen <= img.lowerFence.len;
    ThinnedEntries(img, r, slotId);
    hide Image.Entries;
  }

  // ---------------------------------------------------------------------- overwriting a child pointer

  /** memcpy over the payload of a slot. */
  function SetPayload(img: Image, slotId: nat, payload: seq<byte>): Image
    requires slotId < |img.slots| && |payload| == img.slots[slotId].payloadLen
    requires img.slots[slotId].offset + img.slots[slotId].keyLen + |payload| <= |img.mem|
  {
    img.(mem := Splice(img.mem, img.slots[slotId].offset + img.slots[slotId].keyLen, payload))
  }

  /** A slot that is clear of the overwritten payload reads as before. */
  lemma {:induction false} SetPayloadElsewhere(img: Image, slotId: nat, payload: seq<byte>, s: Slot)
    requires slotId < |img.slots| && |payload| == img.slots[slotId].payloadLen && |img.mem| == PAGE_SIZE
    requires var t := img.slots[slotId]; img.InHeap(t.offset, t.keyLen + t.payloadLen)
    requires img.InHeap(s.offset, s.keyLen + s.payloadLen) && Clear(Extent(s), Extent(img.slots[slotId]))
    ensures var r := SetPayload(img, slotId, payload); r.Suffix(s) == img.Suffix(s) && r.Payload(s) == img.Payload(s)
  {
    var o := img.slots[slotId].offset + img.slots[slotId].keyLen;
    SpliceElsewhere(img.mem, o, payload, s.offset, s.offset + s.keyLen);
    SpliceElsewhere(img.mem, o, payload, s.offset + s.keyLen, s.offset + s.keyLen + s.payloadLen);
  }

  lemma {:induction false} SetPayloadFence(img: Image, slotId: nat, payload: seq<byte>, f: FenceKeySlot)
    requires slotId < |img.slots| && |payload| == img.slots[slotId].payloadLen && |img.mem| == PAGE_SIZE
    requires var t := img.slots[slotId]; img.InHeap(t.offset, t.keyLen + t.payloadLen)
    requires f.offset + f.len <= PAGE_SIZE && Clear(Extent(img.slots[slotId]), f)
    ensures SetPayload(img, slotId, payload).mem[f.offset..f.offset + f.len] == img.mem[f.offset..f.offset + f.len]
  {
    SpliceElsewhere(img.mem, img.slots[slotId].offset + img.slots[slotId].keyLen, payload, f.offset, f.offset + f.len);
  }

  /** The fences and the overwritten slot itself. */
  lemma {:induction false} SetPayloadHere(img: Image, slotId: nat, payload: seq<byte>)
    requires img.WellFormed() && slotId < |img.slots| && |payload| == img.slots[slotId].payloadLen
    ensures img.InHeap(img.slots[slotId].offset, img.slots[slotId].keyLen + img.slots[slotId].payloadLen)
    ensures var r := SetPayload(img, slotId, payload);
      && r.Layout() && r.Lower() == img.Lower() && r.Upper() == img.Upper()
      && r.Suffix(r.slots[slotId]) == img.Suffix(img.slots[slotId]) && r.Payload(r.slots[slotId]) == payload
  {
    hide Common, Head, HeapUsed, Clear, Splice;
    var t := img.slots[slotId];
    assert img.InHeap(t.offset, t.keyLen + t.payloadLen) && img.Layout();
    assert Clear(Extent(t), img.lowerFence) && Clear(Extent(t), img.upperFence);
    SetPayloadFence(img, slotId, payload, img.lowerFence);
    SetPayloadFence(img, slotId, payload, img.upperFence);
    SpliceElsewhere(img.mem, t.offset + t.keyLen, payload, t.offset, t.offset + t.keyLen);
    SpliceHere(img.mem, t.offset + t.keyLen, payload, 0, |payload|);
  }

  lemma {:induction false} SetPayloadThere(img: Image, slotId: nat, payload: seq<byte>, i: nat)
    requires img.WellFormed() && slotId < |img.slots| && |payload| == img.slots[slotId].payloadLen
    requires i < |img.slots| && i != slotId
    ensures var t := img.slots[slotId]; img.InHeap(t.offset, t.keyLen + t.payloadLen)
    ensures var s := img.slots[i]; img.InHeap(s.offset, s.keyLen + s.payloadLen)
    ensures var r := SetPayload(img, slotId, payload);
      r.Suffix(img.slots[i]) == img.Suffix(img.slots[i]) && r.Payload(img.slots[i]) == img.Payload(img.slots[i])
  {
    assert i < slotId ==> Clear(Extent(img.slots[i]), Extent(img.slots[slotId]));
    assert slotId < i ==> Clear(Extent(img.slots[slotId]), Extent(img.slots[i]));
    SetPayloadElsewhere(img, slotId, payload, img.slots[i]);
  }

  lemma {:induction false} SetPayloadWellFormed(img: Image, slotId: nat, payload: seq<byte>)
    requires img.WellFormed() && slotId < |img.slots| && |payload| == img.slots[slotId].payloadLen
    ensures img.InHeap(img.slots[slotId].offset, img.slots[slotId].keyLen + img.slots[slotId].payloadLen)
    ensures SetPayload(img, slotId, payload).WellFormed()
  {
    SetPayloadHere(img, slotId, payload);
    var r := SetPayload(img, slotId, payload);
    hide Common, Head, Splice, HeapUsed, Clear, Image.Suffix, Image.Payload, Image.Lower, Image.Upper;
    forall i | 0 <= i < |r.slots| && i != slotId
      ensures r.Suffix(r.slots[i]) == img.Suffix(img.slots[i])
    {
      SetPayloadThere(img, slotId, payload, i);
    }
  }

  lemma {:induction false} SetPayloadEntries(img: Image, slotId: nat, payload: seq<byte>)
    requires img.WellFormed() && slotId < |img.slots| && |payload| == img.slots[slotId].payloadLen
    ensures img.InHeap(img.slots[slotId].offset, img.slots[slotId].keyLen + img.slots[slotId].payloadLen)
    ensures var r := SetPayload(img, slotId, payload);
      && r.Layout() && r.prefixLen <= r.lowerFence.len
      && var es := img.Entries(); r.Entries() == es[slotId := es[slotId].(val := ValueOf(img.isLeaf, payload))]
  {
    hide Common, Splice, Image.Suffix, Image.Payload, Image.Prefix, Image.Lower, Image.Upper, Head, Image.WellFormed;
    WellFormedLayout(img);
    SetPayloadHere(img, slotId, payload);
    var r := SetPayload(img, slotId, payload);
    PrefixOfLower(img);
    PrefixOfLower(r);
    var es, e := img.Entries(), img.Entries()[slotId].(val := ValueOf(img.isLeaf, payload));
    forall i | 0 <= i < |es|
      ensures r.Entries()[i] == if i == slotId then e else es[i]
    {
      if i != slotId { SetPayloadThere(img, slotId, payload, i); }
    }
    hide Image.Entries;
    assert r.Entries() == es[slotId := e];
  }

  /** Overwriting a payload keeps the page well-formed and changes that entry's value only. */
  lemma {:induction false} SetPayloadKeeps(img: Image, slotId: nat, payload: seq<byte>)
    requires img.WellFormed() && slotId < |img.slots| && |payload| == img.slots[slotId].payloadLen
    ensures img.InHeap(img.slots[slotId].offset, img.slots[slotId].keyLen + img.slots[slotId].payloadLen)
    ensures var r := SetPayload(img, slotId, payload);
      && r.WellFormed()
      && var es := img.View().entries;
      r.View() == img.View().(entries := es[slotId := es[slotId].(val := ValueOf(img.isLeaf, payload))])
  {
    var r := SetPayload(img, slotId, payload);
    SetPayloadHere(img, slotId, payload);
    SetPayloadWellFormed(img, slotId, payload);
    SetPayloadEntries(img, slotId, payload);
    hide Common, Splice, Image.WellFormed, Image.Entries, Image.Suffix, Image.Payload, Image.Prefix, Image.Lower,
      Image.Upper;
  }

  // ---------------------------------------------------------------------- fences

  /** insertFence: the key goes to the heap of a page that has no entries yet. */
  function FenceWritten(img: Image, key: Key): (seq<byte>, FenceKeySlot)
    requires |img.mem| == PAGE_SIZE && |key| <= img.dataOffset <= PAGE_SIZE
  {
    (Splice(img.mem, img.dataOffset - |key|, key), FenceKeySlot(img.dataOffset - |key|, |key|))
  }

  ghost predicate Fresh(img: Image) {
    && |img.mem| == PAGE_SIZE && img.slots == [] && img.dataOffset == PAGE_SIZE && img.spaceUsed == 0
    && img.lowerFence == FenceKeySlot(0, 0) && img.upperFence == FenceKeySlot(0, 0) && img.prefixLen == 0
  }

  /** setFences on a fresh page. */
  function WithFences(img: Image, lower: Key, upper: Key): Image
    requires Fresh(img) && |lower| + |upper| <= PAGE_SIZE - HEADER_SIZE
  {
    var a := FenceWritten(img, lower);
    var img1 := img.(mem := a.0, lowerFence := a.1, dataOffset := PAGE_SIZE - |lower|);
    var b := FenceWritten(img1, upper);
    img1.(mem := b.0, upperFence := b.1, dataOffset := PAGE_SIZE - |lower| - |upper|, spaceUsed := |lower| + |upper|,
          prefixLen := Common(lower, upper))
  }

  /** A page with fences and no entries. */
  lemma {:induction false} WithFencesKeeps(img: Image, lower: Key, upper: Key)
    requires Fresh(img) && |lower| + |upper| <= PAGE_SIZE - HEADER_SIZE
    ensures var r := WithFences(img, lower, upper);
      && r.WellFormed() && r.prefixLen == Common(lower, upper)
      && r.View() == Page(img.isLeaf, lower, upper, [], img.ViewLink())
      && r.FreeSpace() == r.FreeSpaceAfterCompaction()
  {
    hide Common;
    var r := WithFences(img, lower, upper);
    var img1 := img.(mem := FenceWritten(img, lower).0, lowerFence := FenceWritten(img, lower).1,
        dataOffset := PAGE_SIZE - |lower|);
    WriteBelow(img, img1, PAGE_SIZE - |lower|, lower);
    WriteBelow(img1, r, PAGE_SIZE - |lower| - |upper|, upper);
    if |lower| > 0 { SliceAbove(img1, r, PAGE_SIZE - |lower|, PAGE_SIZE); }
    assert r.Lower() == lower && r.Upper() == upper;
  }
}
