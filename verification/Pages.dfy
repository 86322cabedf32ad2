/** What a B-tree page means: fences, a sorted run of entries and a link. BTreeNode (BTreeNode.dfy)
    implements these operations on bytes; Trees (Trees.dfy) composes them. */
module Pages {
  import opened Bytes

  type PID = nat

  const METADATA_PAGE: PID := 0

  datatype Option<T> = None | Some(value: T)

  const PAGE_SIZE: nat := 4096
  const HEADER_SIZE: nat := 112
  const SLOT_SIZE: nat := 10
  const PID_SIZE: nat := 8
  const MAX_SLOTS: nat := (PAGE_SIZE - HEADER_SIZE) / SLOT_SIZE
  const MAX_KV_SIZE: nat := (PAGE_SIZE - HEADER_SIZE - 2 * SLOT_SIZE) / 4
  const UNDER_FULL_SIZE: nat := PAGE_SIZE / 2 + PAGE_SIZE / 4

  /** Leaves store records, inner pages store child page ids. */
  datatype Value = Record(bytes: seq<byte>) | Child(pid: PID) {
    function Size(): nat {
      if Record? then |bytes| else PID_SIZE
    }
  }

  datatype Entry = Entry(key: Key, val: Value)

  /** The union of upperInnerNode and nextLeafNode. */
  datatype Link = NoNeighbour | To(pid: PID)

  datatype SeparatorInfo = SeparatorInfo(len: nat, slot: nat, isTruncated: bool)

  predicate Sorted(es: seq<Entry>) {
    forall i, j :: 0 <= i < j < |es| ==> Less(es[i].key, es[j].key)
  }

  /** First position whose key is not below k. */
  function LowerBound(es: seq<Entry>, k: Key): (pos: nat)
    ensures pos <= |es|
    ensures forall i :: 0 <= i < pos ==> Less(es[i].key, k)
    ensures pos < |es| ==> LessEq(k, es[pos].key)
  {
    if es == [] || !Less(es[0].key, k) then 0 else
      var rest := LowerBound(es[1..], k);
      assert forall i :: 0 < i < |es| ==> es[i] == es[1..][i - 1];
      1 + rest
  }

  /** Bytes the entries occupy on a page whose prefix has p bytes. */
  function Stored(es: seq<Entry>, p: nat): int {
    if es == [] then 0 else |es[0].key| - p + es[0].val.Size() + Stored(es[1..], p)
  }

  datatype Page = Page(isLeaf: bool, lower: Key, upper: Key, entries: seq<Entry>, link: Link) {

    /** Lower fence exclusive, upper fence inclusive; an empty fence is no fence. */
    predicate Covers(k: Key) {
      && (lower == [] || Less(lower, k))
      && (upper == [] || LessEq(k, upper))
    }

    predicate Ok() {
      && (lower == [] || upper == [] || Less(lower, upper))
      && Sorted(entries)
      && (forall i :: 0 <= i < |entries| ==> entries[i].key != [] && Covers(entries[i].key))
      && (forall i :: 0 <= i < |entries| ==> entries[i].val.Record? == isLeaf)
      && (!isLeaf ==> link.To?)
      && (!isLeaf && upper != [] ==> forall i :: 0 <= i < |entries| ==> Less(entries[i].key, upper))
    }

    function PrefixLen(): nat { Common(lower, upper) }

    function SpaceUsed(): int { |lower| + |upper| + Stored(entries, PrefixLen()) }

    function FreeAfterCompaction(): int { PAGE_SIZE - (HEADER_SIZE + SLOT_SIZE * |entries|) - SpaceUsed() }

    function SpaceNeeded(keyLen: nat, payloadLen: nat): int { SLOT_SIZE + (keyLen - PrefixLen()) + payloadLen }

    predicate HasSpaceFor(keyLen: nat, payloadLen: nat) {
      SpaceNeeded(keyLen, payloadLen) <= FreeAfterCompaction()
    }

    predicate Fits() { FreeAfterCompaction() >= 0 }

    function Pos(k: Key): nat { LowerBound(entries, k) }

    /** Exact match, as reported by lowerBound. */
    predicate Found(k: Key) {
      var pos := Pos(k);
      pos < |entries| && entries[pos].key == k
    }

    function Insert(k: Key, v: Value): Page {
      var pos := Pos(k);
      this.(entries := entries[..pos] + [Entry(k, v)] + entries[pos..])
    }

    function RemoveAt(slot: nat): Page
      requires slot < |entries|
    {
      this.(entries := entries[..slot] + entries[slot + 1..])
    }

    // ------------------------------------------------------------------ inner pages

    predicate InnerShape() {
      !isLeaf && link.To? && forall i :: 0 <= i < |entries| ==> entries[i].val.Child?
    }

    function Kid(i: nat): PID
      requires InnerShape() && i <= |entries|
    {
      if i < |entries| then entries[i].val.pid else link.pid
    }

    function KidLower(i: nat): Key
      requires i <= |entries|
    {
      if i == 0 then lower else entries[i - 1].key
    }

    function KidUpper(i: nat): Key
      requires i <= |entries|
    {
      if i < |entries| then entries[i].key else upper
    }

    function LookupInner(k: Key): PID
      requires InnerShape()
    {
      Kid(Pos(k))
    }

    function SetKid(i: nat, pid: PID): Page
      requires InnerShape() && i <= |entries|
    {
      if i < |entries| then this.(entries := entries[i := entries[i].(val := Child(pid))])
      else this.(link := To(pid))
    }

    // ------------------------------------------------------------------ separators

    function SuffixCommon(a: nat, b: nat): nat
      requires a < |entries| && b < |entries|
    {
      Common(Suffix(a), Suffix(b))
    }

    function Suffix(i: nat): Key
      requires i < |entries|
    {
      var key := entries[i].key;
      if PrefixLen() <= |key| then key[PrefixLen()..] else []
    }

    /** First slot at or after i whose common prefix with slot 0 differs from len, at most upperSlot. */
    function FirstDifferent(i: nat, upperSlot: nat, len: nat): (slot: nat)
      requires i <= upperSlot <= |entries| && |entries| > 0
      ensures i <= slot <= upperSlot
      ensures slot < upperSlot ==> SuffixCommon(slot, 0) != len
      ensures forall j :: i <= j < slot ==> SuffixCommon(j, 0) == len
      decreases upperSlot - i
    {
      if i < upperSlot && SuffixCommon(i, 0) == len then FirstDifferent(i + 1, upperSlot, len) else i
    }

    function BestSlot(splitOrdered: bool): (slot: nat)
      requires |entries| > 1
      ensures slot + 1 < |entries|
    {
      var count := |entries|;
      if splitOrdered then count - 2
      else if count > 16 then
        var lowerSlot, upperSlot := count / 2 - count / 16, count / 2;
        var len := SuffixCommon(lowerSlot, 0);
        if len != SuffixCommon(upperSlot - 1, 0) then FirstDifferent(lowerSlot + 1, upperSlot, len) else lowerSlot
      else (count - 1) / 2
    }

    /** info names a slot to split at and the length of the separator taken from it or its successor. */
    predicate Describes(info: SeparatorInfo) {
      && info.slot < |entries|
      && (isLeaf ==> info.slot + 1 < |entries|)
      && (if info.isTruncated then
            && isLeaf
            && info.len == PrefixLen() + SuffixCommon(info.slot, info.slot + 1) + 1
            && |Suffix(info.slot)| > SuffixCommon(info.slot, info.slot + 1)
            && |Suffix(info.slot + 1)| > SuffixCommon(info.slot, info.slot + 1) + 1
          else info.len == PrefixLen() + |Suffix(info.slot)|)
    }

    /** Without its assertion that there are two, one entry is enough for an inner page. */
    function FindSeparator(splitOrdered: bool): (info: SeparatorInfo)
      requires |entries| > if isLeaf then 1 else 0
      ensures Describes(info)
    {
      hide BestSlot, SuffixCommon, Suffix, Common;
      if !isLeaf then
        SeparatorInfo(PrefixLen() + |Suffix(|entries| / 2)|, |entries| / 2, false)
      else
        var best := BestSlot(splitOrdered);
        var common := SuffixCommon(best, best + 1);
        if |Suffix(best)| > common && |Suffix(best + 1)| > common + 1
        then SeparatorInfo(PrefixLen() + common + 1, best, true)
        else SeparatorInfo(PrefixLen() + |Suffix(best)|, best, false)
    }

    /** The separator key: the first info.len bytes of the chosen entry's key. */
    function Sep(info: SeparatorInfo): Key
      requires info.slot + (if info.isTruncated then 1 else 0) < |entries|
    {
      var key := entries[info.slot + (if info.isTruncated then 1 else 0)].key;
      if info.len <= |key| then key[..info.len] else key
    }

    // ------------------------------------------------------------------ split and merge

    function SplitLeft(slot: nat, sep: Key, newPid: PID): Page
      requires slot < |entries| && (!isLeaf ==> InnerShape())
    {
      if isLeaf then Page(true, lower, sep, entries[..slot + 1], To(newPid))
      else Page(false, lower, sep, entries[..slot], To(Kid(slot)))
    }

    function SplitRight(slot: nat, sep: Key): Page
      requires slot < |entries|
    {
      Page(isLeaf, sep, upper, entries[slot + 1..], link)
    }

    /** The parent after its child left was split at sep and the right half became page newPid. */
    function AddSeparator(sep: Key, left: PID, newPid: PID): Page
      requires InnerShape()
    {
      SetKid(Pos(sep), newPid).Insert(sep, Child(left))
    }

    /** The left leaf after absorbing its right neighbour. */
    function Merge(right: Page): Page {
      Page(isLeaf, lower, right.upper, entries + right.entries, right.link)
    }

    /** mergeNodes' test: an upper bound of the merged page's size. */
    predicate MergeFits(right: Page) {
      var merged := Common(lower, right.upper);
      SpaceUsed() + right.SpaceUsed() + (HEADER_SIZE + SLOT_SIZE * (|entries| + |right.entries|))
      + (PrefixLen() - merged) * |entries| + (right.PrefixLen() - merged) * |right.entries| <= PAGE_SIZE
    }

    /** The parent after the children at slot and slot + 1 were merged into the page left. */
    function DropSeparator(slot: nat, left: PID): Page
      requires InnerShape() && slot + 1 <= |entries|
    {
      SetKid(slot + 1, left).RemoveAt(slot)
    }
  }

  // ---------------------------------------------------------------------- search

  lemma {:induction false} LowerBoundIs(es: seq<Entry>, k: Key, pos: nat)
    requires pos <= |es|
    requires forall i :: 0 <= i < pos ==> Less(es[i].key, k)
    requires pos < |es| ==> LessEq(k, es[pos].key)
    ensures LowerBound(es, k) == pos
  {
  }

  /** A sorted page splits at its lower bound into keys below k and keys not below k. */
  lemma {:induction false} LowerBoundSplits(es: seq<Entry>, k: Key)
    requires Sorted(es)
    ensures forall i :: LowerBound(es, k) <= i < |es| ==> LessEq(k, es[i].key)
    ensures forall i :: LowerBound(es, k) < i < |es| ==> Less(k, es[i].key)
    ensures forall i :: 0 <= i < |es| && es[i].key == k ==> i == LowerBound(es, k)
  {
    var pos := LowerBound(es, k);
    forall i | pos <= i < |es|
      ensures LessEq(k, es[i].key) && (pos < i ==> Less(k, es[i].key))
    {
      if pos < i { LessLessEqTrans(k, es[pos].key, es[i].key); LessTotal(k, es[i].key); }
    }
    forall i | 0 <= i < |es| && es[i].key == k
      ensures i == pos
    {
      LessTotal(k, k);
    }
  }

  /** On an inner page, a covered key lies in the range of the child it is routed to, and of no other. */
  lemma {:induction false} RoutedRange(p: Page, k: Key, i: nat)
    requires p.Ok() && p.InnerShape() && p.Covers(k) && i <= |p.entries|
    ensures i == p.Pos(k) <==>
            && (i > 0 ==> Less(p.KidLower(i), k))
            && (i < |p.entries| ==> LessEq(k, p.KidUpper(i)))
  {
    LowerBoundSplits(p.entries, k);
    var pos := p.Pos(k);
    assert i < pos ==> Less(p.entries[i].key, k);
    assert pos < i ==> LessEq(k, p.entries[i - 1].key);
  }
}
