/** Legal pages on which the source's assertions and size claims fail, with the exact conditions. */
module HardCases {
  import opened Bytes
  import opened Pages
  import opened Splits
  import opened PageSpace

  // ---------------------------------------------------------------------- long keys

  /** Room that a record of eight bytes leaves for its key. */
  const LONG: nat := MAX_KV_SIZE - PID_SIZE

  /** LONG - 1 bytes 7 and a last byte x: keys that share everything but their end. */
  function LongKey(x: byte): (k: Key)
    ensures |k| == LONG
  {
    seq(LONG, j requires 0 <= j < LONG => if j + 1 < LONG then 7 else x)
  }

  /** n bytes x: keys that share nothing. */
  function Repeated(x: byte, n: nat): (k: Key)
    ensures |k| == n
  {
    seq(n, j requires 0 <= j < n => x)
  }

  /** The record that fills a pair with a long key up. */
  function Filler(): (v: Value)
    ensures v.Size() == PID_SIZE && v.Record?
  {
    Record(Repeated(0, PID_SIZE))
  }

  lemma {:induction false} LongKeyOrder(x: byte, y: byte)
    ensures x < y ==> Less(LongKey(x), LongKey(y)) && Common(LongKey(x), LongKey(y)) == LONG - 1
    ensures y > 7 ==> Less(LongKey(x), [y]) && Common(LongKey(x), [y]) == 0
  {
    if x < y { CommonIs(LongKey(x), LongKey(y), LONG - 1); }
    if y > 7 { CommonIs(LongKey(x), [y], 0); }
  }

  lemma {:induction false} RepeatedOrder(x: byte, y: byte, n: nat)
    requires x < y && n > 0
    ensures Less(Repeated(x, n), Repeated(y, n)) && Common(Repeated(x, n), Repeated(y, n)) == 0
  {
    CommonIs(Repeated(x, n), Repeated(y, n), 0);
  }

  // ---------------------------------------------------------------------- splitting at slot 0

  /** splitNode's assertion that the split slot is not 0 fails exactly for leaves with two entries and inner pages
      with one. */
  lemma {:induction false} SplitsAtZero(p: Page, splitOrdered: bool)
    requires |p.entries| > if p.isLeaf then 1 else 0
    ensures p.FindSeparator(splitOrdered).slot == 0 <==> |p.entries| == if p.isLeaf then 2 else 1
  {
    hide Common;
  }

  function LongEntry(x: byte): Entry { Entry(LongKey(x), Filler()) }

  /** A root leaf after three insertions. */
  function LongLeaf(): Page { Page(true, [], [], [LongEntry(2), LongEntry(3), LongEntry(4)], NoNeighbour) }

  /** What its split leaves on the left. */
  function LongLeft(newPid: PID): Page { Page(true, [], LongKey(3), [LongEntry(2), LongEntry(3)], To(newPid)) }

  lemma {:induction false} LongLeafOk(newPid: PID)
    ensures LongLeaf().Ok() && Sized(LongLeaf()) && LongLeft(newPid).Ok() && Sized(LongLeft(newPid))
    ensures LongLeaf().PrefixLen() == 0 && LongLeft(newPid).PrefixLen() == 0
  {
    hide Less, Common, LongKey, Filler;
    LongKeyOrder(2, 3);
    LongKeyOrder(2, 4);
    LongKeyOrder(3, 4);
    LessTotal(LongKey(2), LongKey(3));
    LessTotal(LongKey(3), LongKey(3));
  }

  lemma {:induction false} LongLeafSplit(newPid: PID)
    ensures var p := LongLeaf(); var info := p.FindSeparator(false);
      info == SeparatorInfo(LONG, 1, false) && p.SplitLeft(info.slot, p.Sep(info), newPid) == LongLeft(newPid)
  {
    hide Less, Common, LongKey, Filler, Page.Ok, Sized, Page.Describes;
    LongLeafOk(newPid);
    LongKeyOrder(3, 4);
    var p := LongLeaf();
    assert p.Suffix(1) == LongKey(3) && p.Suffix(2) == LongKey(4);
    assert p.entries[..2] == [LongEntry(2), LongEntry(3)];
  }

  lemma {:induction false} LongSpace(newPid: PID)
    ensures LongLeaf().Fits() && LongLeft(newPid).Fits()
    ensures !LongLeaf().HasSpaceFor(LONG, PID_SIZE) && !LongLeft(newPid).HasSpaceFor(LONG, PID_SIZE)
  {
    LongLeafOk(newPid);
    hide Less, Common, LongKey, Filler, Page.Ok, Sized;
    var e, es := LongEntry(4), LongLeft(newPid).entries;
    StoredAround(es, 0, 0);
    StoredAround(es, 1, 0);
    assert es[..0] == [] && es[2..] == [] && es[1..] == [LongEntry(3)];
    assert LongLeaf().entries == es + [e];
    StoredConcat(es, [e], 0);
    assert Stored([e], 0) == MAX_KV_SIZE;
    assert Stored(es, 0) == 2 * MAX_KV_SIZE;
  }

  /** It does happen: a root leaf refuses its fourth record and is split; the left half refuses the record as well,
      and is split at slot 0. */
  lemma {:induction false} SlotZeroHappens(newPid: PID, splitOrdered: bool)
    ensures var p := LongLeaf(); var info := p.FindSeparator(false);
      var left := p.SplitLeft(info.slot, p.Sep(info), newPid);
      && p.Ok() && p.Fits() && Sized(p) && !p.HasSpaceFor(LONG, PID_SIZE)
      && left.Ok() && left.Fits() && Sized(left) && !left.HasSpaceFor(LONG, PID_SIZE)
      && left.Covers(LongKey(1)) && LongKey(1) != LongKey(2)
      && |left.entries| == 2 && left.FindSeparator(splitOrdered).slot == 0
  {
    LongLeafOk(newPid);
    LongLeafSplit(newPid);
    LongSpace(newPid);
    LongKeyOrder(1, 3);
    LongKeyOrder(1, 2);
    LessTotal(LongKey(1), LongKey(3));
    LessTotal(LongKey(1), LongKey(2));
    hide Less, Common, LongKey, Page.Ok, Page.Fits, Page.HasSpaceFor, Sized, Page.FindSeparator;
    SplitsAtZero(LongLeft(newPid), splitOrdered);
  }

  // ---------------------------------------------------------------------- a split that does not fit

  function UnevenKey(i: nat): (k: Key)
    requires i < 5
    ensures k != [] && |k| == if i < 3 then LONG else 1
  {
    if i < 3 then LongKey(i + 1) else [5 + i]
  }

  /** Three pairs of maximal size followed by two one-byte keys. */
  function UnevenLeaf(): (p: Page)
    ensures |p.entries| == 5
  {
    Page(true, [], [], seq(5, i requires 0 <= i < 5 => Entry(UnevenKey(i), if i < 3 then Filler() else Record([]))),
        NoNeighbour)
  }

  lemma {:induction false} UnevenKeyOrder(i: nat, j: nat)
    requires i < j < 5
    ensures Less(UnevenKey(i), UnevenKey(j))
  {
    if j < 3 {
      LongKeyOrder(i + 1, j + 1);
    } else if i < 3 {
      LongKeyOrder(i + 1, 5 + j);
    } else {
      CommonIs([5 + i], [5 + j], 0);
    }
  }

  lemma {:induction false} UnevenLeafOk()
    ensures UnevenLeaf().Ok() && Sized(UnevenLeaf())
  {
    hide Less, Common, LongKey, UnevenKey, Filler;
    var es := UnevenLeaf().entries;
    forall i, j | 0 <= i < j < 5
      ensures Less(es[i].key, es[j].key)
    {
      UnevenKeyOrder(i, j);
    }
  }

  lemma {:induction false} UnevenLeafSize()
    ensures Stored(UnevenLeaf().entries, 0) == 3 * MAX_KV_SIZE + 2
    ensures Stored(UnevenLeaf().entries[..3], 0) == 3 * MAX_KV_SIZE
  {
    hide Less, Common, LongKey, UnevenKey, Filler;
    var es := UnevenLeaf().entries;
    StoredAround(es, 0, 0);
    StoredAround(es, 1, 0);
    StoredAround(es, 2, 0);
    StoredAround(es, 3, 0);
    StoredAround(es, 4, 0);
    assert es[..0] == [] && es[5..] == [];
  }

  lemma {:induction false} UnevenSeparator()
    ensures var p := UnevenLeaf(); var info := p.FindSeparator(false);
      p.PrefixLen() == 0 && info == SeparatorInfo(LONG, 2, false) && p.Sep(info) == LongKey(3)
  {
    hide Less, LongKey, Filler, Page.Describes, Stored;
    var p := UnevenLeaf();
    LongKeyOrder(3, 8);
    assert p.PrefixLen() == 0;
    hide Common;
    assert p.Suffix(2) == LongKey(3) && p.Suffix(3) == [8];
  }

  /** The left half of a leaf split need not fit: this well-formed leaf of legal entries fits, must be split for a
      legal pair, and its left half does not fit the page. */
  lemma {:induction false} LeftHalfMayOverflow(newPid: PID)
    ensures var p := UnevenLeaf(); var info := p.FindSeparator(false);
      && p.Ok() && p.Fits() && Sized(p)
      && !p.HasSpaceFor(LONG, PID_SIZE)
      && !p.SplitLeft(info.slot, p.Sep(info), newPid).Fits()
  {
    var p := UnevenLeaf();
    UnevenLeafOk();
    UnevenLeafSize();
    UnevenSeparator();
    hide Less, Common, LongKey, Page.Ok, Sized, Page.FindSeparator, Page.Describes;
    LeafLeftHalfFits(p, 2, LongKey(3), newPid);
    StoredAround(p.entries, 2, 0);
    assert p.entries[..3] + p.entries[3..] == p.entries;
    StoredConcat(p.entries[..3], p.entries[3..], 0);
  }

  // ---------------------------------------------------------------------- inner pages with one entry

  /** findSeparator asserts two entries, but an inner page with one can be split as well: the halves are well-formed,
      fit, have no entries, and have room for any separator. */
  lemma {:induction false} OneEntrySplits(p: Page, splitOrdered: bool, newPid: PID, sepLen: nat)
    requires p.Ok() && p.Fits() && Sized(p) && !p.isLeaf && |p.entries| == 1 && sepLen <= MAX_KV_SIZE
    ensures var info := p.FindSeparator(splitOrdered);
      var l, r := p.SplitLeft(0, p.Sep(info), newPid), p.SplitRight(0, p.Sep(info));
      && info.slot == 0 && p.Sep(info) == p.entries[0].key && GoodSeparator(p, 0, p.Sep(info))
      && l.Ok() && l.Fits() && l.entries == [] && l.HasSpaceFor(sepLen, PID_SIZE)
      && r.Ok() && r.Fits() && r.entries == [] && r.HasSpaceFor(sepLen, PID_SIZE)
  {
    var info := p.FindSeparator(splitOrdered);
    SeparatorSplits(p, info);
    SeparatorLength(p, info);
    hide Less, Common, Page.Covers, Page.Sep;
    SplitOk(p, 0, p.Sep(info), newPid);
    hide Page.Ok;
    assert p.Sep(info) == p.entries[0].key by { WholeKey(p, info); }
  }

  lemma {:induction false} WholeKey(p: Page, info: SeparatorInfo)
    requires p.Ok() && p.Describes(info) && !p.isLeaf
    ensures p.Sep(info) == p.entries[info.slot].key
  {
    EntriesCarryPrefix(p);
    hide Less, Common, Page.Covers;
  }

  /** An inner page between fences of maximal key length. */
  function TightInner(kid: PID, next: PID): Page {
    Page(false, Repeated(1, MAX_KV_SIZE), Repeated(3, MAX_KV_SIZE), [Entry(Repeated(2, MAX_KV_SIZE), Child(kid))],
        To(next))
  }

  /** It can come to that: this page fits, has one entry, and refuses a separator. */
  lemma {:induction false} OneEntryMayRefuse(kid: PID, next: PID)
    ensures var p := TightInner(kid, next);
      p.Ok() && p.Fits() && Sized(p) && |p.entries| == 1 && !p.HasSpaceFor(MAX_KV_SIZE, PID_SIZE)
  {
    var p := TightInner(kid, next);
    RepeatedOrder(1, 2, MAX_KV_SIZE);
    RepeatedOrder(2, 3, MAX_KV_SIZE);
    RepeatedOrder(1, 3, MAX_KV_SIZE);
    LessTotal(Repeated(2, MAX_KV_SIZE), Repeated(3, MAX_KV_SIZE));
    OneEntryRefuses(p, MAX_KV_SIZE, PID_SIZE);
    hide Less, Common, Repeated;
    assert Stored(p.entries, 0) == MAX_KV_SIZE + PID_SIZE;
  }
}
