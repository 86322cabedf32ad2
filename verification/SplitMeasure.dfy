/** Why insert stops splitting, and which trees never outgrow their pages. */
module SplitMeasure {
  import opened Arithmetic
  import opened Bytes
  import opened Pages
  import opened Splits
  import opened PageSpace
  import opened Forests
  import opened ForestSteps
  import opened LeafSteps

  // ---------------------------------------------------------------------- sums over pages

  ghost function Pick(m: map<PID, nat>): PID
    requires m != map[]
    ensures Pick(m) in m
  {
    var k :| k in m;
    k
  }

  ghost function Sum(m: map<PID, nat>): nat
    decreases |m|
  {
    if m == map[] then 0 else m[Pick(m)] + Sum(m - {Pick(m)})
  }

  lemma {:induction false} SumRemove(m: map<PID, nat>, k: PID)
    requires k in m
    ensures Sum(m) == m[k] + Sum(m - {k})
    decreases |m|
  {
    var j := Pick(m);
    if j != k {
      SumRemove(m - {j}, k);
      SumRemove(m - {k}, j);
      assert m - {j} - {k} == m - {k} - {j};
    }
  }

  /** The entries of a leaf beyond its first, and all entries of an inner page. */
  function Excess(p: Page): nat {
    if p.isLeaf && p.entries != [] then |p.entries| - 1 else |p.entries|
  }

  /** Distance of a level to the bound b. */
  function Depth(b: nat, level: nat): nat {
    if level <= b then b - level else 0
  }

  ghost function Excesses(f: Forest): map<PID, nat> {
    map p | p in f.level && p in f.pages :: Excess(f.pages[p])
  }

  ghost function Weights(f: Forest, b: nat): map<PID, nat> {
    map p | p in f.level && p in f.pages :: Excess(f.pages[p]) * Depth(b, f.level[p])
  }

  /** Surplus entries, each counting its page's distance to a bound on the height. */
  ghost function Measure(f: Forest, b: nat): nat { Sum(Weights(f, b)) }

  ghost function Surplus(f: Forest): nat { Sum(Excesses(f)) }

  /** Splits never add surplus, so b stays above it, and with it above the height. */
  ghost predicate Bounded(f: Forest, b: nat) { Surplus(f) < b }

  /** Two maps that agree except at c, q and the new key n. */
  lemma {:induction false} SumChange(m: map<PID, nat>, m': map<PID, nat>, c: PID, q: PID, n: PID)
    requires c in m && q in m && n !in m && c != q
    requires m'.Keys == m.Keys + {n}
    requires forall x :: x in m && x != c && x != q ==> m'[x] == m[x]
    ensures Sum(m') + m[c] + m[q] == Sum(m) + m'[c] + m'[q] + m'[n]
  {
    SumRemove(m, c);
    SumRemove(m - {c}, q);
    SumRemove(m', c);
    SumRemove(m' - {c}, q);
    SumRemove(m' - {c} - {q}, n);
    assert m' - {c} - {q} - {n} == m - {c} - {q};
  }

  lemma {:induction false} NewRootSums(f: Forest, n: PID, b: nat)
    requires f.Rooted() && n !in f.pages
    ensures Surplus(NewRoot(f, n)) == Surplus(f) && Measure(NewRoot(f, n), b) == Measure(f, b)
  {
    var g := NewRoot(f, n);
    SumSame(Excesses(f), Excesses(g), n);
    SumSame(Weights(f, b), Weights(g, b), n);
  }

  /** A new key with value 0 adds nothing. */
  lemma {:induction false} SumSame(m: map<PID, nat>, m': map<PID, nat>, n: PID)
    requires n !in m && m'.Keys == m.Keys + {n} && m'[n] == 0 && forall x :: x in m ==> m'[x] == m[x]
    ensures Sum(m') == Sum(m)
  {
    SumRemove(m', n);
    assert m' - {n} == m;
  }

  /** Splitting leaves fewer surplus entries on the two halves together. */
  lemma {:induction false} HalvesExcess(p: Page, slot: nat, sep: Key, n: PID)
    requires slot < |p.entries| && (p.isLeaf ==> slot + 1 < |p.entries|) && (!p.isLeaf ==> p.InnerShape())
    ensures Excess(p.SplitLeft(slot, sep, n)) + Excess(p.SplitRight(slot, sep)) + 1 <= Excess(p)
  {
  }

  lemma {:induction false} WeightedDecrease(l: nat, r: nat, p: nat, q: nat, q': nat, w: nat)
    requires l + r + 1 <= p && q' <= q + 1 && w > 0
    ensures l * w + r * w + q' * (w - 1) < p * w + q * (w - 1)
  {
    MulLe(w, l + r + 1, p);
    MulLe(w - 1, q', q + 1);
    assert (l + r + 1) * w == l * w + r * w + w;
    assert (q + 1) * (w - 1) == q * (w - 1) + (w - 1);
  }

  lemma {:induction false} SplitCounts(f: Forest, q: PID, i: nat, c: PID, slot: nat, sep: Key, n: PID)
    requires CanSplit(f, q, i, c, slot, sep, n)
    requires f.pages[c].isLeaf ==> slot + 1 < |f.pages[c].entries|
    ensures var g := SplitAt(f, q, c, slot, sep, n);
      && q in g.pages && c in g.pages && n in g.pages && c in f.pages && q in f.pages
      && |g.pages[q].entries| == |f.pages[q].entries| + 1
      && Excess(g.pages[c]) + Excess(g.pages[n]) + 1 <= Excess(f.pages[c]) && g.pages[c].isLeaf == f.pages[c].isLeaf
  {
    SplitFrame(f, q, i, c, slot, sep, n);
    SeparatorInParent(f, q, i, c, slot, sep, n);
    AddSeparatorKids(f.pages[q], sep, c, n);
    hide Less, Common, Page.Covers, Page.Ok;
    HalvesExcess(f.pages[c], slot, sep, n);
  }

  /** g is f with page c's surplus spread over c and n, losing at least one, and one entry more on q. */
  ghost predicate Spread(f: Forest, g: Forest, q: PID, c: PID, n: PID) {
    && f.Live(c) && f.Live(q) && !f.Live(n) && c != q
    && (forall x :: g.Live(x) <==> f.Live(x) || x == n)
    && g.Live(n) && g.Live(c) && g.Live(q)
    && (forall x :: f.Live(x) ==> g.Live(x) && g.level[x] == f.level[x])
    && (forall x :: f.Live(x) && x != c && x != q ==> g.Live(x) && g.pages[x] == f.pages[x])
    && g.level[n] == f.level[c] && f.level[q] == f.level[c] + 1
    && Excess(g.pages[c]) + Excess(g.pages[n]) + 1 <= Excess(f.pages[c])
    && |g.pages[q].entries| == |f.pages[q].entries| + 1 && !f.pages[q].isLeaf && !g.pages[q].isLeaf
    && g.pages[c].isLeaf == f.pages[c].isLeaf
  }

  lemma {:induction false} SpreadSurplus(f: Forest, g: Forest, q: PID, c: PID, n: PID)
    requires Spread(f, g, q, c, n)
    ensures Surplus(g) <= Surplus(f)
  {
    hide Sum;
    assert forall x :: x in Excesses(g) <==> g.Live(x);
    assert forall x :: x in Excesses(f) <==> f.Live(x);
    SumChange(Excesses(f), Excesses(g), c, q, n);
  }

  lemma {:induction false} SpreadMeasure(f: Forest, g: Forest, q: PID, c: PID, n: PID, b: nat)
    requires Spread(f, g, q, c, n) && f.level[q] <= b
    ensures Measure(g, b) < Measure(f, b)
  {
    hide Sum, Excess;
    var w := Depth(b, f.level[c]);
    var m, m' := Weights(f, b), Weights(g, b);
    assert forall x :: x in m' <==> g.Live(x);
    assert forall x :: x in m <==> f.Live(x);
    SumChange(m, m', c, q, n);
    assert Excess(g.pages[q]) <= Excess(f.pages[q]) + 1 by { ExcessOfOneMore(f.pages[q], g.pages[q]); }
    WeightedDecrease(Excess(g.pages[c]), Excess(g.pages[n]), Excess(f.pages[c]), Excess(f.pages[q]), Excess(g.pages[q]),
        w);
    assert m'[c] == Excess(g.pages[c]) * w && m'[n] == Excess(g.pages[n]) * w && m[c] == Excess(f.pages[c]) * w;
    assert m'[q] == Excess(g.pages[q]) * (w - 1) && m[q] == Excess(f.pages[q]) * (w - 1);
  }

  lemma {:induction false} ExcessOfOneMore(p: Page, r: Page)
    requires |r.entries| == |p.entries| + 1 && r.isLeaf == p.isLeaf
    ensures Excess(r) <= Excess(p) + 1
  {
  }

  lemma {:induction false} SplitSpreads(f: Forest, q: PID, i: nat, c: PID, slot: nat, sep: Key, n: PID)
    requires CanSplit(f, q, i, c, slot, sep, n)
    requires f.pages[c].isLeaf ==> slot + 1 < |f.pages[c].entries|
    ensures Spread(f, SplitAt(f, q, c, slot, sep, n), q, c, n)
  {
    hide Less, Common, Page.Covers, Page.Ok, SplitAt, Excess, Page.SplitLeft, Page.SplitRight;
    SplitFrame(f, q, i, c, slot, sep, n);
    SplitCounts(f, q, i, c, slot, sep, n);
    assert f.Live(c) && f.Live(q);
  }

  /** A split makes the measure smaller and never adds surplus. */
  lemma {:induction false} SplitDecreases(f: Forest, q: PID, i: nat, c: PID, slot: nat, sep: Key, n: PID, b: nat)
    requires CanSplit(f, q, i, c, slot, sep, n)
    requires f.pages[c].isLeaf ==> slot + 1 < |f.pages[c].entries|
    requires f.level[q] <= b
    ensures var g := SplitAt(f, q, c, slot, sep, n);
      Measure(g, b) < Measure(f, b) && Surplus(g) <= Surplus(f)
  {
    var g := SplitAt(f, q, c, slot, sep, n);
    SplitSpreads(f, q, i, c, slot, sep, n);
    hide CanSplit, SplitAt, Surplus, Measure;
    SpreadSurplus(f, g, q, c, n);
    SpreadMeasure(f, g, q, c, n, b);
  }

  // ---------------------------------------------------------------------- the height

  /** An inner page on the left edge of the tree has an entry. */
  ghost predicate FilledPage(p: Page) { !p.isLeaf && p.lower == [] ==> p.entries != [] }

  ghost predicate FilledBut(f: Forest, q: PID) {
    forall p :: f.Live(p) && p != q ==> FilledPage(f.pages[p])
  }

  ghost predicate Filled(f: Forest) {
    forall p :: f.Live(p) ==> FilledPage(f.pages[p])
  }

  /** A page on the left edge of the tree is split behind its first entry. */
  ghost predicate KeepsLeft(p: Page, slot: nat) { !p.isLeaf && p.lower == [] ==> slot > 0 }

  /** So once the parent has the separator, every page on the left edge has an entry again. */
  lemma {:induction false} SplitFills(f: Forest, q: PID, i: nat, c: PID, slot: nat, sep: Key, n: PID)
    requires CanSplit(f, q, i, c, slot, sep, n) && FilledBut(f, q) && KeepsLeft(f.pages[c], slot)
    requires f.pages[c].isLeaf ==> slot + 1 < |f.pages[c].entries|
    ensures Filled(SplitAt(f, q, c, slot, sep, n))
  {
    SplitCounts(f, q, i, c, slot, sep, n);
    SplitFrame(f, q, i, c, slot, sep, n);
    hide Less, Common, Page.Covers, Page.Ok, SplitAt, Forest.Inv;
  }

  lemma {:induction false} MergeFills(f: Forest, q: PID, slot: nat, c: PID, r: PID)
    requires CanMerge(f, q, slot, c, r) && q in f.pages && c in f.pages && r in f.pages && Filled(f)
    ensures Filled(MergeAt(f, q, slot, c, r))
  {
    MergeFrame(f, q, slot, c, r);
    hide Less, Common, Page.Covers, Page.Ok, MergeAt, Forest.Inv;
  }

  /** m counts a page of level i. */
  ghost predicate Counted(f: Forest, m: map<PID, nat>, i: nat) {
    exists p :: p in m && m[p] > 0 && p in f.level && f.level[p] == i
  }

  lemma {:induction false} LevelsCount(f: Forest, m: map<PID, nat>, levels: nat)
    requires forall i :: 0 < i <= levels ==> Counted(f, m, i)
    ensures levels <= Sum(m)
  {
    if levels > 0 {
      assert Counted(f, m, levels);
      var p :| p in m && m[p] > 0 && p in f.level && f.level[p] == levels;
      SumRemove(m, p);
      forall i | 0 < i <= levels - 1
        ensures Counted(f, m - {p}, i)
      {
        assert Counted(f, m, i);
        var x :| x in m && m[x] > 0 && x in f.level && f.level[x] == i;
        assert x in m - {p};
      }
      LevelsCount(f, m - {p}, levels - 1);
    }
  }

  /** A tree is no higher than its surplus: each inner level has an entry at its left edge. */
  lemma {:induction false} HeightBound(f: Forest)
    requires f.Inv() && Filled(f)
    ensures f.level[f.root] <= Surplus(f)
  {
    forall i | 0 < i <= f.level[f.root]
      ensures Counted(f, Excesses(f), i)
    {
      var p := OnePagePerLevel(f, i, []);
      assert f.Live(p) && f.level[p] == i && f.pages[p].Covers([]);
      assert f.pages[p].lower == [] && !f.pages[p].isLeaf && FilledPage(f.pages[p]);
      assert Excesses(f)[p] > 0;
    }
    LevelsCount(f, Excesses(f), f.level[f.root]);
  }

  // ---------------------------------------------------------------------- legal sizes

  ghost predicate AllSized(f: Forest) {
    forall p :: f.Live(p) ==> Sized(f.pages[p])
  }

  lemma {:induction false} InsertSized(p: Page, k: Key, v: Value)
    requires Sized(p) && |k| + (if p.isLeaf then v.Size() else 0) <= MAX_KV_SIZE
    ensures Sized(p.Insert(k, v))
  {
    hide LowerBound;
    var r, s := p.Insert(k, v), p.Pos(k);
    assert forall i :: 0 <= i < |r.entries| ==> r.entries[i] == Entry(k, v) || r.entries[i] in p.entries;
  }

  lemma {:induction false} AddSeparatorSized(q: Page, sep: Key, left: PID, newPid: PID)
    requires q.InnerShape() && Sized(q) && |sep| <= MAX_KV_SIZE
    ensures Sized(q.AddSeparator(sep, left, newPid))
  {
    hide LowerBound;
    InsertSized(q.SetKid(q.Pos(sep), newPid), sep, Child(left));
  }

  lemma {:induction false} HalvesSized(p: Page, slot: nat, sep: Key, n: PID)
    requires Sized(p) && |sep| <= MAX_KV_SIZE && slot < |p.entries| && (!p.isLeaf ==> p.InnerShape())
    ensures Sized(p.SplitLeft(slot, sep, n)) && Sized(p.SplitRight(slot, sep))
  {
  }

  lemma {:induction false} SplitSized(f: Forest, q: PID, i: nat, c: PID, slot: nat, sep: Key, n: PID)
    requires CanSplit(f, q, i, c, slot, sep, n) && AllSized(f) && |sep| <= MAX_KV_SIZE
    ensures AllSized(SplitAt(f, q, c, slot, sep, n))
  {
    assert Sized(f.pages[q]) && Sized(f.pages[c]);
    hide Less, Common, LowerBound, Page.Covers, Page.Ok, Sized;
    SplitFrame(f, q, i, c, slot, sep, n);
    AddSeparatorSized(f.pages[q], sep, c, n);
    HalvesSized(f.pages[c], slot, sep, n);
    assert SplitAt(f, q, c, slot, sep, n).pages[q] == f.pages[q].AddSeparator(sep, c, n);
    hide CanSplit, Page.AddSeparator, SplitAt, Page.SplitLeft, Page.SplitRight;
  }

  // ---------------------------------------------------------------------- keys of similar length always fit

  /** Every page fits, and all records' keys are at most maxLen long, with little difference between them. */
  ghost predicate Compact(f: Forest, maxLen: nat) {
    forall p :: f.Live(p) ==> CompactPage(f.pages[p], maxLen)
  }

  ghost predicate CompactPage(p: Page, maxLen: nat) {
    p.Fits() && (p.isLeaf ==> forall i :: 0 <= i < |p.entries| ==> Even(p.entries[i], maxLen))
  }

  /** An insertion uses exactly the space hasSpaceFor asks for. */
  lemma {:induction false} InsertSpace(p: Page, k: Key, v: Value)
    ensures p.Insert(k, v).FreeAfterCompaction() == p.FreeAfterCompaction() - p.SpaceNeeded(|k|, v.Size())
  {
    hide Less, Common, LowerBound;
    var r, s := p.Insert(k, v), p.Pos(k);
    assert r.entries[..s] == p.entries[..s] && r.entries[s + 1..] == p.entries[s..];
    StoredAround(r.entries, s, p.PrefixLen());
    StoredConcat(p.entries[..s], p.entries[s..], p.PrefixLen());
    assert p.entries[..s] + p.entries[s..] == p.entries;
  }

  /** So hasSpaceFor says exactly whether the page fits with the pair. */
  lemma {:induction false} SpaceIsRoom(p: Page, k: Key, v: Value)
    ensures p.HasSpaceFor(|k|, v.Size()) <==> p.Insert(k, v).Fits()
  {
    InsertSpace(p, k, v);
    hide Page.FreeAfterCompaction, Page.SpaceNeeded, Page.Insert;
  }

  /** A removal gives back the bytes of the suffix and the payload, and the slot. */
  lemma {:induction false} RemoveSpace(p: Page, slot: nat)
    requires p.Ok() && slot < |p.entries|
    ensures p.RemoveAt(slot).FreeAfterCompaction() ==
            p.FreeAfterCompaction() + |p.Suffix(slot)| + p.entries[slot].val.Size() + SLOT_SIZE
  {
    hide Less, Common, Page.Covers, Page.Ok;
    EntriesCarryPrefix(p);
    StoredAround(p.entries, slot, p.PrefixLen());
    StoredConcat(p.entries[..slot], p.entries[slot + 1..], p.PrefixLen());
  }

  lemma {:induction false} InsertCompact(p: Page, k: Key, v: Value, maxLen: nat)
    requires CompactPage(p, maxLen) && p.HasSpaceFor(|k|, v.Size()) && (p.isLeaf ==> Even(Entry(k, v), maxLen))
    ensures CompactPage(p.Insert(k, v), maxLen)
  {
    InsertSpace(p, k, v);
    hide Less, Common, LowerBound, Page.FreeAfterCompaction, Page.SpaceNeeded;
    var r, s := p.Insert(k, v), p.Pos(k);
    assert forall i :: 0 <= i < |r.entries| ==> r.entries[i] == Entry(k, v) || r.entries[i] in p.entries;
  }

  lemma {:induction false} SetKidSpace(p: Page, i: nat, pid: PID)
    requires p.InnerShape() && i <= |p.entries|
    ensures p.SetKid(i, pid).FreeAfterCompaction() == p.FreeAfterCompaction()
  {
    hide Common;
    if i < |p.entries| {
      var r := p.SetKid(i, pid);
      StoredAround(p.entries, i, p.PrefixLen());
      StoredAround(r.entries, i, p.PrefixLen());
      assert r.entries[..i] == p.entries[..i] && r.entries[i + 1..] == p.entries[i + 1..];
    }
  }

  lemma {:induction false} RemoveCompact(p: Page, slot: nat, maxLen: nat)
    requires CompactPage(p, maxLen) && p.Ok() && slot < |p.entries|
    ensures CompactPage(p.RemoveAt(slot), maxLen)
  {
    hide Less, Common, Page.Covers, Page.Ok;
    var r := p.RemoveAt(slot);
    EntriesCarryPrefix(p);
    StoredAround(p.entries, slot, p.PrefixLen());
    StoredConcat(p.entries[..slot], p.entries[slot + 1..], p.PrefixLen());
    assert forall i :: 0 <= i < |r.entries| ==> r.entries[i] in p.entries;
  }

  lemma {:induction false} AddSeparatorCompact(q: Page, sep: Key, left: PID, newPid: PID, maxLen: nat)
    requires q.InnerShape() && CompactPage(q, maxLen) && q.HasSpaceFor(|sep|, PID_SIZE)
    ensures CompactPage(q.AddSeparator(sep, left, newPid), maxLen)
  {
    hide LowerBound, Common;
    SetKidSpace(q, q.Pos(sep), newPid);
    InsertCompact(q.SetKid(q.Pos(sep), newPid), sep, Child(left), maxLen);
  }

  lemma {:induction false} SplitPageCompact(p: Page, info: SeparatorInfo, n: PID, maxLen: nat)
    requires p.Ok() && p.Describes(info) && CompactPage(p, maxLen) && (!p.isLeaf ==> p.InnerShape())
    ensures CompactPage(p.SplitLeft(info.slot, p.Sep(info), n), maxLen)
    ensures CompactPage(p.SplitRight(info.slot, p.Sep(info)), maxLen)
  {
    hide Less, Common, Page.Covers, Page.Ok, Page.Sep, Page.FreeAfterCompaction, Page.SplitLeft, Page.SplitRight, Even;
    EvenSplitFits(p, info, n, maxLen);
    HalvesCompact(p, info.slot, p.Sep(info), n, maxLen);
  }

  /** A split of a tree whose keys have similar lengths never overflows a page. */
  lemma {:induction false} SplitCompact(f: Forest, q: PID, i: nat, c: PID, info: SeparatorInfo, n: PID, maxLen: nat)
    requires f.Live(c) && f.pages[c].Ok() && f.pages[c].Describes(info)
    requires CanSplit(f, q, i, c, info.slot, f.pages[c].Sep(info), n) && Compact(f, maxLen)
    requires f.pages[q].HasSpaceFor(info.len, PID_SIZE)
    ensures Compact(SplitAt(f, q, c, info.slot, f.pages[c].Sep(info), n), maxLen)
  {
    hide Less, Common, LowerBound, CompactPage, GoodSeparator, Page.FreeAfterCompaction, Page.SpaceNeeded,
         Page.Covers, Page.Ok, Page.AddSeparator, Page.SplitLeft, Page.SplitRight;
    var sep, p := f.pages[c].Sep(info), f.pages[c];
    hide Forest.Inv;
    OkShape(p);
    SeparatorSplits(p, info);
    SplitFrame(f, q, i, c, info.slot, sep, n);
    SplitPageCompact(p, info, n, maxLen);
    AddSeparatorCompact(f.pages[q], sep, c, n, maxLen);
    assert SplitAt(f, q, c, info.slot, sep, n).pages[q] == f.pages[q].AddSeparator(sep, c, n);
    hide CanSplit, SplitAt, Page.Sep, Page.Describes;
    OtherPagesCompact(f, SplitAt(f, q, c, info.slot, sep, n), q, c, n, maxLen);
  }

  lemma {:induction false} OkShape(p: Page)
    requires p.Ok()
    ensures p.isLeaf || p.InnerShape()
  {
  }

  lemma {:induction false} OtherPagesCompact(f: Forest, g: Forest, q: PID, c: PID, n: PID, maxLen: nat)
    requires Compact(f, maxLen) && (forall x :: g.Live(x) <==> f.Live(x) || x == n)
    requires g.Live(c) && g.Live(q) && g.Live(n)
    requires forall x :: f.Live(x) && g.Live(x) && x != c && x != q ==> g.pages[x] == f.pages[x]
    requires CompactPage(g.pages[q], maxLen) && CompactPage(g.pages[c], maxLen) && CompactPage(g.pages[n], maxLen)
    ensures Compact(g, maxLen)
  {
    hide CompactPage;
  }

  lemma {:induction false} HalvesCompact(p: Page, slot: nat, sep: Key, n: PID, maxLen: nat)
    requires CompactPage(p, maxLen) && slot < |p.entries| && (!p.isLeaf ==> p.InnerShape())
    requires p.SplitLeft(slot, sep, n).Fits() && p.SplitRight(slot, sep).Fits()
    ensures CompactPage(p.SplitLeft(slot, sep, n), maxLen) && CompactPage(p.SplitRight(slot, sep), maxLen)
  {
    hide Page.Fits;
  }

  // ---------------------------------------------------------------------- merges keep sizes

  lemma {:induction false} DropSeparatorSized(q: Page, slot: nat, left: PID)
    requires q.InnerShape() && slot + 1 < |q.entries| && Sized(q)
    ensures Sized(q.DropSeparator(slot, left))
  {
    assert Sized(q.SetKid(slot + 1, left));
    RemoveSized(q.SetKid(slot + 1, left), slot);
  }

  lemma {:induction false} RemoveSized(p: Page, slot: nat)
    requires slot < |p.entries| && Sized(p)
    ensures Sized(p.RemoveAt(slot))
  {
  }

  lemma {:induction false} MergeSized(l: Page, r: Page)
    requires Sized(l) && Sized(r) && l.isLeaf == r.isLeaf
    ensures Sized(l.Merge(r))
  {
  }

  lemma {:induction false} MergedPagesSized(f: Forest, q: PID, slot: nat, c: PID, r: PID)
    requires CanMerge(f, q, slot, c, r) && AllSized(f)
    ensures AllSized(MergeAt(f, q, slot, c, r))
  {
    assert f.pages[q].InnerShape() && slot + 1 < |f.pages[q].entries|;
    hide CanMerge, Page.Ok, Forest.KidOk, MergeAt, Sized, Page.Merge, Page.DropSeparator;
    MergeFrame(f, q, slot, c, r);
    assert f.Live(c) && f.Live(r) && f.Live(q);
    MergeSized(f.pages[c], f.pages[r]);
    DropSeparatorSized(f.pages[q], slot, c);
  }

  lemma {:induction false} DropSeparatorCompact(q: Page, slot: nat, left: PID, maxLen: nat)
    requires q.Ok() && q.InnerShape() && slot + 1 < |q.entries| && CompactPage(q, maxLen)
    ensures CompactPage(q.DropSeparator(slot, left), maxLen)
  {
    SetKidSpace(q, slot + 1, left);
    SetKidKeeps(q, slot + 1, left);
    hide Page.Ok, Common, Less;
    RemoveCompact(q.SetKid(slot + 1, left), slot, maxLen);
  }

  lemma {:induction false} MergedPagesCompact(f: Forest, q: PID, slot: nat, c: PID, r: PID, maxLen: nat)
    requires CanMerge(f, q, slot, c, r) && c in f.pages && r in f.pages && f.pages[c].MergeFits(f.pages[r])
    requires Compact(f, maxLen)
    ensures Compact(MergeAt(f, q, slot, c, r), maxLen)
  {
    assert f.Live(q) && f.pages[q].InnerShape() && slot + 1 < |f.pages[q].entries|;
    hide CanMerge, CompactPage, Page.Ok, Page.MergeFits, Page.Merge, Page.DropSeparator, MergeAt;
    MergeFrame(f, q, slot, c, r);
    MergePageCompact(f.pages[c], f.pages[r], maxLen);
    DropSeparatorCompact(f.pages[q], slot, c, maxLen);
  }

  lemma {:induction false} MergePageCompact(l: Page, r: Page, maxLen: nat)
    requires CompactPage(l, maxLen) && CompactPage(r, maxLen) && l.isLeaf && r.isLeaf && l.MergeFits(r)
    ensures CompactPage(l.Merge(r), maxLen)
  {
    MergeFitsSound(l, r);
    hide Page.Fits, Page.MergeFits, Even;
  }
}
