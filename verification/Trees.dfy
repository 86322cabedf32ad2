/** The B-tree: lookups, inserts that split, removes that merge. Sequential; the meta-data page's root
    slot is the field root. */
module Trees {
  import opened Bytes
  import opened Pages
  import opened Splits
  import opened PageSpace
  import opened Forests
  import opened ForestSteps
  import opened LeafSteps
  import opened SplitMeasure

  /** i is the position of node among parent's children; the root hangs off the meta-data page. */
  ghost predicate IsParent(f: Forest, parent: PID, i: nat, node: PID) {
    if parent == METADATA_PAGE then node == f.root
    else
      && f.Live(parent) && f.pages[parent].InnerShape() && i <= |f.pages[parent].entries|
      && f.pages[parent].Kid(i) == node
  }

  ghost predicate ValidForest(f: Forest, contents: map<Key, seq<byte>>, allocCount: PID) {
    && f.Inv() && f.Holds(contents) && AllSized(f)
    && METADATA_PAGE !in f.pages
    && forall p :: p in f.pages ==> p < allocCount
  }

  // ---------------------------------------------------------------------- what the methods need of the steps

  lemma {:induction false} RootCovers(f: Forest, k: Key)
    requires f.Inv()
    ensures f.Live(f.root) && f.pages[f.root].Covers(k)
  {
  }

  lemma {:induction false} LeafKnows(f: Forest, contents: map<Key, seq<byte>>, p: PID, k: Key)
    requires f.Inv() && f.Holds(contents) && f.Live(p) && f.pages[p].isLeaf && f.pages[p].Covers(k)
    ensures f.pages[p].Found(k) <==> k in contents
    ensures k in contents ==> f.pages[p].entries[f.pages[p].Pos(k)].val == Record(contents[k])
  {
    hide Less, Common, Page.Covers, Page.Ok;
    assert Agrees(f.pages[p], contents);
    assert AgreesOn(f.pages[p], contents, k);
  }

  lemma {:induction false} FreshRoot(f: Forest, contents: map<Key, seq<byte>>, n: PID, b: nat, maxLen: nat)
    requires ValidForest(f, contents, n) && Filled(f) && n > METADATA_PAGE && Bounded(f, b)
    ensures var g := NewRoot(f, n);
      && ValidForest(g, contents, n + 1) && FilledBut(g, n)
      && Bounded(g, b) && g.level[n] <= b && Measure(g, b) == Measure(f, b)
      && (Compact(f, maxLen) ==> Compact(g, maxLen))
      && (forall p :: f.Live(p) ==> g.Live(p) && g.pages[p] == f.pages[p] && g.level[p] == f.level[p])
  {
    NewRootValid(f, contents, n);
    assert f.Inv() && f.Rooted() && f.root in f.level && n !in f.pages && AllSized(f);
    hide *;
    HeightBound(f);
    NewRootPages(f, n, maxLen);
    NewRootSums(f, n, b);
    StaysBounded(f, NewRoot(f, n), n, b);
  }

  lemma {:induction false} StaysBounded(f: Forest, g: Forest, n: PID, b: nat)
    requires Bounded(f, b) && Surplus(g) == Surplus(f) && f.root in f.level && n in g.level
    requires f.level[f.root] <= Surplus(f) && g.level[n] == f.level[f.root] + 1
    ensures Bounded(g, b) && g.level[n] <= b
  {
  }

  lemma {:induction false} NewRootValid(f: Forest, contents: map<Key, seq<byte>>, n: PID)
    requires ValidForest(f, contents, n) && n > METADATA_PAGE
    ensures ValidForest(NewRoot(f, n), contents, n + 1)
  {
    hide Forest.Inv, Forest.Holds, AllSized, NewRoot, Compact, Filled, FilledBut;
    TreeFacts(f, contents, n);
    NewRootPages(f, n, 0);
    NewRootKeeps(f, n, contents);
  }

  lemma {:induction false} NewRootPages(f: Forest, n: PID, maxLen: nat)
    requires f.root in f.level && n !in f.pages && AllSized(f)
    ensures var g := NewRoot(f, n);
      && AllSized(g) && g.pages.Keys == f.pages.Keys + {n} && n in g.level && g.level[n] == f.level[f.root] + 1
      && (Compact(f, maxLen) ==> Compact(g, maxLen)) && (Filled(f) ==> FilledBut(g, n))
      && (forall p :: f.Live(p) ==> g.Live(p) && g.pages[p] == f.pages[p] && g.level[p] == f.level[p])
  {
    var page := Page(false, [], [], [], To(f.root));
    assert Sized(page) && CompactPage(page, maxLen);
    hide CompactPage, Sized;
  }

  /** Everything insert knows when it splits child c of q at info. */
  ghost predicate SplitReady(f: Forest, contents: map<Key, seq<byte>>, q: PID, i: nat, c: PID, info: SeparatorInfo,
                             n: PID) {
    && ValidForest(f, contents, n) && n > METADATA_PAGE
    && q != METADATA_PAGE && IsParent(f, q, i, c)
    && f.Live(c) && f.pages[c].Describes(info)
    && f.pages[q].HasSpaceFor(info.len, PID_SIZE)
  }

  /** The chosen separator is a legal place to split. */
  lemma {:induction false} ReadyToSplit(f: Forest, contents: map<Key, seq<byte>>, q: PID, i: nat, c: PID,
                                        info: SeparatorInfo, n: PID)
    requires SplitReady(f, contents, q, i, c, info, n)
    ensures c in f.pages && q in f.pages && c in f.level && f.pages[c].Ok()
    ensures CanSplit(f, q, i, c, info.slot, f.pages[c].Sep(info), n)
    ensures |f.pages[c].Sep(info)| == info.len <= MAX_KV_SIZE
    ensures f.pages[q].InnerShape() && (!f.pages[c].isLeaf ==> f.pages[c].InnerShape())
    ensures info.slot + (if info.isTruncated then 1 else 0) < |f.pages[c].entries|
  {
    hide Less, Common, Page.Covers;
    assert Sized(f.pages[c]);
    SeparatorSplits(f.pages[c], info);
    SeparatorLength(f.pages[c], info);
    hide GoodSeparator, Page.Ok, Page.Sep;
  }

  lemma {:induction false} SplitPageIds(f: Forest, q: PID, i: nat, c: PID, slot: nat, sep: Key, n: PID)
    requires CanSplit(f, q, i, c, slot, sep, n)
    ensures SplitAt(f, q, c, slot, sep, n).pages.Keys == f.pages.Keys + {n}
  {
    hide Less, Common, Page.Covers, Page.Ok, GoodSeparator;
  }

  /** The forest after that split. */
  ghost function SplitResult(f: Forest, contents: map<Key, seq<byte>>, q: PID, i: nat, c: PID, info: SeparatorInfo,
                             n: PID): Forest
    requires SplitReady(f, contents, q, i, c, info, n)
  {
    ReadyToSplit(f, contents, q, i, c, info, n);
    SplitAt(f, q, c, info.slot, f.pages[c].Sep(info), n)
  }

  lemma {:induction false} SplitAtValid(f: Forest, contents: map<Key, seq<byte>>, q: PID, i: nat, c: PID,
                                        slot: nat, sep: Key, n: PID)
    requires ValidForest(f, contents, n) && n > METADATA_PAGE
    requires CanSplit(f, q, i, c, slot, sep, n) && |sep| <= MAX_KV_SIZE
    ensures ValidForest(SplitAt(f, q, c, slot, sep, n), contents, n + 1)
  {
    hide Page.Ok, CanSplit, SplitAt, Forest.Inv, Forest.Holds, AllSized;
    SplitKeeps(f, q, i, c, slot, sep, n, contents);
    SplitPageIds(f, q, i, c, slot, sep, n);
    SplitSized(f, q, i, c, slot, sep, n);
  }

  /** A split keeps the tree valid and its contents. */
  lemma {:induction false} SplitValid(f: Forest, contents: map<Key, seq<byte>>, q: PID, i: nat, c: PID,
                                      info: SeparatorInfo, n: PID)
    requires SplitReady(f, contents, q, i, c, info, n)
    ensures ValidForest(SplitResult(f, contents, q, i, c, info, n), contents, n + 1)
  {
    assert ValidForest(f, contents, n) && n > METADATA_PAGE;
    hide Page.Ok, CanSplit, SplitAt, ValidForest, Page.Sep, SplitReady;
    ReadyToSplit(f, contents, q, i, c, info, n);
    SplitAtValid(f, contents, q, i, c, info.slot, f.pages[c].Sep(info), n);
  }

  /** The measure of insert's termination goes down, and the bound on the height stays good. */
  ghost predicate Progress(f: Forest, g: Forest, b: nat) {
    Measure(g, b) < Measure(f, b) && Surplus(g) <= Surplus(f)
  }

  lemma {:induction false} SplitProgress(f: Forest, contents: map<Key, seq<byte>>, q: PID, i: nat, c: PID,
                                         info: SeparatorInfo, n: PID, b: nat)
    requires SplitReady(f, contents, q, i, c, info, n) && f.level[q] <= b
    ensures Progress(f, SplitResult(f, contents, q, i, c, info, n), b)
  {
    assert f.pages[c].Describes(info);
    hide SplitReady, Page.Ok, CanSplit, SplitAt, Page.Sep, Measure, Surplus;
    ReadyToSplit(f, contents, q, i, c, info, n);
    SplitDecreases(f, q, i, c, info.slot, f.pages[c].Sep(info), n, b);
  }

  lemma {:induction false} SplitStaysFilled(f: Forest, contents: map<Key, seq<byte>>, q: PID, i: nat, c: PID,
                                            info: SeparatorInfo, n: PID)
    requires SplitReady(f, contents, q, i, c, info, n) && FilledBut(f, q) && KeepsLeft(f.pages[c], info.slot)
    ensures Filled(SplitResult(f, contents, q, i, c, info, n))
  {
    assert f.pages[c].Describes(info);
    hide SplitReady, Page.Ok, CanSplit, SplitAt, Page.Sep, Filled, FilledBut, KeepsLeft;
    ReadyToSplit(f, contents, q, i, c, info, n);
    SplitFills(f, q, i, c, info.slot, f.pages[c].Sep(info), n);
  }

  lemma {:induction false} SplitStaysCompact(f: Forest, contents: map<Key, seq<byte>>, q: PID, i: nat, c: PID,
                                             info: SeparatorInfo, n: PID, maxLen: nat)
    requires SplitReady(f, contents, q, i, c, info, n) && Compact(f, maxLen)
    ensures Compact(SplitResult(f, contents, q, i, c, info, n), maxLen)
  {
    assert f.Live(c) && f.pages[c].Describes(info) && f.pages[q].HasSpaceFor(info.len, PID_SIZE);
    hide SplitReady, Page.Ok, CanSplit, SplitAt, Page.Sep, Compact, Page.HasSpaceFor, Page.Describes;
    ReadyToSplit(f, contents, q, i, c, info, n);
    SplitCompact(f, q, i, c, info, n, maxLen);
  }

  /** A page on the left edge that may be split is split behind its first entry. */
  lemma {:induction false} SeparatorKeepsLeft(p: Page, splitOrdered: bool)
    requires Splittable(p)
    ensures KeepsLeft(p, p.FindSeparator(splitOrdered).slot)
  {
    hide Page.BestSlot, Page.SuffixCommon, Page.Suffix;
  }

  /** Exactly one page was split: split lost entries, no other page did. */
  ghost predicate OneSplit(f: Forest, g: Forest, split: PID) {
    && f.Live(split) && g.Live(split)
    && |g.pages[split].entries| < |f.pages[split].entries|
    && (forall p :: f.Live(p) ==> g.Live(p) && g.level[p] == f.level[p])
    && (forall p :: f.Live(p) && p != split ==> g.Live(p) && |f.pages[p].entries| <= |g.pages[p].entries|)
  }

  /** The page split was split where findSeparator says. */
  ghost predicate AsChosen(f: Forest, g: Forest, split: PID, splitOrdered: bool) {
    && f.Live(split) && g.Live(split)
    && var p := f.pages[split];
    && |p.entries| > (if p.isLeaf then 1 else 0)
    && var info := p.FindSeparator(splitOrdered);
    && g.pages[split].lower == p.lower && g.pages[split].upper == p.Sep(info)
    && g.pages[split].entries == p.entries[..info.slot + if p.isLeaf then 1 else 0]
  }

  lemma {:induction false} ChosenSplit(f: Forest, f1: Forest, contents: map<Key, seq<byte>>, q: PID, j: nat, c: PID,
                                       info: SeparatorInfo, n: PID, splitOrdered: bool)
    requires SplitReady(f1, contents, q, j, c, info, n) && f.Live(c) && f.pages[c] == f1.pages[c]
    requires |f.pages[c].entries| > (if f.pages[c].isLeaf then 1 else 0)
    requires info == f.pages[c].FindSeparator(splitOrdered)
    ensures AsChosen(f, SplitResult(f1, contents, q, j, c, info, n), c, splitOrdered)
  {
    hide SplitReady, CanSplit, SplitAt, Page.Sep, Page.FindSeparator, Page.Ok, Page.Describes;
    ReadyToSplit(f1, contents, q, j, c, info, n);
    SplitFrame(f1, q, j, c, info.slot, f1.pages[c].Sep(info), n);
  }

  lemma {:induction false} SpreadIsOne(f: Forest, g: Forest, q: PID, c: PID, n: PID)
    requires Spread(f, g, q, c, n)
    ensures OneSplit(f, g, c)
  {
  }

  lemma {:induction false} SplitIsOne(f: Forest, contents: map<Key, seq<byte>>, q: PID, i: nat, c: PID,
                                      info: SeparatorInfo, n: PID)
    requires SplitReady(f, contents, q, i, c, info, n)
    ensures OneSplit(f, SplitResult(f, contents, q, i, c, info, n), c)
  {
    assert f.pages[c].Describes(info);
    hide SplitReady, CanSplit, Page.Sep, SplitAt, Page.Ok, Spread, OneSplit;
    ReadyToSplit(f, contents, q, i, c, info, n);
    SplitSpreads(f, q, i, c, info.slot, f.pages[c].Sep(info), n);
    SpreadIsOne(f, SplitResult(f, contents, q, i, c, info, n), q, c, n);
  }

  /** The search for key has reached node, child i of parent. */
  ghost predicate OnPath(f: Forest, parent: PID, i: nat, node: PID, key: Key) {
    && f.Live(node) && f.pages[node].Covers(key) && IsParent(f, parent, i, node)
    && (parent != METADATA_PAGE ==>
          f.Live(parent) && f.level[parent] == f.level[node] + 1 && i == f.pages[parent].Pos(key))
  }

  lemma {:induction false} TreeFacts(f: Forest, contents: map<Key, seq<byte>>, n: PID)
    requires ValidForest(f, contents, n)
    ensures f.Inv() && f.root in f.level && n !in f.pages
  {
    hide Forest.Holds, AllSized;
  }

  lemma {:induction false} PathFacts(f: Forest, contents: map<Key, seq<byte>>, n: PID, parent: PID, i: nat, node: PID,
                                     key: Key)
    requires ValidForest(f, contents, n) && OnPath(f, parent, i, node, key)
    ensures f.Inv() && f.Live(node) && node in f.pages && f.pages[node].Ok()
    ensures parent != METADATA_PAGE ==>
              f.Live(parent) && parent in f.pages && f.pages[parent].InnerShape() && parent != node
  {
    assert f.Shaped() && f.pages[node].Ok();
    hide Page.Ok;
    hide Page.Covers, Forest.Inv, Forest.Holds, AllSized;
  }

  lemma {:induction false} PathStart(f: Forest, key: Key)
    requires f.Inv()
    ensures OnPath(f, METADATA_PAGE, 0, f.root, key)
  {
    RootCovers(f, key);
  }

  lemma {:induction false} PathStep(f: Forest, parent: PID, i: nat, node: PID, key: Key)
    requires f.Inv() && METADATA_PAGE !in f.pages && OnPath(f, parent, i, node, key) && !f.pages[node].isLeaf
    ensures f.pages[node].InnerShape()
    ensures OnPath(f, node, f.pages[node].Pos(key), f.pages[node].LookupInner(key), key)
    ensures f.level[f.pages[node].LookupInner(key)] < f.level[node]
  {
    RouteDown(f, node, key);
    hide Less, Common, Page.Covers, Page.Ok;
  }

  /** On the way down, a page above the level of target is not target's last chance to be met. */
  lemma {:induction false} PathMeets(f: Forest, parent: PID, i: nat, node: PID, target: PID, key: Key)
    requires f.Inv() && OnPath(f, parent, i, node, key)
    requires f.Live(target) && f.pages[target].Covers(key) && f.level[target] <= f.level[node]
    ensures node != target ==> f.level[target] < f.level[node]
    ensures f.pages[node].isLeaf ==> f.pages[target].isLeaf
  {
    hide Less, Common, Page.Covers, Page.Ok;
    if f.level[target] == f.level[node] { SamePageOnLevel(f, node, target, key); }
  }

  /** trySplit's state f1 once page c has a parent page q: f itself, or f under a new root. */
  ghost predicate Staged(f: Forest, f1: Forest, contents: map<Key, seq<byte>>, q: PID, j: nat, c: PID, n: PID, b: nat,
                         maxLen: nat) {
    && ValidForest(f1, contents, n) && n > METADATA_PAGE
    && q != METADATA_PAGE && IsParent(f1, q, j, c) && f1.Live(c)
    && Prepared(f, f1, q, b) && FilledBut(f1, q)
    && SameLive(f, f1)
    && (Compact(f, maxLen) ==> Compact(f1, maxLen))
  }

  ghost predicate Prepared(f: Forest, f1: Forest, q: PID, b: nat) {
    && Measure(f1, b) == Measure(f, b) && Bounded(f1, b)
    && f1.Live(q) && f1.level[q] <= b
    && (f1 == f || f1.pages[q].entries == [])
  }

  ghost predicate SameLive(f: Forest, f1: Forest) {
    forall p :: f.Live(p) ==> f1.Live(p) && f1.pages[p] == f.pages[p] && f1.level[p] == f.level[p]
  }

  lemma {:induction false} StagedUnderRoot(f: Forest, contents: map<Key, seq<byte>>, n: PID, b: nat, maxLen: nat)
    requires ValidForest(f, contents, n) && Filled(f) && n > METADATA_PAGE && Bounded(f, b)
    ensures Staged(f, NewRoot(f, n), contents, n, 0, f.root, n + 1, b, maxLen)
  {
    hide Compact, Measure, Surplus, ValidForest, Filled, FilledBut;
    var g := NewRoot(f, n);
    FreshRoot(f, contents, n, b, maxLen);
    TreeFacts(f, contents, n);
    assert g.Live(f.root) && IsParent(g, n, 0, f.root) && g.pages[n].entries == [];
    hide NewRoot, IsParent, Bounded;
  }

  lemma {:induction false} StagedInPlace(f: Forest, contents: map<Key, seq<byte>>, q: PID, j: nat, c: PID, n: PID,
                                         b: nat, maxLen: nat)
    requires ValidForest(f, contents, n) && Filled(f) && n > METADATA_PAGE && Bounded(f, b)
    requires q != METADATA_PAGE && IsParent(f, q, j, c) && f.Live(c)
    ensures Staged(f, f, contents, q, j, c, n, b, maxLen)
  {
    HeightBound(f);
    assert f.level[q] <= f.level[f.root];
    hide Forest.Holds, AllSized, Compact, Measure, Surplus, Forest.Tiled, Forest.Disjoint, Forest.Chained,
      Forest.Shaped;
  }

  /** The outcome of a split, for insert. */
  ghost predicate Advanced(f: Forest, g: Forest, contents: map<Key, seq<byte>>, n: PID, split: PID, b: nat,
                           maxLen: nat) {
    && ValidForest(g, contents, n) && Filled(g) && n > METADATA_PAGE
    && Bounded(g, b) && Measure(g, b) < Measure(f, b)
    && OneSplit(f, g, split)
    && (Compact(f, maxLen) ==> Compact(g, maxLen))
  }

  lemma {:induction false} PreparedProgress(f: Forest, f1: Forest, g: Forest, q: PID, b: nat)
    requires Prepared(f, f1, q, b) && Progress(f1, g, b)
    ensures Bounded(g, b) && Measure(g, b) < Measure(f, b)
  {
    hide Measure, Surplus;
  }

  lemma {:induction false} SameLiveOneSplit(f: Forest, f1: Forest, g: Forest, c: PID)
    requires SameLive(f, f1) && OneSplit(f1, g, c) && f.Live(c)
    ensures OneSplit(f, g, c)
  {
  }

  lemma {:induction false} StagedSplit(f: Forest, f1: Forest, contents: map<Key, seq<byte>>, q: PID, j: nat, c: PID,
                                       info: SeparatorInfo, n: PID, b: nat, maxLen: nat)
    requires Staged(f, f1, contents, q, j, c, n, b, maxLen) && f.Live(c)
    requires f1.pages[c].Describes(info) && f1.pages[q].HasSpaceFor(info.len, PID_SIZE)
    requires KeepsLeft(f1.pages[c], info.slot)
    ensures SplitReady(f1, contents, q, j, c, info, n)
    ensures Advanced(f, SplitResult(f1, contents, q, j, c, info, n), contents, n + 1, c, b, maxLen)
  {
    assert SplitReady(f1, contents, q, j, c, info, n) && f1.level[q] <= b;
    var g := SplitResult(f1, contents, q, j, c, info, n);
    assert FilledBut(f1, q) && SameLive(f, f1) && Prepared(f, f1, q, b) && (Compact(f, maxLen) ==> Compact(f1, maxLen));
    hide *;
    SplitValid(f1, contents, q, j, c, info, n);
    SplitProgress(f1, contents, q, j, c, info, n, b);
    SplitIsOne(f1, contents, q, j, c, info, n);
    SplitStaysFilled(f1, contents, q, j, c, info, n);
    PreparedProgress(f, f1, g, q, b);
    SameLiveOneSplit(f, f1, g, c);
    if Compact(f1, maxLen) { SplitStaysCompact(f1, contents, q, j, c, info, n, maxLen); }
    AdvancedIf(f, g, contents, n + 1, c, b, maxLen);
  }

  lemma {:induction false} AdvancedIf(f: Forest, g: Forest, contents: map<Key, seq<byte>>, n: PID, split: PID, b: nat,
                                      maxLen: nat)
    requires ValidForest(g, contents, n) && Filled(g) && n > METADATA_PAGE
    requires Bounded(g, b) && Measure(g, b) < Measure(f, b)
    requires OneSplit(f, g, split)
    requires Compact(f, maxLen) ==> Compact(g, maxLen)
    ensures Advanced(f, g, contents, n, split, b, maxLen)
  {
    hide ValidForest, Filled, Bounded, Measure, OneSplit, Compact;
  }

  /** If the parent has no room for the separator, it is not a new root, and it has entries to split. */
  lemma {:induction false} StagedRefused(f: Forest, f1: Forest, contents: map<Key, seq<byte>>, q: PID, j: nat, c: PID,
                                         info: SeparatorInfo, n: PID, b: nat, maxLen: nat)
    requires Staged(f, f1, contents, q, j, c, n, b, maxLen)
    requires f1.pages[c].Describes(info) && !f1.pages[q].HasSpaceFor(info.len, PID_SIZE)
    ensures f1 == f && Filled(f) && Bounded(f, b) && f1.Live(q) && !f1.pages[q].isLeaf
    ensures f.Inv() && q != METADATA_PAGE && IsParent(f, q, j, c) && f.Live(c)
    ensures |f1.pages[c].Sep(info)| == info.len <= MAX_KV_SIZE
  {
    assert f1.pages[c].Ok() && f1.pages[q].Ok() && Sized(f1.pages[c]) && Sized(f1.pages[q]);
    SeparatorSplits(f1.pages[c], info);
    SeparatorLength(f1.pages[c], info);
    hide Page.Ok, Forest.Holds, Forest.Tiled, Forest.Disjoint, Forest.Chained, Forest.Shaped, Measure, Surplus,
      Page.HasSpaceFor;
    RefusalMeansSplittable(f1.pages[q], info.len, PID_SIZE);
  }

  /** A parent covers whatever its child covers. */
  lemma {:induction false} ParentCovers(f: Forest, q: PID, j: nat, c: PID, k: Key)
    requires f.Inv() && f.Live(q) && q != METADATA_PAGE && IsParent(f, q, j, c) && f.Live(c) && f.pages[c].Covers(k)
    ensures f.pages[q].Covers(k) && f.level[q] == f.level[c] + 1
  {
    hide Less, Common;
    assert f.KidsOk(q) && f.KidOk(q, j, c);
    KidRange(f.pages[q], j, k);
  }

  lemma {:induction false} SepCovered(f: Forest, q: PID, j: nat, c: PID, info: SeparatorInfo)
    requires f.Inv() && f.Live(q) && q != METADATA_PAGE && IsParent(f, q, j, c) && f.Live(c)
    requires f.pages[c].Describes(info)
    ensures f.pages[q].Covers(f.pages[c].Sep(info)) && f.level[q] == f.level[c] + 1
    ensures forall k :: f.pages[c].Covers(k) ==> f.pages[q].Covers(k)
  {
    SeparatorSplits(f.pages[c], info);
    LessTotal(f.pages[c].Sep(info), f.pages[c].upper);
    hide Less, Common, Forest.Inv, Page.Ok, Page.Sep;
    ParentCovers(f, q, j, c, f.pages[c].Sep(info));
    forall k | f.pages[c].Covers(k)
      ensures f.pages[q].Covers(k)
    {
      ParentCovers(f, q, j, c, k);
    }
  }

  lemma {:induction false} WithPageValid(f: Forest, n: PID, p: PID, page: Page, contents: map<Key, seq<byte>>,
                                         contents': map<Key, seq<byte>>)
    requires ValidForest(f, contents, n) && f.Live(p) && Sized(page)
    requires WithPage(f, p, page).Inv() && WithPage(f, p, page).Holds(contents')
    ensures ValidForest(WithPage(f, p, page), contents', n)
  {
    hide Forest.Inv, Forest.Holds, Sized;
  }

  lemma {:induction false} WithPageCompact(f: Forest, p: PID, page: Page, maxLen: nat)
    requires f.Live(p) && (CompactPage(f.pages[p], maxLen) ==> CompactPage(page, maxLen))
    ensures Compact(f, maxLen) ==> Compact(WithPage(f, p, page), maxLen)
  {
    hide CompactPage;
  }

  lemma {:induction false} WithLeafFilled(f: Forest, p: PID, page: Page)
    requires f.Live(p) && page.isLeaf
    ensures Filled(f) ==> Filled(WithPage(f, p, page))
  {
  }

  /** Storing a record keeps the tree valid. */
  lemma {:induction false} StoreValid(f: Forest, contents: map<Key, seq<byte>>, n: PID, p: PID, k: Key,
                                      bytes: seq<byte>,
                                      maxLen: nat)
    requires ValidForest(f, contents, n) && f.Live(p) && f.pages[p].isLeaf && f.pages[p].Covers(k)
    requires k != [] && k !in contents && |k| + |bytes| <= MAX_KV_SIZE
    requires f.pages[p].HasSpaceFor(|k|, |bytes|)
    ensures var g := WithPage(f, p, f.pages[p].Insert(k, Record(bytes)));
      && ValidForest(g, contents[k := bytes], n) && (Filled(f) ==> Filled(g))
      && (Compact(f, maxLen) && Even(Entry(k, Record(bytes)), maxLen) ==> Compact(g, maxLen))
  {
    var page := f.pages[p];
    assert Sized(page) && f.Inv() && f.Holds(contents) && Record(bytes).Size() == |bytes|
        && page.Insert(k, Record(bytes)).isLeaf;
    hide *;
    InsertSized(page, k, Record(bytes));
    StoreKeeps(f, p, k, bytes, contents);
    WithPageValid(f, n, p, page.Insert(k, Record(bytes)), contents, contents[k := bytes]);
    WithLeafFilled(f, p, page.Insert(k, Record(bytes)));
    if Even(Entry(k, Record(bytes)), maxLen) {
      if CompactPage(page, maxLen) { InsertCompact(page, k, Record(bytes), maxLen); }
      WithPageCompact(f, p, page.Insert(k, Record(bytes)), maxLen);
    }
  }

  /** Removing a record keeps the tree valid. */
  lemma {:induction false} RemoveValid(f: Forest, contents: map<Key, seq<byte>>, n: PID, p: PID, slot: nat, maxLen: nat)
    requires ValidForest(f, contents, n) && f.Live(p) && f.pages[p].isLeaf && slot < |f.pages[p].entries|
    ensures var g := WithPage(f, p, f.pages[p].RemoveAt(slot));
      && ValidForest(g, contents - {f.pages[p].entries[slot].key}, n) && (Filled(f) ==> Filled(g))
      && (Compact(f, maxLen) ==> Compact(g, maxLen))
  {
    var page := f.pages[p];
    assert Sized(page) && f.Inv() && f.Holds(contents) && page.Ok() && page.RemoveAt(slot).isLeaf;
    hide *;
    RemoveSized(page, slot);
    RemoveKeeps(f, p, slot, contents);
    WithPageValid(f, n, p, page.RemoveAt(slot), contents, contents - {page.entries[slot].key});
    WithLeafFilled(f, p, page.RemoveAt(slot));
    if CompactPage(page, maxLen) { RemoveCompact(page, slot, maxLen); }
    WithPageCompact(f, p, page.RemoveAt(slot), maxLen);
  }

  lemma {:induction false} RefusingPage(f: Forest, contents: map<Key, seq<byte>>, n: PID, p: PID, keyLen: nat,
                                        payloadLen: nat)
    requires ValidForest(f, contents, n) && f.Live(p) && keyLen <= MAX_KV_SIZE
    requires !f.pages[p].HasSpaceFor(keyLen, payloadLen)
    requires keyLen + payloadLen <= MAX_KV_SIZE + if f.pages[p].isLeaf then 0 else PID_SIZE
    ensures Splittable(f.pages[p])
  {
    hide Page.HasSpaceFor, Page.Ok, Forest.Holds, Forest.Tiled, Forest.Disjoint, Forest.Chained;
    assert Sized(f.pages[p]) && f.pages[p].Ok();
    RefusalMeansSplittable(f.pages[p], keyLen, payloadLen);
  }

  /** The leaf found by a descent, once a record is gone, may absorb its right neighbour under the parent. */
  lemma {:induction false} MergeReady(f: Forest, q: PID, pos: nat, c: PID, key: Key, page: Page)
    requires f.Inv() && OnPath(f, q, pos, c, key) && f.pages[c].isLeaf && q != METADATA_PAGE
    requires pos + 1 < |f.pages[q].entries| && WithPage(f, c, page).Inv()
    ensures f.pages[q].InnerShape() && WithPage(f, c, page).Live(q) && WithPage(f, c, page).pages[q] == f.pages[q]
    ensures CanMerge(WithPage(f, c, page), q, pos, c, f.pages[q].Kid(pos + 1))
    ensures WithPage(f, c, page).Live(c) && WithPage(f, c, page).pages[c] == page
  {
    hide Less, Common, Page.Covers;
    assert f.pages[q].Ok() && f.level[c] == 0;
  }

  /** What the test for underfull leaves says about the leaf afterwards. */
  lemma {:induction false} NotUnderfull(f: Forest, q: PID, pos: nat, c: PID, slot: nat, underfull: bool)
    requires f.Live(c) && f.pages[c].Ok() && slot < |f.pages[c].entries| && (q != METADATA_PAGE ==> f.Live(q) && q != c)
    requires underfull <==>
      && f.pages[c].FreeAfterCompaction() + (|f.pages[c].Suffix(slot)| + f.pages[c].entries[slot].val.Size())
         >= UNDER_FULL_SIZE
      && q != METADATA_PAGE && |f.pages[q].entries| >= 2 && pos + 1 < |f.pages[q].entries|
    ensures var page := f.pages[c].RemoveAt(slot); var g := WithPage(f, c, page);
      && (underfull ==> page.FreeAfterCompaction() >= UNDER_FULL_SIZE + SLOT_SIZE)
      && (!underfull ==> !Joins(g, q, pos, c))
  {
    RemoveSpace(f.pages[c], slot);
    hide Page.Ok, Page.FreeAfterCompaction, Page.RemoveAt, Page.Suffix, Page.InnerShape;
  }

  lemma {:induction false} UnderfullJoins(f: Forest, q: PID, pos: nat, c: PID)
    requires q != METADATA_PAGE && f.Live(q) && f.pages[q].InnerShape() && pos + 1 < |f.pages[q].entries|
    requires CanMerge(f, q, pos, c, f.pages[q].Kid(pos + 1))
    requires f.Live(c) && f.pages[c].FreeAfterCompaction() >= UNDER_FULL_SIZE + SLOT_SIZE
    ensures f.pages[q].Kid(pos + 1) in f.pages
    ensures Joins(f, q, pos, c) <==>
      var l, r := f.pages[c], f.pages[f.pages[q].Kid(pos + 1)];
      r.FreeAfterCompaction() >= PAGE_SIZE - UNDER_FULL_SIZE && l.MergeFits(r)
  {
    var r := f.pages[q].Kid(pos + 1);
    assert r in f.pages by { MergePages(f, q, pos, c, r); }
    hide CanMerge, Page.FreeAfterCompaction, Page.MergeFits, Page.Merge;
    MergeFitsIs(f.pages[c], f.pages[r]);
  }

  lemma {:induction false} MergePages(f: Forest, q: PID, slot: nat, c: PID, r: PID)
    requires CanMerge(f, q, slot, c, r)
    ensures q in f.pages && c in f.pages && r in f.pages && q != c
    ensures f.pages[q].InnerShape() && slot + 1 < |f.pages[q].entries|
  {
    MergeFrame(f, q, slot, c, r);
    hide Page.Ok, Forest.Inv;
  }

  /** Merging two leaves keeps the tree valid and its contents. */
  lemma {:induction false} MergeValid(f: Forest, contents: map<Key, seq<byte>>, n: PID, q: PID, slot: nat, c: PID,
                                      r: PID, maxLen: nat)
    requires ValidForest(f, contents, n) && CanMerge(f, q, slot, c, r)
    requires c in f.pages && r in f.pages && f.pages[c].MergeFits(f.pages[r])
    ensures ValidForest(MergeAt(f, q, slot, c, r), contents, n) && (Filled(f) ==> Filled(MergeAt(f, q, slot, c, r)))
    ensures Compact(f, maxLen) ==> Compact(MergeAt(f, q, slot, c, r), maxLen)
  {
    assert MergeAt(f, q, slot, c, r).pages.Keys == f.pages.Keys;
    hide Forest.Inv, Forest.Holds, CanMerge, MergeAt, Page.MergeFits, AllSized, Compact, Filled;
    if Filled(f) { MergeFills(f, q, slot, c, r); }
    MergeKeeps(f, q, slot, c, r, contents);
    MergedPagesSized(f, q, slot, c, r);
    if Compact(f, maxLen) { MergedPagesCompact(f, q, slot, c, r, maxLen); }
  }

  /** After a removal from the leaf c, child pos of q, the leaf has so little left that it absorbs its right neighbour:
      both are emptier than a bound, and the merged leaf fits with the two fences that go. */
  ghost predicate Joins(f: Forest, q: PID, pos: nat, c: PID) {
    && q != METADATA_PAGE && CanMergeAt(f, q, pos, c)
    && var l, r := f.pages[c], f.pages[f.pages[q].Kid(pos + 1)];
    && l.FreeAfterCompaction() >= UNDER_FULL_SIZE + SLOT_SIZE
    && r.FreeAfterCompaction() >= PAGE_SIZE - UNDER_FULL_SIZE
    && l.Merge(r).FreeAfterCompaction() >= |l.upper| + |r.lower|
  }

  /** Both leaves have separators in the same parent. */
  ghost predicate CanMergeAt(f: Forest, q: PID, pos: nat, c: PID) {
    && f.Live(q) && f.pages[q].InnerShape() && pos + 1 < |f.pages[q].entries| && f.Live(c)
    && f.pages[q].Kid(pos + 1) in f.pages
  }

  /** The record at slot has left the leaf c, and the leaf has absorbed its right neighbour if it Joins it. */
  ghost predicate TookRecord(f: Forest, g: Forest, q: PID, pos: nat, c: PID, slot: nat) {
    && f.Live(c) && slot < |f.pages[c].entries|
    && var f1 := WithPage(f, c, f.pages[c].RemoveAt(slot));
    && g == if Joins(f1, q, pos, c) then MergeAt(f1, q, pos, c, f1.pages[q].Kid(pos + 1)) else f1
  }

  /** Where the search for key ends, its record has gone. */
  ghost predicate Took(f: Forest, g: Forest, key: Key) {
    exists q, pos, c ::
      OnPath(f, q, pos, c, key) && f.pages[c].isLeaf && TookRecord(f, g, q, pos, c, f.pages[c].Pos(key))
  }

  function Smaller(a: nat, b: nat): nat { if a < b then a else b }

  class BTree {
    var pages: map<PID, Page>
    var root: PID
    var allocCount: PID
    var splitOrdered: bool
    /** Heights of the live pages, and the map the tree stands for. */
    ghost var level: map<PID, nat>
    ghost var contents: map<Key, seq<byte>>

    ghost function F(): Forest
      reads this
    {
      Forest(pages, level, root)
    }

    ghost predicate Valid()
      reads this
    {
      ValidForest(F(), contents, allocCount) && Filled(F()) && allocCount > METADATA_PAGE
    }

    constructor (rootPid: PID)
      requires rootPid > METADATA_PAGE
      ensures Valid() && contents == map[] && !splitOrdered
      ensures forall maxLen :: Compact(F(), maxLen)
    {
      pages := map[rootPid := Page(true, [], [], [], NoNeighbour)];
      root := rootPid;
      allocCount := rootPid + 1;
      splitOrdered := false;
      level := map[rootPid := 0];
      contents := map[];
    }

    /** findLeafO and findLeafS. */
    method FindLeaf(key: Key) returns (leaf: PID)
      requires Valid()
      ensures F().Live(leaf) && pages[leaf].isLeaf && pages[leaf].Covers(key)
    {
      RootCovers(F(), key);
      hide Less, Common, Page.Covers, Page.Ok;
      leaf := root;
      while !pages[leaf].isLeaf
        invariant F().Live(leaf) && pages[leaf].Covers(key)
        decreases level[leaf]
      {
        RouteDown(F(), leaf, key);
        leaf := pages[leaf].LookupInner(key);
      }
    }

    /** Point lookup: the payload's length, or -1, and as much of the payload as the caller has room for. */
    method Lookup(key: Key, payloadOutSize: nat) returns (len: int, payloadOut: seq<byte>)
      requires Valid()
      ensures key in contents ==> len == |contents[key]|
      ensures key in contents ==> payloadOut == contents[key][..Smaller(|contents[key]|, payloadOutSize)]
      ensures key !in contents ==> len == -1
    {
      var leaf := FindLeaf(key);
      LeafKnows(F(), contents, leaf, key);
      var page := pages[leaf];
      if !page.Found(key) {
        return -1, [];
      }
      var payload := page.entries[page.Pos(key)].val.bytes;
      return |payload|, payload[..Smaller(|payload|, payloadOutSize)];
    }

    /** splitNode: page node, child i of parent, gives its upper half to a new page. */
    method SplitNode(parent: PID, ghost i: nat, node: PID, info: SeparatorInfo)
      requires SplitReady(F(), contents, parent, i, node, info, allocCount)
      modifies this`pages, this`level, this`allocCount
      ensures F() == old(SplitResult(F(), contents, parent, i, node, info, allocCount))
      ensures allocCount == old(allocCount) + 1
    {
      hide SplitReady, CanSplit, Page.Ok, Page.SplitLeft, Page.SplitRight, Page.AddSeparator, Page.Sep,
        Page.Describes, Page.InnerShape, Page.HasSpaceFor, ValidForest, IsParent;
      ghost var f := F();
      var newPid := allocCount;
      ReadyToSplit(f, contents, parent, i, node, info, newPid);
      var page, parentPage := pages[node], pages[parent];
      var sep := page.Sep(info);
      var left, right := page.SplitLeft(info.slot, sep, newPid), page.SplitRight(info.slot, sep);
      allocCount := allocCount + 1;
      parentPage := parentPage.AddSeparator(sep, node, newPid);
      pages := pages[node := left];
      pages := pages[newPid := right];
      pages := pages[parent := parentPage];
      level := level[newPid := level[node]];
    }

    /** A new root above the old one. */
    method GrowRoot()
      requires root in level && allocCount !in pages
      modifies this`pages, this`level, this`allocCount, this`root
      ensures F() == old(NewRoot(F(), allocCount)) && allocCount == old(allocCount) + 1
    {
      var newRoot := allocCount;
      allocCount := allocCount + 1;
      pages := pages[newRoot := Page(false, [], [], [], To(root))];
      level := level[newRoot := level[root] + 1];
      root := newRoot;
    }

    /** Split page node, or, if its parent has no room for the separator, some page above it. */
    method TrySplit(node: PID, parent: PID, ghost i: nat, ghost b: nat, ghost maxLen: nat) returns (ghost split: PID)
      requires Valid() && Bounded(F(), b)
      requires F().Live(node) && Splittable(pages[node]) && IsParent(F(), parent, i, node)
      modifies this`pages, this`level, this`allocCount, this`root
      ensures Advanced(old(F()), F(), contents, allocCount, split, b, maxLen)
      ensures forall k :: old(pages[node].Covers(k)) ==> old(pages)[split].Covers(k)
      ensures AsChosen(old(F()), F(), split, splitOrdered)
      decreases level[root] - level[node], 1
    {
      hide ValidForest, Filled, Bounded, Compact, Measure, Surplus, Staged, Advanced, Page.Covers, Page.FindSeparator,
        Page.HasSpaceFor;
      ghost var f := F();
      ghost var j := i;
      var splitParent := parent;
      if parent == METADATA_PAGE {
        // the root has no parent yet: give it one
        StagedUnderRoot(f, contents, allocCount, b, maxLen);
        TreeFacts(f, contents, allocCount);
        GrowRoot();
        splitParent := root;
        j := 0;
      } else {
        StagedInPlace(f, contents, parent, i, node, allocCount, b, maxLen);
      }
      ghost var f1 := F();
      assert Staged(f, f1, contents, splitParent, j, node, allocCount, b, maxLen);
      var info := pages[node].FindSeparator(splitOrdered);
      SeparatorKeepsLeft(pages[node], splitOrdered);
      hide *;
      if pages[splitParent].HasSpaceFor(info.len, PID_SIZE) {
        StagedSplit(f, f1, contents, splitParent, j, node, info, allocCount, b, maxLen);
        ChosenSplit(f, f1, contents, splitParent, j, node, info, allocCount, splitOrdered);
        SplitNode(splitParent, j, node, info);
        split := node;
      } else {
        StagedRefused(f, f1, contents, splitParent, j, node, info, allocCount, b, maxLen);
        SepCovered(f, splitParent, j, node, info);
        var sep := pages[node].Sep(info);
        split := EnsureSpace(splitParent, sep, PID_SIZE, b, maxLen);
      }
    }

    /** Make room for a pair on the inner page toSplit, which the search for key passes, unless there is room
        already. */
    method EnsureSpace(toSplit: PID, key: Key, payloadLen: nat, ghost b: nat, ghost maxLen: nat)
      returns (ghost split: PID)
      requires Valid() && Bounded(F(), b)
      requires F().Live(toSplit) && !pages[toSplit].isLeaf && pages[toSplit].Covers(key)
      requires |key| <= MAX_KV_SIZE && |key| + payloadLen <= MAX_KV_SIZE + PID_SIZE
      modifies this`pages, this`level, this`allocCount, this`root
      ensures old(pages[toSplit].HasSpaceFor(|key|, payloadLen)) ==> F() == old(F()) && allocCount == old(allocCount)
      ensures !old(pages[toSplit].HasSpaceFor(|key|, payloadLen)) ==>
                && Advanced(old(F()), F(), contents, allocCount, split, b, maxLen)
                && AsChosen(old(F()), F(), split, splitOrdered)
                && forall k :: old(pages[toSplit].Covers(k)) ==> old(pages)[split].Covers(k)
      decreases level[root] - level[toSplit], 2
    {
      PathStart(F(), key);
      hide Less, Common, Page.Covers, Page.Ok, Forest.Holds, Forest.Tiled, Forest.Disjoint, Forest.Chained,
        Page.LookupInner;
      var parent, node := METADATA_PAGE, root;
      ghost var i := 0;
      while !pages[node].isLeaf && node != toSplit
        invariant OnPath(F(), parent, i, node, key)
        invariant level[toSplit] <= level[node]
        modifies {}
        decreases level[node]
      {
        PathMeets(F(), parent, i, node, toSplit, key);
        PathStep(F(), parent, i, node, key);
        i := pages[node].Pos(key);
        parent := node;
        node := pages[parent].LookupInner(key);
      }
      PathMeets(F(), parent, i, node, toSplit, key);
      split := node;
      if node == toSplit {
        if pages[node].HasSpaceFor(|key|, payloadLen) {
          return;
        }
        RefusingPage(F(), contents, allocCount, node, |key|, payloadLen);
        split := TrySplit(node, parent, i, b, maxLen);
      }
    }

    /** The leaf for key and its parent page, or the meta-data page's id. */
    method FindLeafAndParent(key: Key) returns (parent: PID, node: PID, i: nat)
      requires Valid()
      ensures OnPath(F(), parent, i, node, key) && pages[node].isLeaf
    {
      PathStart(F(), key);
      parent, node, i := METADATA_PAGE, root, 0;
      hide Less, Common, Page.Covers, Page.Ok, Forest.Holds, Forest.Inv, Page.LookupInner, AllSized, IsParent;
      while !pages[node].isLeaf
        invariant OnPath(F(), parent, i, node, key)
        decreases level[node]
      {
        PathStep(F(), parent, i, node, key);
        i := pages[node].Pos(key);
        parent := node;
        node := pages[parent].LookupInner(key);
      }
    }

    /** insertInPage on a leaf of the tree. */
    method StoreInLeaf(node: PID, key: Key, payload: seq<byte>, ghost maxLen: nat)
      requires Valid() && F().Live(node) && pages[node].isLeaf && pages[node].Covers(key)
      requires key != [] && key !in contents && |key| + |payload| <= MAX_KV_SIZE
      requires pages[node].HasSpaceFor(|key|, |payload|)
      modifies this`pages, this`contents
      ensures Valid() && contents == old(contents)[key := payload]
      ensures old(Compact(F(), maxLen)) && Even(Entry(key, Record(payload)), maxLen) ==> Compact(F(), maxLen)
    {
      hide ValidForest, Compact, Page.Insert, Page.Covers, Page.HasSpaceFor, Even;
      StoreValid(F(), contents, allocCount, node, key, payload, maxLen);
      var page := pages[node].Insert(key, Record(payload));
      pages := pages[node := page];
      contents := contents[key := payload];
    }

    /** One round of insert: store the pair if its leaf has room, else split exactly one page that the search for the
        key passes. */
    method TryInsert(key: Key, payload: seq<byte>, ghost b: nat, ghost maxLen: nat)
      returns (done: bool, ghost split: PID)
      requires Valid() && key != [] && key !in contents && Bounded(F(), b)
      requires |key| + |payload| <= MAX_KV_SIZE
      modifies this`pages, this`level, this`allocCount, this`root, this`contents
      ensures Valid() && contents == if done then old(contents)[key := payload] else old(contents)
      ensures !done ==> Advanced(old(F()), F(), contents, allocCount, split, b, maxLen) && old(pages)[split].Covers(key)
      ensures !done ==> AsChosen(old(F()), F(), split, splitOrdered)
      ensures done && old(Compact(F(), maxLen)) && Even(Entry(key, Record(payload)), maxLen) ==> Compact(F(), maxLen)
    {
      hide ValidForest, Filled, Bounded, Measure, Compact, IsParent, Page.Covers, Page.HasSpaceFor, OneSplit, Even,
        Splittable, AsChosen;
      var parent, node, i := FindLeafAndParent(key);
      assert F().Live(node) && pages[node].Covers(key) && IsParent(F(), parent, i, node);
      hide OnPath;
      split := node;
      if pages[node].HasSpaceFor(|key|, |payload|) {
        StoreInLeaf(node, key, payload, maxLen);
        return true, node;
      }
      RefusingPage(F(), contents, allocCount, node, |key|, |payload|);
      split := TrySplit(node, parent, i, b, maxLen);
      return false, split;
    }

    /** Insert a fresh key: split on the search path until its leaf has room. */
    method Insert(key: Key, payload: seq<byte>, ghost maxLen: nat)
      requires Valid() && key != [] && key !in contents
      requires |key| + |payload| <= MAX_KV_SIZE
      modifies this`pages, this`level, this`allocCount, this`root, this`contents
      ensures Valid() && contents == old(contents)[key := payload]
      ensures old(Compact(F(), maxLen)) && Even(Entry(key, Record(payload)), maxLen) ==> Compact(F(), maxLen)
    {
      hide Measure, Compact, Even, OneSplit, Filled;
      ghost var b := Surplus(F()) + 1;
      hide ValidForest;
      var done := false;
      while !done
        invariant Valid() && (!done ==> Bounded(F(), b))
        invariant contents == if done then old(contents)[key := payload] else old(contents)
        invariant old(Compact(F(), maxLen)) && (done ==> Even(Entry(key, Record(payload)), maxLen)) ==>
                    Compact(F(), maxLen)
        decreases !done, Measure(F(), b)
      {
        // as long as nothing is stored, look for the leaf again
        ghost var split;
        done, split := TryInsert(key, payload, b, maxLen);
      }
    }

    /** removeSlot on a leaf of the tree. */
    method RemoveFromLeaf(node: PID, slot: nat, ghost maxLen: nat)
      requires Valid() && F().Live(node) && pages[node].isLeaf && slot < |pages[node].entries|
      modifies this`pages, this`contents
      ensures Valid() && F() == old(WithPage(F(), node, pages[node].RemoveAt(slot)))
      ensures contents == old(contents - {pages[node].entries[slot].key})
      ensures old(Compact(F(), maxLen)) ==> Compact(F(), maxLen)
    {
      hide ValidForest, Compact, Page.RemoveAt;
      RemoveValid(F(), contents, allocCount, node, slot, maxLen);
      ghost var key := pages[node].entries[slot].key;
      var page := pages[node].RemoveAt(slot);
      pages := pages[node := page];
      contents := contents - {key};
    }

    /** mergeNodes: the leaf node, child slot of parent, absorbs its right neighbour if both fit one page. */
    method MergeNodes(parent: PID, slot: nat, node: PID, right: PID, ghost maxLen: nat) returns (merged: bool)
      requires Valid() && CanMerge(F(), parent, slot, node, right)
      modifies this`pages, this`level
      ensures Valid()
      ensures node in old(pages) && right in old(pages) && (merged <==> old(pages[node].MergeFits(pages[right])))
      ensures F() == if merged then old(MergeAt(F(), parent, slot, node, right)) else old(F())
      ensures old(Compact(F(), maxLen)) ==> Compact(F(), maxLen)
    {
      hide CanMerge, Page.Ok, ValidForest, Compact, Page.MergeFits, Page.Merge, Page.DropSeparator, Page.InnerShape;
      ghost var f := F();
      MergePages(f, parent, slot, node, right);
      var left, absorbed, parentPage := pages[node], pages[right], pages[parent];
      merged := left.MergeFits(absorbed);
      if merged {
        MergeValid(f, contents, allocCount, parent, slot, node, right, maxLen);
        var page := left.Merge(absorbed);
        parentPage := parentPage.DropSeparator(slot, node);
        pages := pages[node := page];
        pages := pages[parent := parentPage];
        level := level - {right};
      }
    }

    /** Remove the record at slot of a leaf; an underfull leaf then tries to absorb its right neighbour. */
    method RemoveRecord(parent: PID, node: PID, pos: nat, slot: nat, ghost key: Key, ghost maxLen: nat)
      requires Valid() && OnPath(F(), parent, pos, node, key) && pages[node].isLeaf && slot < |pages[node].entries|
      modifies this`pages, this`level, this`contents
      ensures Valid()
      ensures contents == old(contents - {pages[node].entries[slot].key})
      ensures TookRecord(old(F()), F(), parent, pos, node, slot)
      ensures old(Compact(F(), maxLen)) ==> Compact(F(), maxLen)
    {
      hide ValidForest, OnPath, Compact, Forest.Inv, CanMerge, WithPage, Page.Covers, Page.Suffix,
        Page.FreeAfterCompaction, Page.InnerShape, Joins, MergeAt, Page.Ok, CanMergeAt;
      ghost var f := F();
      PathFacts(f, contents, allocCount, parent, pos, node, key);
      var page := pages[node];
      var sizeEntry := |page.Suffix(slot)| + page.entries[slot].val.Size();
      var underfull := page.FreeAfterCompaction() + sizeEntry >= UNDER_FULL_SIZE && parent != METADATA_PAGE
                       && |pages[parent].entries| >= 2 && pos + 1 < |pages[parent].entries|;
      RemoveFromLeaf(node, slot, maxLen);
      NotUnderfull(f, parent, pos, node, slot, underfull);
      if underfull {
        TreeFacts(F(), contents, allocCount);
        MergeReady(f, parent, pos, node, key, page.RemoveAt(slot));
        UnderfullJoins(F(), parent, pos, node);
        AbsorbRight(parent, pos, node, maxLen);
      }
    }

    /** Merge a leaf with its right neighbour, if that has enough free space. */
    method AbsorbRight(parent: PID, pos: nat, node: PID, ghost maxLen: nat)
      requires Valid() && F().Live(parent) && pages[parent].InnerShape() && pos + 1 <= |pages[parent].entries|
      requires CanMerge(F(), parent, pos, node, pages[parent].Kid(pos + 1))
      modifies this`pages, this`level
      ensures Valid() && parent in old(pages) && node in old(pages) && old(pages)[parent].Kid(pos + 1) in old(pages)
      ensures var l, r := old(pages)[node], old(pages)[old(pages)[parent].Kid(pos + 1)];
        F() == if r.FreeAfterCompaction() >= PAGE_SIZE - UNDER_FULL_SIZE && l.MergeFits(r)
               then old(MergeAt(F(), parent, pos, node, pages[parent].Kid(pos + 1))) else old(F())
      ensures old(Compact(F(), maxLen)) ==> Compact(F(), maxLen)
    {
      var right := pages[parent].Kid(pos + 1);
      assert right in pages by { MergeFrame(F(), parent, pos, node, right); }
      hide *;
      if pages[right].FreeAfterCompaction() >= PAGE_SIZE - UNDER_FULL_SIZE {
        var merged := MergeNodes(parent, pos, node, right, maxLen);
      }
    }

    /** Remove a key, if it is there. */
    method Remove(key: Key, ghost maxLen: nat) returns (found: bool)
      requires Valid()
      modifies this`pages, this`level, this`contents
      ensures Valid()
      ensures found <==> key in old(contents)
      ensures contents == old(contents) - {key}
      ensures if found then Took(old(F()), F(), key) else F() == old(F())
      ensures old(Compact(F(), maxLen)) ==> Compact(F(), maxLen)
    {
      var parent, node, pos := FindLeafAndParent(key);
      LeafKnows(F(), contents, node, key);
      hide ValidForest, Compact, TookRecord, OnPath;
      if !pages[node].Found(key) {
        return false;
      }
      RemoveRecord(parent, node, pos, pages[node].Pos(key), key, maxLen);
      return true;
    }
  }
}
