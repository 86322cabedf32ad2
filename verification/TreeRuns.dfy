/** Whole runs of the tree under concurrency: many latches, writers that change pages they have latched, one optimistic
    reader. Every tree operation takes effect at one instant, while its pages are latched; a page is released when it
    looks as the tree has it. No more than that is needed for the reader's lookup to be linearizable. */
module TreeRuns {
  import opened Bytes
  import opened Pages
  import opened Splits
  import opened Forests
  import opened OptimisticRead
  import FS = ForestSteps
  import LS = LeafSteps
  import L = Latch

  /** The latched pages, the tree they stand for, and its contents. */
  datatype Stage = Stage(world: World, tree: Forest, contents: map<Key, seq<byte>>)

  datatype Operation =
    | Split(q: PID, i: nat, c: PID, slot: nat, sep: Key, n: PID)
    | Grow(n: PID)
    | Store(p: PID, key: Key, bytes: seq<byte>)
    | Remove(p: PID, slot: nat)
    | Merge(q: PID, slot: nat, c: PID, r: PID)

  ghost predicate Can(f: Forest, m: map<Key, seq<byte>>, op: Operation) {
    match op
    case Split(q, i, c, slot, sep, n) => FS.CanSplit(f, q, i, c, slot, sep, n) && n != METADATA_PAGE
    case Grow(n) => f.root in f.level && n !in f.pages && n != METADATA_PAGE
    case Store(p, key, bytes) => f.Live(p) && f.pages[p].isLeaf && f.pages[p].Covers(key) && key != [] && key !in m
    case Remove(p, slot) => f.Live(p) && f.pages[p].isLeaf && slot < |f.pages[p].entries|
    case Merge(q, slot, c, r) => LS.CanMerge(f, q, slot, c, r) && q in f.pages && c in f.pages && r in f.pages
  }

  ghost function TreeAfter(f: Forest, m: map<Key, seq<byte>>, op: Operation): Forest
    requires Can(f, m, op)
  {
    match op
    case Split(q, i, c, slot, sep, n) => FS.SplitAt(f, q, c, slot, sep, n)
    case Grow(n) => FS.NewRoot(f, n)
    case Store(p, key, bytes) => LS.WithPage(f, p, f.pages[p].Insert(key, Record(bytes)))
    case Remove(p, slot) => LS.WithPage(f, p, f.pages[p].RemoveAt(slot))
    case Merge(q, slot, c, r) => LS.MergeAt(f, q, slot, c, r)
  }

  ghost function ContentsAfter(f: Forest, m: map<Key, seq<byte>>, op: Operation): map<Key, seq<byte>>
    requires Can(f, m, op)
  {
    match op
    case Store(p, key, bytes) => m[key := bytes]
    case Remove(p, slot) => m - {f.pages[p].entries[slot].key}
    case _ => m
  }

  /** The pages an operation latches. */
  function Touched(op: Operation): set<PID> {
    match op
    case Split(q, i, c, slot, sep, n) => {q, c, n}
    case Grow(n) => {METADATA_PAGE, n}
    case Store(p, key, bytes) => {p}
    case Remove(p, slot) => {p}
    case Merge(q, slot, c, r) => {q, c, r}
  }

  /** An operation takes effect: the pages are latched, and are written before or after. */
  ghost predicate Commits(a: Stage, b: Stage) {
    exists op :: Can(a.tree, a.contents, op) && Committed(a, op, b)
  }

  ghost predicate Committed(a: Stage, op: Operation, b: Stage)
    requires Can(a.tree, a.contents, op)
  {
    && (forall p :: p in Touched(op) ==> p in a.world && a.world[p].x.Some?)
    && b == Stage(a.world, TreeAfter(a.tree, a.contents, op), ContentsAfter(a.tree, a.contents, op))
  }

  /** What a released page has to look like. */
  ghost predicate Placed(page: Page, p: PID, g: Forest) {
    if p == METADATA_PAGE then IsMetadata(page) && page.link == To(g.root)
    else if g.Live(p) then page == g.pages[p]
    else page.isLeaf
  }

  /** Some thread makes a step on one latch or writes a page it has latched. */
  ghost predicate Works(a: Stage, b: Stage) {
    && b.tree == a.tree && b.contents == a.contents
    && exists p, step :: p in a.world && L.Allowed(a.world[p], step) && Worked(a, p, step, b)
  }

  ghost predicate Worked(a: Stage, p: PID, step: L.Step, b: Stage)
    requires p in a.world && L.Allowed(a.world[p], step)
  {
    && b.world == a.world[p := L.Apply(a.world[p], step)]
    && (step.StoreX? ==> Placed(a.world[p].page, p, a.tree))
  }

  ghost predicate TreeRun(tr: seq<Stage>) {
    && |tr| > 0 && METADATA_PAGE in tr[0].world && Consistent(tr[0])
    && (forall p :: p in tr[0].world ==> exists page :: tr[0].world[p] == L.Initial(page))
    && forall k :: 0 <= k < |tr| - 1 ==> Commits(tr[k], tr[k + 1]) || Works(tr[k], tr[k + 1])
  }

  /** The tree is well-formed and holds the contents, and every page that is not latched looks as the tree has it. */
  ghost predicate Consistent(a: Stage) {
    a.tree.Inv() && a.tree.Holds(a.contents) && Shows(a.world, a.tree)
  }

  // ---------------------------------------------------------------------- every stage is consistent

  lemma {:induction false} OperationKeeps(f: Forest, m: map<Key, seq<byte>>, op: Operation)
    requires f.Inv() && f.Holds(m) && Can(f, m, op)
    ensures TreeAfter(f, m, op).Inv() && TreeAfter(f, m, op).Holds(ContentsAfter(f, m, op))
  {
    hide Forest.Inv, Forest.Holds, FS.CanSplit, FS.SplitAt, FS.NewRoot, LS.CanMerge, LS.MergeAt, LS.WithPage,
      Page.Covers;
    match op
    case Split(q, i, c, slot, sep, n) => FS.SplitKeeps(f, q, i, c, slot, sep, n, m);
    case Grow(n) => FS.NewRootKeeps(f, n, m);
    case Store(p, key, bytes) => LS.StoreKeeps(f, p, key, bytes, m);
    case Remove(p, slot) => LS.RemoveKeeps(f, p, slot, m);
    case Merge(q, slot, c, r) => LS.MergeKeeps(f, q, slot, c, r, m);
  }

  lemma {:induction false} OperationDiffers(f: Forest, m: map<Key, seq<byte>>, op: Operation)
    requires f.Inv() && f.Holds(m) && Can(f, m, op)
    ensures Differ(f, TreeAfter(f, m, op), Touched(op))
  {
    OperationKeeps(f, m, op);
    match op
    case Split(q, i, c, slot, sep, n) => SplitDiffers(f, q, i, c, slot, sep, n);
    case Grow(n) => NewRootDiffers(f, n);
    case Store(p, key, bytes) => LeafDiffers(f, p, f.pages[p].Insert(key, Record(bytes)));
    case Remove(p, slot) => LeafDiffers(f, p, f.pages[p].RemoveAt(slot));
    case Merge(q, slot, c, r) => MergeDiffers(f, q, slot, c, r);
  }

  lemma {:induction false} LeafDiffers(f: Forest, p: PID, page: Page)
    requires f.Live(p) && LS.WithPage(f, p, page).Inv()
    ensures Differ(f, LS.WithPage(f, p, page), {p})
  {
    hide Forest.Inv;
  }

  lemma {:induction false} NoMetadata(f: Forest, m: map<Key, seq<byte>>, op: Operation)
    requires Can(f, m, op) && !f.Live(METADATA_PAGE)
    ensures !TreeAfter(f, m, op).Live(METADATA_PAGE)
  {
    hide Forest.Inv, GoodSeparator, Page.Covers;
  }

  lemma {:induction false} CommitKeeps(a: Stage, op: Operation, b: Stage)
    requires Consistent(a) && Can(a.tree, a.contents, op) && Committed(a, op, b)
    ensures Consistent(b)
  {
    hide Can, TreeAfter, ContentsAfter, Differ, Forest.Inv, Forest.Holds, Tiled, Touched;
    OperationKeeps(a.tree, a.contents, op);
    OperationDiffers(a.tree, a.contents, op);
    assert !a.tree.Live(METADATA_PAGE);
    NoMetadata(a.tree, a.contents, op);
    hide Shows;
    ShowsAfter(a.world, a.tree, b.tree, Touched(op));
  }

  /** A step leaves a page that is free before and after as it was. */
  lemma {:induction false} StepWrites(a: L.System, step: L.Step)
    requires L.Allowed(a, step) && L.Apply(a, step).x.None?
    ensures a.x.None? || step.StoreX?
    ensures L.Apply(a, step).page == a.page
  {
  }

  lemma {:induction false} WorkKeeps(a: Stage, p: PID, step: L.Step, b: Stage)
    requires Consistent(a) && p in a.world && L.Allowed(a.world[p], step) && Worked(a, p, step, b)
    requires b.tree == a.tree && b.contents == a.contents
    ensures Consistent(b)
  {
    hide L.Allowed, L.Apply, Forest.Inv, Forest.Holds, IsMetadata;
    if b.world[p].x.None? { StepWrites(a.world[p], step); }
  }

  lemma {:induction false} RunConsistent(tr: seq<Stage>, k: nat)
    requires TreeRun(tr) && k < |tr|
    ensures Consistent(tr[k])
    decreases k
  {
    hide Consistent, Committed, Can, Worked;
    if k > 0 {
      RunConsistent(tr, k - 1);
      assert Commits(tr[k - 1], tr[k - 1 + 1]) || Works(tr[k - 1], tr[k - 1 + 1]);
      if Commits(tr[k - 1], tr[k]) {
        var op :| Can(tr[k - 1].tree, tr[k - 1].contents, op) && Committed(tr[k - 1], op, tr[k]);
        CommitKeeps(tr[k - 1], op, tr[k]);
      } else {
        var p, step :| p in tr[k - 1].world && L.Allowed(tr[k - 1].world[p], step) && Worked(tr[k - 1], p, step, tr[k]);
        WorkKeeps(tr[k - 1], p, step, tr[k]);
      }
    }
  }

  // ---------------------------------------------------------------------- the reader's assumption is met

  lemma {:induction false} EachSteps(a: Stage, b: Stage, p: PID)
    requires (Commits(a, b) || Works(a, b)) && p in a.world
    ensures b.world.Keys == a.world.Keys && L.Next(a.world[p], b.world[p])
  {
    hide L.Apply;
    if Commits(a, b) {
      assert b.world == a.world;
      Stutters(a.world[p]);
    } else {
      var q, step :| q in a.world && L.Allowed(a.world[q], step) && Worked(a, q, step, b);
      if p != q { Stutters(a.world[p]); }
    }
  }

  lemma {:induction false} Stutters(a: L.System)
    ensures L.Next(a, a)
  {
    assert L.Allowed(a, L.Elsewhere) && a == L.Apply(a, L.Elsewhere);
  }

  lemma {:induction false} SameKeysInRun(tr: seq<Stage>, k: nat)
    requires TreeRun(tr) && k < |tr|
    ensures tr[k].world.Keys == tr[0].world.Keys
    decreases k
  {
    hide Consistent, Commits, Works;
    if k > 0 {
      SameKeysInRun(tr, k - 1);
      assert Commits(tr[k - 1], tr[k - 1 + 1]) || Works(tr[k - 1], tr[k - 1 + 1]);
      EachSteps(tr[k - 1], tr[k], METADATA_PAGE);
    }
  }

  lemma {:induction false} StageTiled(a: Stage)
    requires Consistent(a)
    ensures Tiled(a.world)
    ensures Free(a.world, METADATA_PAGE) ==> IsMetadata(a.world[METADATA_PAGE].page)
  {
    hide Forest.Inv, Tiled, IsMetadata;
    ShownTreeIsTiled(a.world, a.tree);
  }

  /** The worlds of a run, as the reader sees them. */
  ghost function Worlds(tr: seq<Stage>): (ws: seq<World>)
    requires TreeRun(tr)
    ensures |ws| == |tr| && (forall k :: 0 <= k < |tr| ==> ws[k] == tr[k].world) && WorldRun(ws)
  {
    RunIsWorldRun(tr);
    seq(|tr|, k requires 0 <= k < |tr| => tr[k].world)
  }

  /** The discipline that the reader relies on holds in every run of the tree. */
  lemma {:induction false} RunIsWorldRun(tr: seq<Stage>)
    requires TreeRun(tr)
    ensures WorldRun(seq(|tr|, k requires 0 <= k < |tr| => tr[k].world))
  {
    hide Consistent, Commits, Works, Tiled, IsMetadata, L.Next, L.Initial;
    var ws := seq(|tr|, k requires 0 <= k < |tr| => tr[k].world);
    forall k | 0 <= k < |ws|
      ensures ws[k].Keys == ws[0].Keys && Tiled(ws[k])
      ensures (Free(ws[k], METADATA_PAGE) ==> IsMetadata(ws[k][METADATA_PAGE].page))
    {
      SameKeysInRun(tr, k);
      RunConsistent(tr, k);
      StageTiled(tr[k]);
    }
    forall k, p | 0 <= k < |ws| - 1 && p in ws[0]
      ensures L.Next(ws[k][p], ws[k + 1][p])
    {
      StepInRun(tr, k, p);
    }
  }

  lemma {:induction false} StepInRun(tr: seq<Stage>, k: nat, p: PID)
    requires TreeRun(tr) && k + 1 < |tr| && p in tr[0].world
    ensures p in tr[k].world && p in tr[k + 1].world && L.Next(tr[k].world[p], tr[k + 1].world[p])
  {
    SameKeysInRun(tr, k);
    assert Commits(tr[k], tr[k + 1]) || Works(tr[k], tr[k + 1]);
    hide TreeRun, Consistent, Commits, Works, L.Next;
    EachSteps(tr[k], tr[k + 1], p);
  }

  // ---------------------------------------------------------------------- lookups

  /** A free inner page in a consistent stage routes a key it covers to a live page. */
  lemma {:induction false} RoutedIsLive(a: Stage, q: PID, key: Key, c: PID)
    requires Consistent(a) && Routes(a.world, q, key, c) && a.world[q].page.Covers(key)
    ensures a.tree.Live(c) && a.tree.pages[c].Covers(key)
  {
    hide Forest.Holds, Less, Common, Page.Ok, LowerBound;
    if q == METADATA_PAGE {
      assert a.tree.root == c;
    } else {
      assert a.tree.Live(q) && !a.tree.pages[q].isLeaf;
      RouteDown(a.tree, q, key);
    }
  }

  /** A free leaf of the tree knows the contents. */
  lemma {:induction false} FreeLeafKnows(a: Stage, leaf: PID, key: Key)
    requires Consistent(a) && a.tree.Live(leaf) && Free(a.world, leaf)
    requires a.world[leaf].page.isLeaf && a.world[leaf].page.Covers(key)
    ensures AgreesOn(a.world[leaf].page, a.contents, key)
  {
    hide Forest.Inv, AgreesOn, Page.Covers;
    assert Agrees(a.tree.pages[leaf], a.contents);
  }

  /** What a lookup should return. */
  function Answer(m: map<Key, seq<byte>>, key: Key): Option<Value> {
    if key in m then Some(Record(m[key])) else None
  }

  /** An optimistic lookup is linearizable: whatever other threads insert, remove, split and merge meanwhile, if its
      checks pass, its result is what the tree contained for the key at an instant between its first and last step. */
  lemma {:induction false} LookupIsLinearizable(tr: seq<Stage>, key: Key, r: Descent, e: nat, result: Option<Value>)
    requires TreeRun(tr) && Descends(Worlds(tr), key, r) && SeesLeaf(Worlds(tr), r)
    requires var n := |r.path| - 1;
      r.rechecked[n - 1] <= e && r.seen <= e && Reports(Worlds(tr), r.path[n], key, r.read[n], e, result)
    ensures var n := |r.path| - 1; var d := r.rechecked[n - 1];
      r.read[n] <= d <= e < |tr| && result == Answer(tr[d].contents, key)
  {
    var ws := Worlds(tr);
    hide TreeRun, WorldRun, Hop, Reports, SeesLeaf, Routes, Page.Covers, Consistent, Get;
    var n := |r.path| - 1;
    var d := r.rechecked[n - 1];
    LookupIsAtomic(ws, key, r, e, result);
    RunConsistent(tr, d);
    ParentCovers(ws, key, r);
    RoutedIsLive(tr[d], r.path[n - 1], key, r.path[n]);
    assert Free(ws[d], r.path[n]);
    FreeLeafKnows(tr[d], r.path[n], key);
  }

  /** When the last parent is checked again it still covers the key. */
  lemma {:induction false} ParentCovers(ws: seq<World>, key: Key, r: Descent)
    requires WorldRun(ws) && Descends(ws, key, r)
    ensures var n := |r.path| - 1; var d := r.rechecked[n - 1];
      d < |ws| && r.path[n - 1] in ws[d] && ws[d][r.path[n - 1]].page.Covers(key)
  {
    hide WorldRun, Hop, Page.Ok, Page.Covers, Checked, L.Readable;
    var n := |r.path| - 1;
    DescentCovers(ws, key, r, n - 1);
    HopIn(ws, key, r.path[n - 1], r.path[n - 1 + 1], r.read[n - 1], r.checked[n - 1], r.read[n - 1 + 1],
        r.rechecked[n - 1]);
    HopCovers(ws, key, r.path[n - 1], r.path[n - 1 + 1], r.read[n - 1], r.checked[n - 1], r.read[n - 1 + 1],
        r.rechecked[n - 1]);
  }
}
