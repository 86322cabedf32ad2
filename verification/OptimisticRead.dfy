/** One optimistic reader descending among any number of writers that change pages only under exclusive
    latches. Reads between a version load and its check may be torn: they are assumed to mean something only
    if the page did not change meanwhile. */
module OptimisticRead {
  import opened Bytes
  import opened Pages
  import opened Latch
  import opened Forests
  import opened Splits
  import FS = ForestSteps
  import LS = LeafSteps

  /** Every page with its latch. The metadata page is the inner page without entries whose link is the root. */
  type World = map<PID, System>

  predicate Free(w: World, p: PID) { p in w && w[p].x.None? }

  /** The page is what some parent's child i must be. */
  predicate Fits(parent: Page, i: nat, p: Page)
    requires i <= |parent.entries|
  {
    p.Ok() && p.lower == parent.KidLower(i) && p.upper == parent.KidUpper(i)
  }

  /** The writers' discipline: whenever neither an inner page nor its child is exclusively latched, the child's
      fences are the range the parent gives it. */
  ghost predicate Tiled(w: World) {
    forall q, i :: Free(w, q) && w[q].page.InnerShape() && 0 <= i <= |w[q].page.entries| ==> TiledAt(w, q, i)
  }

  ghost predicate TiledAt(w: World, q: PID, i: nat)
    requires q in w && w[q].page.InnerShape() && i <= |w[q].page.entries|
  {
    var c := w[q].page.Kid(i);
    c in w && (Free(w, c) ==> Fits(w[q].page, i, w[c].page))
  }

  predicate IsMetadata(p: Page) {
    !p.isLeaf && p.lower == [] && p.upper == [] && p.entries == [] && p.link.To?
  }

  /** A run: every step is a step of one latch, and the writers keep their discipline. */
  ghost predicate WorldRun(tr: seq<World>) {
    && |tr| > 0
    && (forall k :: 0 <= k < |tr| ==> tr[k].Keys == tr[0].Keys && Tiled(tr[k]))
    && (forall k :: 0 <= k < |tr| ==> Free(tr[k], METADATA_PAGE) ==> IsMetadata(tr[k][METADATA_PAGE].page))
    && METADATA_PAGE in tr[0]
    && (forall p :: p in tr[0] ==> exists page :: tr[0][p] == Initial(page))
    && (forall k, p :: 0 <= k < |tr| - 1 && p in tr[0] ==> Next(tr[k][p], tr[k + 1][p]))
  }

  /** What happens to one page. */
  ghost function At(tr: seq<World>, p: PID): (s: seq<System>)
    requires WorldRun(tr) && p in tr[0]
    ensures |s| == |tr| && Run(s) && forall k :: 0 <= k < |tr| ==> s[k] == tr[k][p]
  {
    AtRuns(tr, p);
    seq(|tr|, k requires 0 <= k < |tr| => tr[k][p])
  }

  lemma {:induction false} AtRuns(tr: seq<World>, p: PID)
    requires WorldRun(tr) && p in tr[0]
    ensures Run(seq(|tr|, k requires 0 <= k < |tr| => tr[k][p]))
  {
    hide Next, Initial, Tiled, IsMetadata;
    var s := seq(|tr|, k requires 0 <= k < |tr| => tr[k][p]);
    forall k | 0 <= k < |s| - 1
      ensures Next(s[k], s[k + 1])
    {
      assert Next(tr[k][p], tr[k + 1][p]);
    }
  }

  /** The page stays the same from i to j. */
  ghost predicate Still(tr: seq<World>, p: PID, i: nat, j: nat)
    requires WorldRun(tr) && p in tr[0] && i <= j < |tr|
  {
    forall k :: i <= k <= j ==> tr[k][p].page == tr[i][p].page
  }

  /** The version loaded at i may pass the check at j: it does so unless a mark found then is cleared by another
      thread. */
  predicate Checked(tr: seq<World>, p: PID, i: nat, j: nat) {
    && i <= j < |tr| && p in tr[i] && p in tr[j]
    && Readable(tr[i][p].word) && CheckPasses(tr[i][p].word, tr[j][p].word, tr[j][p].word)
  }

  lemma {:induction false} CheckedIsStill(tr: seq<World>, p: PID, i: nat, j: nat)
    requires WorldRun(tr) && p in tr[0] && Checked(tr, p, i, j)
    ensures Still(tr, p, i, j)
    ensures forall k :: i <= k <= j ==> Free(tr[k], p)
  {
    hide Run, CheckPasses, Readable, Inv;
    var s := At(tr, p);
    OptimisticCheck(s, i, j, j);
    assert forall k :: i <= k <= j ==> s[k] == tr[k][p] && p in tr[k];
  }

  ghost predicate FreeThroughout(tr: seq<World>, p: PID, i: nat, j: nat) {
    i <= j < |tr| && forall k :: i <= k <= j ==> Free(tr[k], p)
  }

  /** Nobody writes a page that is free all the time. */
  lemma {:induction false} FreeIsStill(tr: seq<World>, p: PID, i: nat, j: nat)
    requires WorldRun(tr) && p in tr[0] && FreeThroughout(tr, p, i, j)
    ensures Still(tr, p, i, j)
  {
    hide Run;
    var s := At(tr, p);
    forall k | i <= k <= j
      ensures tr[k][p].page == tr[i][p].page
    {
      assert forall m :: i <= m <= k ==> Free(tr[m], p) && s[m] == tr[m][p];
      FreeKeeps(s, i, k);
    }
  }

  lemma {:induction false} ReadableIsFree(tr: seq<World>, p: PID, k: nat)
    requires WorldRun(tr) && p in tr[0] && k < |tr| && p in tr[k] && Readable(tr[k][p].word)
    ensures Free(tr[k], p)
  {
    hide Run;
    RunInv(At(tr, p), k);
  }

  lemma {:induction false} SameKeys(tr: seq<World>, p: PID, k: nat)
    requires WorldRun(tr) && p in tr[0] && k < |tr|
    ensures p in tr[k]
  {
  }

  // ---------------------------------------------------------------------- one hop

  /** A hop from q to c: q's version was loaded at i, q was checked at a, c's version was loaded at b,
      and q was checked again at d. */
  ghost predicate Hop(tr: seq<World>, key: Key, q: PID, c: PID, i: nat, a: nat, b: nat, d: nat)
    requires WorldRun(tr)
  {
    && q in tr[0] && c in tr[0] && i <= a <= b <= d < |tr|
    && Checked(tr, q, i, a) && Checked(tr, q, i, d)
    && c in tr[b] && Readable(tr[b][c].word)
    && (Still(tr, q, i, a) ==> tr[i][q].page.InnerShape() && c == tr[i][q].page.LookupInner(key))
  }

  /** If q covered the key, then c covers it from the moment its version is loaded, and still does when q is
      checked again, unless c is being changed right then. */
  lemma {:induction false} HopCovers(tr: seq<World>, key: Key, q: PID, c: PID, i: nat, a: nat, b: nat, d: nat)
    requires WorldRun(tr) && Hop(tr, key, q, c, i, a, b, d)
    requires tr[i][q].page.Ok() && tr[i][q].page.Covers(key)
    ensures c in tr[b] && tr[b][c].page.Ok() && tr[b][c].page.Covers(key)
    ensures Free(tr[d], c) ==> tr[d][c].page.Ok() && tr[d][c].page.Covers(key)
    ensures q in tr[d] && tr[d][q].page == tr[i][q].page && tr[d][q].page.InnerShape()
    ensures tr[d][q].page.LookupInner(key) == c
  {
    hide CheckPasses, Readable, Page.Ok, Page.Covers, WorldRun, Pages.LowerBound;
    CheckedIsStill(tr, q, i, d);
    CheckedIsStill(tr, q, i, a);
    ReadableIsFree(tr, c, b);
    var p := tr[i][q].page;
    SameKeys(tr, c, d);
    HopAt(tr, key, q, c, b, p);
    HopAt(tr, key, q, c, d, p);
  }

  /** At an instant when q is free and routes the key to c. */
  lemma {:induction false} HopAt(tr: seq<World>, key: Key, q: PID, c: PID, k: nat, p: Page)
    requires WorldRun(tr) && k < |tr| && Free(tr[k], q) && c in tr[k] && tr[k][q].page == p
    requires p.InnerShape() && p.Ok() && p.Covers(key) && c == p.LookupInner(key)
    ensures Free(tr[k], c) ==> tr[k][c].page.Ok() && tr[k][c].page.Covers(key)
  {
    var i := p.Pos(key);
    assert Tiled(tr[k]);
    assert TiledAt(tr[k], q, i);
    hide Less, Common, WorldRun, Tiled, Pages.LowerBound;
    RoutedRange(p, key, i);
  }

  // ---------------------------------------------------------------------- a whole descent

  /** The versions of path's pages are loaded at the times read; each page but the last is checked before and
      after its successor's version is loaded. At the time seen the last page is found to be a leaf. */
  datatype Descent = Descent(path: seq<PID>, read: seq<nat>, checked: seq<nat>, rechecked: seq<nat>, seen: nat)

  ghost predicate Descends(tr: seq<World>, key: Key, r: Descent)
    requires WorldRun(tr)
  {
    && |r.path| == |r.read| > 1 && |r.checked| == |r.rechecked| == |r.path| - 1
    && r.path[0] == METADATA_PAGE
    && forall k :: 0 <= k < |r.checked| ==>
         Hop(tr, key, r.path[k], r.path[k + 1], r.read[k], r.checked[k], r.read[k + 1], r.rechecked[k])
  }

  /** The descent's last page looked like a leaf. */
  ghost predicate SeesLeaf(tr: seq<World>, r: Descent)
    requires WorldRun(tr)
  {
    var n := |r.path| - 1;
    && n >= 0 && |r.read| == n + 1 && r.path[n] in tr[0] && r.read[n] <= r.seen < |tr| && r.path[n] in tr[r.read[n]]
    && (Still(tr, r.path[n], r.read[n], r.seen) ==> tr[r.read[n]][r.path[n]].page.isLeaf)
  }

  /** Every page of a descent covers the key when its version is loaded. */
  lemma {:induction false} DescentCovers(tr: seq<World>, key: Key, r: Descent, k: nat)
    requires WorldRun(tr) && Descends(tr, key, r) && k < |r.path|
    ensures r.read[k] < |tr| && r.path[k] in tr[0] && r.path[k] in tr[r.read[k]]
    ensures var p := tr[r.read[k]][r.path[k]].page; p.Ok() && p.Covers(key)
    decreases k
  {
    hide WorldRun, Hop, Page.Ok, Page.Covers;
    if k == 0 {
      MetadataCovers(tr, key, r);
    } else {
      DescentCovers(tr, key, r, k - 1);
      HopIn(tr, key, r.path[k - 1], r.path[k - 1 + 1], r.read[k - 1], r.checked[k - 1], r.read[k - 1 + 1],
          r.rechecked[k - 1]);
      HopCovers(tr, key, r.path[k - 1], r.path[k - 1 + 1], r.read[k - 1], r.checked[k - 1], r.read[k - 1 + 1],
          r.rechecked[k - 1]);
    }
  }

  lemma {:induction false} HopIn(tr: seq<World>, key: Key, q: PID, c: PID, i: nat, a: nat, b: nat, d: nat)
    requires WorldRun(tr) && Hop(tr, key, q, c, i, a, b, d)
    ensures q in tr[0] && c in tr[0] && i <= a <= b <= d < |tr| && q in tr[i] && c in tr[b] && q in tr[d]
    ensures Checked(tr, q, i, d) && Readable(tr[i][q].word)
  {
  }

  lemma {:induction false} MetadataCovers(tr: seq<World>, key: Key, r: Descent)
    requires WorldRun(tr) && Descends(tr, key, r)
    ensures r.read[0] < |tr| && METADATA_PAGE in tr[0] && METADATA_PAGE in tr[r.read[0]]
    ensures var p := tr[r.read[0]][METADATA_PAGE].page; p.Ok() && p.Covers(key)
  {
    HopIn(tr, key, r.path[0], r.path[0 + 1], r.read[0], r.checked[0], r.read[0 + 1], r.rechecked[0]);
    ReadableIsFree(tr, METADATA_PAGE, r.read[0]);
    hide Less, Readable, Checked;
  }

  /** In w, q is free and routes the key to c. */
  ghost predicate Routes(w: World, q: PID, key: Key, c: PID) {
    Free(w, q) && w[q].page.InnerShape() && w[q].page.LookupInner(key) == c
  }

  /** A descent whose checks all pass holds, at the instant the old parent is checked again, the page to which the
      parent routes the key. Unless a writer holds that page exclusively right then, its fences cover the key; unless
      a writer has held it since its version was loaded, it is a leaf. */
  lemma {:induction false} DescentHoldsLeaf(tr: seq<World>, key: Key, r: Descent)
    requires WorldRun(tr) && Descends(tr, key, r) && SeesLeaf(tr, r)
    ensures var n := |r.path| - 1; var d := r.rechecked[n - 1]; var leaf := r.path[n];
      && r.read[n] <= d < |tr| && leaf in tr[0] && leaf in tr[d]
      && (Free(tr[d], leaf) ==> tr[d][leaf].page.Covers(key))
      && (FreeThroughout(tr, leaf, r.read[n], Later(d, r.seen)) ==> tr[d][leaf].page.isLeaf)
      && Routes(tr[d], r.path[n - 1], key, leaf)
  {
    hide WorldRun, Hop, Page.Ok, Page.Covers, Checked, Readable, SeesLeaf;
    var n := |r.path| - 1;
    DescentCovers(tr, key, r, n - 1);
    HopIn(tr, key, r.path[n - 1], r.path[n - 1 + 1], r.read[n - 1], r.checked[n - 1], r.read[n - 1 + 1],
        r.rechecked[n - 1]);
    HopCovers(tr, key, r.path[n - 1], r.path[n - 1 + 1], r.read[n - 1], r.checked[n - 1], r.read[n - 1 + 1],
        r.rechecked[n - 1]);
    CheckedIsStill(tr, r.path[n - 1], r.read[n - 1], r.rechecked[n - 1]);
    SameKeys(tr, r.path[n], r.rechecked[n - 1]);
    if FreeThroughout(tr, r.path[n], r.read[n], Later(r.rechecked[n - 1], r.seen)) {
      FreeLeaf(tr, r, r.rechecked[n - 1]);
    }
  }

  function Later(i: nat, j: nat): nat { if i < j then j else i }

  lemma {:induction false} FreeLeaf(tr: seq<World>, r: Descent, d: nat)
    requires WorldRun(tr) && SeesLeaf(tr, r) && r.read[|r.path| - 1] <= d < |tr|
    requires FreeThroughout(tr, r.path[|r.path| - 1], r.read[|r.path| - 1], Later(d, r.seen))
    ensures r.path[|r.path| - 1] in tr[d] && tr[d][r.path[|r.path| - 1]].page.isLeaf
  {
    hide WorldRun;
    var n := |r.path| - 1;
    FreeIsStill(tr, r.path[n], r.read[n], Later(d, r.seen));
  }

  /** From i to e the leaf was free, covered the key, and held result for it. */
  ghost predicate HeldThroughout(tr: seq<World>, leaf: PID, key: Key, i: nat, e: nat, result: Option<Value>) {
    && i <= e < |tr|
    && forall k :: i <= k <= e ==>
         Free(tr[k], leaf) && tr[k][leaf].page.isLeaf && tr[k][leaf].page.Covers(key)
             && result == Get(tr[k][leaf].page, key)
  }

  /** What a reader that loaded the leaf's version at i and searched it until e reports: if the leaf did not change
      meanwhile, what it holds for the key. */
  ghost predicate Reports(tr: seq<World>, leaf: PID, key: Key, i: nat, e: nat, result: Option<Value>)
    requires WorldRun(tr)
  {
    && leaf in tr[0] && Checked(tr, leaf, i, e)
    && (Still(tr, leaf, i, e) ==> result == Get(tr[i][leaf].page, key))
  }

  /** A lookup that ends with a passing check of its leaf at e: the leaf was free and unchanged all the time since
      its version was loaded, it covered the key, and the result is what it held. That time includes the instant
      when the parent, free itself, was seen to route the key to this leaf. */
  lemma {:induction false} LookupIsAtomic(tr: seq<World>, key: Key, r: Descent, e: nat, result: Option<Value>)
    requires WorldRun(tr) && Descends(tr, key, r) && SeesLeaf(tr, r)
    requires var n := |r.path| - 1;
      r.rechecked[n - 1] <= e && r.seen <= e && Reports(tr, r.path[n], key, r.read[n], e, result)
    ensures var n := |r.path| - 1; HeldThroughout(tr, r.path[n], key, r.read[n], e, result)
    ensures var n := |r.path| - 1; var d := r.rechecked[n - 1];
      r.read[n] <= d <= e < |tr| && Routes(tr[d], r.path[n - 1], key, r.path[n])
  {
    hide WorldRun, Hop, Page.Ok, Page.Covers, CheckPasses, Readable, Get, Routes;
    var n := |r.path| - 1;
    DescentCovers(tr, key, r, n);
    DescentHoldsLeaf(tr, key, r);
    CheckedIsStill(tr, r.path[n], r.read[n], e);
  }

  // ---------------------------------------------------------------------- what the tree's writers do

  /** Every free page of w that belongs to the tree g has g's content; the metadata page names g's root. */
  ghost predicate Shows(w: World, g: Forest) {
    && (forall p :: g.Live(p) ==> p in w && p != METADATA_PAGE)
    && (forall p :: g.Live(p) && Free(w, p) ==> w[p].page == g.pages[p])
    && (METADATA_PAGE in w && Free(w, METADATA_PAGE) ==>
        IsMetadata(w[METADATA_PAGE].page) && w[METADATA_PAGE].page.link == To(g.root))
    && (forall p :: p in w && Free(w, p) && !g.Live(p) && p != METADATA_PAGE ==> w[p].page.isLeaf)
  }

  /** Whatever the latched pages look like, if the free ones show a well-formed tree, the discipline holds. */
  lemma {:induction false} ShownTreeIsTiled(w: World, g: Forest)
    requires g.Inv() && Shows(w, g)
    ensures Tiled(w)
  {
    hide Less, Common, Page.Ok;
    forall q, i | Free(w, q) && w[q].page.InnerShape() && 0 <= i <= |w[q].page.entries|
      ensures TiledAt(w, q, i)
    {
      if g.Live(q) {
        assert g.KidsOk(q);
        assert g.KidOk(q, i, g.pages[q].Kid(i));
      }
    }
  }

  /** The trees f and g differ in the pages in changed only. */
  ghost predicate Differ(f: Forest, g: Forest, changed: set<PID>) {
    && g.Inv() && (METADATA_PAGE !in changed ==> g.root == f.root)
    && forall p :: p !in changed ==> (g.Live(p) <==> f.Live(p)) && (g.Live(p) ==> g.pages[p] == f.pages[p])
  }

  /** While the changed pages are latched, the free ones show the tree after the change as well as the tree before. */
  lemma {:induction false} ShowsAfter(w: World, f: Forest, g: Forest, changed: set<PID>)
    requires Shows(w, f) && Differ(f, g, changed) && !g.Live(METADATA_PAGE)
    requires forall p :: p in changed ==> p in w && w[p].x.Some?
    ensures Shows(w, g)
  {
    hide IsMetadata, Forest.Inv;
  }

  lemma {:induction false} SplitDiffers(f: Forest, q: PID, i: nat, c: PID, slot: nat, sep: Key, n: PID)
    requires FS.CanSplit(f, q, i, c, slot, sep, n)
    ensures Differ(f, FS.SplitAt(f, q, c, slot, sep, n), {q, c, n})
  {
    hide Less, Common, Page.Ok, FS.SplitAt, Forest.Inv, GoodSeparator;
    FS.SplitFrame(f, q, i, c, slot, sep, n);
    FS.SplitInv(f, q, i, c, slot, sep, n);
  }

  lemma {:induction false} MergeDiffers(f: Forest, q: PID, slot: nat, c: PID, r: PID)
    requires LS.CanMerge(f, q, slot, c, r)
    ensures q in f.pages && c in f.pages && r in f.pages && Differ(f, LS.MergeAt(f, q, slot, c, r), {q, c, r})
  {
    hide Less, Common, Page.Ok, LS.MergeAt, Forest.Inv;
    LS.MergeInv(f, q, slot, c, r);
    LS.MergeFrame(f, q, slot, c, r);
  }

  lemma {:induction false} NewRootDiffers(f: Forest, n: PID)
    requires f.Inv() && n !in f.pages && n != METADATA_PAGE
    ensures Differ(f, FS.NewRoot(f, n), {METADATA_PAGE, n})
  {
    hide Less, Common, Page.Ok;
    FS.NewRootInv(f, n);
  }
}
