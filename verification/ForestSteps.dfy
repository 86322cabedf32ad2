/** The steps that change a tree's pages - growing a root, splitting, merging, storing and removing
    records - and the proof that each keeps the tree invariant and the tree's contents. */
module ForestSteps {
  import opened Bytes
  import opened Pages
  import opened Splits
  import opened Forests

  // ---------------------------------------------------------------------- a new root

  function NewRoot(f: Forest, n: PID): Forest {
    Forest(f.pages[n := Page(false, [], [], [], To(f.root))],
        f.level[n := if f.root in f.level then f.level[f.root] + 1 else 0], n)
  }

  lemma {:induction false} NewRootInv(f: Forest, n: PID)
    requires f.Inv() && n !in f.pages
    ensures NewRoot(f, n).Inv()
  {
    hide Less, Common, Page.Covers, Page.Ok, Apart;
    NewRootTiled(f, n);
    NewRootDisjoint(f, n);
    EmptyRootOk(f.root);
    hide Forest.Tiled, Forest.Disjoint, Forest.Chained;
  }

  lemma {:induction false} NewRootKeeps(f: Forest, n: PID, contents: map<Key, seq<byte>>)
    requires f.Inv() && f.Holds(contents) && n !in f.pages
    ensures NewRoot(f, n).Inv() && NewRoot(f, n).Holds(contents)
  {
    hide Agrees, Page.Ok, Forest.Tiled, Forest.Disjoint, Forest.Chained;
    NewRootInv(f, n);
  }

  lemma {:induction false} EmptyRootOk(kid: PID)
    ensures Page(false, [], [], [], To(kid)).Ok()
  {
  }

  lemma {:induction false} NewRootTiled(f: Forest, n: PID)
    requires f.Rooted() && f.Tiled() && n !in f.pages
    ensures NewRoot(f, n).Tiled()
  {
    hide Less, Common;
    var g := NewRoot(f, n);
    forall x | g.Live(x) && g.pages[x].InnerShape()
      ensures g.KidsOk(x)
    {
      if x != n { assert f.Live(x) && f.KidsOk(x); }
      forall i | 0 <= i <= |g.pages[x].entries|
        ensures g.KidOk(x, i, g.pages[x].Kid(i))
      {
        if x != n { assert f.KidOk(x, i, f.pages[x].Kid(i)); }
      }
    }
  }

  lemma {:induction false} NewRootDisjoint(f: Forest, n: PID)
    requires f.Rooted() && f.Disjoint() && f.Chained() && n !in f.pages
    ensures NewRoot(f, n).Disjoint() && NewRoot(f, n).Chained()
  {
    hide Apart;
    var g := NewRoot(f, n);
    forall a, b | g.Live(a) && g.Live(b) && a != b && g.level[a] == g.level[b]
      ensures Apart(g.pages[a], g.pages[b])
    {
      assert f.Live(a) && f.Live(b);
    }
    forall x | g.Live(x) && g.pages[x].isLeaf
      ensures g.LinkOk(x)
    {
      assert f.Live(x) && f.LinkOk(x);
    }
  }

  // ---------------------------------------------------------------------- splitting

  /** The forest after splitting page c, child of q, at sep into c and the new page n. */
  function SplitAt(f: Forest, q: PID, c: PID, slot: nat, sep: Key, n: PID): Forest
    requires q in f.pages && c in f.pages && slot < |f.pages[c].entries|
    requires !f.pages[c].isLeaf ==> f.pages[c].InnerShape()
    requires f.pages[q].InnerShape()
  {
    var p := f.pages[c];
    Forest(f.pages[c := p.SplitLeft(slot, sep, n)][n := p.SplitRight(slot, sep)]
                  [q := f.pages[q].AddSeparator(sep, c, n)],
           f.level[n := if c in f.level then f.level[c] else 0], f.root)
  }

  ghost predicate CanSplit(f: Forest, q: PID, i: nat, c: PID, slot: nat, sep: Key, n: PID) {
    && f.Inv()
    && f.Live(q) && f.pages[q].InnerShape() && i <= |f.pages[q].entries| && f.pages[q].Kid(i) == c
    && f.Live(c) && n !in f.pages
    && GoodSeparator(f.pages[c], slot, sep)
  }

  /** Where the separator falls in the parent. */
  lemma {:induction false} SeparatorInParent(f: Forest, q: PID, i: nat, c: PID, slot: nat, sep: Key, n: PID)
    requires CanSplit(f, q, i, c, slot, sep, n)
    ensures f.pages[q].Covers(sep) && i == f.pages[q].Pos(sep) && f.KidOk(q, i, c) && q != c
    ensures f.pages[q].KidUpper(i) == [] || Less(sep, f.pages[q].KidUpper(i))
    ensures f.pages[q].Ok() && f.pages[c].Ok() && f.pages[c].Covers(sep)
  {
    LessTotal(sep, f.pages[c].upper);
    hide Less, Common;
    assert f.KidsOk(q);
    assert f.KidOk(q, i, c);
    KidRange(f.pages[q], i, sep);
  }

  /** What SplitAt changes, page by page. */
  lemma {:induction false} SplitFrame(f: Forest, q: PID, i: nat, c: PID, slot: nat, sep: Key, n: PID)
    requires CanSplit(f, q, i, c, slot, sep, n)
    ensures var g := SplitAt(f, q, c, slot, sep, n);
      && g.root == f.root && q != c && q != n && c != n && !f.Live(n)
      && (forall x :: g.Live(x) <==> f.Live(x) || x == n)
      && (forall x :: f.Live(x) ==> g.level[x] == f.level[x])
      && (forall x :: f.Live(x) && x != c && x != q ==> g.pages[x] == f.pages[x])
      && g.level[n] == f.level[c]
      && g.pages[c] == f.pages[c].SplitLeft(slot, sep, n)
      && g.pages[n] == f.pages[c].SplitRight(slot, sep)
      && g.pages[q].lower == f.pages[q].lower && g.pages[q].upper == f.pages[q].upper
      && !g.pages[q].isLeaf && f.level[q] == f.level[c] + 1
  {
    hide Less, Common, Page.Covers, Page.Ok;
    SeparatorInParent(f, q, i, c, slot, sep, n);
    hide GoodSeparator;
  }

  lemma {:induction false} SplitShaped(f: Forest, q: PID, i: nat, c: PID, slot: nat, sep: Key, n: PID)
    requires CanSplit(f, q, i, c, slot, sep, n)
    ensures var g := SplitAt(f, q, c, slot, sep, n); g.Rooted() && g.Shaped()
  {
    hide Less, Common, Page.Covers, Page.Ok;
    SeparatorInParent(f, q, i, c, slot, sep, n);
    SplitOk(f.pages[c], slot, sep, n);
    AddSeparatorKids(f.pages[q], sep, c, n);
  }

  /** Children of pages the split did not touch. */
  lemma {:induction false} SplitTiledElsewhere(f: Forest, q: PID, i: nat, c: PID, slot: nat, sep: Key, n: PID, x: PID)
    requires CanSplit(f, q, i, c, slot, sep, n)
    requires f.Live(x) && x != q && x != c && f.pages[x].InnerShape()
    ensures SplitAt(f, q, c, slot, sep, n).KidsOk(x)
  {
    hide Less, Common, Page.Covers, SplitAt;
    var g := SplitAt(f, q, c, slot, sep, n);
    hide Page.Ok;
    SeparatorInParent(f, q, i, c, slot, sep, n);
    SplitFrame(f, q, i, c, slot, sep, n);
    hide GoodSeparator;
    assert f.KidsOk(x);
    forall j | 0 <= j <= |g.pages[x].entries|
      ensures g.KidOk(x, j, g.pages[x].Kid(j))
    {
      var y := f.pages[x].Kid(j);
      assert f.KidOk(x, j, y);
      if y == c { OneParent(f, q, x, j, c, sep); }
    }
  }

  lemma {:induction false} SplitTiledParent(f: Forest, q: PID, i: nat, c: PID, slot: nat, sep: Key, n: PID)
    requires CanSplit(f, q, i, c, slot, sep, n)
    ensures var g := SplitAt(f, q, c, slot, sep, n); g.pages[q].InnerShape() && g.KidsOk(q)
  {
    hide Less, Common, Page.Covers, Page.AddSeparator, LowerBound, Forest.Disjoint, Forest.Chained;
    var g := SplitAt(f, q, c, slot, sep, n);
    hide Page.Ok;
    SeparatorInParent(f, q, i, c, slot, sep, n);
    AddSeparatorKids(f.pages[q], sep, c, n);
    hide GoodSeparator;
    forall j | 0 <= j <= |g.pages[q].entries|
      ensures g.KidOk(q, j, g.pages[q].Kid(j))
    {
      if j != i && j != i + 1 { OtherKid(f, q, i, c, sep, Before(j, i)); }
    }
  }

  /** The other children of the parent are other pages. */
  lemma {:induction false} OtherKid(f: Forest, q: PID, i: nat, c: PID, sep: Key, j: nat)
    requires f.Inv() && f.Live(q) && f.Live(c) && f.pages[q].InnerShape() && i != j && j <= |f.pages[q].entries|
    requires f.pages[q].Covers(sep) && f.pages[c].Covers(sep) && i == f.pages[q].Pos(sep) && f.KidOk(q, i, c)
    ensures f.KidOk(q, j, f.pages[q].Kid(j)) && f.pages[q].Kid(j) != c
  {
    hide Page.Covers, Page.Ok, LowerBound, Forest.Disjoint, Forest.Chained;
    assert f.KidsOk(q);
    if f.pages[q].Kid(j) == c { OneParent(f, q, q, j, c, sep); }
  }

  /** The left half keeps the children up to the separator's, the last one as its rightmost child. */
  lemma {:induction false} SplitTiledLeft(f: Forest, q: PID, i: nat, c: PID, slot: nat, sep: Key, n: PID)
    requires CanSplit(f, q, i, c, slot, sep, n) && f.pages[c].InnerShape()
    ensures var g := SplitAt(f, q, c, slot, sep, n); g.pages[c].InnerShape() && g.KidsOk(c)
  {
    hide Less, Common, Page.Covers, Page.Ok, SplitAt;
    var g := SplitAt(f, q, c, slot, sep, n);
    SplitFrame(f, q, i, c, slot, sep, n);
    assert f.KidsOk(c);
    forall j | 0 <= j <= |g.pages[c].entries|
      ensures g.KidOk(c, j, g.pages[c].Kid(j))
    {
      assert f.KidOk(c, j, f.pages[c].Kid(j));
    }
  }

  /** The right half takes the children behind the separator. */
  lemma {:induction false} SplitTiledRight(f: Forest, q: PID, i: nat, c: PID, slot: nat, sep: Key, n: PID)
    requires CanSplit(f, q, i, c, slot, sep, n) && f.pages[c].InnerShape()
    ensures var g := SplitAt(f, q, c, slot, sep, n); g.pages[n].InnerShape() && g.KidsOk(n)
  {
    hide Less, Common, Page.Covers, Page.Ok, SplitAt;
    var g := SplitAt(f, q, c, slot, sep, n);
    SplitFrame(f, q, i, c, slot, sep, n);
    assert f.KidsOk(c);
    forall j | 0 <= j <= |g.pages[n].entries|
      ensures g.KidOk(n, j, g.pages[n].Kid(j))
    {
      assert f.KidOk(c, slot + 1 + j, f.pages[c].Kid(slot + 1 + j));
    }
  }

  lemma {:induction false} SplitTiled(f: Forest, q: PID, i: nat, c: PID, slot: nat, sep: Key, n: PID)
    requires CanSplit(f, q, i, c, slot, sep, n)
    ensures SplitAt(f, q, c, slot, sep, n).Tiled()
  {
    var g := SplitAt(f, q, c, slot, sep, n);
    hide Less, Common, Page.Covers, Page.Ok;
    hide Page.AddSeparator;
    forall x | g.Live(x) && g.pages[x].InnerShape()
      ensures g.KidsOk(x)
    {
      if x == q {
        SplitTiledParent(f, q, i, c, slot, sep, n);
      } else if x == c {
        SplitTiledLeft(f, q, i, c, slot, sep, n);
      } else if x == n {
        SplitTiledRight(f, q, i, c, slot, sep, n);
      } else {
        SplitTiledElsewhere(f, q, i, c, slot, sep, n, x);
      }
    }
  }

  /** Both halves keep clear of whatever the split page kept clear of. */
  lemma {:induction false} HalvesApart(p: Page, b: Page, slot: nat, sep: Key, n: PID)
    requires GoodSeparator(p, slot, sep) && (p.isLeaf || p.InnerShape())
    ensures Apart(p.SplitLeft(slot, sep, n), p.SplitRight(slot, sep))
    ensures Apart(p, b) ==> Apart(p.SplitLeft(slot, sep, n), b) && Apart(p.SplitRight(slot, sep), b)
  {
    LessLessEqTrans(sep, p.upper, b.lower);
    LessLessEqTrans(b.upper, p.lower, sep);
    LessTotal(sep, sep);
    LessTotal(sep, b.lower);
    LessTotal(b.upper, sep);
    hide Less, Common;
  }

  /** Replacing page c by two pages that keep clear of each other and of what c kept clear of. */
  lemma {:induction false} HalvesDisjoint(f: Forest, g: Forest, c: PID, n: PID)
    requires f.Disjoint() && f.Live(c) && !f.Live(n)
    requires forall x :: g.Live(x) <==> f.Live(x) || x == n
    requires g.Live(n) && g.level[n] == f.level[c]
    requires forall x :: f.Live(x) ==> g.Live(x) && g.level[x] == f.level[x]
    requires forall x :: f.Live(x) && x != c ==>
                           g.Live(x) && g.pages[x].lower == f.pages[x].lower && g.pages[x].upper == f.pages[x].upper
    requires g.Live(c) && Apart(g.pages[c], g.pages[n])
    requires forall x :: f.Live(x) && Apart(f.pages[c], f.pages[x]) ==>
      Apart(g.pages[c], f.pages[x]) && Apart(g.pages[n], f.pages[x])
    ensures g.Disjoint()
  {
    hide Less, Common;
  }

  lemma {:induction false} SplitDisjoint(f: Forest, q: PID, i: nat, c: PID, slot: nat, sep: Key, n: PID)
    requires CanSplit(f, q, i, c, slot, sep, n)
    ensures SplitAt(f, q, c, slot, sep, n).Disjoint()
  {
    hide Less, Common, Page.Covers, SplitAt, Page.SplitLeft, Page.SplitRight, Apart;
    var g := SplitAt(f, q, c, slot, sep, n);
    hide Page.Ok;
    SplitFrame(f, q, i, c, slot, sep, n);
    forall x | f.Live(x)
      ensures Apart(f.pages[c], f.pages[x]) ==> Apart(g.pages[c], f.pages[x]) && Apart(g.pages[n], f.pages[x])
    {
      HalvesApart(f.pages[c], f.pages[x], slot, sep, n);
    }
    HalvesApart(f.pages[c], f.pages[c], slot, sep, n);
    HalvesDisjoint(f, g, c, n);
  }

  lemma {:induction false} SplitChained(f: Forest, q: PID, i: nat, c: PID, slot: nat, sep: Key, n: PID)
    requires CanSplit(f, q, i, c, slot, sep, n)
    ensures SplitAt(f, q, c, slot, sep, n).Chained()
  {
    hide Less, Common, Page.Covers, SplitAt;
    var g := SplitAt(f, q, c, slot, sep, n);
    SplitFrame(f, q, i, c, slot, sep, n);
    forall x | g.Live(x) && g.pages[x].isLeaf
      ensures g.LinkOk(x)
    {
      if x != n { assert f.Live(x) && f.LinkOk(x); } else { assert f.LinkOk(c); }
    }
  }

  lemma {:induction false} SplitInv(f: Forest, q: PID, i: nat, c: PID, slot: nat, sep: Key, n: PID)
    requires CanSplit(f, q, i, c, slot, sep, n)
    ensures SplitAt(f, q, c, slot, sep, n).Inv()
  {
    SplitShaped(f, q, i, c, slot, sep, n);
    SplitTiled(f, q, i, c, slot, sep, n);
    SplitDisjoint(f, q, i, c, slot, sep, n);
    SplitChained(f, q, i, c, slot, sep, n);
  }

  // ---------------------------------------------------------------------- what a leaf holds

  lemma {:induction false} GetIs(p: Page, i: nat)
    requires Sorted(p.entries) && i < |p.entries|
    ensures Get(p, p.entries[i].key) == Some(p.entries[i].val)
  {
    LowerBoundSplits(p.entries, p.entries[i].key);
  }

  lemma {:induction false} GetNone(p: Page, k: Key)
    requires forall i :: 0 <= i < |p.entries| ==> p.entries[i].key != k
    ensures Get(p, k) == None
  {
  }

  /** A page whose entries are a run of another's agrees with it on every key whose entry is in the run. */
  lemma {:induction false} GetRun(p: Page, r: Page, from: nat, k: Key)
    requires Sorted(p.entries) && Sorted(r.entries)
    requires from + |r.entries| <= |p.entries| && r.entries == p.entries[from..from + |r.entries|]
    requires forall i :: 0 <= i < |p.entries| && p.entries[i].key == k ==> from <= i < from + |r.entries|
    ensures Get(r, k) == Get(p, k)
  {
    hide Less, LowerBound;
    if p.Found(k) {
      var i := p.Pos(k);
      assert r.entries[i - from] == p.entries[i];
      GetIs(r, i - from);
    } else {
      forall i | 0 <= i < |r.entries|
        ensures r.entries[i].key != k
      {
        assert r.entries[i] == p.entries[from + i];
        if r.entries[i].key == k { GetIs(p, from + i); }
      }
      GetNone(r, k);
    }
  }

  /** The halves of a split leaf know what the leaf knew. */
  lemma {:induction false} SplitAgrees(p: Page, slot: nat, sep: Key, n: PID, contents: map<Key, seq<byte>>)
    requires p.Ok() && p.isLeaf && GoodSeparator(p, slot, sep) && Agrees(p, contents)
    ensures Agrees(p.SplitLeft(slot, sep, n), contents) && Agrees(p.SplitRight(slot, sep), contents)
  {
    var l, r := p.SplitLeft(slot, sep, n), p.SplitRight(slot, sep);
    SplitOk(p, slot, sep, n);
    forall k | l.Covers(k) || r.Covers(k)
      ensures p.Covers(k) && (l.Covers(k) ==> Get(l, k) == Get(p, k)) && (r.Covers(k) ==> Get(r, k) == Get(p, k))
    {
      SplitGet(p, slot, sep, n, k);
    }
    hide Less, Common, Page.Covers, Page.Ok, Get, GoodSeparator;
    forall k | l.Covers(k) || r.Covers(k)
      ensures AgreesOn(p, contents, k)
    {
    }
  }

  /** The separator divides the keys of the page it was chosen for. */
  lemma {:induction false} SeparatorSides(p: Page, slot: nat, sep: Key)
    requires p.Ok() && GoodSeparator(p, slot, sep)
    ensures forall i :: 0 <= i <= slot ==> LessEq(p.entries[i].key, sep)
    ensures forall i :: slot < i < |p.entries| ==> Less(sep, p.entries[i].key)
  {
    hide Less, Common, Page.Covers;
    forall i | 0 <= i <= slot
      ensures LessEq(p.entries[i].key, sep)
    {
      if i < slot { LessLessEqTrans(p.entries[i].key, p.entries[slot].key, sep); LessTotal(p.entries[i].key, sep); }
    }
    forall i | slot < i < |p.entries|
      ensures Less(sep, p.entries[i].key)
    {
      if slot + 1 < i { LessTrans(sep, p.entries[slot + 1].key, p.entries[i].key); }
    }
  }

  lemma {:induction false} SplitGetLeft(p: Page, slot: nat, sep: Key, n: PID, k: Key)
    requires p.Ok() && p.isLeaf && GoodSeparator(p, slot, sep)
    requires p.SplitLeft(slot, sep, n).Ok() && p.SplitLeft(slot, sep, n).Covers(k)
    ensures p.Covers(k) && Get(p.SplitLeft(slot, sep, n), k) == Get(p, k)
  {
    hide Less, Common, Get, Page.Ok;
    var l := p.SplitLeft(slot, sep, n);
    LessLessEqTrans(k, sep, p.upper);
    LessTotal(k, p.upper);
    SeparatorSides(p, slot, sep);
    assert Sorted(p.entries) && Sorted(l.entries) by { SortedOk(p); SortedOk(l); }
    assert forall i :: 0 <= i < |p.entries| && p.entries[i].key == k ==> i < slot + 1;
    GetRun(p, l, 0, k);
  }

  lemma {:induction false} SplitGetRight(p: Page, slot: nat, sep: Key, k: Key)
    requires p.Ok() && p.isLeaf && GoodSeparator(p, slot, sep)
    requires p.SplitRight(slot, sep).Ok() && p.SplitRight(slot, sep).Covers(k)
    ensures p.Covers(k) && Get(p.SplitRight(slot, sep), k) == Get(p, k)
  {
    hide Less, Common, Get, Page.Ok;
    var r := p.SplitRight(slot, sep);
    LessLessEqTrans(p.lower, sep, k);
    LessTotal(sep, k);
    SeparatorSides(p, slot, sep);
    assert Sorted(p.entries) && Sorted(r.entries) by { SortedOk(p); SortedOk(r); }
    assert forall i :: 0 <= i < |p.entries| && p.entries[i].key == k ==> slot + 1 <= i;
    GetRun(p, r, slot + 1, k);
  }

  lemma {:induction false} SortedOk(p: Page)
    requires p.Ok()
    ensures Sorted(p.entries)
  {
  }

  lemma {:induction false} SplitGet(p: Page, slot: nat, sep: Key, n: PID, k: Key)
    requires p.Ok() && p.isLeaf && GoodSeparator(p, slot, sep)
    requires p.SplitLeft(slot, sep, n).Ok() && p.SplitRight(slot, sep).Ok()
    ensures var l := p.SplitLeft(slot, sep, n); l.Covers(k) ==> p.Covers(k) && Get(l, k) == Get(p, k)
    ensures var r := p.SplitRight(slot, sep); r.Covers(k) ==> p.Covers(k) && Get(r, k) == Get(p, k)
  {
    hide Less, Common, Get, Page.Ok, Page.Covers;
    if p.SplitLeft(slot, sep, n).Covers(k) { SplitGetLeft(p, slot, sep, n, k); }
    if p.SplitRight(slot, sep).Covers(k) { SplitGetRight(p, slot, sep, k); }
  }

  /** A split keeps the tree invariant and the tree's contents. */
  lemma {:induction false} SplitKeeps(f: Forest, q: PID, i: nat, c: PID, slot: nat, sep: Key, n: PID,
                                      contents: map<Key, seq<byte>>)
    requires CanSplit(f, q, i, c, slot, sep, n) && f.Holds(contents)
    ensures var g := SplitAt(f, q, c, slot, sep, n); g.Inv() && g.Holds(contents)
  {
    hide Less, Common, Page.Covers, SplitAt, Agrees;
    SplitInv(f, q, i, c, slot, sep, n);
    SplitFrame(f, q, i, c, slot, sep, n);
    SeparatorInParent(f, q, i, c, slot, sep, n);
    var g := SplitAt(f, q, c, slot, sep, n);
    forall x | g.Live(x) && g.pages[x].isLeaf
      ensures Agrees(g.pages[x], contents)
    {
      if x == c || x == n {
        assert f.pages[c].isLeaf && Agrees(f.pages[c], contents);
        SplitAgrees(f.pages[c], slot, sep, n, contents);
      } else {
        assert Agrees(f.pages[x], contents);
      }
    }
  }

  /** After a split, a key that reached the split child reaches the left page if it is at most sep and
      the new page otherwise; every other key reaches the child it reached before. */
  lemma {:induction false} SplitRouting(f: Forest, q: PID, i: nat, c: PID, slot: nat, sep: Key, n: PID, k: Key)
    requires CanSplit(f, q, i, c, slot, sep, n) && f.pages[q].Covers(k)
    ensures var g := SplitAt(f, q, c, slot, sep, n);
      && g.pages[q].InnerShape()
      && g.pages[q].LookupInner(k) ==
           if f.pages[q].LookupInner(k) != c then f.pages[q].LookupInner(k)
           else if LessEq(k, sep) then c else n
  {
    var g := SplitAt(f, q, c, slot, sep, n);
    SplitInv(f, q, i, c, slot, sep, n);
    SplitFrame(f, q, i, c, slot, sep, n);
    RouteDown(f, q, k);
    RouteDown(g, q, k);
    RouteUnique(f, g, q, c, n, slot, sep, k);
  }

  lemma {:induction false} RouteUnique(f: Forest, g: Forest, q: PID, c: PID, n: PID, slot: nat, sep: Key, k: Key)
    requires f.Inv() && g.Inv() && f.Live(q) && f.Live(c) && g.Live(c) && g.Live(n) && g.Live(q)
    requires f.pages[q].InnerShape() && g.pages[q].InnerShape() && f.level[c] == g.level[c] == g.level[n]
    requires slot < |f.pages[c].entries| && GoodSeparator(f.pages[c], slot, sep)
    requires !f.pages[c].isLeaf ==> f.pages[c].InnerShape()
    requires g.pages[c] == f.pages[c].SplitLeft(slot, sep, n) && g.pages[n] == f.pages[c].SplitRight(slot, sep)
    requires
      var y := f.pages[q].LookupInner(k);
      && f.Live(y) && f.level[y] == f.level[c] && f.pages[y].Covers(k)
      && (y != c ==> g.Live(y) && g.level[y] == f.level[y] && g.pages[y] == f.pages[y])
    requires var z := g.pages[q].LookupInner(k); g.Live(z) && g.level[z] == g.level[c] && g.pages[z].Covers(k)
    ensures g.pages[q].LookupInner(k) ==
      if f.pages[q].LookupInner(k) != c then f.pages[q].LookupInner(k) else if LessEq(k, sep) then c else n
  {
    var y, z := f.pages[q].LookupInner(k), g.pages[q].LookupInner(k);
    hide Common, Page.Ok;
    if y != c {
      SamePageOnLevel(g, y, z, k);
    } else if LessEq(k, sep) {
      SamePageOnLevel(g, c, z, k);
    } else {
      SamePageOnLevel(g, n, z, k);
    }
  }
}
