/** Steps on leaves: storing and removing a record, and merging a leaf with its right neighbour. */
module LeafSteps {
  import opened Bytes
  import opened Pages
  import opened Splits
  import opened Forests
  import opened ForestSteps

  // ---------------------------------------------------------------------- one leaf changes its entries

  ghost predicate SameRange(p: Page, r: Page) {
    r.isLeaf == p.isLeaf && r.lower == p.lower && r.upper == p.upper && r.link == p.link
  }

  function WithPage(f: Forest, p: PID, page: Page): Forest {
    Forest(f.pages[p := page], f.level, f.root)
  }

  lemma {:induction false} WithLeafTiled(f: Forest, p: PID, page: Page)
    requires f.Tiled() && f.Live(p) && f.pages[p].isLeaf && SameRange(f.pages[p], page)
    ensures WithPage(f, p, page).Tiled()
  {
    var g := WithPage(f, p, page);
    forall x | g.Live(x) && g.pages[x].InnerShape()
      ensures g.KidsOk(x)
    {
      assert f.Live(x) && f.KidsOk(x);
      forall i | 0 <= i <= |g.pages[x].entries|
        ensures g.KidOk(x, i, g.pages[x].Kid(i))
      {
        assert f.KidOk(x, i, f.pages[x].Kid(i));
      }
    }
  }

  lemma {:induction false} WithLeafDisjoint(f: Forest, p: PID, page: Page)
    requires f.Disjoint() && f.Chained() && f.Live(p) && f.pages[p].isLeaf && SameRange(f.pages[p], page)
    ensures WithPage(f, p, page).Disjoint() && WithPage(f, p, page).Chained()
  {
    hide LessEq;
    var g := WithPage(f, p, page);
    assert forall x :: g.Live(x) <==> f.Live(x);
    forall a, b | g.Live(a) && g.Live(b) && a != b && g.level[a] == g.level[b]
      ensures Apart(g.pages[a], g.pages[b])
    {
      assert Apart(f.pages[a], f.pages[b]);
    }
    forall x | g.Live(x) && g.pages[x].isLeaf
      ensures g.LinkOk(x)
    {
      assert f.LinkOk(x);
    }
  }

  lemma {:induction false} WithLeafInv(f: Forest, p: PID, page: Page)
    requires f.Inv() && f.Live(p) && f.pages[p].isLeaf
    requires page.Ok() && SameRange(f.pages[p], page)
    ensures WithPage(f, p, page).Inv()
  {
    hide Page.Ok, Forest.Tiled, Forest.Disjoint, Forest.Chained;
    WithLeafTiled(f, p, page);
    WithLeafDisjoint(f, p, page);
  }

  /** The leaf p changed its record for one covered key; the other leaves agree with the new contents. */
  lemma {:induction false} WithLeafHolds(f: Forest, p: PID, page: Page, k: Key,
                                         contents: map<Key, seq<byte>>, contents': map<Key, seq<byte>>)
    requires f.Inv() && f.Holds(contents) && f.Live(p) && f.pages[p].isLeaf && f.pages[p].Covers(k)
    requires SameRange(f.pages[p], page)
    requires forall x :: x != k ==> Get(page, x) == Get(f.pages[p], x)
    requires AgreesOn(page, contents', k)
    requires forall x :: x != k ==> MapGet(contents', x) == MapGet(contents, x)
    ensures WithPage(f, p, page).Holds(contents')
  {
    hide Less, Common, Page.Ok, Get;
    var g := WithPage(f, p, page);
    forall x, key | g.Live(x) && g.pages[x].isLeaf && g.pages[x].Covers(key)
      ensures AgreesOn(g.pages[x], contents', key)
    {
      assert f.Live(x) && Agrees(f.pages[x], contents) && AgreesOn(f.pages[x], contents, key);
      if x != p && key == k { SamePageOnLevel(f, x, p, k); }
    }
  }

  lemma {:induction false} GetInsert(p: Page, k: Key, v: Value, x: Key)
    requires p.Ok() && p.isLeaf && p.Covers(k) && k != [] && !p.Found(k) && v.Record?
    ensures p.Insert(k, v).Ok()
    ensures Get(p.Insert(k, v), x) == if x == k then Some(v) else Get(p, x)
  {
    hide Less, Common, LowerBound, Page.Covers;
    InsertOk(p, k, v);
    var r, s := p.Insert(k, v), p.Pos(k);
    GetIs(r, s);
    if x != k {
      if p.Found(x) {
        var i := p.Pos(x);
        GetIs(r, if i < s then i else i + 1);
      } else if r.Found(x) {
        GetIs(p, Before(r.Pos(x), s));
      }
    }
  }

  lemma {:induction false} GetRemove(p: Page, slot: nat, x: Key)
    requires p.Ok() && slot < |p.entries|
    ensures p.RemoveAt(slot).Ok()
    ensures Get(p.RemoveAt(slot), x) == if x == p.entries[slot].key then None else Get(p, x)
  {
    hide Less, Common, LowerBound, Page.RemoveAt, Page.Covers, Page.Ok;
    var r := p.RemoveAt(slot);
    RemoveOk(p, slot);
    SortedOk(p);
    SortedOk(r);
    GetIs(p, slot);
    if p.Found(x) && p.Pos(x) != slot {
      var i := p.Pos(x);
      GetIs(p, i);
      GetIs(r, if i < slot then i else i - 1);
    } else if r.Found(x) {
      GetIs(p, if r.Pos(x) < slot then r.Pos(x) else r.Pos(x) + 1);
      LessTotal(x, p.entries[slot].key);
    }
  }

  /** Storing a fresh record in the leaf that covers its key. */
  lemma {:induction false} StoreKeeps(f: Forest, p: PID, k: Key, bytes: seq<byte>, contents: map<Key, seq<byte>>)
    requires f.Inv() && f.Holds(contents) && f.Live(p) && f.pages[p].isLeaf && f.pages[p].Covers(k)
    requires k != [] && k !in contents
    ensures var g := WithPage(f, p, f.pages[p].Insert(k, Record(bytes)));
      g.Inv() && g.Holds(contents[k := bytes])
  {
    var page := f.pages[p];
    assert AgreesOn(page, contents, k);
    var page' := page.Insert(k, Record(bytes));
    forall x
      ensures page'.Ok() && Get(page', x) == if x == k then Some(Record(bytes)) else Get(page, x)
    {
      GetInsert(page, k, Record(bytes), x);
    }
    assert SameRange(page, page');
    hide Less, Common, LowerBound, Page.Insert, Page.Covers, Page.Ok, Get;
    WithLeafInv(f, p, page');
    WithLeafHolds(f, p, page', k, contents, contents[k := bytes]);
  }

  /** Removing the record at a slot of a leaf. */
  lemma {:induction false} RemoveKeeps(f: Forest, p: PID, slot: nat, contents: map<Key, seq<byte>>)
    requires f.Inv() && f.Holds(contents) && f.Live(p) && f.pages[p].isLeaf && slot < |f.pages[p].entries|
    ensures var g := WithPage(f, p, f.pages[p].RemoveAt(slot));
      g.Inv() && g.Holds(contents - {f.pages[p].entries[slot].key})
  {
    var page := f.pages[p];
    var k := page.entries[slot].key;
    var page' := page.RemoveAt(slot);
    forall x
      ensures page'.Ok() && Get(page', x) == if x == k then None else Get(page, x)
    {
      GetRemove(page, slot, x);
    }
    assert SameRange(page, page');
    assert page.Covers(k);
    hide Less, Common, LowerBound, Page.RemoveAt, Page.Covers, Page.Ok, Get;
    WithLeafInv(f, p, page');
    WithLeafHolds(f, p, page', k, contents, contents - {k});
  }

  // ---------------------------------------------------------------------- merging

  /** The forest after leaf c, child slot of q, absorbed its right neighbour r. */
  function MergeAt(f: Forest, q: PID, slot: nat, c: PID, r: PID): Forest
    requires q in f.pages && c in f.pages && r in f.pages && f.pages[q].InnerShape() && slot < |f.pages[q].entries|
  {
    Forest(f.pages[c := f.pages[c].Merge(f.pages[r])][q := f.pages[q].DropSeparator(slot, c)], f.level - {r}, f.root)
  }

  ghost predicate CanMerge(f: Forest, q: PID, slot: nat, c: PID, r: PID) {
    && f.Inv()
    && f.Live(q) && f.pages[q].InnerShape() && slot + 1 < |f.pages[q].entries|
    && f.pages[q].Kid(slot) == c && f.pages[q].Kid(slot + 1) == r
    && f.level[q] == 1
  }

  lemma {:induction false} MergeFacts(f: Forest, q: PID, slot: nat, c: PID, r: PID)
    requires CanMerge(f, q, slot, c, r)
    ensures f.KidOk(q, slot, c) && f.KidOk(q, slot + 1, r) && f.pages[q].Ok() && q != c && q != r && c != r
    ensures f.pages[c].Ok() && f.pages[r].Ok() && f.pages[c].isLeaf && f.pages[r].isLeaf && f.Live(c) && f.Live(r)
    ensures f.pages[q].entries[slot].key != [] && f.pages[q].entries[slot + 1].key != []
  {
    hide Less, Common, Page.Covers;
    var key, next := f.pages[q].entries[slot].key, f.pages[q].entries[slot + 1].key;
    assert f.KidsOk(q);
    assert f.KidOk(q, slot, c) && f.KidOk(q, slot + 1, r);
    assert Less(key, next);
    LessTotal(key, next);
  }

  lemma {:induction false} MergeFrame(f: Forest, q: PID, slot: nat, c: PID, r: PID)
    requires CanMerge(f, q, slot, c, r)
    ensures f.KidOk(q, slot, c) && f.KidOk(q, slot + 1, r) && f.pages[q].Ok() && q != c && q != r && c != r
    ensures f.pages[c].Ok() && f.pages[r].Ok() && f.pages[c].isLeaf && f.pages[r].isLeaf
    ensures f.pages[c].upper == f.pages[r].lower == f.pages[q].entries[slot].key != []
    ensures f.pages[r].upper == f.pages[q].entries[slot + 1].key != []
    ensures f.level[c] == f.level[r] == 0 && f.Live(q) && f.Live(c) && f.Live(r)
    ensures var g := MergeAt(f, q, slot, c, r);
      && g.root == f.root && g.Live(c) && g.Live(q)
      && (forall x :: g.Live(x) <==> f.Live(x) && x != r)
      && (forall x :: g.Live(x) ==> g.level[x] == f.level[x])
      && (forall x :: g.Live(x) && x != c && x != q ==> g.pages[x] == f.pages[x])
      && g.pages[c] == f.pages[c].Merge(f.pages[r])
      && g.pages[q] == f.pages[q].DropSeparator(slot, c)
  {
    hide Less, Common, Page.Covers, Page.Ok, Forest.Tiled, Forest.Disjoint, Forest.Chained, Page.DropSeparator,
      Page.Merge;
    MergeFacts(f, q, slot, c, r);
  }

  /** Both merged leaves have one place in the tree. */
  lemma {:induction false} MergedParent(f: Forest, q: PID, slot: nat, c: PID, r: PID, x: PID, j: nat)
    requires CanMerge(f, q, slot, c, r)
    requires f.Live(x) && f.pages[x].InnerShape() && j <= |f.pages[x].entries|
    ensures f.pages[x].Kid(j) == c ==> x == q && j == slot
    ensures f.pages[x].Kid(j) == r ==> x == q && j == slot + 1
  {
    MergeFrame(f, q, slot, c, r);
    var key, next := f.pages[q].entries[slot].key, f.pages[q].entries[slot + 1].key;
    LessTotal(key, key);
    LessTotal(next, next);
    assert f.pages[c].Covers(key) && f.pages[r].Covers(next);
    hide Less, Common, MergeAt;
    KidRange(f.pages[q], slot, key);
    KidRange(f.pages[q], slot + 1, next);
    if f.pages[x].Kid(j) == c { OneParent(f, q, x, j, c, key); }
    if f.pages[x].Kid(j) == r { OneParent(f, q, x, j, r, next); }
  }

  lemma {:induction false} MergeShaped(f: Forest, q: PID, slot: nat, c: PID, r: PID)
    requires CanMerge(f, q, slot, c, r)
    ensures var g := MergeAt(f, q, slot, c, r); g.Rooted() && g.Shaped()
  {
    hide Less, Common, Page.Covers, Page.Ok;
    MergeFrame(f, q, slot, c, r);
    MergeOk(f.pages[c], f.pages[r]);
    DropSeparatorKids(f.pages[q], slot, c);
    LessTotal(f.pages[q].entries[slot].key, f.pages[q].entries[slot + 1].key);
  }

  lemma {:induction false} MergeTiledElsewhere(f: Forest, q: PID, slot: nat, c: PID, r: PID, x: PID)
    requires CanMerge(f, q, slot, c, r)
    requires f.Live(x) && x != q && x != c && x != r && f.pages[x].InnerShape()
    ensures MergeAt(f, q, slot, c, r).KidsOk(x)
  {
    hide Less, Common, Page.Covers, Page.Ok, MergeAt, Page.DropSeparator;
    var g := MergeAt(f, q, slot, c, r);
    MergeFrame(f, q, slot, c, r);
    DropSeparatorKids(f.pages[q], slot, c);
    assert f.KidsOk(x);
    forall j | 0 <= j <= |g.pages[x].entries|
      ensures g.KidOk(x, j, g.pages[x].Kid(j))
    {
      assert f.KidOk(x, j, f.pages[x].Kid(j));
      MergedParent(f, q, slot, c, r, x, j);
    }
  }

  lemma {:induction false} MergeTiledParent(f: Forest, q: PID, slot: nat, c: PID, r: PID)
    requires CanMerge(f, q, slot, c, r)
    ensures MergeAt(f, q, slot, c, r).pages[q].InnerShape()
    ensures MergeAt(f, q, slot, c, r).KidsOk(q)
  {
    hide Less, Common, Page.Covers, Page.Ok, MergeAt, Page.DropSeparator;
    var g := MergeAt(f, q, slot, c, r);
    MergeFrame(f, q, slot, c, r);
    DropSeparatorKids(f.pages[q], slot, c);
    assert f.KidsOk(q) && f.pages[q].InnerShape();
    forall j | 0 <= j <= |g.pages[q].entries|
      ensures g.KidOk(q, j, g.pages[q].Kid(j))
    {
      if j != slot {
        var j' := After(j, slot);
        assert f.KidOk(q, j', f.pages[q].Kid(j'));
        MergedParent(f, q, slot, c, r, q, j');
      }
    }
  }

  lemma {:induction false} MergeTiled(f: Forest, q: PID, slot: nat, c: PID, r: PID)
    requires CanMerge(f, q, slot, c, r)
    ensures MergeAt(f, q, slot, c, r).Tiled()
  {
    var g := MergeAt(f, q, slot, c, r);
    MergeFrame(f, q, slot, c, r);
    hide Less, Common, Page.Covers, Page.Ok, MergeAt;
    forall x | g.Live(x) && g.pages[x].InnerShape()
      ensures g.KidsOk(x)
    {
      if x == q {
        MergeTiledParent(f, q, slot, c, r);
      } else {
        MergeTiledElsewhere(f, q, slot, c, r, x);
      }
    }
  }

  lemma {:induction false} MergeApart(c: Page, r: Page, b: Page)
    requires c.upper == r.lower != []
    requires b.lower != [] && b.upper != [] ==> Less(b.lower, b.upper)
    requires Apart(c, b) && Apart(r, b)
    ensures Apart(c.Merge(r), b)
  {
    LessLessEqTrans(b.lower, b.upper, r.lower);
    hide Less, Common;
  }

  lemma {:induction false} MergeDisjoint(f: Forest, q: PID, slot: nat, c: PID, r: PID)
    requires CanMerge(f, q, slot, c, r)
    ensures MergeAt(f, q, slot, c, r).Disjoint()
  {
    hide Less, Common, Page.Covers, MergeAt, Page.DropSeparator, Page.Merge;
    var g := MergeAt(f, q, slot, c, r);
    MergeFrame(f, q, slot, c, r);
    DropSeparatorKids(f.pages[q], slot, c);
    forall b | f.Live(b) && b != c && b != r && f.level[b] == 0
      ensures Apart(g.pages[c], f.pages[b])
    {
      assert f.pages[b].Ok() && Apart(f.pages[c], f.pages[b]) && Apart(f.pages[r], f.pages[b]);
      MergeApart(f.pages[c], f.pages[r], f.pages[b]);
    }
    hide Apart;
    WidenedDisjoint(f, g, c);
  }

  /** Only leaf c has another range, and it is apart from the other leaves. */
  lemma {:induction false} WidenedDisjoint(f: Forest, g: Forest, c: PID)
    requires f.Disjoint() && (forall x :: g.Live(x) ==> f.Live(x) && g.level[x] == f.level[x]) && g.Live(c)
    requires g.level[c] == 0
    requires forall x :: g.Live(x) && x != c ==>
               g.pages[x].lower == f.pages[x].lower && g.pages[x].upper == f.pages[x].upper
    requires forall b :: g.Live(b) && b != c && f.level[b] == 0 ==> Apart(g.pages[c], f.pages[b])
    ensures g.Disjoint()
  {
    forall a, b | g.Live(a) && g.Live(b) && a != b && g.level[a] == g.level[b]
      ensures Apart(g.pages[a], g.pages[b])
    {
      if a != c && b != c { assert Apart(f.pages[a], f.pages[b]); }
    }
  }

  lemma {:induction false} MergeChained(f: Forest, q: PID, slot: nat, c: PID, r: PID)
    requires CanMerge(f, q, slot, c, r)
    ensures MergeAt(f, q, slot, c, r).Chained()
  {
    hide Common, MergeAt, Page.DropSeparator;
    var g := MergeAt(f, q, slot, c, r);
    MergeFrame(f, q, slot, c, r);
    DropSeparatorKids(f.pages[q], slot, c);
    var key, next := f.pages[r].lower, f.pages[r].upper;
    LessTotal(key, next);
    LessTotal(key, key);
    forall x | g.Live(x) && g.pages[x].isLeaf
      ensures g.LinkOk(x)
    {
      assert f.LinkOk(x) && f.LinkOk(r) && f.pages[x].Ok();
      if x != c && f.pages[x].link == To(r) {
        assert f.pages[x].Covers(key) && f.pages[c].Covers(key);
        SamePageOnLevel(f, x, c, key);
      }
    }
  }

  lemma {:induction false} MergeAgrees(c: Page, r: Page, contents: map<Key, seq<byte>>)
    requires c.Ok() && r.Ok() && c.isLeaf && r.isLeaf && c.upper == r.lower != []
    requires Agrees(c, contents) && Agrees(r, contents)
    ensures Agrees(c.Merge(r), contents)
  {
    var m := c.Merge(r);
    MergeOk(c, r);
    forall k | m.Covers(k)
      ensures AgreesOn(m, contents, k)
    {
      MergeGet(c, r, k);
      assert c.Covers(k) ==> AgreesOn(c, contents, k);
      assert r.Covers(k) ==> AgreesOn(r, contents, k);
    }
  }

  lemma {:induction false} MergeGet(c: Page, r: Page, k: Key)
    requires c.Ok() && r.Ok() && c.isLeaf && r.isLeaf && c.upper == r.lower != []
    requires c.Merge(r).Ok() && c.Merge(r).Covers(k)
    ensures (c.Covers(k) && Get(c.Merge(r), k) == Get(c, k)) || (r.Covers(k) && Get(c.Merge(r), k) == Get(r, k))
  {
    var m := c.Merge(r);
    hide Common, Get;
    if LessEq(k, c.upper) {
      forall i | |c.entries| <= i < |m.entries|
        ensures Less(c.upper, m.entries[i].key)
      {
        assert m.entries[i] == r.entries[i - |c.entries|];
      }
      GetRun(m, c, 0, k);
    } else {
      forall i | 0 <= i < |c.entries|
        ensures LessEq(m.entries[i].key, c.upper)
      {
        assert m.entries[i] == c.entries[i];
      }
      GetRun(m, r, |c.entries|, k);
    }
  }

  lemma {:induction false} MergeInv(f: Forest, q: PID, slot: nat, c: PID, r: PID)
    requires CanMerge(f, q, slot, c, r)
    ensures f.Live(q) && f.Live(c) && f.Live(r) && MergeAt(f, q, slot, c, r).Inv()
  {
    MergeFrame(f, q, slot, c, r);
    MergeShaped(f, q, slot, c, r);
    MergeTiled(f, q, slot, c, r);
    MergeDisjoint(f, q, slot, c, r);
    MergeChained(f, q, slot, c, r);
    hide MergeAt, Forest.Shaped, Forest.Tiled, Forest.Disjoint, Forest.Chained;
  }

  /** Merging two neighbouring leaves keeps the tree invariant and the tree's contents. */
  lemma {:induction false} MergeKeeps(f: Forest, q: PID, slot: nat, c: PID, r: PID, contents: map<Key, seq<byte>>)
    requires CanMerge(f, q, slot, c, r) && f.Holds(contents)
    ensures var g := MergeAt(f, q, slot, c, r); g.Inv() && g.Holds(contents)
  {
    hide Less, Common, Page.Covers, Page.Ok, MergeAt, Agrees, Forest.Inv;
    MergeInv(f, q, slot, c, r);
    MergeFrame(f, q, slot, c, r);
    var g := MergeAt(f, q, slot, c, r);
    assert Agrees(f.pages[c], contents) && Agrees(f.pages[r], contents);
    MergeAgrees(f.pages[c], f.pages[r], contents);
    forall x | g.Live(x) && g.pages[x].isLeaf
      ensures Agrees(g.pages[x], contents)
    {
      assert x != c ==> f.pages[x].isLeaf && Agrees(f.pages[x], contents);
    }
  }

  /** After a merge the parent sends every key of either leaf to the surviving page, all others as before. */
  lemma {:induction false} MergeRouting(f: Forest, q: PID, slot: nat, c: PID, r: PID, k: Key)
    requires CanMerge(f, q, slot, c, r) && f.pages[q].Covers(k)
    ensures var g := MergeAt(f, q, slot, c, r);
      && g.pages[q].InnerShape()
      && g.pages[q].LookupInner(k) == if f.pages[q].LookupInner(k) == r then c else f.pages[q].LookupInner(k)
  {
    var g := MergeAt(f, q, slot, c, r);
    MergeShaped(f, q, slot, c, r);
    MergeTiled(f, q, slot, c, r);
    MergeDisjoint(f, q, slot, c, r);
    MergeChained(f, q, slot, c, r);
    MergeFrame(f, q, slot, c, r);
    DropSeparatorKids(f.pages[q], slot, c);
    RouteDown(f, q, k);
    RouteDown(g, q, k);
    var y, z := f.pages[q].LookupInner(k), g.pages[q].LookupInner(k);
    MergeCovers(f.pages[c], f.pages[r], k);
    hide Less, Common, Page.Covers, Page.Ok, MergeAt, Page.Merge, Page.DropSeparator, Page.LookupInner;
    SamePageOnLevel(g, if y == r then c else y, z, k);
  }

  lemma {:induction false} MergeCovers(c: Page, r: Page, k: Key)
    requires c.Ok() && r.Ok() && c.upper == r.lower != []
    ensures c.Covers(k) || r.Covers(k) ==> c.Merge(r).Covers(k)
  {
    LessTotal(c.lower, c.upper);
    LessTotal(r.lower, r.upper);
    LessLessEqTrans(c.lower, c.upper, k);
    LessLessEqTrans(k, c.upper, r.upper);
    LessTotal(k, r.upper);
    LessTotal(c.upper, k);
  }
}
