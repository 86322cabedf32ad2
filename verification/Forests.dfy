/** The pages of one tree, their invariant, and the page-level steps that keep it. */
module Forests {
  import opened Bytes
  import opened Pages
  import opened Splits

  function MapGet(m: map<Key, seq<byte>>, k: Key): Option<seq<byte>> {
    if k in m then Some(m[k]) else None
  }

  /** The record a leaf holds for k. */
  function Get(p: Page, k: Key): Option<Value> {
    if p.Found(k) then Some(p.entries[p.Pos(k)].val) else None
  }

  /** Live pages with their height above the leaves; pages dropped by merges are in pages only. */
  datatype Forest = Forest(pages: map<PID, Page>, level: map<PID, nat>, root: PID) {

    ghost predicate Live(p: PID) { p in level && p in pages }

    ghost predicate Rooted() {
      && level.Keys <= pages.Keys
      && root in level
      && pages[root].lower == [] && pages[root].upper == []
      && forall p :: p in level ==> level[p] <= level[root]
    }

    ghost predicate Shaped() {
      forall p :: Live(p) ==> pages[p].Ok() && (pages[p].isLeaf <==> level[p] == 0)
    }

    /** c is the page for child i of q: one level down, covering exactly that child's range. */
    ghost predicate KidOk(q: PID, i: nat, c: PID)
      requires q in level && q in pages && i <= |pages[q].entries|
    {
      && Live(c)
      && level[c] + 1 == level[q]
      && pages[c].lower == pages[q].KidLower(i)
      && pages[c].upper == pages[q].KidUpper(i)
    }

    ghost predicate KidsOk(q: PID)
      requires q in level && q in pages && pages[q].InnerShape()
    {
      forall i :: 0 <= i <= |pages[q].entries| ==> KidOk(q, i, pages[q].Kid(i))
    }

    ghost predicate Tiled() {
      forall q :: Live(q) && pages[q].InnerShape() ==> KidsOk(q)
    }

    ghost predicate Disjoint() {
      forall a, b :: Live(a) && Live(b) && a != b && level[a] == level[b] ==> Apart(pages[a], pages[b])
    }

    ghost predicate LinkOk(p: PID)
      requires p in level && p in pages
    {
      match pages[p].link
      case NoNeighbour => pages[p].upper == []
      case To(q) => Live(q) && level[q] == 0 && pages[p].upper == pages[q].lower != []
    }

    ghost predicate Chained() {
      forall p :: Live(p) && pages[p].isLeaf ==> LinkOk(p)
    }

    ghost predicate Inv() {
      Rooted() && Shaped() && Tiled() && Disjoint() && Chained()
    }

    /** Every leaf knows exactly the contents in its range. */
    ghost predicate Holds(contents: map<Key, seq<byte>>) {
      forall p :: Live(p) && pages[p].isLeaf ==> Agrees(pages[p], contents)
    }
  }

  predicate Precedes(a: Page, b: Page) {
    a.upper != [] && b.lower != [] && LessEq(a.upper, b.lower)
  }

  ghost predicate Apart(a: Page, b: Page) {
    Precedes(a, b) || Precedes(b, a)
  }

  ghost predicate Agrees(p: Page, contents: map<Key, seq<byte>>) {
    forall k :: p.Covers(k) ==> AgreesOn(p, contents, k)
  }

  ghost predicate AgreesOn(p: Page, contents: map<Key, seq<byte>>, k: Key) {
    Get(p, k) == match MapGet(contents, k) case None => None case Some(v) => Some(Record(v))
  }

  // ---------------------------------------------------------------------- routing

  lemma {:induction false} ApartCovers(a: Page, b: Page, k: Key)
    requires Apart(a, b) && a.Covers(k)
    ensures !b.Covers(k)
  {
    LessLessEqTrans(k, a.upper, b.lower);
    LessLessEqTrans(b.upper, a.lower, k);
    LessTotal(k, b.lower);
    LessTotal(k, b.upper);
  }

  /** Two live pages of one level that cover the same key are the same page. */
  lemma {:induction false} SamePageOnLevel(f: Forest, a: PID, b: PID, k: Key)
    requires f.Disjoint() && f.Live(a) && f.Live(b) && f.level[a] == f.level[b]
    requires f.pages[a].Covers(k) && f.pages[b].Covers(k)
    ensures a == b
  {
    if a != b { ApartCovers(f.pages[a], f.pages[b], k); }
  }

  /** A key in the range of a child is covered by the parent and routed to that child. */
  lemma {:induction false} KidRange(q: Page, i: nat, k: Key)
    requires q.Ok() && q.InnerShape() && i <= |q.entries|
    requires q.KidLower(i) == [] || Less(q.KidLower(i), k)
    requires q.KidUpper(i) == [] || LessEq(k, q.KidUpper(i))
    ensures q.Covers(k) && i == q.Pos(k)
  {
    hide Less, Common;
    if i > 0 { LessLessEqTrans(q.lower, q.entries[i - 1].key, k); LessTotal(q.lower, q.entries[i - 1].key); }
    if i < |q.entries| { LessLessEqTrans(k, q.entries[i].key, q.upper); }
    RoutedRange(q, k, i);
  }

  /** Routing: a covered key's child is live, one level down, and covers the key. */
  lemma {:induction false} RouteDown(f: Forest, q: PID, k: Key)
    requires f.Inv() && f.Live(q) && !f.pages[q].isLeaf && f.pages[q].Covers(k)
    ensures f.pages[q].InnerShape()
    ensures var c := f.pages[q].LookupInner(k);
      && f.Live(c) && f.level[c] + 1 == f.level[q] && f.pages[c].Covers(k)
      && f.KidOk(q, f.pages[q].Pos(k), c)
  {
    hide Less, Common;
    var p := f.pages[q];
    RoutedRange(p, k, p.Pos(k));
    assert f.KidOk(q, p.Pos(k), p.Kid(p.Pos(k)));
  }

  /** On each level from the root down, exactly one page covers a key. */
  lemma {:induction false} OnePagePerLevel(f: Forest, level: nat, k: Key) returns (p: PID)
    requires f.Inv() && level <= f.level[f.root]
    ensures forall q :: f.Live(q) && f.level[q] == level && f.pages[q].Covers(k) <==> q == p
    decreases f.level[f.root] - level
  {
    p := f.root;
    if level < f.level[f.root] {
      var above := OnePagePerLevel(f, level + 1, k);
      assert f.Live(above) && !f.pages[above].isLeaf;
      RouteDown(f, above, k);
      p := f.pages[above].LookupInner(k);
    }
    hide Less, Common, Page.Ok, Page.Covers, Forest.Tiled, Forest.Chained, Forest.Disjoint, Page.LookupInner;
    forall q | f.Live(q) && f.level[q] == level && f.pages[q].Covers(k)
      ensures q == p
    {
      SamePageOnLevel(f, q, p, k);
    }
  }

  /** A live page has one place in one parent. */
  lemma {:induction false} OneParent(f: Forest, q: PID, x: PID, i: nat, c: PID, k: Key)
    requires f.Inv() && f.Live(q) && f.Live(x) && f.Live(c) && f.pages[c].Covers(k)
    requires f.pages[q].InnerShape() && f.KidOk(q, f.pages[q].Pos(k), c) && f.pages[q].Covers(k)
    requires f.pages[x].InnerShape() && i <= |f.pages[x].entries| && f.pages[x].Kid(i) == c
    ensures x == q && i == f.pages[q].Pos(k)
  {
    hide Less, Common;
    assert f.KidsOk(x);
    assert f.KidOk(x, i, c);
    KidRange(f.pages[x], i, k);
    SamePageOnLevel(f, q, x, k);
  }
}
