/** Range scans: ascending over leaf links, descending over lower fences, and the adapter's
    descending scan, which drops the first entry when the search key itself is absent. */
module Scans {
  import opened Bytes
  import opened Pages
  import opened Forests
  import ForestSteps
  import opened Trees

  ghost function KeysOf(es: seq<Entry>): set<Key> {
    set e | e in es :: e.key
  }

  /** es are records of the tree. */
  ghost predicate Records(contents: map<Key, seq<byte>>, es: seq<Entry>) {
    forall e :: e in es ==> e.key in contents && e.val == Record(contents[e.key])
  }

  ghost predicate Descending(es: seq<Entry>) {
    forall i, j :: 0 <= i < j < |es| ==> Less(es[j].key, es[i].key)
  }

  /** The callback asked to go on after every entry but possibly the last. */
  ghost predicate Continued(es: seq<Entry>, more: Entry -> bool) {
    forall i :: 0 <= i < |es| - 1 ==> more(es[i])
  }

  /** The records from key on, in ascending order, up to the first one after which the callback stops. */
  ghost predicate AscendingFrom(contents: map<Key, seq<byte>>, key: Key, es: seq<Entry>, more: Entry -> bool) {
    && Records(contents, es) && Sorted(es) && Continued(es, more)
    && (forall e :: e in es ==> LessEq(key, e.key))
    && forall k :: k in contents && LessEq(key, k) ==>
         k in KeysOf(es) || (es != [] && !more(es[|es| - 1]) && Less(es[|es| - 1].key, k))
  }

  /** The records up to key, in descending order, up to the first one after which the callback stops. */
  ghost predicate DescendingFrom(contents: map<Key, seq<byte>>, key: Key, es: seq<Entry>, more: Entry -> bool) {
    && Records(contents, es) && Descending(es) && Continued(es, more)
    && (forall e :: e in es ==> LessEq(e.key, key))
    && forall k :: k in contents && LessEq(k, key) ==>
         k in KeysOf(es) || (es != [] && !more(es[|es| - 1]) && Less(k, es[|es| - 1].key))
  }

  /** The leaves to the right of p. */
  ghost function RightOf(f: Forest, p: Page): set<PID> {
    set q | q in f.level && q in f.pages && f.pages[q].isLeaf && f.pages[q].lower != [] && p.upper != []
            && LessEq(p.upper, f.pages[q].lower)
  }

  /** The leaves to the left of p. */
  ghost function LeftOf(f: Forest, p: Page): set<PID> {
    set q | q in f.level && q in f.pages && f.pages[q].isLeaf && f.pages[q].upper != [] && p.lower != []
            && LessEq(f.pages[q].upper, p.lower)
  }

  lemma {:induction false} KeysOfSnoc(es: seq<Entry>, e: Entry)
    ensures KeysOf(es + [e]) == KeysOf(es) + {e.key}
  {
    assert e in es + [e];
    assert forall x :: x in es + [e] <==> x in es || x == e;
  }

  // ---------------------------------------------------------------------- ascending

  /** An ascending scan at position pos of leaf p: it has visited exactly what lies before. */
  ghost predicate ScannedTo(contents: map<Key, seq<byte>>, key: Key, p: Page, pos: nat, es: seq<Entry>) {
    && pos <= |p.entries|
    && Records(contents, es) && Sorted(es)
    && (forall e :: e in es ==> LessEq(key, e.key) && (p.upper != [] ==> LessEq(e.key, p.upper)))
    && (p.upper != [] ==> LessEq(key, p.upper))
    && (forall k :: k in contents && LessEq(key, k) && p.lower != [] && LessEq(k, p.lower) ==> k in KeysOf(es))
    && (forall i :: 0 <= i < pos && LessEq(key, p.entries[i].key) ==> p.entries[i].key in KeysOf(es))
    && (forall i :: pos <= i < |p.entries| ==> LessEq(key, p.entries[i].key))
    && (forall i, e :: pos <= i < |p.entries| && e in es ==> Less(e.key, p.entries[i].key))
  }

  /** A record from key on has been visited, or lies ahead on this leaf or behind its upper fence. */
  lemma {:induction false} Ahead(contents: map<Key, seq<byte>>, key: Key, p: Page, pos: nat, es: seq<Entry>, k: Key)
    requires p.Ok() && p.isLeaf && Agrees(p, contents) && ScannedTo(contents, key, p, pos, es)
    requires k in contents && LessEq(key, k)
    ensures k in KeysOf(es) || (p.upper != [] && Less(p.upper, k)) || (p.Found(k) && pos <= p.Pos(k))
  {
    hide Common, LowerBound;
    if p.Covers(k) {
      assert AgreesOn(p, contents, k);
    } else if p.lower != [] && !Less(p.lower, k) {
      assert LessEq(k, p.lower);
    }
  }

  lemma {:induction false} ScanStart(f: Forest, contents: map<Key, seq<byte>>, key: Key, p: Page)
    requires p.Ok() && p.Covers(key)
    ensures ScannedTo(contents, key, p, p.Pos(key), [])
  {
    LowerBoundSplits(p.entries, key);
    hide Common, LowerBound;
    forall k
      ensures !(LessEq(key, k) && p.lower != [] && LessEq(k, p.lower))
    {
      LessLessEqTrans(key, k, p.lower);
    }
  }

  lemma {:induction false} ScanVisit(contents: map<Key, seq<byte>>, key: Key, p: Page, pos: nat, es: seq<Entry>)
    requires p.Ok() && p.isLeaf && Agrees(p, contents) && ScannedTo(contents, key, p, pos, es) && pos < |p.entries|
    ensures ScannedTo(contents, key, p, pos + 1, es + [p.entries[pos]])
  {
    var e := p.entries[pos];
    var es' := es + [e];
    KeysOfSnoc(es, e);
    EntryIsRecord(contents, p, pos);
    hide Less, Common, LowerBound, Agrees, KeysOf;
    assert forall x :: x in es' <==> x in es || x == e;
    forall i, j | 0 <= i < j < |es'|
      ensures Less(es'[i].key, es'[j].key)
    {
      if j == |es| { assert es[i] in es; }
    }
  }

  lemma {:induction false} EntryIsRecord(contents: map<Key, seq<byte>>, p: Page, i: nat)
    requires p.Ok() && p.isLeaf && Agrees(p, contents) && i < |p.entries|
    ensures p.entries[i].key in contents && p.entries[i].val == Record(contents[p.entries[i].key])
  {
    hide Common, Less;
    assert AgreesOn(p, contents, p.entries[i].key);
    ForestSteps.GetIs(p, i);
  }

  lemma {:induction false} ScanNext(contents: map<Key, seq<byte>>, key: Key, p: Page, next: Page, es: seq<Entry>)
    requires p.Ok() && p.isLeaf && Agrees(p, contents) && ScannedTo(contents, key, p, |p.entries|, es)
    requires next.Ok() && p.upper == next.lower != []
    ensures ScannedTo(contents, key, next, 0, es)
  {
    hide Common, LowerBound, KeysOf;
    LessTotal(p.upper, next.upper);
    LessLessEqTrans(key, p.upper, next.upper);
    LessTotal(key, next.upper);
    forall k | k in contents && LessEq(key, k) && LessEq(k, p.upper)
      ensures k in KeysOf(es)
    {
      Ahead(contents, key, p, |p.entries|, es, k);
    }
    forall e | e in es
      ensures next.upper != [] ==> LessEq(e.key, next.upper)
    {
      LessLessEqTrans(e.key, p.upper, next.upper);
      LessTotal(e.key, next.upper);
    }
    forall i | 0 <= i < |next.entries|
      ensures LessEq(key, next.entries[i].key) && forall e :: e in es ==> Less(e.key, next.entries[i].key)
    {
      LessLessEqTrans(key, p.upper, next.entries[i].key);
      LessTotal(key, next.entries[i].key);
      forall e | e in es
        ensures Less(e.key, next.entries[i].key)
      {
        LessLessEqTrans(e.key, p.upper, next.entries[i].key);
      }
    }
  }

  lemma {:induction false} ScanStop(contents: map<Key, seq<byte>>, key: Key, p: Page, pos: nat, es: seq<Entry>,
                                    more: Entry -> bool)
    requires p.Ok() && p.isLeaf && Agrees(p, contents) && ScannedTo(contents, key, p, pos, es)
    requires 0 < pos && es != [] && es[|es| - 1] == p.entries[pos - 1]
    requires Continued(es, more) && !more(es[|es| - 1])
    ensures AscendingFrom(contents, key, es, more)
  {
    hide Less, Common, LowerBound, KeysOf;
    forall k | k in contents && LessEq(key, k)
      ensures k in KeysOf(es) || Less(es[|es| - 1].key, k)
    {
      Ahead(contents, key, p, pos, es, k);
      LessLessEqTrans(es[|es| - 1].key, p.upper, k);
    }
  }

  lemma {:induction false} ScanEnd(contents: map<Key, seq<byte>>, key: Key, p: Page, es: seq<Entry>,
                                   more: Entry -> bool)
    requires p.Ok() && p.isLeaf && Agrees(p, contents) && ScannedTo(contents, key, p, |p.entries|, es)
    requires p.upper == [] && Continued(es, more)
    ensures AscendingFrom(contents, key, es, more)
  {
    hide Less, Common, LowerBound, KeysOf;
    forall k | k in contents && LessEq(key, k)
      ensures k in KeysOf(es)
    {
      Ahead(contents, key, p, |p.entries|, es, k);
    }
  }

  lemma {:induction false} RightOfShrinks(f: Forest, p: PID, q: PID)
    requires f.Inv() && f.Live(p) && f.Live(q) && f.pages[q].isLeaf && f.pages[p].upper == f.pages[q].lower != []
    ensures RightOf(f, f.pages[q]) < RightOf(f, f.pages[p])
  {
    var a, b := f.pages[p], f.pages[q];
    assert b.Ok();
    LessTotal(b.lower, b.upper);
    LessTotal(b.lower, b.lower);
    hide Common, Page.Ok;
    assert q in RightOf(f, a) && q !in RightOf(f, b);
    forall x | x in RightOf(f, b)
      ensures x in RightOf(f, a)
    {
      LessLessEqTrans(a.upper, b.upper, f.pages[x].lower);
    }
  }

  /** The loop state of scanAsc. */
  ghost predicate AscState(f: Forest, contents: map<Key, seq<byte>>, key: Key, node: PID, pos: nat, es: seq<Entry>,
                           more: Entry -> bool) {
    && f.Inv() && f.Holds(contents) && f.Live(node) && f.pages[node].isLeaf
    && ScannedTo(contents, key, f.pages[node], pos, es)
    && (forall i :: 0 <= i < |es| ==> more(es[i]))
  }

  lemma {:induction false} AscStart(f: Forest, contents: map<Key, seq<byte>>, key: Key, node: PID, more: Entry -> bool)
    requires f.Inv() && f.Holds(contents) && f.Live(node) && f.pages[node].isLeaf && f.pages[node].Covers(key)
    ensures AscState(f, contents, key, node, f.pages[node].Pos(key), [], more)
  {
    ScanStart(f, contents, key, f.pages[node]);
    hide Page.Ok, ScannedTo;
  }

  lemma {:induction false} AscVisit(f: Forest, contents: map<Key, seq<byte>>, key: Key, node: PID, pos: nat,
                                    es: seq<Entry>, more: Entry -> bool)
    requires AscState(f, contents, key, node, pos, es, more) && pos < |f.pages[node].entries|
    ensures var e := f.pages[node].entries[pos];
      if more(e) then AscState(f, contents, key, node, pos + 1, es + [e], more)
          else AscendingFrom(contents, key, es + [e], more)
  {
    var p := f.pages[node];
    assert p.Ok() && Agrees(p, contents);
    hide ScannedTo, Page.Ok, Agrees, Forest.Inv, AscendingFrom;
    ScanVisit(contents, key, p, pos, es);
    if !more(p.entries[pos]) { ScanStop(contents, key, p, pos + 1, es + [p.entries[pos]], more); }
  }

  lemma {:induction false} AscNext(f: Forest, contents: map<Key, seq<byte>>, key: Key, node: PID, es: seq<Entry>,
                                   more: Entry -> bool)
    requires f.Live(node) && AscState(f, contents, key, node, |f.pages[node].entries|, es, more)
    ensures f.pages[node].link == NoNeighbour ==> AscendingFrom(contents, key, es, more)
    ensures f.pages[node].link.To? ==>
      var q := f.pages[node].link.pid;
      AscState(f, contents, key, q, 0, es, more) && RightOf(f, f.pages[q]) < RightOf(f, f.pages[node])
  {
    var p := f.pages[node];
    assert p.Ok() && Agrees(p, contents) && f.LinkOk(node);
    hide ScannedTo, Agrees, AscendingFrom;
    if p.link == NoNeighbour {
      ScanEnd(contents, key, p, es, more);
    } else {
      RightOfShrinks(f, node, p.link.pid);
      ScanNext(contents, key, p, f.pages[p.link.pid], es);
    }
    hide Page.Ok, RightOf;
  }

  /** scanAsc: start at the lower bound of key in its leaf and follow the leaf links. */
  method ScanAsc(tree: BTree, key: Key, more: Entry -> bool) returns (visited: seq<Entry>)
    requires tree.Valid()
    ensures AscendingFrom(tree.contents, key, visited, more)
  {
    visited := [];
    var node := tree.FindLeaf(key);
    var pos: nat := tree.pages[node].Pos(key);
    ghost var f, contents := tree.F(), tree.contents;
    AscStart(f, contents, key, node, more);
    hide Page.Ok, Agrees, Forest.Inv, Forest.Holds, AscendingFrom, ValidForest, ScannedTo, RightOf, LowerBound;
    while true
      invariant AscState(f, contents, key, node, pos, visited, more) && pos <= |f.pages[node].entries|
      decreases RightOf(f, f.pages[node]), |f.pages[node].entries| - pos
    {
      if pos < |tree.pages[node].entries| {
        AscVisit(f, contents, key, node, pos, visited, more);
        visited := visited + [tree.pages[node].entries[pos]];
        if !more(tree.pages[node].entries[pos]) {
          return;
        }
        pos := pos + 1;
      } else {
        AscNext(f, contents, key, node, visited, more);
        if tree.pages[node].link == NoNeighbour {
          return;
        }
        pos := 0;
        node := tree.pages[node].link.pid;
      }
    }
  }

  // ---------------------------------------------------------------------- descending

  /** A descending scan that has visited exactly the records up to key behind position pos of leaf p. */
  ghost predicate ScannedDownTo(contents: map<Key, seq<byte>>, key: Key, p: Page, pos: int, es: seq<Entry>) {
    && -1 <= pos < |p.entries|
    && Records(contents, es) && Descending(es)
    && (forall e :: e in es ==> LessEq(e.key, key) && (p.lower != [] ==> Less(p.lower, e.key)))
    && (p.lower != [] ==> LessEq(p.lower, key))
    && (forall k :: k in contents && LessEq(k, key) && p.upper != [] && Less(p.upper, k) ==> k in KeysOf(es))
    && (forall i :: pos < i < |p.entries| && LessEq(p.entries[i].key, key) ==> p.entries[i].key in KeysOf(es))
    && (forall i :: 0 <= i <= pos ==> LessEq(p.entries[i].key, key))
    && (forall i, e :: 0 <= i <= pos && e in es ==> Less(p.entries[i].key, e.key))
  }

  /** A record up to key has been visited, or lies ahead on this leaf or at or below its lower fence. */
  lemma {:induction false} AheadDown(contents: map<Key, seq<byte>>, key: Key, p: Page, pos: int, es: seq<Entry>, k: Key)
    requires p.Ok() && p.isLeaf && Agrees(p, contents) && ScannedDownTo(contents, key, p, pos, es)
    requires k in contents && LessEq(k, key)
    ensures k in KeysOf(es) || (p.lower != [] && LessEq(k, p.lower)) || (p.Found(k) && p.Pos(k) <= pos)
  {
    hide Common, LowerBound;
    if p.Covers(k) {
      assert AgreesOn(p, contents, k);
    } else if p.lower == [] || Less(p.lower, k) {
      assert Less(p.upper, k);
    }
  }

  /** The scan starts at the exact match; else, once the entry above key is out of the way, below it. */
  lemma {:induction false} DownStart(contents: map<Key, seq<byte>>, key: Key, p: Page)
    requires p.Ok() && p.Covers(key)
    ensures ScannedDownTo(contents, key, p, if p.Found(key) then p.Pos(key) else p.Pos(key) - 1, [])
  {
    hide Less, Common, LowerBound;
    LowerBoundSplits(p.entries, key);
    LessTotal(p.lower, key);
    LessTotal(key, key);
    forall i | 0 <= i < |p.entries|
      ensures i < p.Pos(key) ==> LessEq(p.entries[i].key, key)
      ensures i > p.Pos(key) || (i == p.Pos(key) && !p.Found(key)) ==> Less(key, p.entries[i].key)
    {
      LessTotal(p.entries[i].key, key);
    }
    forall k
      ensures !(LessEq(k, key) && p.upper != [] && Less(p.upper, k))
    {
      LessLessEqTrans(p.upper, k, key);
    }
  }

  lemma {:induction false} DownVisit(contents: map<Key, seq<byte>>, key: Key, p: Page, pos: nat, es: seq<Entry>)
    requires p.Ok() && p.isLeaf && Agrees(p, contents) && ScannedDownTo(contents, key, p, pos, es)
    ensures ScannedDownTo(contents, key, p, pos - 1, es + [p.entries[pos]])
  {
    hide Less, Common, LowerBound, Agrees, KeysOf;
    var e := p.entries[pos];
    var es' := es + [e];
    KeysOfSnoc(es, e);
    EntryIsRecord(contents, p, pos);
    assert forall x :: x in es' <==> x in es || x == e;
    forall i, j | 0 <= i < j < |es'|
      ensures Less(es'[j].key, es'[i].key)
    {
      if j == |es| { assert es[i] in es; }
    }
  }

  lemma {:induction false} DownNext(contents: map<Key, seq<byte>>, key: Key, p: Page, next: Page, es: seq<Entry>)
    requires p.Ok() && p.isLeaf && Agrees(p, contents) && ScannedDownTo(contents, key, p, -1, es)
    requires next.Ok() && next.upper == p.lower != []
    ensures ScannedDownTo(contents, key, next, |next.entries| - 1, es)
  {
    hide Common, LowerBound, KeysOf;
    LessTotal(next.lower, next.upper);
    LessLessEqTrans(next.lower, p.lower, key);
    LessTotal(next.lower, key);
    forall k | k in contents && LessEq(k, key) && Less(p.lower, k)
      ensures k in KeysOf(es)
    {
      AheadDown(contents, key, p, -1, es, k);
    }
    forall e | e in es
      ensures next.lower != [] ==> Less(next.lower, e.key)
    {
      LessLessEqTrans(next.lower, p.lower, e.key);
      LessTotal(p.lower, e.key);
    }
    forall i | 0 <= i < |next.entries|
      ensures LessEq(next.entries[i].key, key) && forall e :: e in es ==> Less(next.entries[i].key, e.key)
    {
      LessLessEqTrans(next.entries[i].key, p.lower, key);
      forall e | e in es
        ensures Less(next.entries[i].key, e.key)
      {
        LessLessEqTrans(next.entries[i].key, p.lower, e.key);
      }
    }
  }

  lemma {:induction false} DownStop(contents: map<Key, seq<byte>>, key: Key, p: Page, pos: int, es: seq<Entry>,
                                    more: Entry -> bool)
    requires p.Ok() && p.isLeaf && Agrees(p, contents) && ScannedDownTo(contents, key, p, pos, es)
    requires pos + 1 < |p.entries| && es != [] && es[|es| - 1] == p.entries[pos + 1]
    requires Continued(es, more) && !more(es[|es| - 1])
    ensures DescendingFrom(contents, key, es, more)
  {
    hide Less, Common, LowerBound, KeysOf;
    forall k | k in contents && LessEq(k, key)
      ensures k in KeysOf(es) || Less(k, es[|es| - 1].key)
    {
      AheadDown(contents, key, p, pos, es, k);
      LessLessEqTrans(k, p.lower, es[|es| - 1].key);
    }
  }

  lemma {:induction false} DownEnd(contents: map<Key, seq<byte>>, key: Key, p: Page, es: seq<Entry>,
                                   more: Entry -> bool)
    requires p.Ok() && p.isLeaf && Agrees(p, contents) && ScannedDownTo(contents, key, p, -1, es)
    requires p.lower == [] && Continued(es, more)
    ensures DescendingFrom(contents, key, es, more)
  {
    hide Less, Common, LowerBound, KeysOf;
    forall k | k in contents && LessEq(k, key)
      ensures k in KeysOf(es)
    {
      AheadDown(contents, key, p, -1, es, k);
    }
  }

  /** The leaf that covers a leaf's lower fence ends exactly there, even if it is empty. */
  lemma {:induction false} LeftNeighbour(f: Forest, p: PID, q: PID)
    requires f.Inv() && f.Live(p) && f.Live(q) && f.pages[p].isLeaf && f.pages[q].isLeaf
    requires f.pages[p].lower != [] && f.pages[q].Covers(f.pages[p].lower)
    ensures f.pages[q].upper == f.pages[p].lower
    ensures LeftOf(f, f.pages[q]) < LeftOf(f, f.pages[p])
  {
    var a, b := f.pages[p], f.pages[q];
    assert a.Ok() && b.Ok();
    LessTotal(a.lower, a.lower);
    LessTotal(a.lower, a.upper);
    LessTotal(b.lower, b.upper);
    LessLessEqTrans(a.upper, b.lower, a.lower);
    LessTotal(a.lower, b.upper);
    hide Common, Page.Ok;
    assert Apart(a, b);
    assert q in LeftOf(f, a) && q !in LeftOf(f, b);
    forall x | x in LeftOf(f, b)
      ensures x in LeftOf(f, a)
    {
      LessLessEqTrans(f.pages[x].upper, b.lower, b.upper);
    }
  }

  /** The loop state of scanDesc. */
  ghost predicate DescState(f: Forest, contents: map<Key, seq<byte>>, key: Key, node: PID, pos: int, es: seq<Entry>,
                            more: Entry -> bool) {
    && f.Inv() && f.Holds(contents) && f.Live(node) && f.pages[node].isLeaf
    && ScannedDownTo(contents, key, f.pages[node], pos, es)
    && (forall i :: 0 <= i < |es| ==> more(es[i]))
  }

  lemma {:induction false} DescStart(f: Forest, contents: map<Key, seq<byte>>, key: Key, node: PID, more: Entry -> bool)
    requires f.Inv() && f.Holds(contents) && f.Live(node) && f.pages[node].isLeaf && f.pages[node].Covers(key)
    ensures var p := f.pages[node];
      DescState(f, contents, key, node, if p.Found(key) then p.Pos(key) else p.Pos(key) - 1, [], more)
  {
    DownStart(contents, key, f.pages[node]);
    hide Page.Ok, ScannedDownTo;
  }

  lemma {:induction false} DescVisit(f: Forest, contents: map<Key, seq<byte>>, key: Key, node: PID, pos: nat,
                                     es: seq<Entry>, more: Entry -> bool)
    requires DescState(f, contents, key, node, pos, es, more) && pos < |f.pages[node].entries|
    ensures var e := f.pages[node].entries[pos];
      if more(e) then DescState(f, contents, key, node, pos - 1, es + [e], more)
          else DescendingFrom(contents, key, es + [e], more)
  {
    var p := f.pages[node];
    assert p.Ok() && Agrees(p, contents);
    hide ScannedDownTo, Page.Ok, Agrees, Forest.Inv, DescendingFrom;
    DownVisit(contents, key, p, pos, es);
    if !more(p.entries[pos]) { DownStop(contents, key, p, pos - 1, es + [p.entries[pos]], more); }
  }

  lemma {:induction false} DescEnd(f: Forest, contents: map<Key, seq<byte>>, key: Key, node: PID, es: seq<Entry>,
                                   more: Entry -> bool)
    requires DescState(f, contents, key, node, -1, es, more) && f.pages[node].lower == []
    ensures DescendingFrom(contents, key, es, more)
  {
    assert f.pages[node].Ok() && Agrees(f.pages[node], contents);
    hide ScannedDownTo, Agrees, DescendingFrom, Page.Ok;
    DownEnd(contents, key, f.pages[node], es, more);
  }

  lemma {:induction false} DescNext(f: Forest, contents: map<Key, seq<byte>>, key: Key, node: PID, q: PID,
                                    es: seq<Entry>, more: Entry -> bool)
    requires DescState(f, contents, key, node, -1, es, more) && f.pages[node].lower != []
    requires f.Live(q) && f.pages[q].isLeaf && f.pages[q].Covers(f.pages[node].lower)
    ensures DescState(f, contents, key, q, |f.pages[q].entries| - 1, es, more)
    ensures LeftOf(f, f.pages[q]) < LeftOf(f, f.pages[node])
  {
    var p := f.pages[node];
    assert p.Ok() && Agrees(p, contents) && f.pages[q].Ok();
    LeftNeighbour(f, node, q);
    hide ScannedDownTo, Agrees, Page.Ok, LeftOf;
    DownNext(contents, key, p, f.pages[q], es);
  }

  /** The adapter's callback: it drops the first entry offered unless that is an exact match. */
  class DescCallback {
    var first: bool
    var delivered: seq<Entry>
    const found: Entry -> bool

    constructor (found: Entry -> bool)
      ensures first && delivered == [] && this.found == found
    {
      this.first := true;
      this.delivered := [];
      this.found := found;
    }

    method Call(e: Entry, exactMatch: bool) returns (goOn: bool)
      modifies this
      ensures !first
      ensures old(first) && !exactMatch ==> goOn && delivered == old(delivered)
      ensures !old(first) || exactMatch ==> goOn == found(e) && delivered == old(delivered) + [e]
    {
      if first {
        first := false;
        if !exactMatch {
          return true;
        }
      }
      delivered := delivered + [e];
      goOn := found(e);
    }
  }

  /** The loop state of scanDesc around the callback: an entry above key is not yet offered. */
  ghost predicate Offering(tree: BTree, key: Key, node: PID, pos: int, exactMatch: bool, callback: DescCallback)
    reads tree, callback
  {
    && tree.F().Live(node) && -1 <= pos < |tree.pages[node].entries|
    && (callback.first && !exactMatch ==> pos >= 0)
    && DescState(tree.F(), tree.contents, key, node, if callback.first && !exactMatch then pos - 1 else pos,
                 callback.delivered, callback.found)
  }

  ghost predicate Delivered(tree: BTree, key: Key, callback: DescCallback)
    reads tree, callback
  {
    DescendingFrom(tree.contents, key, callback.delivered, callback.found)
  }

  /** Where a descending scan starts; a key above the whole leaf counts as an exact match. */
  method StartDesc(tree: BTree, key: Key, callback: DescCallback) returns (node: PID, pos: int, exactMatch: bool)
    requires tree.Valid() && callback.first && callback.delivered == []
    ensures Offering(tree, key, node, pos, exactMatch, callback) && pos >= -1
  {
    node := tree.FindLeaf(key);
    DescStart(tree.F(), tree.contents, key, node, callback.found);
    hide Less, LowerBound, Page.Covers, ValidForest, DescState;
    exactMatch := tree.pages[node].Found(key);
    pos := tree.pages[node].Pos(key);
    if pos == |tree.pages[node].entries| {
      pos := pos - 1;
      exactMatch := true;
    }
  }

  /** Offer the entry at pos to the callback. */
  method Offer(tree: BTree, ghost key: Key, node: PID, pos: int, exactMatch: bool, callback: DescCallback)
    returns (goOn: bool)
    requires Offering(tree, key, node, pos, exactMatch, callback) && pos >= 0
    modifies callback
    ensures goOn ==> Offering(tree, key, node, pos - 1, exactMatch, callback)
    ensures !goOn ==> Delivered(tree, key, callback)
  {
    ghost var f, contents := tree.F(), tree.contents;
    var page := tree.pages[node];
    if !callback.first || exactMatch { DescVisit(f, contents, key, node, pos, callback.delivered, callback.found); }
    hide DescState, DescendingFrom;
    goOn := callback.Call(page.entries[pos], exactMatch);
  }

  /** Go on to the leaf that ends at this leaf's lower fence. */
  method NextDesc(tree: BTree, ghost key: Key, node: PID, exactMatch: bool, callback: DescCallback)
    returns (next: PID, pos: int)
    requires tree.Valid() && node in tree.pages && tree.pages[node].lower != []
    requires Offering(tree, key, node, -1, exactMatch, callback)
    ensures Offering(tree, key, next, pos, exactMatch, callback) && pos >= -1
    ensures next in tree.pages && LeftOf(tree.F(), tree.pages[next]) < LeftOf(tree.F(), tree.pages[node])
  {
    ghost var f, contents := tree.F(), tree.contents;
    next := tree.FindLeaf(tree.pages[node].lower);
    hide DescState, LeftOf, Page.Covers, ValidForest;
    DescNext(f, contents, key, node, next, callback.delivered, callback.found);
    pos := |tree.pages[next].entries| - 1;
  }

  /** A scan leaves the tree as it is. */
  ghost predicate Frozen(tree: BTree, f: Forest, pages: map<PID, Page>)
    reads tree
  {
    tree.Valid() && tree.F() == f && tree.pages == pages
  }

  lemma {:induction false} StopDesc(tree: BTree, key: Key, node: PID, exactMatch: bool, callback: DescCallback)
    requires Offering(tree, key, node, -1, exactMatch, callback) && node in tree.pages && tree.pages[node].lower == []
    ensures Delivered(tree, key, callback)
  {
    DescEnd(tree.F(), tree.contents, key, node, callback.delivered, callback.found);
  }

  /** Offer the entries of a leaf from pos down to its first one. */
  method OfferPage(tree: BTree, ghost key: Key, node: PID, start: int, exactMatch: bool, callback: DescCallback)
    returns (goOn: bool)
    requires Offering(tree, key, node, start, exactMatch, callback) && start >= -1
    modifies callback
    ensures goOn ==> Offering(tree, key, node, -1, exactMatch, callback)
    ensures !goOn ==> Delivered(tree, key, callback)
  {
    hide Offering, Delivered;
    var pos := start;
    goOn := true;
    while pos >= 0 && goOn
      invariant pos >= -1
      invariant if goOn then Offering(tree, key, node, pos, exactMatch, callback) else Delivered(tree, key, callback)
      decreases pos + 1, goOn
    {
      goOn := Offer(tree, key, node, pos, exactMatch, callback);
      pos := pos - 1;
    }
  }

  /** scanDesc with the adapter's callback: from the lower bound of key downwards, leaf by leaf over the
      lower fences. Everything up to key is delivered, in descending order, until the callback stops. */
  method ScanDesc(tree: BTree, key: Key, callback: DescCallback)
    requires tree.Valid() && callback.first && callback.delivered == []
    modifies callback
    ensures Delivered(tree, key, callback)
  {
    var node, pos, exactMatch := StartDesc(tree, key, callback);
    var pages := tree.pages;
    ghost var f := tree.F();
    assert node in pages;
    hide Offering, Delivered, LeftOf, BTree.Valid, BTree.F;
    assert Frozen(tree, f, pages);
    while true
      invariant node in pages && pos >= -1 && Frozen(tree, f, pages)
      invariant Offering(tree, key, node, pos, exactMatch, callback)
      decreases LeftOf(f, pages[node])
    {
      var goOn := OfferPage(tree, key, node, pos, exactMatch, callback);
      if !goOn {
        return;
      }
      if pages[node].lower == [] {
        StopDesc(tree, key, node, exactMatch, callback);
        return;
      }
      node, pos := NextDesc(tree, key, node, exactMatch, callback);
    }
  }
}
