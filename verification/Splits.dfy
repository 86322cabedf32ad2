/** Splitting and merging pages: separators, halves, and how the parent routes afterwards. */
module Splits {
  import opened Bytes
  import opened Pages

  /** Every key on a page carries the page's prefix. */
  lemma {:induction false} KeyCarriesPrefix(p: Page, k: Key)
    requires p.lower == [] || p.upper == [] || Less(p.lower, p.upper)
    requires p.Covers(k)
    ensures StartsWith(k, p.lower[..p.PrefixLen()])
  {
    if p.lower != [] && p.upper != [] {
      LessTotal(p.lower, k);
      PrefixBetween(p.lower, p.upper, k);
    }
  }

  lemma {:induction false} EntriesCarryPrefix(p: Page)
    requires p.Ok()
    ensures forall i :: 0 <= i < |p.entries| ==> StartsWith(p.entries[i].key, p.lower[..p.PrefixLen()])
    ensures forall i :: 0 <= i < |p.entries| ==>
      p.Suffix(i) == p.entries[i].key[p.PrefixLen()..] && |p.entries[i].key| == p.PrefixLen() + |p.Suffix(i)|
  {
    forall i | 0 <= i < |p.entries|
      ensures StartsWith(p.entries[i].key, p.lower[..p.PrefixLen()])
    {
      KeyCarriesPrefix(p, p.entries[i].key);
    }
  }

  /** On a page, the common prefix of two full keys is the page prefix plus that of their suffixes. */
  lemma {:induction false} CommonOfSuffixes(p: Page, a: nat, b: nat)
    requires p.Ok() && a < |p.entries| && b < |p.entries|
    ensures Common(p.entries[a].key, p.entries[b].key) == p.PrefixLen() + p.SuffixCommon(a, b)
  {
    EntriesCarryPrefix(p);
    LessStrip(p.entries[a].key, p.entries[b].key, p.PrefixLen());
  }

  /** A truncated separator still falls between the two keys it separates. */
  lemma {:induction false} TruncatedBetween(a: Key, b: Key)
    requires Less(a, b) && Common(a, b) < |a| && Common(a, b) + 1 < |b|
    ensures var sep := b[..Common(a, b) + 1]; Less(a, sep) && Less(sep, b)
  {
    var n := Common(a, b);
    CommonIs(a, b[..n + 1], n);
    CommonIs(b[..n + 1], b, n + 1);
  }

  /** A separator at which the page may be split. */
  predicate GoodSeparator(p: Page, slot: nat, sep: Key) {
    && slot < |p.entries|
    && sep != []
    && (p.lower == [] || Less(p.lower, sep))
    && (p.upper == [] || Less(sep, p.upper))
    && LessEq(p.entries[slot].key, sep)
    && (!p.isLeaf ==> sep == p.entries[slot].key)
    && (slot + 1 < |p.entries| ==> Less(sep, p.entries[slot + 1].key))
  }

  /** The separator against the key in its slot. */
  lemma {:induction false} SeparatorBetween(p: Page, info: SeparatorInfo)
    requires p.Ok() && p.Describes(info)
    ensures var sep := p.Sep(info);
      && |sep| == info.len > 0
      && LessEq(p.entries[info.slot].key, sep)
      && (!p.isLeaf ==> sep == p.entries[info.slot].key)
      && (info.slot + 1 < |p.entries| ==> Less(sep, p.entries[info.slot + 1].key))
  {
    hide Less, Common, Page.Covers;
    var key := p.entries[info.slot].key;
    EntriesCarryPrefix(p);
    LessTotal(key, key);
    if info.isTruncated {
      var next := p.entries[info.slot + 1].key;
      CommonOfSuffixes(p, info.slot, info.slot + 1);
      TruncatedBetween(key, next);
      LessTotal(key, p.Sep(info));
    } else {
      assert p.Sep(info) == key;
    }
  }

  /** findSeparator and getSep: the chosen key lies strictly inside the page's range, at or above the
      key in info.slot and below the next one. A leaf's two halves are both non-empty. */
  lemma {:induction false} SeparatorSplits(p: Page, info: SeparatorInfo)
    requires p.Ok() && p.Describes(info)
    ensures |p.Sep(info)| == info.len
    ensures GoodSeparator(p, info.slot, p.Sep(info))
  {
    SeparatorBetween(p, info);
    var sep := p.Sep(info);
    LessLessEqTrans(p.lower, p.entries[info.slot].key, sep);
    if info.slot + 1 < |p.entries| {
      LessLessEqTrans(sep, p.entries[info.slot + 1].key, p.upper);
    }
  }

  lemma {:induction false} SplitLeftOk(p: Page, slot: nat, sep: Key, newPid: PID)
    requires p.Ok() && GoodSeparator(p, slot, sep)
    ensures p.SplitLeft(slot, sep, newPid).Ok()
  {
    hide Less, Common;
    var l := p.SplitLeft(slot, sep, newPid);
    forall i | 0 <= i < |l.entries|
      ensures l.Covers(l.entries[i].key) && (!p.isLeaf ==> Less(l.entries[i].key, sep))
    {
      if i < slot { LessLessEqTrans(p.entries[i].key, p.entries[slot].key, sep); }
      LessTotal(p.entries[i].key, sep);
    }
  }

  lemma {:induction false} SplitRightOk(p: Page, slot: nat, sep: Key)
    requires p.Ok() && GoodSeparator(p, slot, sep)
    ensures p.SplitRight(slot, sep).Ok()
  {
    hide Less, Common;
    var r := p.SplitRight(slot, sep);
    assert forall i :: 0 <= i < |r.entries| ==> r.entries[i] == p.entries[slot + 1 + i];
    forall i | 0 <= i < |r.entries|
      ensures r.Covers(r.entries[i].key)
    {
      if i > 0 { LessTrans(sep, p.entries[slot + 1].key, p.entries[slot + 1 + i].key); }
    }
  }

  /** Both halves of a split are well-formed pages. */
  lemma {:induction false} SplitOk(p: Page, slot: nat, sep: Key, newPid: PID)
    requires p.Ok() && GoodSeparator(p, slot, sep)
    ensures p.SplitLeft(slot, sep, newPid).Ok() && p.SplitRight(slot, sep).Ok()
  {
    SplitLeftOk(p, slot, sep, newPid);
    SplitRightOk(p, slot, sep);
  }

  /** The halves hold exactly the old entries; an inner split moves the separator entry to the parent,
      its child becoming the left half's rightmost child. */
  lemma {:induction false} SplitContents(p: Page, slot: nat, sep: Key, newPid: PID)
    requires p.Ok() && GoodSeparator(p, slot, sep)
    ensures var l, r := p.SplitLeft(slot, sep, newPid), p.SplitRight(slot, sep);
      if p.isLeaf then l.entries + r.entries == p.entries
      else l.entries + [Entry(sep, Child(l.link.pid))] + r.entries == p.entries
  {
    hide Less, Common, Page.Covers;
    assert p.entries[..slot] + [p.entries[slot]] + p.entries[slot + 1..] == p.entries;
  }

  /** A position other than s, numbered before an element was inserted at s. */
  function Before(i: nat, s: nat): nat
    requires i != s
  {
    if i < s then i else i - 1
  }

  /** Redirecting one child changes no key and no other child. */
  lemma {:induction false} SetKidKeeps(q: Page, s: nat, pid: PID)
    requires q.Ok() && q.InnerShape() && s <= |q.entries|
    ensures var m := q.SetKid(s, pid);
      && m.Ok() && m.InnerShape() && |m.entries| == |q.entries|
      && m.lower == q.lower && m.upper == q.upper
      && (forall i :: 0 <= i < |q.entries| ==> m.entries[i].key == q.entries[i].key)
      && forall i :: 0 <= i <= |q.entries| ==> m.Kid(i) == if i == s then pid else q.Kid(i)
  {
  }

  /** Inserting a fresh covered key keeps a page well-formed. */
  lemma {:induction false} InsertOk(p: Page, k: Key, v: Value)
    requires p.Ok() && p.Covers(k) && !p.Found(k) && k != [] && v.Record? == p.isLeaf
    requires !p.isLeaf && p.upper != [] ==> Less(k, p.upper)
    ensures p.Insert(k, v).Ok()
    ensures var es, s := p.Insert(k, v).entries, p.Pos(k);
      && es[s] == Entry(k, v)
      && forall i :: 0 <= i < |es| && i != s ==> es[i] == p.entries[Before(i, s)]
  {
    hide Less, Common, LowerBound;
    EntriesInserted(p.entries, p.Pos(k), Entry(k, v));
    InsertSorted(p.entries, k, v);
    hide Sorted;
  }

  lemma {:induction false} EntriesInserted(es: seq<Entry>, s: nat, e: Entry)
    requires s <= |es|
    ensures var r := es[..s] + [e] + es[s..];
      |r| == |es| + 1 && r[s] == e && forall i :: 0 <= i < |r| && i != s ==> r[i] == es[Before(i, s)]
  {
  }

  /** A fresh key inserted at its lower bound keeps the entries sorted. */
  lemma {:induction false} InsertSorted(es: seq<Entry>, k: Key, v: Value)
    requires Sorted(es)
    requires var s := LowerBound(es, k); !(s < |es| && es[s].key == k)
    ensures var s := LowerBound(es, k); Sorted(es[..s] + [Entry(k, v)] + es[s..])
  {
    LowerBoundSplits(es, k);
    var s := LowerBound(es, k);
    if s < |es| { LessTotal(k, es[s].key); }
    hide Less, Common, LowerBound;
    assert forall i :: s <= i < |es| ==> Less(k, es[i].key);
  }

  /** The children of an inner page after an entry for the page left was inserted. */
  lemma {:induction false} InsertKids(m: Page, k: Key, left: PID)
    requires m.Ok() && m.InnerShape() && m.Covers(k) && !m.Found(k) && k != []
    requires m.upper == [] || Less(k, m.upper)
    ensures var s := m.Pos(k); var r := m.Insert(k, Child(left));
      && r.Ok() && r.InnerShape() && |r.entries| == |m.entries| + 1
      && r.Kid(s) == left && r.KidLower(s) == m.KidLower(s) && r.KidUpper(s) == k && r.KidLower(s + 1) == k
      && (forall i :: 0 <= i <= |r.entries| && i != s ==> r.Kid(i) == m.Kid(Before(i, s)))
      && (forall i :: 0 <= i <= |r.entries| && i != s ==> r.KidUpper(i) == m.KidUpper(Before(i, s)))
      && (forall i :: 0 <= i <= |r.entries| && i != s && i != s + 1 ==> r.KidLower(i) == m.KidLower(Before(i, s)))
  {
    hide Less, Common, Page.Ok, Page.Covers, Page.Found, LowerBound;
    InsertOk(m, k, Child(left));
    var s, r := m.Pos(k), m.Insert(k, Child(left));
    assert r.InnerShape();
    forall i | 0 <= i <= |r.entries| && i != s
      ensures r.Kid(i) == m.Kid(Before(i, s))
      ensures r.KidUpper(i) == m.KidUpper(Before(i, s))
    {
    }
    forall i | 0 <= i <= |r.entries| && i != s && i != s + 1
      ensures r.KidLower(i) == m.KidLower(Before(i, s))
    {
    }
  }

  /** A key below the upper end of the child it is routed to is not on the page. */
  lemma {:induction false} InsideKidIsFresh(q: Page, sep: Key)
    requires q.Ok() && q.InnerShape() && q.Covers(sep)
    requires q.KidUpper(q.Pos(sep)) == [] || Less(sep, q.KidUpper(q.Pos(sep)))
    ensures !q.Found(sep)
    ensures q.upper == [] || Less(sep, q.upper)
  {
    var s := q.Pos(sep);
    LessTotal(sep, q.KidUpper(s));
    if q.upper != [] && s < |q.entries| { LessTrans(sep, q.entries[s].key, q.upper); }
  }

  /** The parent's children and their ranges after child s was split at sep: it gives way to left and
      newPid, all others keep their page and range. */
  lemma {:induction false} AddSeparatorKids(q: Page, sep: Key, left: PID, newPid: PID)
    requires q.Ok() && q.InnerShape() && q.Covers(sep) && sep != []
    requires q.KidUpper(q.Pos(sep)) == [] || Less(sep, q.KidUpper(q.Pos(sep)))
    ensures var s := q.Pos(sep); var r := q.AddSeparator(sep, left, newPid);
      && r.Ok() && r.InnerShape() && |r.entries| == |q.entries| + 1
      && r.lower == q.lower && r.upper == q.upper
      && r.Kid(s) == left && r.KidLower(s) == q.KidLower(s) && r.KidUpper(s) == sep
      && r.Kid(s + 1) == newPid && r.KidLower(s + 1) == sep && r.KidUpper(s + 1) == q.KidUpper(s)
      && forall i :: 0 <= i <= |r.entries| && i != s && i != s + 1 ==>
           && r.Kid(i) == q.Kid(Before(i, s))
           && r.KidLower(i) == q.KidLower(Before(i, s))
           && r.KidUpper(i) == q.KidUpper(Before(i, s))
  {
    var s := q.Pos(sep);
    var m := q.SetKid(s, newPid);
    hide Less, Common, Page.Ok, Page.Covers, Page.Found;
    InsideKidIsFresh(q, sep);
    SetKidKeeps(q, s, newPid);
    LowerBoundIs(m.entries, sep, s);
    InsertKids(m, sep, left);
  }

  /** Merging two adjacent leaves gives a well-formed leaf over the joint range. */
  lemma {:induction false} MergeOk(l: Page, r: Page)
    requires l.Ok() && r.Ok() && l.isLeaf && r.isLeaf
    requires l.upper == r.lower != []
    ensures l.Merge(r).Ok()
  {
    hide Less, Common;
    var m := l.Merge(r);
    LessTotal(l.upper, r.upper);
    LessLessEqTrans(l.lower, l.upper, r.upper);
    forall i | 0 <= i < |m.entries|
      ensures m.Covers(m.entries[i].key) && m.entries[i].key != [] && m.entries[i].val.Record?
    {
      var k := m.entries[i].key;
      if i < |l.entries| {
        LessLessEqTrans(k, l.upper, r.upper);
        LessTotal(k, r.upper);
      } else {
        assert m.entries[i] == r.entries[i - |l.entries|];
        LessTotal(l.lower, l.upper);
        LessLessEqTrans(l.lower, l.upper, k);
      }
    }
    forall i, j | 0 <= i < j < |m.entries|
      ensures Less(m.entries[i].key, m.entries[j].key)
    {
      if i < |l.entries| <= j {
        assert m.entries[j] == r.entries[j - |l.entries|];
        LessLessEqTrans(m.entries[i].key, l.upper, m.entries[j].key);
      }
    }
  }

  /** Removing an entry keeps a page well-formed. */
  lemma {:induction false} RemoveOk(p: Page, slot: nat)
    requires p.Ok() && slot < |p.entries|
    ensures p.RemoveAt(slot).Ok()
    ensures var es := p.RemoveAt(slot).entries;
      && |es| + 1 == |p.entries|
      && (forall i :: 0 <= i < slot ==> es[i] == p.entries[i])
      && forall i :: slot <= i < |es| ==> es[i] == p.entries[i + 1]
  {
    hide Less, Common;
    var r := p.RemoveAt(slot);
    assert forall k :: r.Covers(k) <==> p.Covers(k);
    hide Page.Covers;
    assert forall i :: 0 <= i < |r.entries| ==> r.entries[i] == p.entries[After(i, slot)];
  }

  /** Where position i was before the element at s was removed. */
  function After(i: nat, s: nat): nat {
    if i < s then i else i + 1
  }

  /** The children of an inner page after an entry was removed: child slot is dropped, its successor
      takes over its range. */
  lemma {:induction false} RemoveKids(m: Page, slot: nat)
    requires m.Ok() && m.InnerShape() && slot < |m.entries|
    ensures var r := m.RemoveAt(slot);
      && r.Ok() && r.InnerShape() && |r.entries| + 1 == |m.entries|
      && r.Kid(slot) == m.Kid(slot + 1) && r.KidLower(slot) == m.KidLower(slot)
          && r.KidUpper(slot) == m.KidUpper(slot + 1)
      && forall i :: 0 <= i <= |r.entries| && i != slot ==>
           && r.Kid(i) == m.Kid(After(i, slot))
           && r.KidLower(i) == m.KidLower(After(i, slot))
           && r.KidUpper(i) == m.KidUpper(After(i, slot))
  {
    hide Less, Common, Page.Ok, Page.Covers;
    RemoveOk(m, slot);
  }

  /** The parent's children and their ranges after the children slot and slot + 1 became one page. */
  lemma {:induction false} DropSeparatorKids(q: Page, slot: nat, left: PID)
    requires q.Ok() && q.InnerShape() && slot < |q.entries|
    ensures var r := q.DropSeparator(slot, left);
      && r.Ok() && r.InnerShape() && |r.entries| + 1 == |q.entries|
      && r.lower == q.lower && r.upper == q.upper
      && r.Kid(slot) == left && r.KidLower(slot) == q.KidLower(slot) && r.KidUpper(slot) == q.KidUpper(slot + 1)
      && forall i :: 0 <= i <= |r.entries| && i != slot ==>
           && r.Kid(i) == q.Kid(After(i, slot))
           && r.KidLower(i) == q.KidLower(After(i, slot))
           && r.KidUpper(i) == q.KidUpper(After(i, slot))
  {
    hide Less, Common, Page.Ok, Page.Covers;
    SetKidKeeps(q, slot + 1, left);
    var m := q.SetKid(slot + 1, left);
    RemoveKids(m, slot);
    forall i | 0 <= i <= |q.entries|
      ensures m.KidLower(i) == q.KidLower(i) && m.KidUpper(i) == q.KidUpper(i)
    {
    }
  }
}
