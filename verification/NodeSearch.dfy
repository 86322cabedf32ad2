/** Why comparing prefix, heads and suffixes finds the lower bound of a full key. */
module NodeSearch {
  import opened Bytes
  import opened Pages
  import opened Splits
  import opened NodeImage
  import opened Hints

  function Heads(slots: seq<Slot>): (h: seq<nat>)
    ensures |h| == |slots|
  {
    seq(|slots|, i requires 0 <= i < |slots| => slots[i].head)
  }

  /** A page that means something: well-formed bytes and a well-formed view. */
  ghost predicate Good(img: Image) {
    img.WellFormed() && img.View().Ok()
  }

  lemma {:induction false} GoodPrefix(img: Image)
    requires Good(img)
    ensures img.Layout() && img.prefixLen == |img.Prefix()| <= img.lowerFence.len
    ensures img.Prefix() == img.View().lower[..img.View().PrefixLen()]
    ensures img.View().PrefixLen() == img.prefixLen
  {
    hide Head;
  }

  /** Full key of slot i: the prefix and the stored suffix. */
  lemma {:induction false} FullKey(img: Image, i: nat)
    requires Good(img) && i < |img.slots|
    ensures img.Layout() && img.prefixLen <= img.lowerFence.len
    ensures img.View().entries[i].key == img.Prefix() + img.Suffix(img.slots[i])
    ensures img.slots[i].head == Head(img.Suffix(img.slots[i]))
  {
    GoodPrefix(img);
    ViewEntry(img, i);
    hide Head, Common;
  }

  /** A search key that carries the prefix compares with a full key as its rest does with the suffix. */
  lemma {:induction false} CompareSuffix(p: Key, key: Key, suffix: Key)
    requires StartsWith(key, p)
    ensures Less(key, p + suffix) <==> Less(key[|p|..], suffix)
    ensures Less(p + suffix, key) <==> Less(suffix, key[|p|..])
    ensures key == p + suffix <==> key[|p|..] == suffix
  {
    var k := p + suffix;
    assert k[..|p|] == p && k[|p|..] == suffix && key == p + key[|p|..];
    LessStrip(key, k, |p|);
    LessStrip(k, key, |p|);
  }

  lemma {:induction false} HeadsAscend(img: Image)
    requires Good(img)
    ensures Ascending(Heads(img.slots))
  {
    GoodPrefix(img);
    hide Head, Less, Common, Image.WellFormed;
    forall i, j | 0 <= i <= j < |img.slots|
      ensures img.slots[i].head <= img.slots[j].head
    {
      if i < j { HeadsOrdered(img, i, j); }
    }
  }

  lemma {:induction false} HeadsOrdered(img: Image, i: nat, j: nat)
    requires Good(img) && i < j < |img.slots|
    ensures img.slots[i].head <= img.slots[j].head
  {
    FullKey(img, i);
    FullKey(img, j);
    var p, a, b := img.Prefix(), img.Suffix(img.slots[i]), img.Suffix(img.slots[j]);
    assert Less(p + a, p + b);
    hide Image.WellFormed, Good, Head, Less;
    assert (p + a)[..|p|] == p && (p + a)[|p|..] == a;
    CompareSuffix(p, p + a, b);
    LessTotal(a, b);
    HeadMonotone(a, b);
  }

  /** A key that differs from the prefix, or ends within it, is on one side of every key with the prefix. */
  lemma {:induction false} OutsidePrefix(p: Key, key: Key, k: Key)
    requires StartsWith(k, p)
    ensures var n := if |key| < |p| then |key| else |p|;
      && (Less(key[..n], p[..n]) ==> Less(key, k) && key != k)
      && (Less(p[..n], key[..n]) ==> Less(k, key) && key != k)
      && (key[..n] == p[..n] && |key| < |p| ==> Less(key, k) && key != k)
      && (key[..n] == p[..n] && |key| >= |p| ==> StartsWith(key, p))
  {
    var n := if |key| < |p| then |key| else |p|;
    assert k[..n] == p[..n] by { assert k[..|p|][..n] == p[..n]; }
    DecidedBy(key, k, n);
    DecidedBy(k, key, n);
    LessTotal(key, k);
    if key[..n] == p[..n] && |key| < |p| {
      assert forall i :: 0 <= i < n ==> key[i] == k[..n][i];
      CommonIs(key, k, n);
    }
  }

  /** If the first n bytes decide, they decide. */
  lemma {:induction false} DecidedBy(a: Key, b: Key, n: nat)
    requires n <= |a| && n <= |b|
    ensures Less(a[..n], b[..n]) ==> Less(a, b)
  {
    if Less(a[..n], b[..n]) {
      var c := Common(a[..n], b[..n]);
      assert c < n;
      assert forall i :: 0 <= i < c ==> a[i] == a[..n][i] && b[i] == b[..n][i];
      CommonIs(a, b, c);
    }
  }

  lemma {:induction false} AllCarryPrefix(img: Image)
    requires Good(img)
    ensures img.Layout() && img.prefixLen <= img.lowerFence.len
    ensures forall i :: 0 <= i < |img.slots| ==> StartsWith(img.View().entries[i].key, img.Prefix())
  {
    GoodPrefix(img);
    EntriesCarryPrefix(img.View());
    hide Common, Less, Head;
  }

  /** The prefix test alone settles keys that do not carry the prefix. */
  lemma {:induction false} PrefixDecides(img: Image, key: Key)
    requires Good(img)
    ensures img.Layout() && img.prefixLen <= img.lowerFence.len
    ensures var p := img.Prefix(); var n := if |key| < |p| then |key| else |p|; var v := img.View();
      && (Less(key[..n], p[..n]) || (key[..n] == p[..n] && |key| < |p|) ==> v.Pos(key) == 0 && !v.Found(key))
      && (Less(p[..n], key[..n]) ==> v.Pos(key) == |v.entries| && !v.Found(key))
      && (key[..n] == p[..n] && |key| >= |p| ==> StartsWith(key, p))
  {
    AllCarryPrefix(img);
    var p, v := img.Prefix(), img.View();
    var n := if |key| < |p| then |key| else |p|;
    hide Less, Common, Image.WellFormed, Good, LowerBound;
    forall i | 0 <= i < |v.entries|
      ensures Less(key[..n], p[..n]) || (key[..n] == p[..n] && |key| < |p|) ==>
                Less(key, v.entries[i].key) && key != v.entries[i].key
      ensures Less(p[..n], key[..n]) ==> Less(v.entries[i].key, key) && key != v.entries[i].key
    {
      OutsidePrefix(p, key, v.entries[i].key);
    }
    OutsidePrefix(p, key, p);
    LessTotal(key[..n], p[..n]);
    if v.entries != [] { LessTotal(key, v.entries[0].key); }
    PosAtEnds(v, key);
  }

  lemma {:induction false} PosAtEnds(v: Page, key: Key)
    ensures (forall i :: 0 <= i < |v.entries| ==> Less(v.entries[i].key, key)) ==> v.Pos(key) == |v.entries|
    ensures |v.entries| == 0 || LessEq(key, v.entries[0].key) ==> v.Pos(key) == 0
  {
    if forall i :: 0 <= i < |v.entries| ==> Less(v.entries[i].key, key) { LowerBoundIs(v.entries, key, |v.entries|); }
    if |v.entries| == 0 || LessEq(key, v.entries[0].key) { LowerBoundIs(v.entries, key, 0); }
  }

  // ---------------------------------------------------------------------- binary search

  /** What the search knows: everything before lower is smaller than rest, everything from upper on larger. */
  ghost predicate Narrowed(img: Image, rest: Key, lower: nat, upper: nat)
    requires img.Layout()
  {
    && lower <= upper <= |img.slots|
    && (forall i :: 0 <= i < lower ==> Less(img.Suffix(img.slots[i]), rest))
    && (forall i :: upper <= i < |img.slots| ==> Less(rest, img.Suffix(img.slots[i])))
  }

  /** What searchHint promises: heads before lower are smaller, heads from upper on larger. */
  ghost predicate HeadsNarrowed(heads: seq<nat>, keyHead: nat, lower: nat, upper: nat) {
    && lower <= upper <= |heads|
    && (forall i :: 0 <= i < lower ==> heads[i] < keyHead)
    && (forall i :: upper <= i < |heads| ==> keyHead < heads[i])
  }

  lemma {:induction false} AllSlots(heads: seq<nat>, keyHead: nat)
    ensures HeadsNarrowed(heads, keyHead, 0, |heads|)
  {
  }

  lemma {:induction false} HintRangeIs(hint: seq<nat>, heads: seq<nat>, keyHead: nat, pos: nat, pos2: nat)
    requires HintsMatch(hint, heads) && Ascending(heads) && heads != [] && pos <= pos2 <= HINT_COUNT
    requires pos > 0 ==> hint[pos - 1] < keyHead
    requires pos2 < HINT_COUNT ==> hint[pos2] != keyHead
    requires (pos < HINT_COUNT ==> hint[pos] >= keyHead) && (pos < pos2 ==> hint[pos2 - 1] == keyHead)
    ensures var d := |heads| / (HINT_COUNT + 1); var upper := if pos2 < HINT_COUNT then (pos2 + 1) * d else |heads|;
      HeadsNarrowed(heads, keyHead, pos * d, upper) && Tight(heads, keyHead, pos * d, upper)
  {
    hide Tight, HintsMatch, Ascending;
    HintTight(hint, heads, keyHead, pos, pos2);
    HintLower(hint, heads, keyHead, pos);
    if pos2 < HINT_COUNT { HintUpper(hint, heads, keyHead, pos, pos2); }
  }

  /** The hint's verdict on heads is a verdict on suffixes. */
  lemma {:induction false} HintNarrows(img: Image, rest: Key, lower: nat, upper: nat)
    requires Good(img) && HeadsNarrowed(Heads(img.slots), Head(rest), lower, upper)
    ensures img.Layout() && Narrowed(img, rest, lower, upper)
  {
    assert img.Layout() && img.HeadsOk();
    hide Head, Less, Good, Image.WellFormed;
    forall i | 0 <= i < lower
      ensures Less(img.Suffix(img.slots[i]), rest)
    {
      assert Heads(img.slots)[i] == img.slots[i].head;
      HeadLess(img.Suffix(img.slots[i]), rest);
    }
    forall i | upper <= i < |img.slots|
      ensures Less(rest, img.Suffix(img.slots[i]))
    {
      assert Heads(img.slots)[i] == img.slots[i].head;
      HeadLess(rest, img.Suffix(img.slots[i]));
    }
  }

  lemma {:induction false} SuffixesAscend(img: Image, i: nat, j: nat)
    requires Good(img) && i < j < |img.slots|
    ensures img.Layout() && Less(img.Suffix(img.slots[i]), img.Suffix(img.slots[j]))
  {
    FullKey(img, i);
    FullKey(img, j);
    var p, a, b := img.Prefix(), img.Suffix(img.slots[i]), img.Suffix(img.slots[j]);
    assert Less(p + a, p + b);
    hide Image.WellFormed, Good, Head, Less;
    assert (p + a)[..|p|] == p && (p + a)[|p|..] == a;
    CompareSuffix(p, p + a, b);
  }

  /** The middle slot is larger: the upper half goes. */
  lemma {:induction false} NarrowDown(img: Image, rest: Key, lower: nat, upper: nat, mid: nat)
    requires Good(img) && img.Layout() && Narrowed(img, rest, lower, upper) && lower <= mid < upper
    requires Less(rest, img.Suffix(img.slots[mid]))
    ensures Narrowed(img, rest, lower, mid)
  {
    hide Less, Good;
    forall i | mid <= i < |img.slots|
      ensures Less(rest, img.Suffix(img.slots[i]))
    {
      if mid < i { SuffixesAscend(img, mid, i); LessTrans(rest, img.Suffix(img.slots[mid]), img.Suffix(img.slots[i])); }
    }
  }

  /** The middle slot is smaller: the lower half goes. */
  lemma {:induction false} NarrowUp(img: Image, rest: Key, lower: nat, upper: nat, mid: nat)
    requires Good(img) && img.Layout() && Narrowed(img, rest, lower, upper) && lower <= mid < upper
    requires Less(img.Suffix(img.slots[mid]), rest)
    ensures Narrowed(img, rest, mid + 1, upper)
  {
    hide Less, Good;
    forall i | 0 <= i < mid + 1
      ensures Less(img.Suffix(img.slots[i]), rest)
    {
      if i < mid { SuffixesAscend(img, i, mid); LessTrans(img.Suffix(img.slots[i]), img.Suffix(img.slots[mid]), rest); }
    }
  }

  /** Comparing the first bytes of two keys, then their lengths, compares the keys. */
  lemma {:induction false} CompareDecides(a: Key, b: Key, n: nat)
    requires n == if |a| < |b| then |a| else |b|
    ensures Less(a[..n], b[..n]) ==> Less(a, b)
    ensures Less(b[..n], a[..n]) ==> Less(b, a)
    ensures a[..n] == b[..n] && |a| < |b| ==> Less(a, b)
    ensures a[..n] == b[..n] && |a| > |b| ==> Less(b, a)
    ensures a[..n] == b[..n] && |a| == |b| ==> a == b
  {
    DecidedBy(a, b, n);
    DecidedBy(b, a, n);
    if a[..n] == b[..n] {
      assert forall i :: 0 <= i < n ==> a[i] == a[..n][i] && b[i] == b[..n][i];
      CommonIs(a, b, n);
      CommonIs(b, a, n);
    }
  }

  /** key is what of skey is left to compare once the page prefix has matched. */
  ghost predicate Rest(img: Image, skey: Key, key: Key) {
    && img.Layout() && img.prefixLen <= img.lowerFence.len
    && StartsWith(skey, img.Prefix()) && key == skey[|img.Prefix()|..]
  }

  /** What lowerBound must answer. */
  ghost predicate Answer(img: Image, skey: Key, pos: nat, found: bool) {
    && img.Layout() && img.prefixLen <= img.lowerFence.len
    && pos == img.View().Pos(skey) <= |img.slots| && found == img.View().Found(skey)
  }

  /** The search is over: it stands at the lower bound, and the key is not there. */
  lemma {:induction false} SearchEnds(img: Image, key: Key, rest: Key, pos: nat)
    requires Good(img) && Rest(img, key, rest) && Narrowed(img, rest, pos, pos)
    ensures Answer(img, key, pos, false)
  {
    var v, p := img.View(), img.Prefix();
    hide Less, Good, Image.Layout, LowerBound, Image.View, Image.WellFormed, Head, Image.Prefix, Image.Suffix;
    forall i | 0 <= i < |img.slots|
      ensures i < pos ==> Less(v.entries[i].key, key)
      ensures i >= pos ==> Less(key, v.entries[i].key)
    {
      FullKey(img, i);
      CompareSuffix(p, key, img.Suffix(img.slots[i]));
    }
    EndsAt(v, key, pos);
  }

  lemma {:induction false} EndsAt(v: Page, key: Key, pos: nat)
    requires pos <= |v.entries|
    requires forall i :: 0 <= i < pos ==> Less(v.entries[i].key, key)
    requires forall i :: pos <= i < |v.entries| ==> Less(key, v.entries[i].key)
    ensures v.Pos(key) == pos && !v.Found(key)
  {
    if pos < |v.entries| { LessTotal(key, v.entries[pos].key); }
    LowerBoundIs(v.entries, key, pos);
  }

  /** The search hit the key. */
  lemma {:induction false} SearchHits(img: Image, key: Key, rest: Key, pos: nat)
    requires Good(img) && Rest(img, key, rest)
    requires pos < |img.slots| && img.Suffix(img.slots[pos]) == rest
    ensures Answer(img, key, pos, true)
  {
    hide Good, Image.WellFormed, Less, Head, Common, Image.Prefix, Image.Suffix, Image.View, LowerBound;
    var v := img.View();
    FullKey(img, pos);
    assert key == img.Prefix() + rest;
    GoodEntries(img);
    LowerBoundSplits(v.entries, key);
  }

  lemma {:induction false} GoodEntries(img: Image)
    requires Good(img)
    ensures img.Layout() && img.prefixLen <= img.lowerFence.len && Sorted(img.View().entries)
    ensures |img.View().entries| == |img.slots|
  {
    hide Less, Common, Head;
  }
}
