/** The resident set and the pool: it has a slot for every page that may come, and its clock meets every page that
    stays. */
module PoolClock {
  import opened Pages
  import opened Pools
  import opened ResidentSet

  // ---------------------------------------------------------------------- room in the table

  lemma {:induction false} OwnedAtMost(owner: seq<Option<PID>>, pids: set<PID>)
    requires forall p :: p in pids ==> exists f :: 0 <= f < |owner| && owner[f] == Some(p)
    ensures |pids| <= |owner|
  {
    if owner == [] {
      assert pids == {};
    } else {
      var n := |owner| - 1;
      var rest := if owner[n].Some? then pids - {owner[n].value} else pids;
      forall p | p in rest
        ensures exists f :: 0 <= f < n && owner[..n][f] == Some(p)
      {
        var f :| 0 <= f < |owner| && owner[f] == Some(p);
        assert owner[..n][f] == Some(p);
      }
      OwnedAtMost(owner[..n], rest);
    }
  }

  lemma {:induction false} AllHeld(t: seq<Slot>)
    requires Unique(t) && forall f :: 0 <= f < |t| ==> t[f].Held?
    ensures |Elements(t)| == |t|
  {
    if t != [] {
      var rest := t[1..];
      forall a: nat, b: nat, p | Sits(rest, a, p) && Sits(rest, b, p)
        ensures a == b
      {
        assert Sits(t, a + 1, p) && Sits(t, b + 1, p);
      }
      AllHeld(rest);
      forall p
        ensures p in Elements(t) <==> p == t[0].pid || p in Elements(rest)
      {
        ElementsAre(t, p);
        ElementsAre(rest, p);
        if pos: nat :| Sits(rest, pos, p) { assert Sits(t, pos + 1, p); }
        if pos: nat :| Sits(t, pos, p) { assert pos > 0 ==> Sits(rest, pos - 1, p); }
        assert Sits(t, 0, t[0].pid);
      }
      assert Elements(t) == {t[0].pid} + Elements(rest);
      ElementsAre(rest, t[0].pid);
      if pos: nat :| Sits(rest, pos, t[0].pid) { assert Sits(t, pos + 1, t[0].pid) && Sits(t, 0, t[0].pid); }
    }
  }

  /** A table with more slots than the pool has frames never fills up. */
  lemma {:induction false} SlotLeft(l: Layout, s: Pool, t: seq<Slot>) returns (f: nat)
    requires s.Inv(l, None) && Unique(t) && Elements(t) == s.resident && |t| > l.frameCount
    ensures f < |t| && !t[f].Held?
  {
    assert forall p :: p in s.resident ==> s.Seated(p);
    OwnedAtMost(s.owner, s.resident);
    if forall g :: 0 <= g < |t| ==> t[g].Held? { AllHeld(t); }
    f :| 0 <= f < |t| && !t[f].Held?;
  }

  // ---------------------------------------------------------------------- what the clock has met

  /** None of the pages may be evicted. */
  ghost predicate NoneIn(ht: map<PID, BufferFrame>, pids: seq<PID>) {
    forall p :: p in pids && p in ht ==> ht[p].state != Unlocked && ht[p].state != Marked
  }

  /** The first k batches from start on met no page that may be evicted. */
  ghost predicate MetNone(t: seq<Slot>, ht: map<PID, BufferFrame>, start: nat, batch: nat, k: nat)
    requires start < |t|
  {
    forall i: nat :: i < k ==> NoneIn(ht, Swept(t, ClockAfter(|t|, start, batch, i), batch))
  }

  lemma {:induction false} MetNothing(t: seq<Slot>, ht: map<PID, BufferFrame>, start: nat, batch: nat)
    requires start < |t|
    ensures MetNone(t, ht, start, batch, 0)
  {
  }

  lemma {:induction false} NoneEvictable(s: Pool, pids: seq<PID>)
    requires forall p :: p in pids ==> !Evictable(s, p)
    ensures NoneIn(s.ht, pids)
  {
  }

  /** More batches leave fewer slots to visit. */
  lemma {:induction false} MoreBatches(k: nat, more: nat, batch: nat)
    requires more > 0 && batch > 0
    ensures (k + more) * batch > k * batch
  {
  }

  lemma {:induction false} MetOne(t: seq<Slot>, ht: map<PID, BufferFrame>, start: nat, batch: nat, k: nat)
    requires start < |t| && MetNone(t, ht, start, batch, k)
    requires NoneIn(ht, Swept(t, ClockAfter(|t|, start, batch, k), batch))
    ensures MetNone(t, ht, start, batch, k + 1)
  {
  }

  lemma {:induction false} ClockFurther(n: nat, start: nat, batch: nat, j: nat, k: nat)
    requires start < n
    ensures ClockAfter(n, ClockAfter(n, start, batch, j), batch, k) == ClockAfter(n, start, batch, j + k)
  {
    if k > 0 { ClockFurther(n, start, batch, j, k - 1); }
  }

  /** Sweeps that follow each other. */
  lemma {:induction false} MetMore(t: seq<Slot>, ht: map<PID, BufferFrame>, start: nat, batch: nat, j: nat, k: nat)
    requires start < |t| && MetNone(t, ht, start, batch, j)
    requires MetNone(t, ht, ClockAfter(|t|, start, batch, j), batch, k)
    ensures MetNone(t, ht, start, batch, j + k)
  {
    forall i: nat | i < j + k
      ensures NoneIn(ht, Swept(t, ClockAfter(|t|, start, batch, i), batch))
    {
      if i >= j { ClockFurther(|t|, start, batch, j, i - j); }
    }
  }

  /** Once the batches add up to the table, no page is left that may be evicted. */
  lemma {:induction false} MetAll(t: seq<Slot>, s: Pool, start: nat, batch: nat, k: nat, p: PID)
    requires start < |t| && batch > 0 && k * batch >= |t| && MetNone(t, s.ht, start, batch, k)
    requires Elements(t) == s.ht.Keys
    ensures !Evictable(s, p)
  {
    if p in s.ht {
      var i := ClockReaches(t, start, batch, k, p);
      assert NoneIn(s.ht, Swept(t, ClockAfter(|t|, start, batch, i), batch));
    }
  }

  // ---------------------------------------------------------------------- second chance

  predicate Dirty(s: Pool, p: PID) {
    p in s.ht && s.ht[p].page < |s.frames| && s.frames[s.ht[p].page].dirty
  }

  /** What becomes of a page that the clock hands out n times in one eviction: the first time an unlocked page is
      marked, the next time it goes; a marked page goes at once; a page that somebody holds stays as it is. */
  function Chance(bf: BufferFrame, n: nat): Option<BufferFrame> {
    match bf.state
    case Unlocked => if n == 0 then Some(bf) else if n == 1 then Some(bf.(state := Marked)) else None
    case Marked => if n == 0 then Some(bf) else None
    case _ => Some(bf)
  }

  predicate ChanceOf(s0: Pool, ht: map<PID, BufferFrame>, visits: seq<PID>, pids: seq<PID>, p: PID)
    requires p in s0.ht
  {
    match Chance(s0.ht[p], multiset(visits)[p])
    case Some(bf) => p in ht && ht[p] == bf && p !in pids
    case None => if p in pids then p in ht && ht[p] == s0.ht[p].(state := Shared) else p !in ht
  }

  /** ht is what the visits have made of the pages of s0; the dirty pages in pids are still there, locked, to be
      written back. */
  ghost predicate Chances(s0: Pool, ht: map<PID, BufferFrame>, visits: seq<PID>, pids: seq<PID>) {
    && (forall p :: p in ht ==> p in s0.ht)
    && (forall p :: p in pids ==> Dirty(s0, p))
    && forall p :: p in s0.ht ==> ChanceOf(s0, ht, visits, pids, p)
  }

  /** Slots may have been given up. */
  ghost predicate Thinned(t: seq<Slot>, t': seq<Slot>) {
    |t| == |t'| && forall i :: 0 <= i < |t| && t'[i].Held? ==> t'[i] == t[i]
  }

  lemma {:induction false} RemovedThins(t: seq<Slot>, p: PID, t': seq<Slot>)
    requires Removed(t, p, t')
    ensures Thinned(t, t')
  {
  }

  /** Each page that was taken counts once, and once more if it was clean and has gone already. */
  ghost function Weight(s0: Pool, s: Pool, pids: seq<PID>): nat { 2 * |s0.ht.Keys - s.ht.Keys| + |pids| }

  /** An eviction that started in s0 with the clock's table t0, after these visits. */
  ghost predicate Tallied(s0: Pool, t0: seq<Slot>, s: Pool, t: seq<Slot>, visits: seq<PID>, pids: seq<PID>,
                          evicted: nat) {
    && Chances(s0, s.ht, visits, pids) && (forall p :: p in s0.ht && p !in s.ht ==> !Dirty(s0, p))
    && s.frames == s0.frames && Unique(t0) && Thinned(t0, t) && evicted == Weight(s0, s, pids)
  }

  /** One visit, exactly. */
  ghost predicate Visited(s: Pool, r: Pool, p: PID, pids: seq<PID>, pids': seq<PID>, taken: nat) {
    && r.frames == s.frames
    && if !Evictable(s, p) then r.ht == s.ht && pids' == pids && taken == 0
       else if s.ht[p].state == Unlocked then
         r.ht == s.ht[p := s.ht[p].(state := Marked)] && pids' == pids && taken == 0
       else if Dirty(s, p) then r.ht == s.ht[p := s.ht[p].(state := Shared)] && pids' == pids + [p] && taken == 1
       else r.ht == s.ht - {p} && pids' == pids && taken == 2
  }

  lemma {:induction false} TallyStart(s: Pool, t: seq<Slot>)
    requires Unique(t)
    ensures Tallied(s, t, s, t, [], [], 0)
  {
    var none: seq<PID> := [];
    assert forall p :: multiset(none)[p] == 0;
  }

  lemma {:induction false} OneMore(visits: seq<PID>, p: PID, q: PID)
    ensures multiset(visits + [p])[q] == multiset(visits)[q] + if q == p then 1 else 0
  {
  }

  lemma {:induction false} VisitChances(s0: Pool, s: Pool, r: Pool, visits: seq<PID>, p: PID, pids: seq<PID>,
                                        pids': seq<PID>, taken: nat)
    requires Chances(s0, s.ht, visits, pids) && s.frames == s0.frames && Visited(s, r, p, pids, pids', taken)
    ensures Chances(s0, r.ht, visits + [p], pids')
  {
    if p in s0.ht { assert ChanceOf(s0, s.ht, visits, pids, p); }
    forall q | q in s0.ht
      ensures ChanceOf(s0, r.ht, visits + [p], pids', q)
    {
      assert ChanceOf(s0, s.ht, visits, pids, q);
      OneMore(visits, p, q);
    }
  }

  lemma {:induction false} OneGoes(ht0: map<PID, BufferFrame>, ht: map<PID, BufferFrame>, p: PID)
    requires p in ht0 && p in ht
    ensures |ht0.Keys - (ht - {p}).Keys| == |ht0.Keys - ht.Keys| + 1
  {
    assert ht0.Keys - (ht - {p}).Keys == (ht0.Keys - ht.Keys) + {p};
  }

  lemma {:induction false} VisitWeight(s0: Pool, s: Pool, r: Pool, p: PID, pids: seq<PID>, pids': seq<PID>, taken: nat)
    requires (forall q :: q in s.ht ==> q in s0.ht) && Visited(s, r, p, pids, pids', taken)
    ensures Weight(s0, r, pids') == Weight(s0, s, pids) + taken
  {
    if p in s.ht {
      OneGoes(s0.ht, s.ht, p);
      assert s.ht[p := s.ht[p].(state := Marked)].Keys == s.ht.Keys;
      assert s.ht[p := s.ht[p].(state := Shared)].Keys == s.ht.Keys;
    }
  }

  lemma {:induction false} TallyVisit(s0: Pool, t0: seq<Slot>, s: Pool, t: seq<Slot>, visits: seq<PID>, pids: seq<PID>,
                                      evicted: nat, p: PID, r: Pool, t': seq<Slot>, pids': seq<PID>, taken: nat)
    requires Tallied(s0, t0, s, t, visits, pids, evicted) && Visited(s, r, p, pids, pids', taken) && Thinned(t, t')
    ensures Tallied(s0, t0, r, t', visits + [p], pids', evicted + taken)
  {
    hide Weight, Unique, Evictable, Visited;
    VisitChances(s0, s, r, visits, p, pids, pids', taken);
    VisitWeight(s0, s, r, p, pids, pids', taken);
    VisitClean(s0, s, r, visits, p, pids, pids', taken);
    hide Chances, Dirty;
    ThinnedTrans(t0, t, t');
    hide Thinned;
  }

  lemma {:induction false} ThinnedTrans(t0: seq<Slot>, t: seq<Slot>, t': seq<Slot>)
    requires Thinned(t0, t) && Thinned(t, t')
    ensures Thinned(t0, t')
  {
  }

  lemma {:induction false} VisitClean(s0: Pool, s: Pool, r: Pool, visits: seq<PID>, p: PID, pids: seq<PID>,
                                      pids': seq<PID>, taken: nat)
    requires Chances(s0, s.ht, visits, pids) && s.frames == s0.frames && Visited(s, r, p, pids, pids', taken)
    requires forall p :: p in s0.ht && p !in s.ht ==> !Dirty(s0, p)
    ensures r.frames == s0.frames && forall p :: p in s0.ht && p !in r.ht ==> !Dirty(s0, p)
  {
    if p in s0.ht { assert ChanceOf(s0, s.ht, visits, pids, p); }
  }

  lemma {:induction false} SameSlot(t0: seq<Slot>, t: seq<Slot>, i: nat, p: PID)
    requires Unique(t0) && Thinned(t0, t) && p in Elements(t) && i < |t|
    ensures t0[i] == Held(p) <==> t[i] == Held(p)
  {
    ElementsAre(t, p);
    var pos: nat :| Sits(t, pos, p);
    assert Sits(t0, pos, p);
    if t0[i] == Held(p) { assert Sits(t0, i, p); }
  }

  /** A page still in the table is handed out as the first table would do it. */
  lemma {:induction false} SweptAlike(t0: seq<Slot>, t: seq<Slot>, from: nat, n: nat, p: PID)
    requires Unique(t0) && Thinned(t0, t) && p in Elements(t) && from < |t| == |t0|
    ensures multiset(Swept(t, from, n))[p] == multiset(Swept(t0, from, n))[p]
  {
    hide Unique, Thinned, Elements, Around, Swept;
    if n == 0 {
      NoneSwept(t, from);
      NoneSwept(t0, from);
    } else {
      SweptAlike(t0, t, from, n - 1, p);
      SameSlot(t0, t, Around(|t|, from, n - 1), p);
      OneSwept(t, from, n, p);
      OneSwept(t0, from, n, p);
    }
  }

  /** Pages that have gone since the first table count no visits any more, so a batch can be read off that table. */
  lemma {:induction false} TallyBatch(s0: Pool, t0: seq<Slot>, s: Pool, t: seq<Slot>, visits: seq<PID>, pids: seq<PID>,
                                      evicted: nat, from: nat, batch: nat, r: Pool, t': seq<Slot>, pids': seq<PID>,
                                      more: nat)
    requires Tallied(s0, t0, s, t, visits, pids, evicted) && from < |t| && Elements(t) == s.ht.Keys
    requires Tallied(s0, t0, r, t', visits + Swept(t, from, batch), pids', more)
    ensures Tallied(s0, t0, r, t', visits + Swept(t0, from, batch), pids', more)
  {
    hide Thinned, Unique, Swept, Weight, Elements, Dirty;
    ThinnedLength(t0, t);
    forall p | p in s0.ht
      ensures ChanceOf(s0, r.ht, visits + Swept(t0, from, batch), pids', p)
    {
      assert ChanceOf(s0, s.ht, visits, pids, p) && ChanceOf(s0, r.ht, visits + Swept(t, from, batch), pids', p);
      Together(visits, Swept(t, from, batch), p);
      Together(visits, Swept(t0, from, batch), p);
      if p in Elements(t) { SweptAlike(t0, t, from, batch, p); }
    }
  }

  lemma {:induction false} ThinnedLength(t: seq<Slot>, t': seq<Slot>)
    requires Thinned(t, t')
    ensures |t| == |t'|
  {
  }

  /** A page that was written back goes. */
  lemma {:induction false} ReleaseChances(s0: Pool, ht: map<PID, BufferFrame>, visits: seq<PID>, pids: seq<PID>)
    requires Chances(s0, ht, visits, pids) && pids != [] && pids[0] !in pids[1..]
    ensures Chances(s0, ht - {pids[0]}, visits, pids[1..])
  {
    hide Dirty;
    forall q | q in s0.ht
      ensures ChanceOf(s0, ht - {pids[0]}, visits, pids[1..], q)
    {
      assert ChanceOf(s0, ht, visits, pids, q);
    }
  }

  // ---------------------------------------------------------------------- one eviction

  /** The pids in the intervals of the first k batches, the clock standing at start first. */
  function Handed(t: seq<Slot>, start: nat, batch: nat, k: nat): seq<PID>
    requires start < |t|
  {
    if k == 0 then [] else Handed(t, start, batch, k - 1) + Swept(t, ClockAfter(|t|, start, batch, k - 1), batch)
  }

  /** The pages taken by the visits. */
  function Taken(s0: Pool, visits: seq<PID>): set<PID> {
    set p | p in s0.ht && Chance(s0.ht[p], multiset(visits)[p]).None?
  }

  /** What evict compares with its batch: a dirty page counts once, a clean one twice. */
  function Count(s0: Pool, visits: seq<PID>): nat {
    |Taken(s0, visits)| + |set p | p in Taken(s0, visits) && !Dirty(s0, p)|
  }

  lemma {:induction false} CountIs(s0: Pool, t0: seq<Slot>, s: Pool, t: seq<Slot>, visits: seq<PID>, pids: seq<PID>,
                                   evicted: nat)
    requires Tallied(s0, t0, s, t, visits, pids, evicted) && forall i, j :: 0 <= i < j < |pids| ==> pids[i] != pids[j]
    ensures evicted == Count(s0, visits)
  {
    hide Dirty, Taken, SetOf, Unique, Thinned, Chances;
    Distinct(pids);
    TakenAre(s0, s, visits, pids);
    assert |Taken(s0, visits)| == |s0.ht.Keys - s.ht.Keys| + |SetOf(pids)|;
  }

  lemma {:induction false} TakenAre(s0: Pool, s: Pool, visits: seq<PID>, pids: seq<PID>)
    requires Chances(s0, s.ht, visits, pids) && forall p :: p in s0.ht && p !in s.ht ==> !Dirty(s0, p)
    ensures Taken(s0, visits) == (s0.ht.Keys - s.ht.Keys) + SetOf(pids) && (s0.ht.Keys - s.ht.Keys) !! SetOf(pids)
    ensures (set p | p in Taken(s0, visits) && !Dirty(s0, p)) == s0.ht.Keys - s.ht.Keys
  {
    hide Chances, Dirty, Taken;
    forall p
      ensures p in Taken(s0, visits) <==> p in s0.ht && (p !in s.ht || p in pids)
      ensures p in pids ==> p in s.ht && p in s0.ht && Dirty(s0, p)
    {
      TakenWhen(s0, s, visits, pids, p);
    }
  }

  lemma {:induction false} TakenWhen(s0: Pool, s: Pool, visits: seq<PID>, pids: seq<PID>, p: PID)
    requires Chances(s0, s.ht, visits, pids)
    ensures p in Taken(s0, visits) <==> p in s0.ht && (p !in s.ht || p in pids)
    ensures p in pids ==> p in s.ht && p in s0.ht && Dirty(s0, p)
  {
    if p in s0.ht { assert ChanceOf(s0, s.ht, visits, pids, p); }
  }

  function SetOf(pids: seq<PID>): set<PID> { set p | p in pids }

  lemma {:induction false} Distinct(pids: seq<PID>)
    requires forall i, j :: 0 <= i < j < |pids| ==> pids[i] != pids[j]
    ensures |SetOf(pids)| == |pids|
  {
    if pids != [] {
      Distinct(pids[1..]);
      assert forall q :: q in pids <==> q == pids[0] || q in pids[1..];
      assert SetOf(pids) == {pids[0]} + SetOf(pids[1..]);
    }
  }

  /** The whole of evict: it stops after the first batch at which enough pages are taken, or after maxTries batches;
      then every page is where the visits have left it. */
  ghost predicate Evicts(s0: Pool, t0: seq<Slot>, start: nat, batch: nat, maxTries: nat, tries: nat,
                         ht: map<PID, BufferFrame>) {
    && start < |t0| && tries <= maxTries
    && Chances(s0, ht, Handed(t0, start, batch, tries), [])
    && (forall k: nat :: k < tries ==> Count(s0, Handed(t0, start, batch, k)) < batch)
    && (tries < maxTries ==> Count(s0, Handed(t0, start, batch, tries)) >= batch)
  }

  /** Second chance: evict drops exactly the pages that were marked and in reach of a batch, and the unlocked ones that
      were in reach of two; an unlocked page in reach of one is marked and stays in its frame, and a page in reach of
      none, or held by somebody, stays as it is. */
  lemma {:induction false} SecondChance(s0: Pool, t0: seq<Slot>, start: nat, batch: nat, maxTries: nat, tries: nat,
                                        ht: map<PID, BufferFrame>, p: PID)
    requires Evicts(s0, t0, start, batch, maxTries, tries, ht) && p in s0.ht && Unique(t0) && batch <= |t0|
    ensures p !in ht <==>
      || (s0.ht[p].state == Marked && exists i: nat :: i < tries && InReach(t0, start, batch, i, p))
      || (s0.ht[p].state == Unlocked
          && exists i: nat, j: nat ::
               i < j < tries && InReach(t0, start, batch, i, p) && InReach(t0, start, batch, j, p))
    ensures p in ht ==>
      ht[p] == if s0.ht[p].state == Unlocked && exists i: nat :: i < tries && InReach(t0, start, batch, i, p)
               then s0.ht[p].(state := Marked) else s0.ht[p]
  {
    var visits := Handed(t0, start, batch, tries);
    assert ChanceOf(s0, ht, visits, [], p);
    hide Unique, Evicts, Chances, InReach, Handed;
    OneReach(t0, start, batch, tries, p);
    TwoReaches(t0, start, batch, tries, p);
  }

  /** The page's slot is in the interval of batch i. */
  ghost predicate InReach(t: seq<Slot>, start: nat, batch: nat, i: nat, p: PID) {
    start < |t| && p in Swept(t, ClockAfter(|t|, start, batch, i), batch)
  }

  lemma {:induction false} HandedMore(t: seq<Slot>, start: nat, batch: nat, k: nat, p: PID)
    requires start < |t| && k > 0
    ensures multiset(Handed(t, start, batch, k))[p] >= multiset(Handed(t, start, batch, k - 1))[p]
    ensures multiset(Handed(t, start, batch, k))[p] > multiset(Handed(t, start, batch, k - 1))[p] <==>
            InReach(t, start, batch, k - 1, p)
    ensures Unique(t) && batch <= |t| ==>
      multiset(Handed(t, start, batch, k))[p] <= multiset(Handed(t, start, batch, k - 1))[p] + 1
  {
    hide Swept, Unique;
    var from := ClockAfter(|t|, start, batch, k - 1);
    Together(Handed(t, start, batch, k - 1), Swept(t, from, batch), p);
    assert p in Swept(t, from, batch) <==> multiset(Swept(t, from, batch))[p] > 0;
    if Unique(t) && batch <= |t| { SweptOnce(t, from, batch, p); }
  }

  lemma {:induction false} NoneHanded(t: seq<Slot>, start: nat, batch: nat, p: PID)
    requires start < |t|
    ensures multiset(Handed(t, start, batch, 0))[p] == 0
  {
  }

  lemma {:induction false} OneReach(t: seq<Slot>, start: nat, batch: nat, k: nat, p: PID)
    requires start < |t|
    ensures multiset(Handed(t, start, batch, k))[p] > 0 <==> exists i: nat :: i < k && InReach(t, start, batch, i, p)
  {
    hide InReach, Handed;
    if k == 0 {
      NoneHanded(t, start, batch, p);
    } else {
      OneReach(t, start, batch, k - 1, p);
      HandedMore(t, start, batch, k, p);
    }
  }

  lemma {:induction false} TwoReaches(t: seq<Slot>, start: nat, batch: nat, k: nat, p: PID)
    requires start < |t| && Unique(t) && batch <= |t|
    ensures multiset(Handed(t, start, batch, k))[p] >= 2 <==>
      exists i: nat, j: nat :: i < j < k && InReach(t, start, batch, i, p) && InReach(t, start, batch, j, p)
  {
    hide InReach, Handed, Unique;
    if k == 0 {
      NoneHanded(t, start, batch, p);
    } else {
      TwoReaches(t, start, batch, k - 1, p);
      OneReach(t, start, batch, k - 1, p);
      HandedMore(t, start, batch, k, p);
    }
  }
}
