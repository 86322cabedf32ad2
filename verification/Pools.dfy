/** The state of the buffer pool: frames in memory with their owner table, the table of resident pages, the
    free list and the disk. The lemmas say what each elementary change does to what the pages contain. */
module Pools {
  import opened Pages

  /** A page image as the pool sees it: the pid in its header and everything else. */
  datatype Content = Content(pid: PID, body: seq<int>)

  datatype Frame = Frame(dirty: bool, image: Content)

  /** Latch states as far as a sequential caller can meet them: Shared and Locked are held by the caller itself. */
  datatype LatchState = Unlocked | Marked | Shared | Locked

  datatype BufferFrame = BufferFrame(page: nat, intendedSlot: bool, state: LatchState)

  /** Where pages want to be, and which bucket of the page table they are in. */
  datatype Layout = Layout(frameCount: nat, bucketCount: nat, hashes: PID -> nat, predict: bool) {
    predicate Ok() { frameCount > 0 && bucketCount > 0 }

    function IntendedFrame(pid: PID): (f: nat)
      requires Ok()
      ensures f < frameCount
    {
      hashes(pid) % frameCount
    }

    function Bucket(pid: PID): nat
      requires Ok()
    {
      hashes(pid) % bucketCount
    }
  }

  datatype Pool = Pool(frames: seq<Frame>, owner: seq<Option<PID>>, ht: map<PID, BufferFrame>, resident: set<PID>,
                       free: multiset<nat>, disk: map<PID, Content>, allocCount: nat) {

    predicate Shaped(l: Layout) {
      l.Ok() && |frames| == |owner| == l.frameCount
    }

    /** The page is in a frame that belongs to it. */
    predicate Seated(p: PID) {
      p in ht && ht[p].page < |owner| && owner[ht[p].page] == Some(p)
    }

    predicate Held(p: PID) {
      p in ht && (ht[p].state == Shared || ht[p].state == Locked)
    }

    /** What the page contains: the frame's bytes if it is resident, else the disk's. */
    function Logical(p: PID): Option<Content>
      requires |frames| == |owner|
    {
      if Seated(p) then Some(frames[ht[p].page].image)
      else if p in disk then Some(disk[p])
      else None
    }

    /** Every resident page but the one being loaded sits in a frame of its own. */
    ghost predicate AllSeated(loading: Option<PID>) {
      forall p :: p in ht && Some(p) != loading ==> Seated(p)
    }

    /** Only a seated page owns a frame, and every other frame is on the free list. */
    ghost predicate OwnersOk(loading: Option<PID>) {
      forall f :: 0 <= f < |owner| ==>
        match owner[f]
        case None => f in free
        case Some(p) => p in ht && Some(p) != loading && ht[p].page == f
    }

    ghost predicate IntendedOk(l: Layout, loading: Option<PID>)
      requires l.Ok()
    {
      forall p :: p in ht && Some(p) != loading && ht[p].intendedSlot ==> ht[p].page == l.IntendedFrame(p)
    }

    /** A clean resident page equals its copy on disk. */
    ghost predicate CleanOk(loading: Option<PID>)
      requires |frames| == |owner|
    {
      forall p :: p in ht && Some(p) != loading && Seated(p) && !frames[ht[p].page].dirty ==>
        p in disk && disk[p] == frames[ht[p].page].image
    }

    /** Every page that was ever allocated is resident or on disk, and no other page is. */
    ghost predicate NoneLost(loading: Option<PID>) {
      && (forall p: PID :: p < allocCount && Some(p) != loading ==> p in ht || p in disk)
      && (forall p :: p in ht || p in disk ==> p < allocCount)
    }

    ghost predicate FreeOk() {
      forall f :: f in free ==> f < |owner|
    }

    /** The invariant at operation boundaries (loading is None), or while a page has been entered into the page
        table but has no frame yet. */
    ghost predicate Inv(l: Layout, loading: Option<PID>) {
      && Shaped(l) && resident == ht.Keys && FreeOk()
      && AllSeated(loading) && OwnersOk(loading) && IntendedOk(l, loading) && CleanOk(loading) && NoneLost(loading)
      && (loading.Some? ==> Held(loading.value))
    }
  }

  /** Nobody's contents differ, except perhaps the page's that is being loaded. */
  ghost predicate SameContents(s: Pool, r: Pool) {
    && |s.frames| == |s.owner| && |r.frames| == |r.owner|
    && forall p :: s.Logical(p) == r.Logical(p)
  }

  lemma {:induction false} SameTrans(s: Pool, r: Pool, t: Pool)
    requires SameContents(s, r) && SameContents(r, t)
    ensures SameContents(s, t)
  {
  }

  /** All frames of a pool. */
  function AllFrames(n: nat): (frames: multiset<nat>)
    ensures forall f: nat :: f in frames <==> f < n
  {
    if n == 0 then multiset{} else AllFrames(n - 1) + multiset{n - 1}
  }

  /** An empty pool: nobody owns a frame, and all are on the free list. */
  lemma {:induction false} StartOk(l: Layout, s: Pool)
    requires s.Shaped(l) && (forall p :: p !in s.ht && p !in s.disk) && s.resident == {} && s.allocCount == 0
    requires forall f: nat :: f in s.free <==> f < |s.owner|
    requires forall f :: 0 <= f < |s.owner| ==> s.owner[f] == None
    ensures s.Inv(l, None)
  {
    assert s.ht.Keys == s.resident;
  }

  /** Two seated pages never share a frame. */
  lemma {:induction false} OneFrameEach(l: Layout, s: Pool, p: PID, q: PID)
    requires s.Inv(l, None) && p in s.ht && q in s.ht && s.ht[p].page == s.ht[q].page
    ensures p == q
  {
    assert s.Seated(p) && s.Seated(q);
  }

  // ---------------------------------------------------------------------- elementary changes

  /** A latch changes its state. */
  function WithState(s: Pool, p: PID, state: LatchState): Pool
    requires p in s.ht
  {
    s.(ht := s.ht[p := s.ht[p].(state := state)])
  }

  lemma {:induction false} WithStateKeeps(l: Layout, s: Pool, p: PID, state: LatchState, loading: Option<PID>)
    requires s.Inv(l, loading) && p in s.ht && Some(p) != loading
    ensures WithState(s, p, state).Inv(l, loading) && SameContents(s, WithState(s, p, state))
  {
  }

  /** A page is entered into the page table, without a frame yet. */
  function Entered(s: Pool, p: PID, page: nat, intendedSlot: bool): Pool {
    s.(ht := s.ht[p := BufferFrame(page, intendedSlot, Locked)], resident := s.resident + {p},
       allocCount := if p == s.allocCount then p + 1 else s.allocCount)
  }

  lemma {:induction false} EnteredKeeps(l: Layout, s: Pool, p: PID, page: nat, intendedSlot: bool)
    requires s.Inv(l, None) && p !in s.ht && p <= s.allocCount
    ensures Entered(s, p, page, intendedSlot).Inv(l, Some(p)) && SameContents(s, Entered(s, p, page, intendedSlot))
  {
  }

  /** The page being loaded gets the unowned frame f, filled with frame. */
  function Placed(s: Pool, p: PID, f: nat, frame: Frame, intendedSlot: bool): Pool
    requires p in s.ht && f < |s.frames| == |s.owner|
  {
    s.(frames := s.frames[f := frame], owner := s.owner[f := Some(p)],
       ht := s.ht[p := s.ht[p].(page := f, intendedSlot := intendedSlot)])
  }

  lemma {:induction false} PlacedKeeps(l: Layout, s: Pool, p: PID, f: nat, frame: Frame, intendedSlot: bool)
    requires s.Inv(l, Some(p)) && f < |s.frames| && s.owner[f] == None
    requires !frame.dirty ==> p in s.disk && s.disk[p] == frame.image
    requires intendedSlot ==> f == l.IntendedFrame(p)
    ensures Placed(s, p, f, frame, intendedSlot).Inv(l, None)
    ensures var r := Placed(s, p, f, frame, intendedSlot);
      r.Logical(p) == Some(frame.image) && forall q :: q != p ==> r.Logical(q) == s.Logical(q)
  {
    PlacedOwners(l, s, p, f, frame, intendedSlot);
    PlacedContents(l, s, p, f, frame, intendedSlot);
    hide Pool.AllSeated, Pool.OwnersOk, Pool.IntendedOk, Pool.CleanOk, Pool.FreeOk, Pool.Logical;
  }

  lemma {:induction false} PlacedOwners(l: Layout, s: Pool, p: PID, f: nat, frame: Frame, intendedSlot: bool)
    requires s.Inv(l, Some(p)) && f < |s.frames| && s.owner[f] == None && (intendedSlot ==> f == l.IntendedFrame(p))
    ensures var r := Placed(s, p, f, frame, intendedSlot);
      r.AllSeated(None) && r.OwnersOk(None) && r.IntendedOk(l, None) && r.FreeOk() && r.Seated(p)
  {
    assert forall q :: q in s.ht && q != p ==> s.Seated(q) && s.ht[q].page != f;
  }

  lemma {:induction false} PlacedContents(l: Layout, s: Pool, p: PID, f: nat, frame: Frame, intendedSlot: bool)
    requires s.Inv(l, Some(p)) && f < |s.frames| && s.owner[f] == None && Placed(s, p, f, frame, intendedSlot).Seated(p)
    requires !frame.dirty ==> p in s.disk && s.disk[p] == frame.image
    ensures var r := Placed(s, p, f, frame, intendedSlot);
      r.CleanOk(None) && r.Logical(p) == Some(frame.image) && forall q :: q != p ==> r.Logical(q) == s.Logical(q)
  {
    assert forall q :: q in s.ht && q != p ==> s.Seated(q) && s.ht[q].page != f;
  }

  /** A clean page leaves the pool. */
  function Evicted(s: Pool, p: PID): Pool
    requires p in s.ht && s.ht[p].page < |s.owner|
  {
    s.(ht := s.ht - {p}, resident := s.resident - {p}, owner := s.owner[s.ht[p].page := None],
        free := s.free + multiset{s.ht[p].page})
  }

  lemma {:induction false} EvictedKeeps(l: Layout, s: Pool, p: PID, loading: Option<PID>)
    requires s.Inv(l, loading) && p in s.ht && Some(p) != loading && s.Seated(p) && !s.frames[s.ht[p].page].dirty
    ensures Evicted(s, p).Inv(l, loading) && SameContents(s, Evicted(s, p))
  {
    var r := Evicted(s, p);
    assert forall q :: q in s.ht && q != p && Some(q) != loading ==> s.Seated(q) && s.ht[q].page != s.ht[p].page;
    assert forall q :: q in r.ht <==> q in s.ht && q != p;
    forall q
      ensures r.Logical(q) == s.Logical(q)
    {
    }
  }

  /** A page is written back. */
  function Written(s: Pool, p: PID): Pool
    requires p in s.ht && s.ht[p].page < |s.frames|
  {
    var f := s.ht[p].page;
    s.(disk := s.disk[p := s.frames[f].image], frames := s.frames[f := s.frames[f].(dirty := false)])
  }

  lemma {:induction false} WrittenKeeps(l: Layout, s: Pool, p: PID, loading: Option<PID>)
    requires s.Inv(l, loading) && p in s.ht && Some(p) != loading && s.Seated(p)
    ensures Written(s, p).Inv(l, loading) && SameContents(s, Written(s, p))
  {
    var r := Written(s, p);
    assert forall q :: q in s.ht && q != p && Some(q) != loading ==> s.Seated(q) && s.ht[q].page != s.ht[p].page;
    forall q
      ensures r.Logical(q) == s.Logical(q)
    {
    }
  }

  /** The page's bytes move to the unowned frame f, which becomes its own; its old frame has no owner any more. */
  function Moved(s: Pool, p: PID, f: nat, intendedSlot: bool, free: multiset<nat>): Pool
    requires p in s.ht && s.ht[p].page < |s.frames| == |s.owner| && f < |s.frames|
  {
    var was := s.ht[p].page;
    s.(frames := s.frames[f := s.frames[was]], owner := s.owner[f := Some(p)][was := None],
       ht := s.ht[p := s.ht[p].(page := f, intendedSlot := intendedSlot)], free := free)
  }

  /** Another frame for p that nobody owns. */
  ghost predicate CanMove(l: Layout, s: Pool, p: PID, f: nat, intendedSlot: bool, free: multiset<nat>) {
    && s.Inv(l, None) && p in s.ht && f < |s.frames| && s.owner[f] == None
    && (intendedSlot ==> f == l.IntendedFrame(p))
    && (forall g :: g in free ==> g < |s.owner|) && s.ht[p].page in free
    && forall g :: 0 <= g < |s.owner| && s.owner[g] == None && g != f ==> g in free
  }

  lemma {:induction false} MovedOwners(l: Layout, s: Pool, p: PID, f: nat, intendedSlot: bool, free: multiset<nat>)
    requires CanMove(l, s, p, f, intendedSlot, free)
    ensures s.Shaped(l) && s.ht[p].page < |s.frames| && s.Seated(p) && s.ht[p].page != f
    ensures var r := Moved(s, p, f, intendedSlot, free);
      r.AllSeated(None) && r.OwnersOk(None) && r.IntendedOk(l, None) && r.FreeOk()
  {
    assert s.Seated(p);
    assert forall q :: q in s.ht && q != p ==> s.Seated(q) && s.ht[q].page != s.ht[p].page && s.ht[q].page != f;
    var r := Moved(s, p, f, intendedSlot, free);
    assert r.OwnersOk(None) by { MovedOwnerTable(s, p, f, intendedSlot, free); }
    hide Pool.OwnersOk, Pool.CleanOk, Pool.NoneLost;
  }

  lemma {:induction false} MovedOwnerTable(s: Pool, p: PID, f: nat, intendedSlot: bool, free: multiset<nat>)
    requires |s.frames| == |s.owner| && s.Seated(p) && s.OwnersOk(None) && f < |s.owner| && s.owner[f] == None
    requires s.ht[p].page in free
    requires forall g :: 0 <= g < |s.owner| && s.owner[g] == None && g != f ==> g in free
    ensures Moved(s, p, f, intendedSlot, free).OwnersOk(None)
  {
  }

  lemma {:induction false} MovedContents(l: Layout, s: Pool, p: PID, f: nat, intendedSlot: bool, free: multiset<nat>)
    requires CanMove(l, s, p, f, intendedSlot, free) && s.Seated(p) && s.ht[p].page != f
    requires s.Shaped(l) && Moved(s, p, f, intendedSlot, free).AllSeated(None)
    ensures var r := Moved(s, p, f, intendedSlot, free); SameContents(s, r) && r.CleanOk(None)
  {
    var r := Moved(s, p, f, intendedSlot, free);
    assert r.Seated(p);
    forall q
      ensures r.Logical(q) == s.Logical(q)
      ensures q in s.ht && q != p ==>
                s.Seated(q) && r.ht[q].page == s.ht[q].page && r.frames[r.ht[q].page] == s.frames[s.ht[q].page]
    {
      if q in s.ht && q != p { assert s.Seated(q) && r.Seated(q); }
    }
  }

  lemma {:induction false} MovedKeeps(l: Layout, s: Pool, p: PID, f: nat, intendedSlot: bool, free: multiset<nat>)
    requires CanMove(l, s, p, f, intendedSlot, free)
    ensures s.Shaped(l) && s.Seated(p) && s.ht[p].page < |s.frames|
    ensures Moved(s, p, f, intendedSlot, free).Inv(l, None) && SameContents(s, Moved(s, p, f, intendedSlot, free))
  {
    MovedOwners(l, s, p, f, intendedSlot, free);
    MovedContents(l, s, p, f, intendedSlot, free);
    hide SameContents, Pool.AllSeated, Pool.OwnersOk, Pool.IntendedOk, Pool.CleanOk, Pool.FreeOk;
  }

  /** Stale entries may leave the free list: frames that somebody owns. */
  lemma {:induction false} FreeTrimmed(l: Layout, s: Pool, free: multiset<nat>, loading: Option<PID>)
    requires s.Inv(l, loading)
    requires forall f :: f in free ==> f < |s.owner|
    requires forall f :: 0 <= f < |s.owner| && s.owner[f] == None ==> f in free
    ensures s.(free := free).Inv(l, loading) && SameContents(s, s.(free := free))
  {
  }

  // ---------------------------------------------------------------------- progress of eviction

  predicate Evictable(s: Pool, p: PID) {
    p in s.ht && (s.ht[p].state == Unlocked || s.ht[p].state == Marked)
  }

  function InState(s: Pool, state: LatchState): set<PID> {
    set p | p in s.ht && s.ht[p].state == state
  }

  /** Two for each page that has to be marked first, one for each marked page. */
  function Rank(s: Pool): nat { 2 * |InState(s, Unlocked)| + |InState(s, Marked)| }

  lemma {:induction false} RankFalls(s: Pool, p: PID, state: LatchState)
    requires p in s.ht
    requires (s.ht[p].state == Unlocked && state == Marked) || (s.ht[p].state == Marked && state == Shared)
    ensures Rank(WithState(s, p, state)) < Rank(s)
  {
    var r := WithState(s, p, state);
    if state == Marked {
      assert InState(r, Unlocked) == InState(s, Unlocked) - {p};
      assert InState(r, Marked) == InState(s, Marked) + {p};
    } else {
      assert InState(r, Unlocked) == InState(s, Unlocked);
      assert InState(r, Marked) == InState(s, Marked) - {p};
    }
  }

  lemma {:induction false} RankKept(s: Pool, r: Pool)
    requires forall p :: Evictable(s, p) || Evictable(r, p) ==> p in s.ht && p in r.ht && s.ht[p].state == r.ht[p].state
    ensures Rank(r) == Rank(s)
  {
    assert InState(r, Unlocked) == InState(s, Unlocked);
    assert InState(r, Marked) == InState(s, Marked);
  }

  /** Pages somebody holds stay where they are, with their bytes. */
  ghost predicate HeldKept(s: Pool, r: Pool) {
    && |s.frames| == |r.frames| == |s.owner| == |r.owner|
    && forall p :: s.Held(p) ==>
         && p in r.ht && r.ht[p] == s.ht[p]
         && (s.Seated(p) ==> r.Seated(p) && r.frames[s.ht[p].page] == s.frames[s.ht[p].page])
  }

  /** What eviction may do: drop pages and write them back, change marks, nothing else. */
  ghost predicate Thins(l: Layout, loading: Option<PID>, s: Pool, r: Pool) {
    && r.Inv(l, loading) && SameContents(s, r) && HeldKept(s, r)
    && r.ht.Keys <= s.ht.Keys && r.allocCount == s.allocCount
    && forall f :: 0 <= f < |s.owner| ==> r.owner[f] == s.owner[f] || r.owner[f] == None
  }

  lemma {:induction false} ThinsStart(l: Layout, loading: Option<PID>, s: Pool)
    requires s.Inv(l, loading)
    ensures Thins(l, loading, s, s)
  {
  }

  lemma {:induction false} ThinsResident(l: Layout, loading: Option<PID>, s: Pool, r: Pool)
    requires Thins(l, loading, s, r)
    ensures r.resident == r.ht.Keys
  {
  }

  lemma {:induction false} ThinsState(l: Layout, loading: Option<PID>, s0: Pool, s: Pool, p: PID, state: LatchState)
    requires Thins(l, loading, s0, s) && p in s.ht && !s0.Held(p) && Some(p) != loading
    ensures Thins(l, loading, s0, WithState(s, p, state))
  {
    WithStateKeeps(l, s, p, state, loading);
    SameTrans(s0, s, WithState(s, p, state));
    hide Pool.Inv, SameContents;
  }

  lemma {:induction false} ThinsWritten(l: Layout, loading: Option<PID>, s0: Pool, s: Pool, p: PID)
    requires Thins(l, loading, s0, s) && p in s.ht && !s0.Held(p) && Some(p) != loading
    ensures s.Seated(p) && Thins(l, loading, s0, Written(s, p))
  {
    assert s.Seated(p) && |s.frames| == |s.owner|;
    WrittenKeeps(l, s, p, loading);
    SameTrans(s0, s, Written(s, p));
    hide Pool.Inv, SameContents;
  }

  lemma {:induction false} ThinsEvicted(l: Layout, loading: Option<PID>, s0: Pool, s: Pool, p: PID)
    requires Thins(l, loading, s0, s) && p in s.ht && !s0.Held(p) && Some(p) != loading && s.Seated(p)
    requires |s.frames| == |s.owner| && !s.frames[s.ht[p].page].dirty
    ensures Thins(l, loading, s0, Evicted(s, p))
  {
    EvictedKeeps(l, s, p, loading);
    SameTrans(s0, s, Evicted(s, p));
    hide Pool.Inv, SameContents;
  }

  /** What a sweep may rely on when it meets an evictable page. */
  lemma {:induction false} VisitFacts(l: Layout, loading: Option<PID>, s0: Pool, s: Pool, p: PID)
    requires Thins(l, loading, s0, s) && Evictable(s, p)
    ensures Some(p) != loading && !s0.Held(p) && s.Seated(p) && |s.frames| == |s.owner|
  {
  }

  lemma {:induction false} ThinsShaped(l: Layout, loading: Option<PID>, s0: Pool, s: Pool)
    requires Thins(l, loading, s0, s)
    ensures |s.frames| == |s.owner| == l.frameCount && s.Inv(l, loading) && HeldKept(s0, s) && SameContents(s0, s)
  {
  }

  // ---------------------------------------------------------------------- finding a free frame

  /** Some frame is free, or some page may be evicted. */
  ghost predicate HasRoom(s: Pool) {
    (exists f :: 0 <= f < |s.owner| && s.owner[f] == None) || exists p :: Evictable(s, p)
  }

  /** Outside of evict, pages that were not held at the start are still there for the taking. */
  ghost predicate Settled(s0: Pool, s: Pool, pids: seq<PID>) {
    forall p :: p in s.ht ==> s0.Held(p) || Evictable(s, p) || p in pids
  }

  lemma {:induction false} SettledStart(s: Pool)
    ensures Settled(s, s, [])
  {
  }

  lemma {:induction false} SettledTrans(s: Pool, r: Pool, t: Pool)
    requires Settled(s, r, []) && Settled(r, t, [])
    ensures Settled(s, t, [])
  {
  }

  lemma {:induction false} SettledTrimmed(s0: Pool, s: Pool, f: nat)
    requires Settled(s0, s, [])
    ensures Settled(s0, s.(free := s.free - multiset{f}), [])
  {
  }

  lemma {:induction false} RoomLeft(l: Layout, loading: Option<PID>, s: Pool, r: Pool)
    requires s.Inv(l, loading) && Thins(l, loading, s, r) && Settled(s, r, []) && HasRoom(s)
    ensures HasRoom(r)
  {
    hide SameContents, HeldKept, Pool.CleanOk, Pool.NoneLost, Pool.IntendedOk, Pool.FreeOk;
    if exists f :: 0 <= f < |s.owner| && s.owner[f] == None {
      var f :| 0 <= f < |s.owner| && s.owner[f] == None;
      assert r.owner[f] == None;
    } else {
      var p :| Evictable(s, p);
      assert Some(p) != loading && s.Seated(p);
      if p in r.ht {
        assert Evictable(r, p);
      } else {
        assert r.owner[s.ht[p].page] == None;
      }
    }
  }

  /** A frame that is not free has an owner; with an empty free list, some page may be evicted. */
  lemma {:induction false} MustEvict(l: Layout, loading: Option<PID>, s: Pool)
    requires s.Inv(l, loading) && HasRoom(s) && s.free == multiset{}
    ensures exists p :: Evictable(s, p)
  {
  }

  ghost predicate SomeFree(s: Pool) { exists f :: 0 <= f < |s.owner| && s.owner[f] == None }

  /** As long as some frame has no owner, only the free list has changed: nobody has been evicted. */
  ghost predicate Spared(s: Pool, r: Pool) { SomeFree(s) ==> r == s.(free := r.free) }

  /** The frame without owner is on the free list, so the list is not empty. */
  lemma {:induction false} MustNotEvict(l: Layout, loading: Option<PID>, s: Pool, r: Pool)
    requires r.Inv(l, loading) && Spared(s, r) && r.free == multiset{}
    ensures !SomeFree(s)
  {
    assert r.OwnersOk(loading);
    assert s.owner == r.owner || !SomeFree(s);
  }

  /** A stale entry of the free list is dropped. */
  lemma {:induction false} ThinsTrimmed(l: Layout, loading: Option<PID>, s0: Pool, s: Pool, f: nat)
    requires Thins(l, loading, s0, s) && f in s.free
    ensures f < |s.owner|
    ensures s.owner[f] != None ==>
              var r := s.(free := s.free - multiset{f}); Thins(l, loading, s0, r) && Rank(r) == Rank(s)
  {
    if s.owner[f] != None {
      var r := s.(free := s.free - multiset{f});
      FreeTrimmed(l, s, r.free, loading);
      RankKept(s, r);
      SameTrans(s0, s, r);
    }
  }

  lemma {:induction false} ThinsTrans(l: Layout, loading: Option<PID>, s: Pool, r: Pool, t: Pool)
    requires Thins(l, loading, s, r) && Thins(l, loading, r, t)
    ensures Thins(l, loading, s, t)
  {
    SameTrans(s, r, t);
    hide Pool.Inv, SameContents;
  }

  /** r, except that frame f was taken off the free list and claimed for pid. */
  function Claimed(r: Pool, pid: PID, f: nat): Pool
    requires f < |r.owner|
  {
    r.(owner := r.owner[f := Some(pid)], free := r.free - multiset{f})
  }

  ghost predicate CanClaim(r: Pool, f: nat) {
    f in r.free && f < |r.owner| && r.owner[f] == None
  }

  lemma {:induction false} RoomTrimmed(s: Pool, f: nat)
    requires HasRoom(s)
    ensures HasRoom(s.(free := s.free - multiset{f}))
  {
    var r := s.(free := s.free - multiset{f});
    if exists p :: Evictable(s, p) {
      var p :| Evictable(s, p);
      assert Evictable(r, p);
    }
  }

  // ---------------------------------------------------------------------- whole operations

  /** Besides p, the pages that are held are the same, and they are where they were. */
  ghost predicate SameHolders(s: Pool, r: Pool, p: PID) {
    forall q :: q != p ==> (s.Held(q) <==> r.Held(q)) && (s.Held(q) ==> r.ht[q] == s.ht[q])
  }

  /** Only p's contents and latch may have changed. */
  ghost predicate OnlyOne(s: Pool, r: Pool, p: PID) {
    && |s.frames| == |s.owner| && |r.frames| == |r.owner|
    && (forall q :: q != p ==> s.Logical(q) == r.Logical(q)) && SameHolders(s, r, p)
  }

  /** Eviction leaves nobody with a latch who had none, and takes none away. */
  lemma {:induction false} SettledHolders(l: Layout, loading: Option<PID>, s: Pool, r: Pool, p: PID)
    requires Thins(l, loading, s, r) && Settled(s, r, [])
    ensures SameHolders(s, r, p)
  {
    hide Pool.Inv, SameContents;
  }

  lemma {:induction false} EnteredRoom(s: Pool, p: PID, page: nat, intendedSlot: bool)
    requires HasRoom(s) && p !in s.ht
    ensures HasRoom(Entered(s, p, page, intendedSlot))
  {
    var r := Entered(s, p, page, intendedSlot);
    if exists f :: 0 <= f < |s.owner| && s.owner[f] == None {
      var f :| 0 <= f < |s.owner| && s.owner[f] == None;
      assert r.owner[f] == None;
    } else {
      var q :| Evictable(s, q);
      assert Evictable(r, q);
    }
  }

  /** Loading into the preferred frame, which was free. */
  lemma {:induction false} LoadedPreferred(l: Layout, s: Pool, p: PID, frame: Frame)
    requires s.Inv(l, None) && p !in s.ht && p <= s.allocCount && s.owner[l.IntendedFrame(p)] == None
    requires !frame.dirty ==> p in s.disk && s.disk[p] == frame.image
    ensures var e := Entered(s, p, l.IntendedFrame(p), l.predict);
      var r := Placed(e, p, l.IntendedFrame(p), frame, l.predict);
      r.Inv(l, None) && OnlyOne(s, r, p) && r.Logical(p) == Some(frame.image)
  {
    hide Pool.Inv, Placed;
    InvShaped(l, s, None);
    var e := Entered(s, p, l.IntendedFrame(p), l.predict);
    EnteredKeeps(l, s, p, l.IntendedFrame(p), l.predict);
    PlacedKeeps(l, e, p, l.IntendedFrame(p), frame, l.predict);
    PlacedTable(e, p, l.IntendedFrame(p), frame, l.predict);
  }

  lemma {:induction false} InvShaped(l: Layout, s: Pool, loading: Option<PID>)
    requires s.Inv(l, loading)
    ensures |s.frames| == |s.owner| == l.frameCount && l.Ok()
  {
  }

  lemma {:induction false} PlacedTable(s: Pool, p: PID, f: nat, frame: Frame, intendedSlot: bool)
    requires p in s.ht && f < |s.frames| == |s.owner|
    ensures var r := Placed(s, p, f, frame, intendedSlot); |r.frames| == |r.owner|
    ensures forall q :: q != p ==>
              var r := Placed(s, p, f, frame, intendedSlot);
              (q in r.ht <==> q in s.ht) && (q in s.ht ==> r.ht[q] == s.ht[q])
  {
  }

  /** Loading into a frame claimed from the free list, after some eviction. */
  lemma {:induction false} LoadedElsewhere(l: Layout, s: Pool, e: Pool, r: Pool, p: PID, f: nat, frame: Frame,
                                           page: nat)
    requires s.Inv(l, None) && p !in s.ht && p <= s.allocCount && e == Entered(s, p, page, l.predict)
    requires Thins(l, Some(p), e, r) && Settled(e, r, []) && CanClaim(r, f) && p in r.ht && |r.frames| == |r.owner|
    requires !frame.dirty ==> p in r.disk && r.disk[p] == frame.image
    ensures var t := Placed(r, p, f, frame, false).(free := r.free - multiset{f});
      t.Inv(l, None) && OnlyOne(s, t, p) && t.Logical(p) == Some(frame.image)
  {
    hide Pool.Inv, Placed, Settled;
    InvShaped(l, s, None);
    EnteredKeeps(l, s, p, page, l.predict);
    ThinsShaped(l, Some(p), e, r);
    SettledHolders(l, Some(p), e, r, p);
    PlacedKeeps(l, r, p, f, frame, false);
    PlacedTable(r, p, f, frame, false);
    var t := Placed(r, p, f, frame, false);
    PlacedFree(l, r, p, f, frame);
    hide Thins;
  }

  lemma {:induction false} PlacedFree(l: Layout, r: Pool, p: PID, f: nat, frame: Frame)
    requires p in r.ht && CanClaim(r, f) && |r.frames| == |r.owner| && Placed(r, p, f, frame, false).Inv(l, None)
    ensures var t := Placed(r, p, f, frame, false);
      t.(free := r.free - multiset{f}).Inv(l, None) && SameContents(t, t.(free := r.free - multiset{f}))
  {
    var t := Placed(r, p, f, frame, false);
    assert t.FreeOk() && t.OwnersOk(None) && t.owner[f] == Some(p) && t.free == r.free;
    hide Pool.Inv, Placed;
    FreeTrimmed(l, t, r.free - multiset{f}, None);
  }

  lemma {:induction false} AllocFresh(l: Layout, s: Pool)
    requires s.Inv(l, None)
    ensures s.allocCount !in s.ht && |s.frames| == |s.owner| == l.frameCount && l.Ok()
  {
  }

  /** The page being loaded is still where it was after eviction, and if it was on disk, it is there unchanged. */
  lemma {:induction false} ThinsLoading(l: Layout, s: Pool, e: Pool, r: Pool, p: PID)
    requires s.Inv(l, None) && p !in s.ht && p <= s.allocCount && e == Entered(s, p, l.IntendedFrame(p), l.predict)
    requires Thins(l, Some(p), e, r)
    ensures |r.frames| == |r.owner| == l.frameCount && p in r.ht && r.ht[p].state == Locked
    ensures r.allocCount == e.allocCount
    ensures p < s.allocCount ==> p in s.disk && p in r.disk && r.disk[p] == s.disk[p] && s.Logical(p) == Some(s.disk[p])
  {
    assert e.Held(p);
    assert !s.Seated(p) && !r.Seated(p);
    assert !e.Seated(p);
    assert e.Logical(p) == r.Logical(p);
  }

  /** What Load has done. */
  lemma {:induction false} LoadedIs(l: Layout, s: Pool, e: Pool, r: Pool, p: PID, f: nat, frame: Frame, preferred: bool,
                                    t: Pool)
    requires s.Inv(l, None) && p !in s.ht && p <= s.allocCount && e == Entered(s, p, l.IntendedFrame(p), l.predict)
    requires Thins(l, Some(p), e, r) && Settled(e, r, [])
    requires f < |r.frames| == |r.owner| && p in r.ht && r.ht[p].state == Locked
    requires !frame.dirty ==> p in r.disk && r.disk[p] == frame.image
    requires if preferred then
               && r == e && f == l.IntendedFrame(p) && s.owner[f] == None
               && t == Placed(r.(owner := r.owner[f := Some(p)]), p, f, frame, l.predict)
             else CanClaim(r, f) && t == Placed(Claimed(r, p, f), p, f, frame, false)
    ensures t.Inv(l, None) && OnlyOne(s, t, p) && t.Logical(p) == Some(frame.image)
    ensures p in t.ht && t.ht[p].page == f && t.ht[p].state == Locked && t.Seated(p) && t.frames[f] == frame
    ensures t.ht[p].intendedSlot == (preferred && l.predict)
    ensures SomeFree(s) && Spared(e, r) ==> t.ht == s.ht[p := t.ht[p]]
    ensures t.allocCount == r.allocCount
  {
    hide Pool.Inv, Thins, OnlyOne, Pool.Logical, Settled, SomeFree, Spared;
    InvShaped(l, s, None);
    if preferred {
      LoadedPreferred(l, s, p, frame);
      assert t == Placed(e, p, f, frame, l.predict);
      LoadedTable(s, e, r, p, f, frame, l.predict, l.IntendedFrame(p), l.predict);
    } else {
      LoadedElsewhere(l, s, e, r, p, f, frame, l.IntendedFrame(p));
      assert t == Placed(r, p, f, frame, false).(free := r.free - multiset{f});
      LoadedTable(s, e, r, p, f, frame, false, l.IntendedFrame(p), l.predict);
    }
  }

  lemma {:induction false} LoadedTable(s: Pool, e: Pool, r: Pool, p: PID, f: nat, frame: Frame, intendedSlot: bool,
                                       page: nat, predict: bool)
    requires p !in s.ht && e == Entered(s, p, page, predict) && p in r.ht && r.ht[p].state == Locked
    requires f < |r.frames| == |r.owner|
    ensures var t := Placed(r, p, f, frame, intendedSlot);
      && p in t.ht && t.ht[p] == BufferFrame(f, intendedSlot, Locked) && t.frames[f] == frame && t.Seated(p)
      && t.allocCount == r.allocCount && (SomeFree(s) && Spared(e, r) ==> t.ht == s.ht[p := t.ht[p]])
  {
    hide SomeFree;
    SameFree(s, e);
  }

  // ---------------------------------------------------------------------- promotion

  /** Promotion has moved p to its preferred frame, and its latch is in the given state. If the frame was free, nothing
      else has happened to the page table; else the page there has moved away, and if every frame had an owner, others
      may have been evicted. */
  ghost predicate Promoted(l: Layout, s: Pool, r: Pool, p: PID, state: LatchState)
    requires l.Ok() && |s.owner| == l.frameCount
  {
    && r.Inv(l, None) && SameContents(s, r) && r.allocCount == s.allocCount && SameHolders(s, r, p)
    && p in s.ht && p in r.ht && r.ht[p] == BufferFrame(l.IntendedFrame(p), l.predict, state)
    && match s.owner[l.IntendedFrame(p)]
       case None => r.ht == s.ht[p := r.ht[p]]
       case Some(v) => Aside(l, s, r, v) && (SomeFree(s) ==> r.ht == s.ht[p := r.ht[p]][v := r.ht[v]])
  }

  /** The page that was in the way is free for everybody, and in its own preferred frame if that had no owner. */
  ghost predicate Aside(l: Layout, s: Pool, r: Pool, v: PID)
    requires l.Ok() && |s.owner| == l.frameCount
  {
    && v in r.ht && r.ht[v].state == Unlocked
    && if s.owner[l.IntendedFrame(v)] == None then
         r.ht[v].page == l.IntendedFrame(v) && r.ht[v].intendedSlot == l.predict
       else !r.ht[v].intendedSlot
  }

  /** Nobody owns the preferred frame, or the bucket of p knows the page that does, and nobody holds it. */
  predicate CanPromote(l: Layout, s: Pool, p: PID)
    requires l.Ok() && |s.owner| == l.frameCount
  {
    match s.owner[l.IntendedFrame(p)]
    case None => true
    case Some(v) => v in s.ht && l.Bucket(v) == l.Bucket(p) && s.ht[v].state == Unlocked
  }

  /** p is not where it wants to be. A page that is where it wants to be is moved out of its way only if displace says
      so. For this, a frame without an owner counts as that of the page NO_PID. */
  predicate MayPromote(l: Layout, s: Pool, p: PID, displace: bool)
    requires l.Ok() && |s.owner| == l.frameCount && p in s.ht
  {
    var home := l.IntendedFrame(p);
    var there := match s.owner[home] case Some(v) => v case None => NO_PID;
    s.ht[p].page != home && (l.IntendedFrame(there) != home || displace)
  }

  /** So a free page need not get into a free preferred frame: page 0 is in frame 1, and frame 0, where it wants to be,
      has no owner; but NO_PID would want to be there too. */
  lemma {:induction false} FreeFrameMissed() returns (l: Layout, s: Pool)
    ensures s.Inv(l, None) && Evictable(s, 0) && l.IntendedFrame(0) == 0 && s.ht[0].page == 1 && s.owner[0] == None
    ensures !MayPromote(l, s, 0, false) && MayPromote(l, s, 0, true)
  {
    l := Layout(2, 1, (p: PID) => 2 * p, true);
    var frame := Frame(true, Content(0, []));
    var ht: map<PID, BufferFrame> := map[0 := BufferFrame(1, false, Unlocked)];
    var owner: seq<Option<PID>> := [None, Some(0)];
    s := Pool([frame, frame], owner, ht, {0}, multiset{0}, map[], 1);
    assert s.resident == ht.Keys;
    assert forall p :: p in ht ==> p == 0 && s.Seated(p);
    assert forall f :: 0 <= f < |owner| ==> owner[f] == if f == 0 then None else Some(0);
  }

  /** p is released, promoted or not. */
  ghost predicate Released(l: Layout, s: Pool, r: Pool, p: PID, promoted: bool)
    requires l.Ok() && |s.owner| == l.frameCount && p in s.ht
  {
    if promoted then Promoted(l, s, r, p, Unlocked) else r == WithState(s, p, Unlocked)
  }

  /** h is s, with p held; then promoteLocked has been called or not. */
  lemma {:induction false} ReleasedIs(l: Layout, s: Pool, h: Pool, r: Pool, p: PID, promoted: bool)
    requires s.Inv(l, None) && p in s.ht && h == WithState(s, p, Locked) && |h.owner| == l.frameCount && l.Ok()
    requires if promoted then Promoted(l, h, r, p, Locked) else r == h
    ensures p in r.ht && WithState(r, p, Unlocked).Inv(l, None) && SameContents(s, WithState(r, p, Unlocked))
    ensures |s.owner| == l.frameCount && Released(l, s, WithState(r, p, Unlocked), p, promoted)
  {
    hide Pool.Inv, SameContents, Pool.Logical, Aside, SomeFree;
    SameFree(s, h);
    WithStateKeeps(l, s, p, Locked, None);
    InvShaped(l, s, None);
    SameSelf(s);
    SameTrans(s, s, h);
    if promoted { SameTrans(s, h, r); }
    WithStateKeeps(l, r, p, Unlocked, None);
    SameTrans(s, r, WithState(r, p, Unlocked));
    if promoted {
      match s.owner[l.IntendedFrame(p)]
      case None =>
      case Some(v) => StillAside(l, s, h, r, v, p);
    }
  }

  lemma {:induction false} StillAside(l: Layout, s: Pool, h: Pool, r: Pool, v: PID, p: PID)
    requires l.Ok() && |s.owner| == l.frameCount && p in s.ht && h == WithState(s, p, Locked)
    requires p in r.ht && r.ht[p].state == Locked && Aside(l, h, r, v)
    ensures Aside(l, s, WithState(r, p, Unlocked), v)
  {
  }

  /** The preferred frame was free: the page moves there. */
  lemma {:induction false} PromotedDirectly(l: Layout, s: Pool, p: PID)
    requires s.Inv(l, None) && p in s.ht && s.owner[l.IntendedFrame(p)] == None
    ensures |s.frames| == |s.owner| == l.frameCount && s.ht[p].page < |s.owner|
    ensures var r := Moved(s, p, l.IntendedFrame(p), l.predict, s.free + multiset{s.ht[p].page});
      Promoted(l, s, r, p, s.ht[p].state)
  {
    assert s.Seated(p) && s.FreeOk() && s.OwnersOk(None);
    hide Pool.Inv, SameContents, Pool.Logical, Pool.Seated, Pool.FreeOk, Pool.OwnersOk, SameHolders, Aside;
    MovedKeeps(l, s, p, l.IntendedFrame(p), l.predict, s.free + multiset{s.ht[p].page});
    MovedTable(s, p, l.IntendedFrame(p), l.predict, s.free + multiset{s.ht[p].page});
  }

  lemma {:induction false} MovedTable(s: Pool, p: PID, f: nat, intendedSlot: bool, free: multiset<nat>)
    requires p in s.ht && s.ht[p].page < |s.frames| == |s.owner| && f < |s.frames|
    ensures var r := Moved(s, p, f, intendedSlot, free);
      && r.ht == s.ht[p := BufferFrame(f, intendedSlot, s.ht[p].state)] && r.allocCount == s.allocCount
      && SameHolders(s, r, p)
  {
  }

  /** What promoteLocked has to know about the page in the way. */
  lemma {:induction false} InTheWay(l: Layout, s: Pool, p: PID)
    requires s.Inv(l, None) && p in s.ht && s.ht[p].page != l.IntendedFrame(p) && s.owner[l.IntendedFrame(p)] != None
    ensures var v := s.owner[l.IntendedFrame(p)].value;
      v != p && v in s.ht && s.ht[v].page == l.IntendedFrame(p) && s.Seated(v)
    ensures s.Seated(p)
  {
  }

  /** p wants the frame of v, and is held. */
  ghost predicate Wants(l: Layout, s: Pool, p: PID, v: PID) {
    && s.Inv(l, None) && p != v && s.Seated(p) && s.Held(p) && s.Seated(v) && s.ht[v].page == l.IntendedFrame(p)
  }

  /** Both stay where they are while v is held and others are evicted. */
  lemma {:induction false} HoldVictim(l: Layout, s: Pool, p: PID, v: PID)
    requires Wants(l, s, p, v) && s.ht[v].state == Unlocked
    ensures var h := WithState(s, v, Locked); Wants(l, h, p, v) && SameContents(s, h) && h.Held(v)
  {
    WithStateKeeps(l, s, v, Locked, None);
  }

  /** The free list after the victim's new frame f was found: without f if f was taken from there. */
  predicate FoundAt(r: Pool, f: nat, free: multiset<nat>) {
    && f < |r.owner| && r.owner[f] == None
    && (free == r.free || (f in r.free && free == r.free - multiset{f}))
  }

  /** It is v's preferred frame if that had no owner. */
  predicate FoundFor(l: Layout, s: Pool, v: PID, f: nat, vIntended: bool) {
    && l.Ok() && |s.owner| == l.frameCount && vIntended == (l.predict && s.owner[l.IntendedFrame(v)] == None)
    && (s.owner[l.IntendedFrame(v)] == None ==> f == l.IntendedFrame(v))
  }

  /** The page in the way, v, moves to the frame f, and p takes its place. */
  function Displaced(r: Pool, p: PID, v: PID, f: nat, vIntended: bool, pIntended: bool, free: multiset<nat>): Pool
    requires p in r.ht && v in r.ht && p != v && |r.frames| == |r.owner| && f < |r.owner|
    requires r.ht[p].page < |r.owner| && r.ht[v].page < |r.owner|
  {
    var a := Moved(r, v, f, vIntended, free + multiset{r.ht[v].page});
    Moved(WithState(a, v, Unlocked), p, r.ht[v].page, pIntended, free + multiset{r.ht[p].page})
  }

  lemma {:induction false} FoundCovers(l: Layout, r: Pool, f: nat, free: multiset<nat>)
    requires r.Inv(l, None) && FoundAt(r, f, free)
    ensures forall g :: g in free ==> g < |r.owner|
    ensures forall g :: 0 <= g < |r.owner| && r.owner[g] == None && g != f ==> g in free
  {
    assert r.FreeOk() && r.OwnersOk(None);
  }

  /** The first half: v has moved away. */
  lemma {:induction false} VictimMoved(l: Layout, r: Pool, p: PID, v: PID, f: nat, vIntended: bool, free: multiset<nat>)
    requires Wants(l, r, p, v) && FoundAt(r, f, free) && (vIntended ==> f == l.IntendedFrame(v))
    ensures |r.frames| == |r.owner|
    ensures var a := Moved(r, v, f, vIntended, free + multiset{r.ht[v].page}); var b := WithState(a, v, Unlocked);
      && b.Inv(l, None) && SameContents(r, b) && b.owner[r.ht[v].page] == None && b.Seated(p) && b.ht[p] == r.ht[p]
      && v in b.ht && b.ht[v] == BufferFrame(f, vIntended, Unlocked)
      && b.allocCount == r.allocCount && (forall q :: q != v ==>
          (q in b.ht <==> q in r.ht) && (q in r.ht ==> b.ht[q] == r.ht[q]))
      && forall g :: 0 <= g < |b.owner| && b.owner[g] == None && g != r.ht[v].page ==> g in free
  {
    hide Pool.Inv, SameContents, Pool.Logical, FoundAt;
    WantsApart(l, r, p, v, f, free);
    FoundCovers(l, r, f, free);
    var a := Moved(r, v, f, vIntended, free + multiset{r.ht[v].page});
    MovedKeeps(l, r, v, f, vIntended, free + multiset{r.ht[v].page});
    hide CanMove;
    WithStateKeeps(l, a, v, Unlocked, None);
    SameTrans(r, a, WithState(a, v, Unlocked));
  }

  /** Three frames are involved. */
  lemma {:induction false} WantsApart(l: Layout, r: Pool, p: PID, v: PID, f: nat, free: multiset<nat>)
    requires Wants(l, r, p, v) && FoundAt(r, f, free)
    ensures r.Shaped(l) && r.ht[p].page < |r.owner| && r.ht[v].page < |r.owner| && f < |r.owner| && r.owner[f] == None
    ensures r.ht[p].page != f && r.ht[v].page != f && r.ht[p].page != r.ht[v].page
  {
  }

  /** Both halves. */
  lemma {:induction false} DisplacedKeeps(l: Layout, r: Pool, p: PID, v: PID, f: nat, vIntended: bool,
                                          free: multiset<nat>)
    requires Wants(l, r, p, v) && FoundAt(r, f, free) && (vIntended ==> f == l.IntendedFrame(v))
    ensures |r.frames| == |r.owner|
    ensures var t := Displaced(r, p, v, f, vIntended, l.predict, free);
      && t.Inv(l, None) && SameContents(r, t) && t.allocCount == r.allocCount
      && p in t.ht && t.ht[p] == r.ht[p].(page := l.IntendedFrame(p), intendedSlot := l.predict)
      && v in t.ht && t.ht[v] == BufferFrame(f, vIntended, Unlocked)
      && forall q :: q != p && q != v ==> (q in t.ht <==> q in r.ht) && (q in r.ht ==> t.ht[q] == r.ht[q])
  {
    hide Pool.Inv, SameContents, Pool.Logical, FoundAt;
    WantsApart(l, r, p, v, f, free);
    VictimMoved(l, r, p, v, f, vIntended, free);
    FoundCovers(l, r, f, free);
    var b := WithState(Moved(r, v, f, vIntended, free + multiset{r.ht[v].page}), v, Unlocked);
    MovedKeeps(l, b, p, r.ht[v].page, l.predict, free + multiset{r.ht[p].page});
    SameTrans(r, b, Displaced(r, p, v, f, vIntended, l.predict, free));
  }

  /** The whole of promoteLocked, when a page was in the way: h is the pool with that page held, r the pool when a
      frame for it was found. */
  lemma {:induction false} DisplacedIs(l: Layout, s: Pool, r: Pool, p: PID, v: PID, f: nat, vIntended: bool,
                                       free: multiset<nat>)
    requires Wants(l, s, p, v) && s.ht[v].state == Unlocked && Thins(l, None, WithState(s, v, Locked), r)
    requires Settled(WithState(s, v, Locked), r, []) && Spared(WithState(s, v, Locked), r)
    requires FoundAt(r, f, free) && FoundFor(l, s, v, f, vIntended)
    ensures Wants(l, r, p, v) && |r.frames| == |r.owner|
    ensures l.Ok() && |s.owner| == l.frameCount
    ensures Promoted(l, s, Displaced(r, p, v, f, vIntended, l.predict, free), p, s.ht[p].state)
  {
    hide Pool.Inv, SameContents, Pool.Logical, Displaced, Thins, Settled, SomeFree;
    var h := WithState(s, v, Locked);
    InvShaped(l, s, None);
    HoldVictim(l, s, p, v);
    ThinsShaped(l, None, h, r);
    ThinsCount(l, None, h, r);
    assert Wants(l, r, p, v);
    DisplacedKeeps(l, r, p, v, f, vIntended, free);
    SameTrans(s, h, r);
    SameTrans(s, r, Displaced(r, p, v, f, vIntended, l.predict, free));
    SettledHolders(l, None, h, r, p);
    SameFree(s, h);
  }

  lemma {:induction false} SameFree(s: Pool, r: Pool)
    requires s.owner == r.owner
    ensures SomeFree(s) == SomeFree(r)
  {
  }

  lemma {:induction false} ThinsCount(l: Layout, loading: Option<PID>, s: Pool, r: Pool)
    requires Thins(l, loading, s, r)
    ensures r.allocCount == s.allocCount
  {
  }

  /** A page that is elsewhere does not own its preferred frame. */
  lemma {:induction false} SeatOf(l: Layout, s: Pool, p: PID)
    requires s.Inv(l, None) && p in s.ht
    ensures l.Ok() && |s.owner| == l.frameCount
    ensures s.owner[l.IntendedFrame(p)] == None ==> s.ht[p].page != l.IntendedFrame(p)
  {
    assert s.Seated(p);
  }

  lemma {:induction false} CanPromoteHeld(l: Layout, s: Pool, p: PID)
    requires s.Inv(l, None) && p in s.ht && s.ht[p].page != l.IntendedFrame(p)
    ensures l.Ok() && |s.owner| == l.frameCount
    ensures CanPromote(l, WithState(s, p, Locked), p) == CanPromote(l, s, p)
  {
  }

  /** If a page has to be moved out of p's way, there is room for it while it is held. */
  ghost predicate RoomBeside(l: Layout, s: Pool, p: PID)
    requires l.Ok() && l.frameCount == |s.owner|
  {
    match s.owner[l.IntendedFrame(p)]
    case None => true
    case Some(v) => v in s.ht ==> HasRoom(WithState(s, v, Locked))
  }

  lemma {:induction false} WantsShaped(l: Layout, s: Pool, p: PID, v: PID)
    requires Wants(l, s, p, v)
    ensures l.Ok() && |s.frames| == |s.owner| == l.frameCount && s.Inv(l, None)
    ensures p != v && p in s.ht && v in s.ht && s.ht[p].page < |s.owner| && s.ht[v].page == l.IntendedFrame(p)
  {
    hide Pool.Inv;
    InvShaped(l, s, None);
  }

  lemma {:induction false} FoundBound(r: Pool, f: nat, free: multiset<nat>)
    requires FoundAt(r, f, free)
    ensures f < |r.owner|
  {
  }

  /** The owner table's mark for a frame without a page, where it is taken for a pid. */
  const NO_PID: PID := 0xFFFF_FFFF_FFFF_FFFF

  lemma {:induction false} SameSelf(s: Pool)
    requires |s.frames| == |s.owner|
    ensures SameContents(s, s)
  {
  }

  /** New bytes for a page that is held exclusively. */
  function Overwritten(s: Pool, p: PID, image: Content): Pool
    requires p in s.ht && s.ht[p].page < |s.frames|
  {
    s.(frames := s.frames[s.ht[p].page := Frame(true, image)])
  }

  lemma {:induction false} OverwrittenKeeps(l: Layout, s: Pool, p: PID, image: Content)
    requires s.Inv(l, None) && p in s.ht
    ensures s.ht[p].page < |s.frames| == |s.owner|
    ensures var r := Overwritten(s, p, image); r.Inv(l, None) && OnlyOne(s, r, p) && r.Logical(p) == Some(image)
  {
    assert s.Seated(p);
    var r := Overwritten(s, p, image);
    assert forall q :: q in s.ht && q != p ==> s.Seated(q) && s.ht[q].page != s.ht[p].page;
    assert forall q :: q in s.ht ==> r.Seated(q);
  }
}
