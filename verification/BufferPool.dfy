/** The buffer manager of buffer_manager.hpp, one operation at a time. */
module BufferPool {
  import opened Pages
  import opened Pools
  import opened PoolClock
  import RS = ResidentSet

  class BufferManager {
    const layout: Layout
    const virtMem: array<Frame>
    const virtMemPids: array<Option<PID>>
    /** residentSet, which knows the resident pages. */
    const clock: RS.ResidentPageSet
    /** How many slots a batch of the clock has, and how many batches evict tries. */
    const batch: nat
    const maxTries: nat
    var ht: map<PID, BufferFrame>
    ghost var residents: set<PID>
    /** The queue of free frames gives them back in no particular order. */
    var freeList: multiset<nat>
    var disk: map<PID, Content>
    var allocCount: nat

    ghost function State(): Pool
      reads this, virtMem, virtMemPids
    {
      Pool(virtMem[..], virtMemPids[..], ht, residents, freeList, disk, allocCount)
    }

    /** The clock goes around over the resident pages, and has slots to spare. */
    ghost predicate ClockOk()
      reads this`residents, clock, clock.ht
    {
      && clock.Valid() && RS.Elements(clock.ht[..]) == residents
      && clock.ht.Length > layout.frameCount && batch > 0 && maxTries > 0
    }

    /** The invariant, while the page loading has no frame yet. */
    ghost predicate Ok(loading: Option<PID>)
      reads this, virtMem, virtMemPids, clock, clock.ht
    {
      State().Inv(layout, loading) && ClockOk()
    }

    constructor (layout: Layout, slots: nat, home: PID -> nat, batch: nat, maxTries: nat)
      requires layout.Ok() && slots > layout.frameCount && (forall p :: home(p) < slots) && batch > 0 && maxTries > 0
      ensures Ok(None) && fresh(virtMem) && fresh(virtMemPids) && fresh(clock) && fresh(clock.ht)
      ensures this.layout == layout
      ensures ht == map[] && disk == map[] && allocCount == 0
    {
      this.layout, this.batch, this.maxTries := layout, batch, maxTries;
      clock := new RS.ResidentPageSet(slots, home);
      virtMem := new Frame[layout.frameCount](_ => Frame(false, Content(0, [])));
      virtMemPids := new Option<PID>[layout.frameCount](_ => None);
      ht, residents, disk, allocCount := map[], {}, map[], 0;
      freeList := AllFrames(layout.frameCount);
      new;
      StartOk(layout, State());
    }

    /** Claims the frame for pid if nobody owns it. */
    method TrySetPresent(f: nat, pid: PID) returns (ok: bool)
      requires f < virtMemPids.Length
      modifies virtMemPids
      ensures ok == (old(virtMemPids[f]) == None)
      ensures State() == if ok then old(State()).(owner := old(State()).owner[f := Some(pid)]) else old(State())
    {
      ok := virtMemPids[f] == None;
      if ok { virtMemPids[f] := Some(pid); }
    }

    // -------------------------------------------------------------------- eviction

    /** Pages that evict, started in s0, has locked in shared mode to write them back. */
    ghost predicate Collected(s0: Pool, pids: seq<PID>, loading: Option<PID>)
      reads this
    {
      && (forall i, j :: 0 <= i < j < |pids| ==> pids[i] != pids[j])
      && forall p :: p in pids ==> p in ht && Some(p) != loading && ht[p].state == Shared && !s0.Held(p)
    }

    /** A page leaves the pool: its frame has no owner any more and goes to the free list. */
    method Release(pid: PID)
      requires ClockOk() && pid in residents && pid in ht && ht[pid].page < virtMemPids.Length
      modifies this`ht, this`residents, this`freeList, virtMemPids, clock`size, clock.ht
      ensures ClockOk() && State() == Evicted(old(State()), pid) && Thinned(old(clock.ht[..]), clock.ht[..])
    {
      var slot := ht[pid].page;
      ghost var table := clock.ht[..];
      var _ := clock.Remove(pid);
      RemovedThins(table, pid, clock.ht[..]);
      residents := residents - {pid};
      ht := ht - {pid};
      virtMemPids[slot] := None;
      freeList := freeList + multiset{slot};
    }

    method SetState(pid: PID, state: LatchState)
      requires pid in ht
      modifies this`ht
      ensures State() == WithState(old(State()), pid, state)
    {
      ht := ht[pid := ht[pid].(state := state)];
    }

    /** A visit has changed nothing. */
    ghost predicate Same(s: Pool, table: seq<RS.Slot>, toWrite: seq<PID>, toWrite': seq<PID>, taken: nat)
      reads this, virtMem, virtMemPids, clock.ht
    {
      State() == s && clock.ht[..] == table && toWrite' == toWrite && taken == 0
    }

    /** Second chance: an unlocked page is marked, a marked one is taken, at once if it is clean. */
    method VisitClock(pid: PID, toWrite: seq<PID>, ghost loading: Option<PID>, ghost s0: Pool)
      returns (toWrite': seq<PID>, taken: nat)
      requires ClockOk() && Thins(layout, loading, s0, State()) && Collected(s0, toWrite, loading)
      modifies this, virtMemPids, clock`size, clock.ht
      ensures ClockOk() && Thins(layout, loading, s0, State()) && Collected(s0, toWrite', loading)
      ensures Same(old(State()), old(clock.ht[..]), toWrite, toWrite', taken) || Rank(State()) < Rank(old(State()))
      ensures Evictable(old(State()), pid) ==> Rank(State()) < Rank(old(State()))
      ensures Settled(s0, old(State()), toWrite) ==> Settled(s0, State(), toWrite')
      ensures Visited(old(State()), State(), pid, toWrite, toWrite', taken) && Thinned(old(clock.ht[..]), clock.ht[..])
    {
      hide Thins, Rank, Pool.Inv, ClockOk;
      toWrite', taken := toWrite, 0;
      if pid !in ht { return; }
      ghost var s := State();
      match ht[pid].state
      case Unlocked =>
        VisitFacts(layout, loading, s0, s, pid);
        ThinsState(layout, loading, s0, s, pid, Marked);
        RankFalls(s, pid, Marked);
        SetState(pid, Marked);
      case Marked =>
        VisitFacts(layout, loading, s0, s, pid);
        ThinsState(layout, loading, s0, s, pid, Shared);
        RankFalls(s, pid, Shared);
        SetState(pid, Shared);
        if virtMem[ht[pid].page].dirty {
          toWrite', taken := toWrite + [pid], 1;
        } else {
          TakeClean(pid, loading, s0);
          taken := 2;
        }
      case _ =>
    }

    /** The shared lock of a clean page becomes exclusive, and the page goes. */
    method TakeClean(pid: PID, ghost loading: Option<PID>, ghost s0: Pool)
      requires ClockOk() && Thins(layout, loading, s0, State())
      requires pid in ht && ht[pid].state == Shared && !s0.Held(pid) && Some(pid) != loading
      requires State().Seated(pid) && virtMem.Length == virtMemPids.Length && !virtMem[ht[pid].page].dirty
      modifies this, virtMemPids, clock`size, clock.ht
      ensures ClockOk() && Thins(layout, loading, s0, State()) && Rank(State()) == Rank(old(State()))
      ensures State() == Evicted(WithState(old(State()), pid, Locked), pid) && ht == old(ht) - {pid}
      ensures Thinned(old(clock.ht[..]), clock.ht[..])
    {
      hide Thins, Rank, Pool.Inv, RS.ResidentPageSet.Valid;
      ghost var s := State();
      ThinsState(layout, loading, s0, s, pid, Locked);
      ThinsResident(layout, loading, s0, s);
      SetState(pid, Locked);
      ThinsEvicted(layout, loading, s0, State(), pid);
      Release(pid);
      RankKept(s, State());
    }

    /** writePages: the frames are clean, and the disk has their images. */
    method WritePages(pids: seq<PID>, ghost loading: Option<PID>, ghost s0: Pool)
      requires Thins(layout, loading, s0, State()) && Collected(s0, pids, loading)
      modifies this`disk, virtMem
      ensures Thins(layout, loading, s0, State()) && Collected(s0, pids, loading) && Rank(State()) == Rank(old(State()))
      ensures ht == old(ht) && forall p :: p in pids ==> CleanSeat(p)
      ensures pids == [] ==> State() == old(State())
      ensures Settled(s0, old(State()), pids) ==> Settled(s0, State(), pids)
    {
      hide Thins, Rank, Pool.Inv;
      ghost var s := State();
      var i := 0;
      while i < |pids|
        invariant i <= |pids| && Thins(layout, loading, s0, State())
        invariant forall p :: p in pids[..i] ==> CleanSeat(p)
        invariant i == 0 ==> State() == s
        modifies this`disk, virtMem
      {
        var pid := pids[i];
        ghost var t := State();
        ThinsWritten(layout, loading, s0, t, pid);
        ThinsShaped(layout, loading, s0, t);
        var f := ht[pid].page;
        disk := disk[pid := virtMem[f].image];
        virtMem[f] := virtMem[f].(dirty := false);
        assert State() == Written(t, pid);
        assert pids[..i + 1] == pids[..i] + [pid];
        i := i + 1;
      }
      assert pids[..|pids|] == pids;
      RankKept(s, State());
    }

    ghost predicate CleanSeat(p: PID)
      reads this, virtMem, virtMemPids
    {
      State().Seated(p) && ht[p].page < virtMem.Length && !virtMem[ht[p].page].dirty
    }

    /** The first collected page is upgraded to an exclusive lock and goes. */
    method ReleaseFirst(pids: seq<PID>, ghost loading: Option<PID>, ghost s0: Pool)
      requires ClockOk() && Thins(layout, loading, s0, State()) && Collected(s0, pids, loading) && pids != []
      requires forall p :: p in pids ==> CleanSeat(p)
      modifies this, virtMemPids, clock`size, clock.ht
      ensures ClockOk() && Thins(layout, loading, s0, State()) && Rank(State()) == Rank(old(State()))
      ensures Collected(s0, pids[1..], loading) && (forall p :: p in pids[1..] ==> CleanSeat(p))
      ensures ht == old(ht) - {pids[0]} && pids[0] !in pids[1..]
      ensures Settled(s0, old(State()), pids) ==> Settled(s0, State(), pids[1..])
    {
      hide Thins, Rank, Pool.Inv, ClockOk;
      var pid := pids[0];
      ghost var s, rest := State(), pids[1..];
      assert CleanSeat(pid);
      ThinsShaped(layout, loading, s0, s);
      assert forall p :: p in rest ==> p in pids && p != pid && CleanSeat(p);
      TakeClean(pid, loading, s0);
      assert forall p :: p in rest ==> ht[p] == s.ht[p] && s.ht[p].page != s.ht[pid].page;
    }

    /** Lets all collected pages go; the original upgrades the locks in a first pass over them. */
    method ReleaseAll(pids: seq<PID>, ghost loading: Option<PID>, ghost s0: Pool, ghost visits: seq<PID>)
      requires ClockOk() && Thins(layout, loading, s0, State()) && Collected(s0, pids, loading)
      requires (forall p :: p in pids ==> CleanSeat(p)) && Settled(s0, State(), pids) && Chances(s0, ht, visits, pids)
      modifies this, virtMemPids, clock`size, clock.ht
      ensures ClockOk() && Thins(layout, loading, s0, State()) && Rank(State()) == Rank(old(State()))
      ensures Settled(s0, State(), []) && Chances(s0, ht, visits, []) && clock.clockPos == old(clock.clockPos)
      ensures pids == [] ==> Same(old(State()), old(clock.ht[..]), [], [], 0)
    {
      hide Thins, Rank, Pool.Inv, Collected, CleanSeat, Settled, ClockOk, Chances;
      var rest := pids;
      while rest != []
        invariant ClockOk() && (rest == pids ==> Same(old(State()), old(clock.ht[..]), [], [], 0))
        invariant Thins(layout, loading, s0, State()) && Rank(State()) == Rank(old(State()))
        invariant Collected(s0, rest, loading) && (forall p :: p in rest ==> CleanSeat(p)) && Settled(s0, State(), rest)
        invariant Chances(s0, ht, visits, rest) && clock.clockPos == old(clock.clockPos)
        modifies this, virtMemPids, clock`size, clock.ht
        decreases |rest|
      {
        ghost var was := ht;
        ReleaseFirst(rest, loading, s0);
        ReleaseChances(s0, was, visits, rest);
        rest := rest[1..];
      }
    }

    /** The eviction that started in s0, with the clock's table t0, has got this far. */
    ghost predicate Tally(s0: Pool, t0: seq<RS.Slot>, visits: seq<PID>, toWrite: seq<PID>, evicted: nat)
      reads this, virtMem, virtMemPids, clock.ht
    {
      Tallied(s0, t0, State(), clock.ht[..], visits, toWrite, evicted)
    }

    /** One batch of the clock: either something is marked or taken, or nothing has changed and no page in the batch
        may be evicted. */
    method SweepBatch(toWrite: seq<PID>, ghost loading: Option<PID>, ghost s0: Pool, ghost t0: seq<RS.Slot>,
                      ghost visits: seq<PID>, ghost evicted: nat)
      returns (toWrite': seq<PID>, taken: nat)
      requires ClockOk() && Thins(layout, loading, s0, State()) && Collected(s0, toWrite, loading)
      requires |t0| == clock.ht.Length && Tally(s0, t0, visits, toWrite, evicted)
      modifies this, virtMemPids, clock, clock.ht
      ensures ClockOk() && Thins(layout, loading, s0, State()) && Collected(s0, toWrite', loading)
      ensures clock.clockPos == (old(clock.clockPos) + batch) % clock.ht.Length
      ensures Rank(State()) < Rank(old(State()))
           || (Same(old(State()), old(clock.ht[..]), toWrite, toWrite', taken)
               && NoneIn(old(ht), RS.Swept(old(clock.ht[..]), old(clock.clockPos), batch)))
      ensures Settled(s0, old(State()), toWrite) ==> Settled(s0, State(), toWrite')
      ensures Tally(s0, t0, visits + RS.Swept(t0, old(clock.clockPos), batch), toWrite', evicted + taken)
    {
      hide Thins, Rank, Pool.Inv, Settled, Evictable, RS.ResidentPageSet.Valid, Tallied, Visited, Thinned;
      ghost var s, table := State(), clock.ht[..];
      ghost var from: nat := clock.clockPos;
      ResidentsAre(loading, s0);
      var pids := clock.IterateClockBatch(batch);
      hide ClockOk;
      toWrite', taken := toWrite, 0;
      var i := 0;
      assert visits + pids[..0] == visits;
      while i < |pids|
        invariant i <= |pids| && ClockOk() && Thins(layout, loading, s0, State()) && Collected(s0, toWrite', loading)
        invariant Settled(s0, s, toWrite) ==> Settled(s0, State(), toWrite')
        invariant Rank(State()) < Rank(s)
               || (Same(s, table, toWrite, toWrite', taken) && forall p :: p in pids[..i] ==> !Evictable(s, p))
        invariant Tally(s0, t0, visits + pids[..i], toWrite', evicted + taken)
        modifies this, virtMemPids, clock`size, clock.ht
      {
        var more;
        ghost var r, t, was := State(), clock.ht[..], toWrite';
        toWrite', more := VisitClock(pids[i], toWrite', loading, s0);
        TallyVisit(s0, t0, r, t, visits + pids[..i], was, evicted + taken, pids[i],
                   State(), clock.ht[..], toWrite', more);
        taken := taken + more;
        assert pids[..i + 1] == pids[..i] + [pids[i]];
        assert visits + pids[..i] + [pids[i]] == visits + pids[..i + 1];
        i := i + 1;
      }
      assert pids[..|pids|] == pids;
      TallyBatch(s0, t0, s, table, visits, toWrite, evicted, from, batch,
                 State(), clock.ht[..], toWrite', evicted + taken);
      if !(Rank(State()) < Rank(s)) { NoneEvictable(s, pids); }
    }

    lemma {:induction false} ResidentsAre(loading: Option<PID>, s0: Pool)
      requires ClockOk() && Thins(layout, loading, s0, State())
      ensures RS.Elements(clock.ht[..]) == ht.Keys && clock.clockPos < clock.ht.Length
    {
      hide Thins, Pool.Inv, RS.ResidentPageSet.Valid, RS.Elements;
      ClockIn();
      ThinsResident(layout, loading, s0, State());
    }

    /** Nothing has happened since s, and the clock has met no page that may be evicted. */
    ghost predicate Idle(s: Pool, table: seq<RS.Slot>, start: nat, k: nat)
      requires start < |table|
      reads this, virtMem, virtMemPids, clock, clock.ht
    {
      && State() == s && clock.ht[..] == table && clock.clockPos == RS.ClockAfter(|table|, start, batch, k)
      && MetNone(table, s.ht, start, batch, k)
    }

    /** Evict's loop, after k batches. */
    ghost predicate Sweeping(loading: Option<PID>, s0: Pool, t0: seq<RS.Slot>, start: nat, k: nat, toWrite: seq<PID>,
                             evicted: nat)
      reads this, virtMem, virtMemPids, clock, clock.ht
    {
      && ClockOk() && Thins(layout, loading, s0, State()) && Collected(s0, toWrite, loading)
      && Settled(s0, State(), toWrite) && start < |t0| == clock.ht.Length
      && clock.clockPos == RS.ClockAfter(|t0|, start, batch, k)
      && (Rank(State()) < Rank(s0) || (Idle(s0, t0, start, k) && toWrite == [] && evicted == 0))
      && Tally(s0, t0, Handed(t0, start, batch, k), toWrite, evicted) && Trying(s0, t0, start, k, evicted)
    }

    method TryBatch(ghost loading: Option<PID>, ghost s0: Pool, ghost t0: seq<RS.Slot>, ghost start: nat, ghost k: nat,
                    toWrite: seq<PID>, evicted: nat)
      returns (toWrite': seq<PID>, taken: nat)
      requires Sweeping(loading, s0, t0, start, k, toWrite, evicted) && evicted < batch
      modifies this, virtMemPids, clock, clock.ht
      ensures Sweeping(loading, s0, t0, start, k + 1, toWrite', evicted + taken)
    {
      hide Thins, Rank, Pool.Inv, Settled, Collected, RS.ResidentPageSet.Valid, NoneIn, MetNone, Tally, Trying, ClockOk;
      ghost var idle := !(Rank(State()) < Rank(s0));
      toWrite', taken := SweepBatch(toWrite, loading, s0, t0, Handed(t0, start, batch, k), evicted);
      if idle && !(Rank(State()) < Rank(s0)) { MetOne(t0, s0.ht, start, batch, k); }
      TryingMore(s0, t0, start, k, evicted, toWrite', evicted + taken, loading);
    }

    lemma {:induction false} EvictStart(loading: Option<PID>)
      requires Ok(loading)
      ensures clock.clockPos < clock.ht.Length && RS.Unique(clock.ht[..])
      ensures Sweeping(loading, State(), clock.ht[..], clock.clockPos, 0, [], 0)
    {
      hide Thins, Rank, Pool.Inv, Settled, Collected, RS.ResidentPageSet.Valid, NoneIn, MetNone, Tally, Trying, Tallied;
      ClockIn();
      TryingStart();
      SettledStart(State());
      ThinsStart(layout, loading, State());
      NothingCollected(State(), loading);
      MetNothing(clock.ht[..], ht, clock.clockPos, batch);
    }

    lemma {:induction false} SweepingEnd(loading: Option<PID>, s0: Pool, t0: seq<RS.Slot>, start: nat, k: nat,
                                         toWrite: seq<PID>, evicted: nat)
      requires Sweeping(loading, s0, t0, start, k, toWrite, evicted)
      ensures ClockOk() && Thins(layout, loading, s0, State()) && Collected(s0, toWrite, loading)
      ensures Settled(s0, State(), toWrite) && start < |t0| == clock.ht.Length
      ensures clock.clockPos == RS.ClockAfter(|t0|, start, batch, k)
      ensures Rank(State()) < Rank(s0) || (Idle(s0, t0, start, k) && toWrite == [] && evicted == 0 && evicted < batch)
      ensures Chances(s0, ht, Handed(t0, start, batch, k), toWrite) && Trying(s0, t0, start, k, evicted)
    {
      hide Thins, Rank, Settled, Collected, RS.ResidentPageSet.Valid, NoneIn, MetNone, Tally, Trying, Chances, Handed,
           Pool.Inv;
      TallyEnd(s0, t0, Handed(t0, start, batch, k), toWrite, evicted);
    }

    /** evict: batches of the clock until enough pages are taken, at most maxTries of them; then the collected pages
        are written and released. Returns how many batches it took. */
    method Evict(ghost loading: Option<PID>) returns (ghost tries: nat)
      requires Ok(loading)
      modifies this, virtMem, virtMemPids, clock, clock.ht
      ensures ClockOk() && Thins(layout, loading, old(State()), State()) && Settled(old(State()), State(), [])
      ensures Rank(State()) < Rank(old(State())) || Idle(old(State()), old(clock.ht[..]), old(clock.clockPos), maxTries)
      ensures Evicts(old(State()), old(clock.ht[..]), old(clock.clockPos), batch, maxTries, tries, ht)
      ensures clock.clockPos == RS.ClockAfter(clock.ht.Length, old(clock.clockPos), batch, tries)
    {
      hide Thins, Rank, Pool.Inv, Settled, CleanSeat, Collected, RS.ResidentPageSet.Valid, NoneIn, MetNone, Tally,
           Trying, Chances, Evicts, Sweeping, ClockOk;
      ghost var s0, table := State(), clock.ht[..];
      ghost var start: nat := clock.clockPos;
      EvictStart(loading);
      var toWrite: seq<PID> := [];
      var evicted: nat, k: nat := 0, 0;
      while evicted < batch && k < maxTries
        invariant Sweeping(loading, s0, table, start, k, toWrite, evicted)
        invariant k <= maxTries && start < |table|
        modifies this, virtMemPids, clock, clock.ht
        decreases maxTries - k
      {
        var taken;
        toWrite, taken := TryBatch(loading, s0, table, start, k, toWrite, evicted);
        evicted := evicted + taken;
        k := k + 1;
      }
      tries := k;
      ghost var visits := Handed(table, start, batch, k);
      SweepingEnd(loading, s0, table, start, k, toWrite, evicted);
      WritePages(toWrite, loading, s0);
      ReleaseAll(toWrite, loading, s0, visits);
      EvictsIs(s0, table, start, k, evicted);
    }

    lemma {:induction false} ClockIn()
      requires ClockOk()
      ensures clock.clockPos < clock.ht.Length && RS.Unique(clock.ht[..])
    {
    }

    /** So many pages have been taken by k batches, and never enough before. */
    ghost predicate Trying(s0: Pool, t0: seq<RS.Slot>, start: nat, k: nat, evicted: nat) {
      && start < |t0| && evicted == Count(s0, Handed(t0, start, batch, k))
      && forall i: nat :: i < k ==> Count(s0, Handed(t0, start, batch, i)) < batch
    }

    lemma {:induction false} TryingStart()
      requires ClockOk()
      ensures Tally(State(), clock.ht[..], Handed(clock.ht[..], clock.clockPos, batch, 0), [], 0)
      ensures Trying(State(), clock.ht[..], clock.clockPos, 0, 0)
    {
      hide Tallied, Count;
      TallyStart(State(), clock.ht[..]);
      CountIs(State(), clock.ht[..], State(), clock.ht[..], [], [], 0);
    }

    lemma {:induction false} TryingMore(s0: Pool, t0: seq<RS.Slot>, start: nat, k: nat, evicted: nat,
                                        toWrite: seq<PID>, more: nat, loading: Option<PID>)
      requires Trying(s0, t0, start, k, evicted) && evicted < batch && Collected(s0, toWrite, loading)
      requires Tally(s0, t0, Handed(t0, start, batch, k + 1), toWrite, more)
      ensures Trying(s0, t0, start, k + 1, more)
    {
      hide Tallied, Count, Handed;
      CountIs(s0, t0, State(), clock.ht[..], Handed(t0, start, batch, k + 1), toWrite, more);
    }

    lemma {:induction false} TallyEnd(s0: Pool, t0: seq<RS.Slot>, visits: seq<PID>, toWrite: seq<PID>, evicted: nat)
      requires Tally(s0, t0, visits, toWrite, evicted)
      ensures Chances(s0, ht, visits, toWrite)
    {
    }

    /** The last batch has brought enough, or was the last one allowed. */
    lemma {:induction false} EvictsIs(s0: Pool, t0: seq<RS.Slot>, start: nat, k: nat, evicted: nat)
      requires Trying(s0, t0, start, k, evicted) && k <= maxTries && (evicted >= batch || k == maxTries)
      requires Chances(s0, ht, Handed(t0, start, batch, k), [])
      ensures Evicts(s0, t0, start, batch, maxTries, k, ht)
    {
    }

    lemma {:induction false} NothingCollected(s0: Pool, loading: Option<PID>)
      ensures Collected(s0, [], loading)
    {
    }

    /** Since the clock stood at start, k batches have met no page that may be evicted. */
    ghost predicate Watched(table: seq<RS.Slot>, start: nat, k: nat)
      reads this`ht, clock, clock.ht
    {
      && start < |table| && clock.ht[..] == table && clock.clockPos == RS.ClockAfter(|table|, start, batch, k)
      && MetNone(table, ht, start, batch, k)
    }

    lemma {:induction false} WatchStart()
      requires ClockOk()
      ensures Watched(clock.ht[..], clock.clockPos, 0)
    {
      MetNothing(clock.ht[..], ht, clock.clockPos, batch);
    }

    /** Evicts while the free list is empty. A sweep need not meet a page that may be evicted, but the clock goes on
        where it stood. */
    method EvictMore(ghost loading: Option<PID>, ghost table: seq<RS.Slot>, ghost start: nat, ghost k: nat)
      returns (ghost table': seq<RS.Slot>, ghost start': nat, ghost k': nat, ghost tries: nat)
      requires Ok(loading) && HasRoom(State()) && freeList == multiset{} && Watched(table, start, k)
      modifies this, virtMem, virtMemPids, clock, clock.ht
      ensures ClockOk() && Thins(layout, loading, old(State()), State()) && HasRoom(State())
      ensures Settled(old(State()), State(), [])
      ensures Evicts(old(State()), old(clock.ht[..]), old(clock.clockPos), batch, maxTries, tries, ht)
      ensures Watched(table', start', k')
      ensures Rank(State()) < Rank(old(State()))
           || (Rank(State()) == Rank(old(State())) && freeList == multiset{}
               && |table'| == |table| && k * batch < k' * batch && k * batch < |table|)
    {
      hide Thins, Rank, Pool.Inv, Settled, HasRoom, ClockOk, MetNone, Idle, Evicts;
      NotAllMet(loading, table, start, k);
      ghost var r := State();
      tries := Evict(loading);
      RoomLeft(layout, loading, r, State());
      if Rank(State()) < Rank(r) {
        hide Watched;
        table', start', k' := clock.ht[..], clock.clockPos, 0;
        WatchStart();
      } else {
        WatchOn(r, table, start, k);
        hide Watched;
        table', start', k' := table, start, k + maxTries;
      }
    }

    lemma {:induction false} WatchOn(r: Pool, table: seq<RS.Slot>, start: nat, k: nat)
      requires ClockOk() && start < |table| && MetNone(table, r.ht, start, batch, k)
      requires Idle(r, table, RS.ClockAfter(|table|, start, batch, k), maxTries)
      ensures State() == r && Watched(table, start, k + maxTries) && k * batch < (k + maxTries) * batch
    {
      hide MetNone;
      MetMore(table, ht, start, batch, k, maxTries);
      ClockFurther(|table|, start, batch, k, maxTries);
      MoreBatches(k, maxTries, batch);
    }

    /** Takes frames off the free list until one can be claimed, evicting when the list is empty: then every frame has
        an owner. */
    method GetFreePage(pid: PID, ghost loading: Option<PID>) returns (page: nat, ghost r: Pool)
      requires Ok(loading) && HasRoom(State())
      modifies this, virtMem, virtMemPids, clock, clock.ht
      ensures Thins(layout, loading, old(State()), r) && CanClaim(r, page) && State() == Claimed(r, pid, page)
      ensures ClockOk() && Settled(old(State()), r, []) && Spared(old(State()), r)
    {
      hide Thins, Rank, Pool.Inv, Settled, HasRoom, ClockOk, MetNone, Watched, SomeFree, Evicts;
      ghost var s0 := State();
      ThinsStart(layout, loading, s0);
      SettledStart(s0);
      ghost var table, start: nat, k: nat := clock.ht[..], clock.clockPos, 0;
      WatchStart();
      while true
        invariant ClockOk() && Thins(layout, loading, s0, State()) && HasRoom(State()) && Watched(table, start, k)
        invariant Settled(s0, State(), []) && Spared(s0, State())
        decreases Rank(State()), |freeList|, if k * batch < |table| then |table| - k * batch else 0
      {
        r := State();
        ThinsShaped(layout, loading, s0, r);
        if freeList == multiset{} {
          MustNotEvict(layout, loading, s0, r);
          ghost var tries;
          table, start, k, tries := EvictMore(loading, table, start, k);
          SettledTrans(s0, r, State());
          ThinsTrans(layout, loading, s0, r, State());
        } else {
          page :| page in freeList;
          ThinsTrimmed(layout, loading, s0, r, page);
          var ok := TakeFrame(page, pid);
          if ok { return; }
          RoomTrimmed(r, page);
          SettledTrimmed(s0, r, page);
        }
      }
    }

    /** A frame off the free list, which may be stale. */
    method TakeFrame(f: nat, pid: PID) returns (ok: bool)
      requires f in freeList && f < virtMemPids.Length
      modifies this`freeList, virtMemPids
      ensures ok == (old(virtMemPids[f]) == None)
      ensures State() == if ok then Claimed(old(State()), pid, f)
          else old(State()).(free := old(freeList) - multiset{f})
      ensures freeList == old(freeList) - multiset{f}
    {
      freeList := freeList - multiset{f};
      ok := TrySetPresent(f, pid);
    }

    /** With an empty free list some page may be evicted, so the clock has not met all pages yet. */
    lemma {:induction false} NotAllMet(loading: Option<PID>, table: seq<RS.Slot>, start: nat, k: nat)
      requires Ok(loading) && HasRoom(State()) && freeList == multiset{} && Watched(table, start, k)
      ensures k * batch < |table|
    {
      MustEvict(layout, loading, State());
      assert residents == ht.Keys;
      hide Pool.Inv, RS.ResidentPageSet.Valid, Evictable, MetNone, HasRoom;
      var p :| Evictable(State(), p);
      if k * batch >= |table| { MetAll(table, State(), start, batch, k, p); }
    }

    // -------------------------------------------------------------------- allocating and loading

    /** The page gets frame f: owner table, page table entry and bytes. */
    method Place(pid: PID, f: nat, frame: Frame, intendedSlot: bool)
      requires pid in ht && f < virtMem.Length == virtMemPids.Length
      modifies this`ht, virtMem, virtMemPids
      ensures State() == Placed(old(State()), pid, f, frame, intendedSlot)
    {
      virtMemPids[f] := Some(pid);
      ht := ht[pid := ht[pid].(page := f, intendedSlot := intendedSlot)];
      virtMem[f] := frame;
    }

    /** ht.insert of an absent page, and residentSet.insert. */
    method Enter(pid: PID, page: nat, intendedSlot: bool)
      requires Ok(None) && pid !in ht && pid <= allocCount
      modifies this`ht, this`residents, this`allocCount, clock`size, clock.ht
      ensures ClockOk() && State() == Entered(old(State()), pid, page, intendedSlot)
    {
      ghost var f := SlotLeft(layout, State(), clock.ht[..]);
      assert residents == ht.Keys;
      hide Pool.Inv;
      clock.Insert(pid);
      if pid == allocCount { allocCount := pid + 1; }
      ht := ht[pid := BufferFrame(page, intendedSlot, Locked)];
      residents := residents + {pid};
    }

    /** A frame for the page that has just been entered: its preferred one, or one off the free list. */
    method FindFrame(pid: PID) returns (f: nat, preferred: bool, ghost r: Pool)
      requires Ok(Some(pid)) && HasRoom(State())
      modifies this, virtMem, virtMemPids, clock, clock.ht
      ensures Thins(layout, Some(pid), old(State()), r) && f < |r.owner| && r.owner[f] == None
      ensures preferred == (old(State()).owner[layout.IntendedFrame(pid)] == None)
      ensures preferred ==>
                r == old(State()) && f == layout.IntendedFrame(pid) && State() == r.(owner := r.owner[f := Some(pid)])
      ensures !preferred ==> CanClaim(r, f) && State() == Claimed(r, pid, f)
      ensures ClockOk() && Settled(old(State()), r, []) && Spared(old(State()), r)
    {
      hide Thins, Pool.Inv, HasRoom, ClockOk, Settled;
      r := State();
      InvShaped(layout, r, Some(pid));
      ThinsStart(layout, Some(pid), r);
      SettledStart(r);
      f := layout.IntendedFrame(pid);
      preferred := TrySetPresent(f, pid);
      if !preferred { f, r := GetFreePage(pid, Some(pid)); }
    }

    /** The page has been loaded: into its preferred frame if that had no owner; and if any frame had none, no other
        page has been touched. */
    ghost predicate LoadedInto(pid: PID, s: Pool)
      requires layout.Ok() && |s.owner| == layout.frameCount
      reads this
    {
      && pid in ht && ht[pid].state == Locked
      && (SomeFree(s) ==> ht == s.ht[pid := ht[pid]])
      && if s.owner[layout.IntendedFrame(pid)] == None
         then ht[pid].page == layout.IntendedFrame(pid) && ht[pid].intendedSlot == layout.predict
         else !ht[pid].intendedSlot
    }

    /** The common part of allocPage and handleFault: an absent page gets a frame, exclusively latched. A fresh page
        is dirty and has its pid set, any other is read from disk. */
    method Load(pid: PID, isFresh: bool)
      requires Ok(None) && HasRoom(State()) && pid !in ht && (if isFresh then pid == allocCount else pid < allocCount)
      modifies this, virtMem, virtMemPids, clock, clock.ht
      ensures Ok(None) && OnlyOne(old(State()), State(), pid)
      ensures pid in ht && ht[pid].state == Locked && State().Seated(pid)
      ensures allocCount == if isFresh then pid + 1 else old(allocCount)
      ensures if isFresh then State().frames[ht[pid].page].dirty && State().frames[ht[pid].page].image.pid == pid
              else State().Logical(pid) == old(State()).Logical(pid)
      ensures |old(State()).owner| == layout.frameCount && LoadedInto(pid, old(State()))
    {
      hide Thins, Pool.Inv, HasRoom, Placed, Pool.Logical, OnlyOne, CanClaim, ClockOk, Settled;
      ghost var s := State();
      InvShaped(layout, s, None);
      Enter(pid, layout.IntendedFrame(pid), layout.predict);
      ghost var e := State();
      EnteredKeeps(layout, s, pid, layout.IntendedFrame(pid), layout.predict);
      EnteredRoom(s, pid, layout.IntendedFrame(pid), layout.predict);
      var f, preferred, r := FindFrame(pid);
      ThinsLoading(layout, s, e, r, pid);
      var frame := if isFresh then Frame(true, Content(pid, virtMem[f].image.body)) else Frame(false, disk[pid]);
      Place(pid, f, frame, preferred && layout.predict);
      LoadedIs(layout, s, e, r, pid, f, frame, preferred, State());
    }

    /** A new page; no other page's contents change. */
    method AllocPage() returns (pid: PID)
      requires Ok(None) && HasRoom(State())
      modifies this, virtMem, virtMemPids, clock, clock.ht
      ensures Ok(None) && OnlyOne(old(State()), State(), pid)
      ensures pid == old(allocCount) && pid !in old(ht) && allocCount == pid + 1
      ensures pid in ht && ht[pid].state == Locked && State().Seated(pid) && State().Logical(pid).value.pid == pid
      ensures |old(State()).owner| == layout.frameCount && LoadedInto(pid, old(State()))
    {
      pid := allocCount;
      AllocFresh(layout, State());
      Load(pid, true);
    }

    /** Brings an absent page in from disk; no page's contents change. Returns false if the page is resident. */
    method HandleFault(pid: PID) returns (loaded: bool)
      requires Ok(None) && HasRoom(State()) && pid < allocCount
      modifies this, virtMem, virtMemPids, clock, clock.ht
      ensures Ok(None) && loaded == (pid !in old(ht)) && SameContents(old(State()), State())
      ensures loaded ==>
                pid in ht && ht[pid].state == Locked && State().Seated(pid) && OnlyOne(old(State()), State(), pid)
      ensures |old(State()).owner| == layout.frameCount && (loaded ==> LoadedInto(pid, old(State())))
      ensures !loaded ==> State() == old(State())
    {
      hide Pool.Inv, Pool.Logical;
      InvShaped(layout, State(), None);
      if pid in ht { return false; }
      Load(pid, false);
      return true;
    }

    // -------------------------------------------------------------------- promotion

    /** memcpy of a page to frame f, which it owns from now on; heir is the next owner of its old frame. */
    method MoveBytes(pid: PID, f: nat, intendedSlot: bool, heir: Option<PID>)
      requires pid in ht && ht[pid].page < virtMem.Length == virtMemPids.Length && f < virtMem.Length
      modifies this`ht, virtMem, virtMemPids
      ensures var s := old(State()); var was := s.ht[pid].page;
        State() == s.(frames := s.frames[f := s.frames[was]], owner := s.owner[f := Some(pid)][was := heir],
                      ht := s.ht[pid := s.ht[pid].(page := f, intendedSlot := intendedSlot)])
    {
      var was := ht[pid].page;
      virtMem[f] := virtMem[was];
      virtMemPids[f] := Some(pid);
      virtMemPids[was] := heir;
      ht := ht[pid := ht[pid].(page := f, intendedSlot := intendedSlot)];
    }

    /** The frame for the page that is in the way: its preferred one, or one off the free list. */
    method FindRefuge(v: PID) returns (f: nat, vIntended: bool, ghost r: Pool)
      requires Ok(None) && HasRoom(State())
      modifies this, virtMem, virtMemPids, clock, clock.ht
      ensures Thins(layout, None, old(State()), r) && FoundAt(r, f, freeList)
      ensures FoundFor(layout, old(State()), v, f, vIntended) && Settled(old(State()), r, []) && Spared(old(State()), r)
      ensures State() == r.(owner := r.owner[f := Some(v)], free := freeList)
      ensures ClockOk()
    {
      hide Thins, Pool.Inv, HasRoom, ClockOk, Settled;
      r := State();
      InvShaped(layout, r, None);
      ThinsStart(layout, None, r);
      SettledStart(r);
      f := layout.IntendedFrame(v);
      var ok := TrySetPresent(f, v);
      vIntended := ok && layout.predict;
      if !ok { f, r := GetFreePage(v, None); }
    }

    /** The copying of promoteLocked: v's bytes go to f, which was claimed for it in r, and the page's bytes take their
        place. */
    method Displace(pid: PID, v: PID, f: nat, vIntended: bool, ghost r: Pool)
      requires pid != v && pid in r.ht && v in r.ht && |r.frames| == |r.owner| == virtMem.Length == virtMemPids.Length
      requires f < |r.owner| && r.ht[pid].page < |r.owner| && r.ht[v].page < |r.owner|
      requires State() == r.(owner := r.owner[f := Some(v)], free := freeList)
      modifies this`ht, this`freeList, virtMem, virtMemPids
      ensures State() == Displaced(r, pid, v, f, vIntended, layout.predict, old(freeList))
    {
      var home := ht[v].page;
      MoveBytes(v, f, vIntended, Some(pid));
      SetState(v, Unlocked);
      var was := ht[pid].page;
      MoveBytes(pid, home, layout.predict, None);
      freeList := freeList + multiset{was};
    }

    /** Moves the page into the frame of v, which is moved away. */
    method PromoteOver(pid: PID, v: PID)
      requires ClockOk() && Wants(layout, State(), pid, v) && ht[v].state == Unlocked
      requires HasRoom(WithState(State(), v, Locked))
      modifies this, virtMem, virtMemPids, clock, clock.ht
      ensures ClockOk() && layout.Ok() && |old(State()).owner| == layout.frameCount
      ensures Promoted(layout, old(State()), State(), pid, old(ht[pid]).state)
    {
      hide ClockOk, Thins, Pool.Inv, HasRoom, Promoted, Wants, FoundAt, Pool.Seated, Pool.Held, Displaced, Settled;
      ghost var s := State();
      HoldVictim(layout, s, pid, v);
      WantsShaped(layout, s, pid, v);
      WantsShaped(layout, WithState(s, v, Locked), pid, v);
      SetState(v, Locked);
      var f, vIntended, r := FindRefuge(v);
      DisplacedIs(layout, s, r, pid, v, f, vIntended, freeList);
      WantsShaped(layout, r, pid, v);
      FoundBound(r, f, freeList);
      Displace(pid, v, f, vIntended, r);
    }

    /** Moves an exclusively latched page to its preferred frame. A page that is there is moved away first, if the
        bucket of the promoted page knows it and it is not latched; else nothing happens. */
    method PromoteLocked(pid: PID)
      requires Ok(None) && pid in ht && ht[pid].state == Locked && ht[pid].page != layout.IntendedFrame(pid)
      requires RoomBeside(layout, State(), pid)
      modifies this, virtMem, virtMemPids, clock, clock.ht
      ensures Ok(None)
      ensures if CanPromote(layout, old(State()), pid) then Promoted(layout, old(State()), State(), pid, Locked)
              else State() == old(State())
    {
      hide ClockOk, Thins, Pool.Inv, HasRoom, SameContents, Pool.Logical;
      ghost var s := State();
      InvShaped(layout, s, None);
      var home := layout.IntendedFrame(pid);
      var ok := TrySetPresent(home, pid);
      if ok {
        PromotedDirectly(layout, s, pid);
        var was := ht[pid].page;
        MoveBytes(pid, home, layout.predict, None);
        freeList := freeList + multiset{was};
        assert State() == Moved(s, pid, home, layout.predict, s.free + multiset{was});
      } else {
        InTheWay(layout, s, pid);
        var v := virtMemPids[home].value;
        if v !in ht || layout.Bucket(v) != layout.Bucket(pid) { return; }
        if ht[v].state != Unlocked { return; }
        PromoteOver(pid, v);
      }
    }

    /** Promotes a page nobody holds; displace is the coin that decides whether a page in its own preferred frame may
        be moved. Nobody holds the page afterwards, and nobody has lost or got another one. */
    method TryPromote(pid: PID, displace: bool)
      requires Ok(None) && (Evictable(State(), pid) ==> RoomBeside(layout, WithState(State(), pid, Locked), pid))
      modifies this, virtMem, virtMemPids, clock, clock.ht
      ensures Ok(None) && SameContents(old(State()), State())
      ensures if Evictable(old(State()), pid) && MayPromote(layout, old(State()), pid, displace)
              then Released(layout, old(State()), State(), pid, CanPromote(layout, old(State()), pid))
              else State() == old(State())
      ensures Evictable(old(State()), pid) && old(State()).owner[layout.IntendedFrame(pid)] == None ==>
                pid in ht
                && (ht[pid].page == layout.IntendedFrame(pid) <==>
                    displace || layout.IntendedFrame(NO_PID) != layout.IntendedFrame(pid))
    {
      hide Pool.Inv, HasRoom, Pool.Logical, SameContents, RoomBeside, Aside, SameHolders;
      ghost var s := State();
      InvShaped(layout, s, None);
      SameSelf(s);
      if pid !in ht || (ht[pid].state != Marked && ht[pid].state != Unlocked) { return; }
      SeatOf(layout, s, pid);
      var preferredFrame := layout.IntendedFrame(pid);
      if preferredFrame == ht[pid].page { return; }
      var replacing := virtMemPids[preferredFrame];
      var replacingHome := layout.IntendedFrame(match replacing case Some(v) => v case None => NO_PID);
      if replacingHome == preferredFrame && !displace { return; }
      WithStateKeeps(layout, s, pid, Locked, None);
      SetState(pid, Locked);
      ghost var h := State();
      CanPromoteHeld(layout, s, pid);
      PromoteLocked(pid);
      ReleasedIs(layout, s, h, State(), pid, CanPromote(layout, s, pid));
      SetState(pid, Unlocked);
    }

    // -------------------------------------------------------------------- using pages

    /** fixX: the page is resident and exclusively latched. */
    method FixX(pid: PID)
      requires Ok(None) && pid < allocCount && !State().Held(pid) && (pid !in ht ==> HasRoom(State()))
      modifies this, virtMem, virtMemPids, clock, clock.ht
      ensures Ok(None) && SameContents(old(State()), State()) && pid in ht && ht[pid].state == Locked
      ensures SameHolders(old(State()), State(), pid)
      ensures pid in old(ht) ==> State() == WithState(old(State()), pid, Locked)
    {
      hide Pool.Inv, HasRoom, Pool.Logical, SameContents;
      if pid !in ht {
        var _ := HandleFault(pid);
      } else {
        WithStateKeeps(layout, State(), pid, Locked, None);
        SetState(pid, Locked);
      }
    }

    /** What a GuardX does to the page it holds: marks it dirty and changes its bytes. */
    method Write(pid: PID, image: Content)
      requires Ok(None) && pid in ht && ht[pid].state == Locked
      modifies virtMem
      ensures Ok(None) && OnlyOne(old(State()), State(), pid) && State().Logical(pid) == Some(image)
      ensures State().Held(pid)
    {
      ghost var s := State();
      OverwrittenKeeps(layout, s, pid, image);
      hide Pool.Inv, Pool.Logical, OnlyOne;
      virtMem[ht[pid].page] := Frame(true, image);
      assert State() == Overwritten(s, pid, image);
    }

    /** unfixX: releases the page; decide says that it be promoted first, if it may. */
    method UnfixX(pid: PID, decide: bool, displace: bool)
      requires Ok(None) && pid in ht && ht[pid].state == Locked && RoomBeside(layout, State(), pid)
      modifies this, virtMem, virtMemPids, clock, clock.ht
      ensures Ok(None) && SameContents(old(State()), State()) && pid in ht && ht[pid].state == Unlocked
      ensures var s := old(State());
        Released(layout, s, State(), pid, decide && MayPromote(layout, s, pid, displace) && CanPromote(layout, s, pid))
    {
      hide Pool.Inv, HasRoom, Pool.Logical, SameContents, RoomBeside, Aside, SameHolders;
      ghost var s := State();
      InvShaped(layout, s, None);
      assert s == WithState(s, pid, Locked);
      var preferredFrame := layout.IntendedFrame(pid);
      if preferredFrame != ht[pid].page && decide {
        var replacing := virtMemPids[preferredFrame];
        var replacingHome := layout.IntendedFrame(match replacing case Some(v) => v case None => NO_PID);
        if replacingHome != preferredFrame || displace { PromoteLocked(pid); }
      }
      ReleasedIs(layout, s, s, State(), pid,
                 decide && MayPromote(layout, s, pid, displace) && CanPromote(layout, s, pid));
      SetState(pid, Unlocked);
    }

    /** One page written to disk, if it is dirty. */
    method FlushPage(pid: PID)
      requires Ok(None) && pid in ht
      modifies this`disk, virtMem
      ensures Ok(None) && SameContents(old(State()), State()) && ht == old(ht) && CleanSeat(pid)
      ensures forall p :: old(CleanSeat(p)) ==> CleanSeat(p)
    {
      ghost var s := State();
      WrittenKeeps(layout, s, pid, None);
      InvShaped(layout, s, None);
      SameSelf(s);
      assert s.Seated(pid);
      hide Pool.Inv, SameContents;
      var f := ht[pid].page;
      if virtMem[f].dirty {
        disk := disk[pid := virtMem[f].image];
        virtMem[f] := virtMem[f].(dirty := false);
        assert State() == Written(s, pid);
      }
    }

    /** The pages in the first n slots of the clock are clean. */
    ghost predicate FlushedTo(n: nat)
      requires n <= clock.ht.Length
      reads this, virtMem, virtMemPids, clock, clock.ht
    {
      forall j :: 0 <= j < n && clock.ht[j].Held? ==> CleanSeat(clock.ht[j].pid)
    }

    method FlushSlot(i: nat)
      requires Ok(None) && i < clock.ht.Length && FlushedTo(i)
      modifies this`disk, virtMem
      ensures Ok(None) && SameContents(old(State()), State()) && ht == old(ht) && FlushedTo(i + 1)
    {
      SlotPresent(i);
      InvShaped(layout, State(), None);
      SameSelf(State());
      hide Pool.Inv, ClockOk, SameContents, CleanSeat;
      if clock.ht[i].Held? { FlushPage(clock.ht[i].pid); }
    }

    /** The clock's pages are those of the page table. */
    lemma {:induction false} SlotPresent(i: nat)
      requires Ok(None) && i < clock.ht.Length
      ensures clock.ht[i].Held? ==> clock.ht[i].pid in ht
    {
      assert residents == ht.Keys;
      hide Pool.Inv, RS.ResidentPageSet.Valid;
      if clock.ht[i].Held? {
        assert RS.Sits(clock.ht[..], i, clock.ht[i].pid);
        RS.ElementsAre(clock.ht[..], clock.ht[i].pid);
      }
    }

    lemma {:induction false} AllFlushed()
      requires Ok(None) && FlushedTo(clock.ht.Length)
      ensures forall p :: p in ht ==> CleanSeat(p)
    {
      assert residents == ht.Keys;
      hide Pool.Inv, RS.ResidentPageSet.Valid, CleanSeat;
      forall p | p in ht
        ensures CleanSeat(p)
      {
        RS.ElementsAre(clock.ht[..], p);
        var pos: nat :| RS.Sits(clock.ht[..], pos, p);
      }
    }

    /** Writes all dirty pages to disk. */
    method Flush()
      requires Ok(None)
      modifies this`disk, virtMem
      ensures Ok(None) && SameContents(old(State()), State()) && ht == old(ht)
      ensures forall p :: p in ht ==> CleanSeat(p) && p in disk && State().Logical(p) == Some(disk[p])
    {
      hide Pool.Inv, ClockOk, SameContents, CleanSeat, FlushedTo;
      ghost var s := State();
      InvShaped(layout, s, None);
      SameSelf(s);
      assert FlushedTo(0) by { NoneFlushed(); }
      var i := 0;
      while i < clock.ht.Length
        invariant i <= clock.ht.Length && Ok(None) && SameContents(s, State()) && ht == s.ht && FlushedTo(i)
        modifies this`disk, virtMem
      {
        ghost var t := State();
        FlushSlot(i);
        SameTrans(s, t, State());
        i := i + 1;
      }
      AllFlushed();
      FlushedIs();
    }

    lemma {:induction false} NoneFlushed()
      ensures FlushedTo(0)
    {
    }

    lemma {:induction false} FlushedIs()
      requires Ok(None) && forall p :: p in ht ==> CleanSeat(p)
      ensures |State().frames| == |State().owner|
      ensures forall p :: p in ht ==> p in disk && State().Logical(p) == Some(disk[p])
    {
      assert State().CleanOk(None);
    }
  }
}
