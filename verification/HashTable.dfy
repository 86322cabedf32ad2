/** One bucket of the page table of ht.hpp: a chain with an inlined head, protected by the versioned lock of
    versioned_lock.hpp. Threads scan without the lock and take it only if nothing changed meanwhile. Steps of all
    threads interleave; the edits made under the lock are single steps here, as readers that look in between
    find the lock bit when they check the version next. Other buckets share the list of recycled entries. */
module HashTable {
  import opened Pages

  const LOCK_BIT: nat := 0x8000_0000_0000_0000

  predicate IsLocked(w: nat) { w / LOCK_BIT % 2 == 1 }

  // ---------------------------------------------------------------------- states

  type EntryId = nat
  type Tid = nat

  const HEAD: EntryId := 0

  /** The entry of no page: a free head, or a recycled entry. */
  datatype Cell = Cell(pid: Option<PID>, page: Option<nat>, next: Option<EntryId>)

  datatype Purpose = Insert | Access

  /** Where a thread stands in its operation. at counts the entries it has passed. */
  datatype Local =
    | Idle
    | Scan(purpose: Purpose, pid: PID, v: nat, cur: Option<EntryId>, at: nat)
    | Seen(purpose: Purpose, pid: PID, v: nat, entry: EntryId, at: nat, isMatch: bool, next: Option<EntryId>)
    | Found(pid: PID, v: nat, entry: EntryId, at: nat)
    | Missed(pid: PID)
    | Refused(pid: PID)
    | Inserting(pid: PID)
    | Removing(pid: PID)
    | Moving(entry: EntryId, at: nat)
    | Unlocking(recycled: Option<EntryId>)
    | Recycling(entry: EntryId)

  datatype Bucket = Bucket(version: nat, holder: Option<Tid>, cells: map<EntryId, Cell>, chain: seq<EntryId>,
                           free: multiset<EntryId>, elsewhere: set<EntryId>, locals: map<Tid, Local>) {

    /** The word a thread sees when it loads the lock. */
    function Word(): nat { if holder.Some? then version + LOCK_BIT else version }

    function Next(i: nat): Option<EntryId> {
      if i + 1 < |chain| then Some(chain[i + 1]) else None
    }

    /** The entries from the head on, linked by next. */
    ghost predicate Linked() {
      && |chain| > 0 && chain[0] == HEAD
      && (forall i :: 0 <= i < |chain| ==> chain[i] in cells && cells[chain[i]].next == Next(i))
      && forall i, j :: 0 <= i < j < |chain| ==> chain[i] != chain[j]
    }

    /** No page is in the chain twice, and only the head may be empty. */
    ghost predicate NoDuplicates()
      requires Linked()
    {
      && (forall i, j :: 0 <= i < j < |chain| && cells[chain[i]].pid.Some? ==>
          cells[chain[i]].pid != cells[chain[j]].pid)
      && (forall i :: 0 < i < |chain| ==> cells[chain[i]].pid.Some?)
      && (cells[HEAD].pid.None? ==> cells[HEAD].page.None?)
    }

    /** The chain knows pid, and has the given frame for it. */
    ghost predicate Binds(pid: PID, page: Option<nat>)
      requires Linked()
    {
      exists i :: 0 <= i < |chain| && cells[chain[i]].pid == Some(pid) && cells[chain[i]].page == page
    }

    ghost predicate Absent(pid: PID)
      requires Linked()
    {
      forall i :: 0 <= i < |chain| ==> cells[chain[i]].pid != Some(pid)
    }

    /** Recycled entries are in no chain, and on the free list once. */
    ghost predicate FreeOk() {
      && (forall e :: e in free ==> e in cells && e !in chain && e !in elsewhere)
      && (forall e :: e in free ==> free[e] == 1)
      && forall e :: e in elsewhere ==> e in cells && e !in chain
    }

    /** An entry that was unlinked but is not yet on the free list belongs to the thread that unlinked it. */
    ghost predicate InFlight(t: Tid, e: EntryId) {
      && t in locals
      && ((locals[t].Unlocking? && locals[t].recycled == Some(e)) || (locals[t].Recycling? && locals[t].entry == e))
    }

    ghost predicate FlightsOk() {
      && (forall t, e :: InFlight(t, e) ==> e in cells && e !in chain && e !in free && e !in elsewhere)
      && forall t, u, e :: InFlight(t, e) && InFlight(u, e) ==> t == u
    }

    /** The first at entries do not hold pid. */
    ghost predicate Passed(pid: PID, at: nat)
      requires Linked()
    {
      at <= |chain| && forall i :: 0 <= i < at ==> cells[chain[i]].pid != Some(pid)
    }

    predicate Holds(l: Local) {
      l.Inserting? || l.Removing? || l.Moving? || l.Unlocking?
    }

    /** What a thread knows: a scan knows something only as long as the lock word is the one it started from. */
    ghost predicate LocalOk(l: Local)
      requires Linked()
    {
      match l
      case Scan(purpose, pid, v, cur, at) =>
        && v <= version
        && (Word() == v ==> Passed(pid, at) && cur == if at < |chain| then Some(chain[at]) else None)
      case Seen(purpose, pid, v, entry, at, isMatch, next) =>
        && v <= version
        && (Word() == v ==>
              && Passed(pid, at) && at < |chain| && entry == chain[at]
              && isMatch == (cells[entry].pid == Some(pid)) && next == Next(at))
      case Found(pid, v, entry, at) =>
        v <= version && (Word() == v ==> at < |chain| && entry == chain[at] && cells[entry].pid == Some(pid))
      case Inserting(pid) => Absent(pid)
      case Moving(entry, at) => 0 < at < |chain| && entry == chain[at] && cells[HEAD].pid.None?
      case _ => true
    }

    ghost predicate LocalsOk()
      requires Linked()
    {
      && (forall t :: t in locals ==> LocalOk(locals[t]) && (holder == Some(t) <==> Holds(locals[t])))
      && (holder.Some? ==> holder.value in locals)
    }

    ghost predicate Inv() {
      version < LOCK_BIT && Linked() && NoDuplicates() && FreeOk() && FlightsOk() && LocalsOk()
    }
  }

  // ---------------------------------------------------------------------- steps

  datatype Step =
    | Start(t: Tid, purpose: Purpose, pid: PID)
    | Look(t: Tid)
    | Check(t: Tid)
    | LockInsert(t: Tid)
    | Put(t: Tid, entry: EntryId)
    | LockRemove(t: Tid, pid: PID, seen: nat)
    | Take(t: Tid, at: nat)
    | LockMove(t: Tid)
    | Move(t: Tid, latched: bool)
    | Unlock(t: Tid)
    | Recycle(t: Tid)
    | GiveUp(t: Tid)
    | SetPage(at: nat, page: Option<nat>)
    | OtherTakes(entry: EntryId)
    | OtherGives(entry: EntryId)

  /** Whether thread t can make this step now. */
  ghost predicate Enabled(b: Bucket, step: Step) {
    match step
    case Start(t, purpose, pid) => t in b.locals && b.locals[t].Idle?
    case Look(t) => t in b.locals && b.locals[t].Scan? && b.locals[t].cur.Some? && b.locals[t].cur.value in b.cells
    case Check(t) => t in b.locals && b.locals[t].Seen?
    case LockInsert(t) => t in b.locals && b.locals[t].Scan? && b.locals[t].purpose == Insert && b.locals[t].cur.None?
    case Put(t, entry) =>
      && t in b.locals && b.locals[t].Inserting?
      && (HEAD in b.cells && b.cells[HEAD].pid.Some? ==> entry in b.free || entry !in b.cells)
    case LockRemove(t, pid, seen) => t in b.locals && b.locals[t].Idle? && seen < LOCK_BIT
    case Take(t, at) =>
      && t in b.locals && b.locals[t].Removing? && at <= |b.chain|
      && (forall i :: 0 <= i < at ==> b.chain[i] in b.cells && b.cells[b.chain[i]].pid != Some(b.locals[t].pid))
      && (at < |b.chain| ==> b.chain[at] in b.cells && b.cells[b.chain[at]].pid == Some(b.locals[t].pid))
    case LockMove(t) => t in b.locals && b.locals[t].Found?
    case Move(t, latched) => t in b.locals && b.locals[t].Moving? && 0 < b.locals[t].at < |b.chain|
    case Unlock(t) => t in b.locals && b.locals[t].Unlocking? && b.version + 1 < LOCK_BIT
    case Recycle(t) => t in b.locals && b.locals[t].Recycling?
    case GiveUp(t) => t in b.locals && !b.Holds(b.locals[t]) && !b.locals[t].Recycling?
    case SetPage(at, page) => at < |b.chain| && b.chain[at] in b.cells && b.cells[b.chain[at]].pid.Some?
    case OtherTakes(entry) => entry in b.free
    case OtherGives(entry) => entry in b.elsewhere
  }

  function At(b: Bucket, t: Tid, l: Local): Bucket { b.(locals := b.locals[t := l]) }

  /** The chain without the entry at position at, its predecessor linked past it. */
  function Unlinked(b: Bucket, at: nat): Bucket
    requires 0 < at < |b.chain| && b.chain[at - 1] in b.cells
  {
    var prev := b.chain[at - 1];
    b.(cells := b.cells[prev := b.cells[prev].(next := b.Next(at))], chain := b.chain[..at] + b.chain[at + 1..])
  }

  /** One round of a scan: go on from the next entry, or stop at a match, or start over if the lock word has changed. */
  function Checked(b: Bucket, t: Tid): Bucket
    requires t in b.locals && b.locals[t].Seen?
  {
    var l := b.locals[t];
    if b.Word() != l.v then At(b, t, Idle)
    else if l.isMatch then At(b, t, if l.purpose == Insert then Refused(l.pid) else Found(l.pid, l.v, l.entry, l.at))
    else if l.next == None && l.purpose == Access then At(b, t, Missed(l.pid))
    else At(b, t, Scan(l.purpose, l.pid, l.v, l.next, l.at + 1))
  }

  /** The page goes into the head if that is empty, else into an entry right behind it. */
  ghost function Put(b: Bucket, t: Tid, entry: EntryId): Bucket
    requires b.Linked() && t in b.locals && b.locals[t].Inserting?
  {
    var pid := b.locals[t].pid;
    if b.cells[b.chain[0]].pid.None? then
      At(b, t, Unlocking(None)).(cells := b.cells[HEAD := b.cells[b.chain[0]].(pid := Some(pid))])
    else
      At(b, t, Unlocking(None)).(
        cells := b.cells[entry := Cell(Some(pid), None, b.Next(0))][HEAD := b.cells[b.chain[0]].(next := Some(entry))],
        chain := [HEAD, entry] + b.chain[1..],
        free := b.free - multiset{entry})
  }

  /** The page found at position at goes: the head becomes empty, any other entry is unlinked. */
  ghost function Take(b: Bucket, t: Tid, at: nat): Bucket
    requires b.Linked() && t in b.locals && at <= |b.chain|
  {
    if at == |b.chain| then At(b, t, Unlocking(None))
    else if at == 0 then At(b, t, Unlocking(None)).(cells := b.cells[HEAD := Cell(None, None, b.Next(0))])
    else
      var e := b.chain[at];
      var u := Unlinked(b, at);
      At(u, t, Unlocking(Some(e))).(cells := u.cells[e := Cell(None, None, b.Next(at))])
  }

  /** The contents of the entry at position at move to the empty head, the entry is unlinked and recycled. */
  ghost function MoveToHead(b: Bucket, t: Tid, at: nat): Bucket
    requires b.Linked() && t in b.locals && 0 < at < |b.chain|
  {
    var e := b.chain[at];
    var u := Unlinked(b, at);
    At(u, t, Unlocking(None)).(
      cells := u.cells[e := Cell(None, None, b.Next(at))]
                      [HEAD := Cell(b.cells[e].pid, b.cells[e].page, u.cells[b.chain[0]].next)],
      free := b.free + multiset{e})
  }

  /** The latch holder of a page sets its frame. */
  function PageSet(b: Bucket, at: nat, page: Option<nat>): Bucket
    requires at < |b.chain| && b.chain[at] in b.cells
  {
    b.(cells := b.cells[b.chain[at] := b.cells[b.chain[at]].(page := page)])
  }

  ghost function Apply(b: Bucket, step: Step): Bucket
    requires b.Linked() && Enabled(b, step)
  {
    match step
    case Start(t, purpose, pid) =>
      if b.holder.Some? then b else At(b, t, Scan(purpose, pid, b.version, Some(HEAD), 0))
    case Look(t) =>
      var l := b.locals[t];
      var cell := b.cells[l.cur.value];
      At(b, t, Seen(l.purpose, l.pid, l.v, l.cur.value, l.at, cell.pid == Some(l.pid), cell.next))
    case Check(t) => Checked(b, t)
    case LockInsert(t) =>
      var l := b.locals[t];
      if b.Word() == l.v then At(b, t, Inserting(l.pid)).(holder := Some(t)) else At(b, t, Idle)
    case Put(t, entry) => Put(b, t, entry)
    case LockRemove(t, pid, seen) =>
      if b.Word() == seen then At(b, t, Removing(pid)).(holder := Some(t)) else b
    case Take(t, at) => Take(b, t, at)
    case LockMove(t) =>
      var l := b.locals[t];
      if b.Word() == l.v && b.cells[b.chain[0]].pid.None? then At(b, t, Moving(l.entry, l.at)).(holder := Some(t))
      else At(b, t, Idle)
    case Move(t, latched) => if latched then MoveToHead(b, t, b.locals[t].at) else At(b, t, Unlocking(None))
    case Unlock(t) =>
      var next := match b.locals[t].recycled case None => Idle case Some(e) => Recycling(e);
      At(b, t, next).(holder := None, version := b.version + 1)
    case Recycle(t) => At(b, t, Idle).(free := b.free + multiset{b.locals[t].entry})
    case GiveUp(t) => At(b, t, Idle)
    case SetPage(at, page) => PageSet(b, at, page)
    case OtherTakes(entry) => b.(free := b.free - multiset{entry}, elsewhere := b.elsewhere + {entry})
    case OtherGives(entry) => b.(free := b.free + multiset{entry}, elsewhere := b.elsewhere - {entry})
  }

  // ---------------------------------------------------------------------- the invariant

  /** r differs from b in what thread t knows, and perhaps in who holds the lock. */
  ghost predicate OnlyLocal(b: Bucket, r: Bucket, t: Tid) {
    && t in b.locals && t in r.locals && r.locals == b.locals[t := r.locals[t]]
    && r.cells == b.cells && r.chain == b.chain && r.free == b.free && r.elsewhere == b.elsewhere
        && r.version == b.version
    && (r.holder == b.holder || (b.holder.None? && r.holder == Some(t)))
  }

  /** A thread that learns something, or takes the lock, spoils nothing. */
  lemma {:induction false} LocalStepInv(b: Bucket, r: Bucket, t: Tid)
    requires b.Inv() && OnlyLocal(b, r, t) && !r.locals[t].Unlocking? && !r.locals[t].Recycling?
    requires !b.locals[t].Unlocking? && !b.locals[t].Recycling?
    requires r.Linked() && r.LocalOk(r.locals[t]) && (r.holder == Some(t) <==> r.Holds(r.locals[t]))
    ensures r.Inv()
  {
    hide Bucket.NoDuplicates, Bucket.Linked;
    assert r.NoDuplicates() by { SameChain(b, r); }
    assert forall u, e :: r.InFlight(u, e) <==> b.InFlight(u, e);
    forall u | u in r.locals
      ensures r.LocalOk(r.locals[u]) && (r.holder == Some(u) <==> r.Holds(r.locals[u]))
    {
      if u != t { StillKnown(b, r, b.locals[u]); }
    }
  }

  lemma {:induction false} SameChain(b: Bucket, r: Bucket)
    requires b.Linked() && r.cells == b.cells && r.chain == b.chain
    ensures r.Linked() && (b.NoDuplicates() <==> r.NoDuplicates())
    ensures forall p: PID, g: Option<nat> :: r.Binds(p, g) <==> b.Binds(p, g)
    ensures forall p: PID :: r.Absent(p) <==> b.Absent(p)
  {
  }

  /** What another thread knows survives: either nothing has changed, or the lock word is not the one it has seen. */
  lemma {:induction false} StillKnown(b: Bucket, r: Bucket, l: Local)
    requires b.Linked() && r.Linked() && b.LocalOk(l) && b.version < LOCK_BIT && b.version <= r.version
    requires r.cells == b.cells && r.chain == b.chain
    requires r.Word() == b.Word() || (r.holder.Some? && r.version == b.version)
    ensures r.LocalOk(l)
  {
  }

  /** Steps that read, or take the lock. */
  predicate IsLocal(step: Step) {
    step.Start? || step.Look? || step.Check? || step.LockInsert? || step.LockRemove? || step.LockMove? || step.GiveUp?
  }

  /** The thread t has learned something that is true, or has taken the lock. */
  ghost predicate Learns(b: Bucket, r: Bucket, t: Tid) {
    && OnlyLocal(b, r, t) && r.Linked() && r.LocalOk(r.locals[t]) && (r.holder == Some(t) <==> r.Holds(r.locals[t]))
    && !r.locals[t].Unlocking? && !r.locals[t].Recycling? && !b.locals[t].Unlocking? && !b.locals[t].Recycling?
  }

  /** What every step may start from. */
  lemma {:induction false} Facts(b: Bucket, t: Tid)
    requires b.Inv() && t in b.locals
    ensures b.Linked() && b.LocalOk(b.locals[t]) && (b.holder == Some(t) <==> b.Holds(b.locals[t]))
    ensures b.version < LOCK_BIT
    ensures HEAD in b.cells && b.chain[0] == HEAD && |b.chain| > 0
  {
  }

  lemma {:induction false} StartLearns(b: Bucket, t: Tid, purpose: Purpose, pid: PID)
    requires b.Inv() && Enabled(b, Start(t, purpose, pid))
    ensures var r := Apply(b, Start(t, purpose, pid)); r == b || Learns(b, r, t)
  {
    hide Bucket.Inv, Bucket.NoDuplicates, Bucket.Linked, Put, Take, MoveToHead, Checked, PageSet;
    Facts(b, t);
    SameChain(b, Apply(b, Start(t, purpose, pid)));
  }

  lemma {:induction false} LookLearns(b: Bucket, t: Tid)
    requires b.Inv() && Enabled(b, Look(t))
    ensures Learns(b, Apply(b, Look(t)), t)
  {
    hide Bucket.Inv, Bucket.NoDuplicates, Bucket.Linked, Put, Take, MoveToHead, Checked, PageSet;
    Facts(b, t);
    SameChain(b, Apply(b, Look(t)));
    if b.locals[t].at < |b.chain| { LinkedAt(b, b.locals[t].at, b.locals[t].at); }
  }

  lemma {:induction false} GiveUpLearns(b: Bucket, t: Tid)
    requires b.Inv() && Enabled(b, GiveUp(t))
    ensures Learns(b, Apply(b, GiveUp(t)), t)
  {
    hide Bucket.Inv, Bucket.NoDuplicates, Bucket.Linked, Put, Take, MoveToHead, Checked, PageSet;
    Facts(b, t);
    SameChain(b, Apply(b, GiveUp(t)));
  }

  lemma {:induction false} CheckLearns(b: Bucket, t: Tid)
    requires b.Inv() && t in b.locals && b.locals[t].Seen?
    ensures Learns(b, Checked(b, t), t)
  {
    hide Bucket.Inv, Bucket.NoDuplicates, Bucket.Linked;
    Facts(b, t);
    SameChain(b, Checked(b, t));
  }

  lemma {:induction false} CheckIs(b: Bucket, t: Tid)
    requires b.Linked() && Enabled(b, Check(t))
    ensures Apply(b, Check(t)) == Checked(b, t)
  {
  }

  /** The scan was right and nothing has changed: the page is not there when the lock is taken to insert it. */
  lemma {:induction false} LockInsertLearns(b: Bucket, t: Tid)
    requires b.Inv() && Enabled(b, LockInsert(t))
    ensures var r := Apply(b, LockInsert(t)); Learns(b, r, t) && (r.holder == Some(t) ==> b.Absent(b.locals[t].pid))
  {
    hide Bucket.Inv, Bucket.NoDuplicates, Put, Take, MoveToHead;
    Facts(b, t);
    SameChain(b, Apply(b, LockInsert(t)));
  }

  lemma {:induction false} LockRemoveLearns(b: Bucket, t: Tid, pid: PID, seen: nat)
    requires b.Inv() && Enabled(b, LockRemove(t, pid, seen))
    ensures var r := Apply(b, LockRemove(t, pid, seen)); r == b || Learns(b, r, t)
  {
    hide Bucket.Inv, Bucket.NoDuplicates, Put, Take, MoveToHead;
    Facts(b, t);
    SameChain(b, Apply(b, LockRemove(t, pid, seen)));
  }

  lemma {:induction false} LockMoveLearns(b: Bucket, t: Tid)
    requires b.Inv() && Enabled(b, LockMove(t))
    ensures Learns(b, Apply(b, LockMove(t)), t)
  {
    hide Bucket.Inv, Bucket.NoDuplicates, Bucket.Linked, Put, Take, MoveToHead, Checked, PageSet;
    Facts(b, t);
    SameChain(b, Apply(b, LockMove(t)));
  }

  lemma {:induction false} LocalInv(b: Bucket, step: Step)
    requires b.Inv() && Enabled(b, step) && IsLocal(step)
    ensures Apply(b, step).Inv()
  {
    Facts(b, step.t);
    hide Bucket.Inv, Bucket.LocalOk, Apply, Bucket.Linked;
    if step.Check? {
      assert b.locals[step.t].Seen?;
      CheckLearns(b, step.t);
      assert Apply(b, step) == Checked(b, step.t) by { CheckIs(b, step.t); }
    } else if step.LockInsert? {
      LockInsertLearns(b, step.t);
    } else if step.LockRemove? {
      LockRemoveLearns(b, step.t, step.pid, step.seen);
    } else if step.LockMove? {
      LockMoveLearns(b, step.t);
    } else if step.Start? {
      StartLearns(b, step.t, step.purpose, step.pid);
    } else if step.Look? {
      LookLearns(b, step.t);
    } else {
      GiveUpLearns(b, step.t);
    }
    var r := Apply(b, step);
    if r != b { LocalStepInv(b, r, step.t); }
  }

  // ---------------------------------------------------------------------- edits under the lock

  /** While t holds the lock, nobody else knows anything that an edit could spoil. */
  lemma {:induction false} HeldLocals(b: Bucket, r: Bucket, t: Tid)
    requires b.Linked() && b.LocalsOk() && b.version < LOCK_BIT && t in b.locals && b.holder == Some(t)
    requires r.Linked() && r.version == b.version && r.holder == b.holder
    requires t in r.locals && r.locals[t].Unlocking? && r.locals == b.locals[t := r.locals[t]]
    ensures r.LocalsOk()
  {
    hide Bucket.Linked;
    forall u | u in r.locals && u != t
      ensures r.LocalOk(r.locals[u])
    {
      assert b.LocalOk(b.locals[u]) && !b.Holds(b.locals[u]);
    }
  }

  /** The cells and the chain after a page went into the empty head. */
  lemma {:induction false} PutHeadChain(b: Bucket, t: Tid, entry: EntryId)
    requires b.Linked() && t in b.locals && b.locals[t].Inserting? && b.cells[b.chain[0]].pid.None?
    ensures var r := Put(b, t, entry);
      && r.Linked() && r.chain == b.chain
      && r.cells[r.chain[0]].pid == Some(b.locals[t].pid) && r.cells[r.chain[0]].page == b.cells[b.chain[0]].page
      && forall i :: 0 < i < |r.chain| ==> r.cells[r.chain[i]] == b.cells[b.chain[i]]
  {
  }

  /** The cells and the chain after an entry was put behind the head. */
  lemma {:induction false} PutEntryChain(b: Bucket, t: Tid, entry: EntryId)
    requires b.Linked() && t in b.locals && b.locals[t].Inserting? && b.cells[b.chain[0]].pid.Some? && entry !in b.chain
    ensures var r := Put(b, t, entry);
      && r.Linked() && |r.chain| == |b.chain| + 1 && r.chain[1] == entry
      && r.cells[r.chain[1]] == Cell(Some(b.locals[t].pid), None, b.Next(0))
      && r.cells[r.chain[0]].pid == b.cells[b.chain[0]].pid && r.cells[r.chain[0]].page == b.cells[b.chain[0]].page
      && forall i :: 1 < i < |r.chain| ==>
           r.chain[i] == b.chain[i - 1] && r.cells[r.chain[i]] == b.cells[b.chain[i - 1]]
  {
    var r := Put(b, t, entry);
    assert forall i :: 1 < i < |r.chain| ==> r.chain[i] == b.chain[i - 1];
    forall i | 0 <= i < |r.chain|
      ensures r.chain[i] in r.cells && r.cells[r.chain[i]].next == r.Next(i)
    {
      if i > 1 { assert b.cells[b.chain[i - 1]].next == b.Next(i - 1); }
    }
  }

  /** The entry that insert takes is in no chain. */
  lemma {:induction false} PutEntryFresh(b: Bucket, t: Tid, entry: EntryId)
    requires b.Inv() && Enabled(b, Step.Put(t, entry)) && b.cells[b.chain[0]].pid.Some?
    ensures entry !in b.chain
  {
  }

  /** insert adds exactly one binding, for a page that had none. */
  lemma {:induction false} PutBinds(b: Bucket, t: Tid, entry: EntryId)
    requires b.Linked() && b.NoDuplicates() && t in b.locals && b.locals[t].Inserting? && b.Absent(b.locals[t].pid)
    requires b.cells[b.chain[0]].pid.Some? ==> entry !in b.chain
    ensures var r := Put(b, t, entry);
      && r.Linked() && r.NoDuplicates()
      && forall p: PID, g: Option<nat> :: r.Binds(p, g) <==> b.Binds(p, g) || (p == b.locals[t].pid && g == None)
  {
    var r, pid := Put(b, t, entry), b.locals[t].pid;
    if b.cells[b.chain[0]].pid.None? {
      PutHeadChain(b, t, entry);
      hide Put, Bucket.Linked;
      assert r.cells[r.chain[0]].page == None && b.cells[HEAD].page == None && FilledHead(b, r, pid);
      hide Bucket.NoDuplicates, Bucket.Binds, Bucket.Absent, FilledHead;
      FilledHeadNoDuplicates(b, r, pid);
      forall p: PID, g: Option<nat>
        ensures r.Binds(p, g) <==> b.Binds(p, g) || (p == pid && g == None)
      {
        FilledHeadBinds(b, r, pid, p, g);
      }
    } else {
      PutEntryChain(b, t, entry);
      hide Put, Bucket.Linked, Bucket.NoDuplicates, Bucket.Binds, Bucket.Absent;
      EntryAddedNoDuplicates(b, r, pid);
      forall p: PID, g: Option<nat>
        ensures r.Binds(p, g) <==> b.Binds(p, g) || (p == pid && g == None)
      {
        EntryAddedBinds(b, r, pid, p, g);
      }
    }
  }

  /** r is b with pid in the head, which was empty. */
  ghost predicate FilledHead(b: Bucket, r: Bucket, pid: PID)
    requires b.Linked() && r.Linked()
  {
    && r.chain == b.chain && b.cells[b.chain[0]].pid.None? && r.cells[r.chain[0]].pid == Some(pid)
        && r.cells[r.chain[0]].page == None
    && forall i :: 0 < i < |r.chain| ==> r.cells[r.chain[i]] == b.cells[b.chain[i]]
  }

  lemma {:induction false} FilledHeadNoDuplicates(b: Bucket, r: Bucket, pid: PID)
    requires b.Linked() && r.Linked() && b.NoDuplicates() && b.Absent(pid) && FilledHead(b, r, pid)
    ensures r.NoDuplicates()
  {
    assert r.chain[0] == HEAD;
    hide Bucket.Linked;
  }

  lemma {:induction false} FilledHeadBinds(b: Bucket, r: Bucket, pid: PID, p: PID, g: Option<nat>)
    requires b.Linked() && r.Linked() && b.NoDuplicates() && FilledHead(b, r, pid)
    ensures r.Binds(p, g) <==> b.Binds(p, g) || (p == pid && g == None)
  {
    hide Bucket.Linked, Bucket.NoDuplicates;
    InCells(b);
    InCells(r);
    if b.Binds(p, g) {
      var i :| 0 <= i < |b.chain| && b.cells[b.chain[i]].pid == Some(p) && b.cells[b.chain[i]].page == g;
      assert r.cells[r.chain[i]].pid == Some(p);
    }
    if p == pid && g == None { assert r.cells[r.chain[0]].pid == Some(p) && r.cells[r.chain[0]].page == g; }
    if r.Binds(p, g) {
      var j :| 0 <= j < |r.chain| && r.cells[r.chain[j]].pid == Some(p) && r.cells[r.chain[j]].page == g;
      if j > 0 { assert b.cells[b.chain[j]].pid == Some(p) && b.cells[b.chain[j]].page == g; }
    }
  }

  /** r is b with an entry for pid behind the head. */
  ghost predicate EntryAdded(b: Bucket, r: Bucket, pid: PID)
    requires b.Linked() && r.Linked()
  {
    && |r.chain| == |b.chain| + 1 && r.cells[r.chain[1]].pid == Some(pid) && r.cells[r.chain[1]].page == None
    && r.cells[r.chain[0]].pid == b.cells[b.chain[0]].pid && r.cells[r.chain[0]].page == b.cells[b.chain[0]].page
    && forall i :: 1 < i < |r.chain| ==> r.cells[r.chain[i]] == b.cells[b.chain[i - 1]]
  }

  lemma {:induction false} EntryAddedNoDuplicates(b: Bucket, r: Bucket, pid: PID)
    requires b.Linked() && r.Linked() && b.NoDuplicates() && b.Absent(pid) && EntryAdded(b, r, pid)
    ensures r.NoDuplicates()
  {
    assert r.chain[0] == HEAD == b.chain[0];
    hide Bucket.Linked;
  }

  lemma {:induction false} EntryAddedBinds(b: Bucket, r: Bucket, pid: PID, p: PID, g: Option<nat>)
    requires b.Linked() && r.Linked() && EntryAdded(b, r, pid)
    ensures r.Binds(p, g) <==> b.Binds(p, g) || (p == pid && g == None)
  {
    hide Bucket.Linked;
    InCells(b);
    InCells(r);
    if b.Binds(p, g) {
      var i :| 0 <= i < |b.chain| && b.cells[b.chain[i]].pid == Some(p) && b.cells[b.chain[i]].page == g;
      var j := if i == 0 then 0 else i + 1;
      assert r.cells[r.chain[j]].pid == Some(p) && r.cells[r.chain[j]].page == g;
    }
    if p == pid && g == None { assert r.cells[r.chain[1]].pid == Some(p) && r.cells[r.chain[1]].page == g; }
    if r.Binds(p, g) {
      var j :| 0 <= j < |r.chain| && r.cells[r.chain[j]].pid == Some(p) && r.cells[r.chain[j]].page == g;
      if j != 1 {
        var i := if j == 0 then 0 else j - 1;
        assert b.cells[b.chain[i]].pid == Some(p) && b.cells[b.chain[i]].page == g;
      }
    }
  }

  lemma {:induction false} PutInv(b: Bucket, t: Tid, entry: EntryId)
    requires b.Inv() && Enabled(b, Step.Put(t, entry))
    ensures Put(b, t, entry).Inv()
  {
    var r := Put(b, t, entry);
    Facts(b, t);
    if b.cells[b.chain[0]].pid.Some? { PutEntryFresh(b, t, entry); }
    PutBinds(b, t, entry);
    HeldLocals(b, r, t);
    PutFree(b, t, entry);
    hide Bucket.Linked, Bucket.NoDuplicates, Bucket.FreeOk, Bucket.FlightsOk, Bucket.LocalsOk;
  }

  lemma {:induction false} PutFree(b: Bucket, t: Tid, entry: EntryId)
    requires b.Inv() && Enabled(b, Step.Put(t, entry))
    ensures var r := Put(b, t, entry); r.FreeOk() && r.FlightsOk()
  {
    hide Bucket.LocalsOk, Bucket.NoDuplicates;
    var r := Put(b, t, entry);
    assert forall u, e :: r.InFlight(u, e) <==> b.InFlight(u, e);
    if b.cells[b.chain[0]].pid.Some? {
      assert forall e :: e in r.chain ==> e in b.chain || e == entry;
    }
    hide Put, Bucket.Linked, Bucket.InFlight;
    FreeAfterPut(b, r, entry);
  }

  /** The lists of free entries after entry has left them, if it was on them. */
  lemma {:induction false} FreeAfterPut(b: Bucket, r: Bucket, entry: EntryId)
    requires b.FreeOk() && b.FlightsOk()
    requires (forall e :: e in r.chain ==> e in b.chain || e == entry) && (forall e :: e in b.cells ==> e in r.cells)
    requires r.elsewhere == b.elsewhere && forall u, e :: r.InFlight(u, e) <==> b.InFlight(u, e)
    requires
      || (r.chain == b.chain && r.free == b.free)
      || (r.free == b.free - multiset{entry} && (entry in b.free || entry !in b.cells))
    ensures r.FreeOk() && r.FlightsOk()
  {
    hide Bucket.InFlight;
  }

  /** Position i of a chain from which position at was removed, in the old chain. */
  function Was(i: nat, at: nat): nat { if i < at then i else i + 1 }

  lemma {:induction false} WithoutOne(s: seq<EntryId>, at: nat)
    requires at < |s| && forall i, j :: 0 <= i < j < |s| ==> s[i] != s[j]
    ensures var c := s[..at] + s[at + 1..];
      && |c| + 1 == |s| && s[at] !in c
      && (forall i :: 0 <= i < |c| ==> c[i] == s[Was(i, at)])
      && forall i, j :: 0 <= i < j < |c| ==> c[i] != c[j]
  {
    var c := s[..at] + s[at + 1..];
    forall i | 0 <= i < |c|
      ensures c[i] == s[Was(i, at)] && c[i] != s[at]
    {
    }
    forall i, j | 0 <= i < j < |c|
      ensures c[i] != c[j]
    {
      assert Was(i, at) < Was(j, at);
    }
  }

  lemma {:induction false} UnlinkedIndices(b: Bucket, at: nat)
    requires b.Linked() && 0 < at < |b.chain|
    ensures var c := Unlinked(b, at).chain;
      && |c| + 1 == |b.chain| && c[0] == HEAD && b.chain[at] !in c
      && (forall i :: 0 <= i < |c| ==> c[i] == b.chain[Was(i, at)])
      && forall i, j :: 0 <= i < j < |c| ==> c[i] != c[j]
  {
    WithoutOne(b.chain, at);
  }

  lemma {:induction false} InCells(b: Bucket)
    requires b.Linked()
    ensures |b.chain| > 0 && b.chain[0] == HEAD && forall i :: 0 <= i < |b.chain| ==> b.chain[i] in b.cells
  {
  }

  lemma {:induction false} OnlyOnce(b: Bucket, at: nat, pid: PID)
    requires b.Linked() && b.NoDuplicates() && at < |b.chain| && b.cells[b.chain[at]].pid == Some(pid)
    ensures forall i :: 0 <= i < |b.chain| && i != at ==> b.cells[b.chain[i]].pid != Some(pid)
  {
  }

  lemma {:induction false} LinkedAt(b: Bucket, k: nat, m: nat)
    requires b.Linked() && k < |b.chain| && m < |b.chain|
    ensures b.chain[k] in b.cells && b.cells[b.chain[k]].next == b.Next(k)
    ensures b.chain[m] in b.cells && (b.chain[k] == b.chain[m] <==> k == m)
  {
  }

  lemma {:induction false} UnlinkedCell(b: Bucket, at: nat, i: nat)
    requires b.Linked() && 0 < at < |b.chain| && i + 1 < |b.chain|
    ensures b.chain[at - 1] in b.cells && b.chain[Was(i, at)] in b.cells
    ensures var r := Unlinked(b, at);
      && i < |r.chain| && r.chain[i] == b.chain[Was(i, at)] && r.chain[i] in r.cells
      && r.cells[r.chain[i]].next == r.Next(i)
      && r.cells[r.chain[i]].pid == b.cells[b.chain[Was(i, at)]].pid
      && r.cells[r.chain[i]].page == b.cells[b.chain[Was(i, at)]].page
  {
    hide Bucket.Linked;
    LinkedAt(b, Was(i, at), at - 1);
    var c := b.chain[..at] + b.chain[at + 1..];
    assert c[i] == b.chain[Was(i, at)] && (i + 1 < |c| ==> c[i + 1] == b.chain[Was(i + 1, at)]);
  }

  /** A chain without the entry at position at. */
  lemma {:induction false} UnlinkedChain(b: Bucket, at: nat)
    requires b.Linked() && 0 < at < |b.chain|
    ensures var r := Unlinked(b, at);
      && r.Linked() && |r.chain| + 1 == |b.chain| && b.chain[at] !in r.chain
      && forall i :: 0 <= i < |r.chain| ==>
           && r.chain[i] == b.chain[Was(i, at)]
           && r.cells[r.chain[i]].pid == b.cells[b.chain[Was(i, at)]].pid
           && r.cells[r.chain[i]].page == b.cells[b.chain[Was(i, at)]].page
  {
    var r := Unlinked(b, at);
    UnlinkedIndices(b, at);
    assert |r.chain| + 1 == |b.chain|;
    hide Unlinked;
    forall i | 0 <= i < |r.chain|
      ensures r.chain[i] in r.cells && r.cells[r.chain[i]].next == r.Next(i)
      ensures r.cells[r.chain[i]].pid == b.cells[b.chain[Was(i, at)]].pid
      ensures r.cells[r.chain[i]].page == b.cells[b.chain[Was(i, at)]].page
    {
      UnlinkedCell(b, at, i);
    }
  }

  /** Changing a cell outside the chain changes nothing about the chain. */
  lemma {:induction false} OffChain(b: Bucket, r: Bucket, e: EntryId)
    requires b.Linked() && r.chain == b.chain && e !in b.chain
    requires forall x :: x in b.cells && x != e ==> x in r.cells && r.cells[x] == b.cells[x]
    ensures r.Linked() && forall i :: 0 <= i < |r.chain| ==> r.cells[r.chain[i]] == b.cells[b.chain[i]]
  {
  }

  /** r's chain has b's entries but the one at position at. */
  ghost predicate Lost(b: Bucket, r: Bucket, at: nat)
    requires b.Linked() && r.Linked()
  {
    && 0 < at < |b.chain| && |r.chain| + 1 == |b.chain|
    && forall i :: 0 <= i < |r.chain| ==>
         r.cells[r.chain[i]].pid == b.cells[b.chain[Was(i, at)]].pid
             && r.cells[r.chain[i]].page == b.cells[b.chain[Was(i, at)]].page
  }

  lemma {:induction false} LostNoDuplicates(b: Bucket, r: Bucket, at: nat)
    requires b.Linked() && r.Linked() && b.NoDuplicates() && Lost(b, r, at)
    ensures r.NoDuplicates()
  {
    assert r.chain[0] == HEAD == b.chain[0] && Was(0, at) == 0;
    hide Bucket.Linked;
  }

  /** A chain that lost one entry has lost one binding. */
  lemma {:induction false} LostBinds(b: Bucket, r: Bucket, at: nat, pid: PID, p: PID, g: Option<nat>)
    requires b.Linked() && r.Linked() && b.NoDuplicates() && Lost(b, r, at) && b.cells[b.chain[at]].pid == Some(pid)
    ensures r.Binds(p, g) <==> b.Binds(p, g) && p != pid
  {
    hide Bucket.Linked, Bucket.NoDuplicates;
    InCells(b);
    InCells(r);
    OnlyOnce(b, at, pid);
    if b.Binds(p, g) && p != pid {
      var i :| 0 <= i < |b.chain| && b.cells[b.chain[i]].pid == Some(p) && b.cells[b.chain[i]].page == g;
      var j := if i < at then i else i - 1;
      assert Was(j, at) == i && r.cells[r.chain[j]].pid == Some(p) && r.cells[r.chain[j]].page == g;
    }
    if r.Binds(p, g) {
      var j :| 0 <= j < |r.chain| && r.cells[r.chain[j]].pid == Some(p) && r.cells[r.chain[j]].page == g;
      assert b.cells[b.chain[Was(j, at)]].pid == Some(p) && b.cells[b.chain[Was(j, at)]].page == g;
    }
  }

  lemma {:induction false} TakeEntryChain(b: Bucket, t: Tid, at: nat)
    requires b.Linked() && t in b.locals && 0 < at < |b.chain|
    ensures var r := Take(b, t, at);
      && r.Linked() && |r.chain| + 1 == |b.chain| && b.chain[at] !in r.chain
      && forall i :: 0 <= i < |r.chain| ==>
           && r.chain[i] == b.chain[Was(i, at)]
           && r.cells[r.chain[i]].pid == b.cells[b.chain[Was(i, at)]].pid
           && r.cells[r.chain[i]].page == b.cells[b.chain[Was(i, at)]].page
  {
    var u, r := Unlinked(b, at), Take(b, t, at);
    UnlinkedChain(b, at);
    hide Unlinked;
    OffChain(u, r, b.chain[at]);
  }

  /** The head is emptied. */
  lemma {:induction false} TakeHeadChain(b: Bucket, t: Tid)
    requires b.Linked() && t in b.locals
    ensures var r := Take(b, t, 0);
      && r.Linked() && r.chain == b.chain && r.chain[0] == HEAD && r.cells[HEAD] == Cell(None, None, b.Next(0))
      && forall i :: 0 < i < |b.chain| ==> r.cells[r.chain[i]] == b.cells[b.chain[i]]
  {
  }

  lemma {:induction false} EmptyHeadBinds(b: Bucket, r: Bucket, pid: PID, p: PID, g: Option<nat>)
    requires b.Linked() && r.Linked() && b.NoDuplicates() && r.chain == b.chain && b.cells[b.chain[0]].pid == Some(pid)
    requires r.cells[r.chain[0]].pid == None && r.cells[r.chain[0]].page == None
    requires forall i :: 0 < i < |b.chain| ==> r.cells[r.chain[i]] == b.cells[b.chain[i]]
    ensures r.Binds(p, g) <==> b.Binds(p, g) && p != pid
  {
    hide Bucket.Linked, Bucket.NoDuplicates;
    InCells(b);
    InCells(r);
    OnlyOnce(b, 0, pid);
    if b.Binds(p, g) && p != pid {
      var i :| 0 <= i < |b.chain| && b.cells[b.chain[i]].pid == Some(p) && b.cells[b.chain[i]].page == g;
      assert r.cells[r.chain[i]].pid == Some(p) && r.cells[r.chain[i]].page == g;
    }
    if r.Binds(p, g) {
      var j :| 0 <= j < |r.chain| && r.cells[r.chain[j]].pid == Some(p) && r.cells[r.chain[j]].page == g;
      assert b.cells[b.chain[j]].pid == Some(p) && b.cells[b.chain[j]].page == g;
    }
  }

  lemma {:induction false} EmptyHeadNoDuplicates(b: Bucket, r: Bucket)
    requires b.Linked() && r.Linked() && b.NoDuplicates() && r.chain == b.chain && r.chain[0] == HEAD
    requires r.cells[r.chain[0]].pid == None && r.cells[r.chain[0]].page == None
    requires forall i :: 0 < i < |b.chain| ==> r.cells[r.chain[i]] == b.cells[b.chain[i]]
    ensures r.NoDuplicates()
  {
    hide Bucket.Linked;
  }

  /** remove takes away exactly the page's binding, if it has one. */
  lemma {:induction false} TakeBinds(b: Bucket, t: Tid, at: nat)
    requires b.Linked() && b.NoDuplicates() && Enabled(b, Step.Take(t, at))
    ensures var r := Take(b, t, at); r.Linked() && r.NoDuplicates()
    ensures var r, pid := Take(b, t, at), b.locals[t].pid;
      forall p: PID, g: Option<nat> :: r.Binds(p, g) <==> b.Binds(p, g) && p != pid
  {
    var r, pid := Take(b, t, at), b.locals[t].pid;
    if at == |b.chain| {
      SameChain(b, r);
      assert b.Absent(pid);
    } else if at == 0 {
      TakeHeadChain(b, t);
      hide Take, Bucket.Linked, Bucket.NoDuplicates, Bucket.Binds;
      EmptyHeadNoDuplicates(b, r);
      forall p: PID, g: Option<nat>
        ensures r.Binds(p, g) <==> b.Binds(p, g) && p != pid
      {
        EmptyHeadBinds(b, r, pid, p, g);
      }
    } else {
      TakeEntryChain(b, t, at);
      hide Take, Bucket.Linked, Bucket.NoDuplicates, Bucket.Binds;
      LostNoDuplicates(b, r, at);
      forall p: PID, g: Option<nat>
        ensures r.Binds(p, g) <==> b.Binds(p, g) && p != pid
      {
        LostBinds(b, r, at, pid, p, g);
      }
    }
  }

  /** The free entries after e has left the chain: either it is in flight with t, or on the free list already. */
  lemma {:induction false} FreeAfterDrop(b: Bucket, r: Bucket, e: EntryId, t: Tid)
    requires b.FreeOk() && b.FlightsOk() && e in b.chain && e in b.cells && e !in r.chain && r.elsewhere == b.elsewhere
    requires (forall x :: x in r.chain ==> x in b.chain) && (forall x :: x in b.cells ==> x in r.cells)
    requires
      || (r.free == b.free && forall u, x :: r.InFlight(u, x) <==> b.InFlight(u, x) || (u == t && x == e))
      || (r.free == b.free + multiset{e} && forall u, x :: r.InFlight(u, x) <==> b.InFlight(u, x))
    ensures r.FreeOk() && r.FlightsOk()
  {
    hide Bucket.InFlight;
  }

  lemma {:induction false} TakeFree(b: Bucket, t: Tid, at: nat)
    requires b.Inv() && Enabled(b, Step.Take(t, at))
    ensures var r := Take(b, t, at); r.FreeOk() && r.FlightsOk()
  {
    hide Bucket.LocalsOk, Bucket.NoDuplicates, Bucket.FreeOk, Bucket.FlightsOk;
    var r := Take(b, t, at);
    if 0 < at < |b.chain| {
      TakeEntryChain(b, t, at);
      assert forall u, e :: r.InFlight(u, e) <==> b.InFlight(u, e) || (u == t && e == b.chain[at]);
      assert forall e :: e in b.cells ==> e in r.cells;
      hide Take, Unlinked, Bucket.InFlight;
      FreeAfterDrop(b, r, b.chain[at], t);
    } else {
      assert r.chain == b.chain && forall u, e :: r.InFlight(u, e) <==> b.InFlight(u, e);
      assert forall e :: e in b.cells ==> e in r.cells;
      assert r.free == b.free && r.elsewhere == b.elsewhere;
      hide Take, Bucket.Linked, Bucket.InFlight;
      SameFree(b, r);
    }
  }

  lemma {:induction false} SameFree(b: Bucket, r: Bucket)
    requires b.FreeOk() && b.FlightsOk() && r.chain == b.chain && r.free == b.free && r.elsewhere == b.elsewhere
    requires (forall x :: x in b.cells ==> x in r.cells) && forall u, x :: r.InFlight(u, x) ==> b.InFlight(u, x)
    ensures r.FreeOk() && r.FlightsOk()
  {
    hide Bucket.InFlight;
  }

  lemma {:induction false} TakeInv(b: Bucket, t: Tid, at: nat)
    requires b.Inv() && Enabled(b, Step.Take(t, at))
    ensures Take(b, t, at).Inv()
  {
    var r := Take(b, t, at);
    Facts(b, t);
    TakeBinds(b, t, at);
    HeldLocals(b, r, t);
    TakeFree(b, t, at);
    hide Bucket.Linked, Bucket.NoDuplicates, Bucket.FreeOk, Bucket.FlightsOk, Bucket.LocalsOk;
  }

  // ---------------------------------------------------------------------- moving to the head

  /** Changing what the head holds, but not its link, changes nothing else about the chain. */
  lemma {:induction false} HeadChanged(b: Bucket, r: Bucket)
    requires b.Linked() && r.chain == b.chain && HEAD in r.cells && r.cells[HEAD].next == b.cells[b.chain[0]].next
    requires forall x :: x in b.cells && x != HEAD ==> x in r.cells && r.cells[x] == b.cells[x]
    ensures r.Linked() && r.chain[0] == HEAD
    ensures forall i :: 0 < i < |r.chain| ==> r.cells[r.chain[i]] == b.cells[b.chain[i]]
  {
  }

  lemma {:induction false} MoveChain(b: Bucket, t: Tid, at: nat)
    requires b.Linked() && t in b.locals && 0 < at < |b.chain|
    ensures var r := MoveToHead(b, t, at);
      && r.Linked() && |r.chain| + 1 == |b.chain| && b.chain[at] !in r.chain && r.chain[0] == HEAD
      && r.cells[r.chain[0]].pid == b.cells[b.chain[at]].pid && r.cells[r.chain[0]].page == b.cells[b.chain[at]].page
      && (forall i :: 0 <= i < |r.chain| ==> r.chain[i] == b.chain[Was(i, at)])
      && forall i :: 0 < i < |r.chain| ==>
           && r.cells[r.chain[i]].pid == b.cells[b.chain[Was(i, at)]].pid
           && r.cells[r.chain[i]].page == b.cells[b.chain[Was(i, at)]].page
  {
    var u, e := Unlinked(b, at), b.chain[at];
    UnlinkedChain(b, at);
    assert e != HEAD && b.chain[0] == HEAD && e in b.cells;
    var v := u.(cells := u.cells[e := Cell(None, None, b.Next(at))]);
    hide Unlinked, Bucket.Linked;
    OffChain(u, v, e);
    var r := MoveToHead(b, t, at);
    assert u.chain[0] == HEAD && r.chain == v.chain && r.cells[HEAD].next == u.cells[HEAD].next;
    HeadChanged(v, r);
  }

  /** Moving an entry's contents to the empty head changes no binding. */
  lemma {:induction false} MovedBinds(b: Bucket, r: Bucket, at: nat, p: PID, g: Option<nat>)
    requires b.Linked() && r.Linked() && 0 < at < |b.chain| && |r.chain| + 1 == |b.chain|
    requires b.cells[b.chain[0]].pid.None?
    requires r.cells[r.chain[0]].pid == b.cells[b.chain[at]].pid
    requires r.cells[r.chain[0]].page == b.cells[b.chain[at]].page
    requires forall i :: 0 < i < |r.chain| ==>
      r.cells[r.chain[i]].pid == b.cells[b.chain[Was(i, at)]].pid
          && r.cells[r.chain[i]].page == b.cells[b.chain[Was(i, at)]].page
    ensures r.Binds(p, g) <==> b.Binds(p, g)
  {
    hide Bucket.Linked;
    InCells(b);
    InCells(r);
    if b.Binds(p, g) {
      var i :| 0 <= i < |b.chain| && b.cells[b.chain[i]].pid == Some(p) && b.cells[b.chain[i]].page == g;
      var j := if i == at then 0 else if i < at then i else i - 1;
      assert i != 0 && (j == 0 || Was(j, at) == i);
      assert r.cells[r.chain[j]].pid == Some(p) && r.cells[r.chain[j]].page == g;
    }
    if r.Binds(p, g) {
      var j :| 0 <= j < |r.chain| && r.cells[r.chain[j]].pid == Some(p) && r.cells[r.chain[j]].page == g;
      var i := if j == 0 then at else Was(j, at);
      assert b.cells[b.chain[i]].pid == Some(p) && b.cells[b.chain[i]].page == g;
    }
  }

  lemma {:induction false} MovedNoDuplicates(b: Bucket, r: Bucket, at: nat)
    requires b.Linked() && r.Linked() && b.NoDuplicates() && 0 < at < |b.chain| && |r.chain| + 1 == |b.chain|
    requires r.chain[0] == HEAD
    requires r.cells[r.chain[0]].pid == b.cells[b.chain[at]].pid
    requires r.cells[r.chain[0]].page == b.cells[b.chain[at]].page
    requires forall i :: 0 < i < |r.chain| ==> r.cells[r.chain[i]].pid == b.cells[b.chain[Was(i, at)]].pid
    ensures r.NoDuplicates()
  {
    assert b.cells[b.chain[at]].pid.Some?;
    hide Bucket.Linked;
    forall i, j | 0 <= i < j < |r.chain| && r.cells[r.chain[i]].pid.Some?
      ensures r.cells[r.chain[i]].pid != r.cells[r.chain[j]].pid
    {
      var i', j' := if i == 0 then at else Was(i, at), Was(j, at);
      assert i' != j' && b.cells[b.chain[i']].pid != b.cells[b.chain[j']].pid;
    }
  }

  lemma {:induction false} MoveBinds(b: Bucket, t: Tid, at: nat)
    requires b.Linked() && b.NoDuplicates() && t in b.locals && 0 < at < |b.chain| && b.cells[b.chain[0]].pid.None?
    ensures var r := MoveToHead(b, t, at);
      r.Linked() && r.NoDuplicates() && forall p: PID, g: Option<nat> :: r.Binds(p, g) <==> b.Binds(p, g)
  {
    var r := MoveToHead(b, t, at);
    MoveChain(b, t, at);
    hide MoveToHead, Bucket.Linked, Bucket.NoDuplicates, Bucket.Binds;
    MovedNoDuplicates(b, r, at);
    forall p: PID, g: Option<nat>
      ensures r.Binds(p, g) <==> b.Binds(p, g)
    {
      MovedBinds(b, r, at, p, g);
    }
  }

  lemma {:induction false} MoveFree(b: Bucket, t: Tid, at: nat)
    requires b.Inv() && t in b.locals && b.locals[t].Moving? && 0 < at < |b.chain|
    ensures var r := MoveToHead(b, t, at); r.FreeOk() && r.FlightsOk()
  {
    hide Bucket.LocalsOk, Bucket.NoDuplicates, Bucket.FreeOk, Bucket.FlightsOk;
    var r := MoveToHead(b, t, at);
    MoveChain(b, t, at);
    assert forall u, e :: r.InFlight(u, e) <==> b.InFlight(u, e);
    assert forall e :: e in b.cells ==> e in r.cells;
    assert r.free == b.free + multiset{b.chain[at]};
    hide MoveToHead, Unlinked, Bucket.InFlight;
    FreeAfterDrop(b, r, b.chain[at], t);
  }

  lemma {:induction false} MoveInv(b: Bucket, t: Tid)
    requires b.Inv() && Enabled(b, Step.Move(t, true))
    ensures MoveToHead(b, t, b.locals[t].at).Inv()
  {
    var r := MoveToHead(b, t, b.locals[t].at);
    Facts(b, t);
    MoveBinds(b, t, b.locals[t].at);
    HeldLocals(b, r, t);
    MoveFree(b, t, b.locals[t].at);
    hide Bucket.Linked, Bucket.NoDuplicates, Bucket.FreeOk, Bucket.FlightsOk, Bucket.LocalsOk;
  }

  // ---------------------------------------------------------------------- the remaining steps

  /** Releasing the lock: the new version is one that no scan has seen. */
  lemma {:induction false} UnlockInv(b: Bucket, t: Tid)
    requires b.Inv() && Enabled(b, Unlock(t))
    ensures Apply(b, Unlock(t)).Inv()
  {
    hide Bucket.NoDuplicates, Bucket.FreeOk, Bucket.FlightsOk, Bucket.LocalsOk, Put, Take, MoveToHead;
    var r := Apply(b, Unlock(t));
    SameChain(b, r);
    assert forall u, e :: r.InFlight(u, e) <==> b.InFlight(u, e);
    SameFree(b, r);
    UnlockLocals(b, t);
  }

  lemma {:induction false} UnlockLocals(b: Bucket, t: Tid)
    requires b.Linked() && b.LocalsOk() && Enabled(b, Unlock(t))
    ensures Apply(b, Unlock(t)).LocalsOk()
  {
    hide Bucket.Linked, Put, Take, MoveToHead;
    var r := Apply(b, Unlock(t));
    SameChain(b, r);
    forall u | u in r.locals
      ensures r.LocalOk(r.locals[u]) && (r.holder == Some(u) <==> r.Holds(r.locals[u]))
    {
      assert b.LocalOk(b.locals[u]) && (b.holder == Some(u) <==> b.Holds(b.locals[u]));
    }
  }

  /** r differs from b in the free lists only, and perhaps in a thread that has given its entry away. */
  lemma {:induction false} ListsInv(b: Bucket, r: Bucket)
    requires b.Inv() && r.cells == b.cells && r.chain == b.chain && r.version == b.version && r.holder == b.holder
    requires r.FreeOk() && r.FlightsOk()
    requires r.locals == b.locals || exists t ::
               t in b.locals && b.locals[t].Recycling? && r.locals == b.locals[t := Idle]
    ensures r.Inv()
  {
    hide Bucket.NoDuplicates, Bucket.FreeOk, Bucket.FlightsOk;
    SameChain(b, r);
    assert r.LocalsOk() by { ListsLocals(b, r); }
  }

  lemma {:induction false} ListsLocals(b: Bucket, r: Bucket)
    requires b.Linked() && r.Linked() && b.LocalsOk() && r.cells == b.cells && r.chain == b.chain
    requires r.version == b.version
    requires r.holder == b.holder
    requires r.locals == b.locals || exists t ::
               t in b.locals && b.locals[t].Recycling? && r.locals == b.locals[t := Idle]
    ensures r.LocalsOk()
  {
    hide Bucket.Linked;
    forall u | u in r.locals
      ensures r.LocalOk(r.locals[u]) && (r.holder == Some(u) <==> r.Holds(r.locals[u]))
    {
      assert b.LocalOk(b.locals[u]) && (b.holder == Some(u) <==> b.Holds(b.locals[u]));
    }
  }

  lemma {:induction false} RecycleInv(b: Bucket, t: Tid)
    requires b.Inv() && Enabled(b, Recycle(t))
    ensures Apply(b, Recycle(t)).Inv()
  {
    hide Bucket.NoDuplicates, Bucket.Linked, Put, Take, MoveToHead, Bucket.LocalsOk;
    var r := Apply(b, Recycle(t));
    var e := b.locals[t].entry;
    assert b.InFlight(t, e);
    assert forall u, x :: r.InFlight(u, x) <==> b.InFlight(u, x) && u != t;
    hide Bucket.InFlight;
    assert r.FreeOk();
    assert r.FlightsOk();
    hide Apply;
    ListsInv(b, r);
  }

  lemma {:induction false} OthersInv(b: Bucket, step: Step)
    requires b.Inv() && Enabled(b, step) && (step.OtherTakes? || step.OtherGives?)
    ensures Apply(b, step).Inv()
  {
    hide Bucket.NoDuplicates, Bucket.Linked, Put, Take, MoveToHead, Bucket.LocalsOk;
    var r := Apply(b, step);
    assert forall u, x :: r.InFlight(u, x) <==> b.InFlight(u, x);
    hide Bucket.InFlight;
    assert r.FreeOk();
    assert r.FlightsOk();
    hide Apply;
    ListsInv(b, r);
  }

  /** r has the same pids along the same chain. */
  ghost predicate SamePids(b: Bucket, r: Bucket)
    requires b.Linked() && r.Linked()
  {
    && r.chain == b.chain && r.version == b.version && r.holder == b.holder && r.locals == b.locals
    && forall i :: 0 <= i < |b.chain| ==> r.cells[r.chain[i]].pid == b.cells[b.chain[i]].pid
  }

  lemma {:induction false} SamePidsLocals(b: Bucket, r: Bucket)
    requires b.Linked() && r.Linked() && b.LocalsOk() && SamePids(b, r)
    ensures r.LocalsOk()
  {
    hide Bucket.LocalOk, Bucket.Linked;
    forall u | u in r.locals
      ensures r.LocalOk(r.locals[u])
    {
      assert b.LocalOk(b.locals[u]);
      hide Bucket.LocalsOk;
      SamePidsLocal(b, r, b.locals[u]);
    }
  }

  lemma {:induction false} SamePidsLocal(b: Bucket, r: Bucket, l: Local)
    requires b.Linked() && r.Linked() && b.LocalOk(l) && SamePids(b, r)
    ensures r.LocalOk(l)
  {
    assert b.chain[0] == HEAD;
  }

  lemma {:induction false} SetPageLinked(b: Bucket, at: nat, page: Option<nat>)
    requires b.Linked() && at < |b.chain|
    ensures PageSet(b, at, page).Linked()
  {
  }

  lemma {:induction false} SetPageChain(b: Bucket, at: nat, page: Option<nat>)
    requires b.Linked() && at < |b.chain|
    ensures var r := PageSet(b, at, page);
      && r.Linked() && SamePids(b, r) && r.cells.Keys == b.cells.Keys && r.free == b.free && r.elsewhere == b.elsewhere
      && forall i :: 0 <= i < |b.chain| ==> r.cells[r.chain[i]].page == if i == at then page
          else b.cells[b.chain[i]].page
  {
    SetPageLinked(b, at, page);
    assert forall i :: 0 <= i < |b.chain| ==> b.chain[i] in b.cells && (i != at ==> b.chain[i] != b.chain[at]);
    hide Bucket.Linked;
  }

  lemma {:induction false} SetPageInv(b: Bucket, at: nat, page: Option<nat>)
    requires at < |b.chain| && b.chain[at] in b.cells && b.cells[b.chain[at]].pid.Some? && b.Inv()
    ensures PageSet(b, at, page).Inv()
  {
    hide PageSet, Bucket.Linked, Bucket.LocalsOk, Bucket.NoDuplicates, Bucket.FreeOk, Bucket.FlightsOk;
    var r := PageSet(b, at, page);
    SetPageChain(b, at, page);
    SamePidsLocals(b, r);
    SetPageNoDuplicates(b, at, page);
    assert forall u, x :: r.InFlight(u, x) <==> b.InFlight(u, x);
    SameFree(b, r);
  }

  lemma {:induction false} SetPageAt(b: Bucket, at: nat, page: Option<nat>)
    requires Enabled(b, SetPage(at, page))
    ensures at < |b.chain| && b.chain[at] in b.cells && b.cells[b.chain[at]].pid.Some?
  {
  }

  lemma {:induction false} SetPageNoDuplicates(b: Bucket, at: nat, page: Option<nat>)
    requires b.Linked() && b.NoDuplicates() && at < |b.chain| && b.cells[b.chain[at]].pid.Some?
    ensures var r := PageSet(b, at, page); r.Linked() && r.NoDuplicates()
  {
    SetPageChain(b, at, page);
    var r := PageSet(b, at, page);
    assert b.chain[0] == HEAD && r.chain == b.chain && r.cells[r.chain[0]] == r.cells[HEAD];
    hide PageSet, Bucket.Linked;
  }

  lemma {:induction false} KeepInv(b: Bucket, t: Tid)
    requires b.Inv() && Enabled(b, Step.Move(t, false))
    ensures Apply(b, Step.Move(t, false)).Inv()
  {
    hide Bucket.NoDuplicates, Bucket.FreeOk, Bucket.FlightsOk, Put, Take, MoveToHead;
    var r := Apply(b, Step.Move(t, false));
    Facts(b, t);
    SameChain(b, r);
    assert forall u, e :: r.InFlight(u, e) <==> b.InFlight(u, e);
    SameFree(b, r);
    HeldLocals(b, r, t);
    hide Bucket.Linked, Bucket.LocalsOk;
  }

  /** Every step keeps the invariant: a well-formed chain, no page in it twice, recycled entries in no chain. */
  lemma {:induction false} StepInv(b: Bucket, step: Step)
    requires b.Inv() && Enabled(b, step)
    ensures b.Linked() && Apply(b, step).Inv()
  {
    hide Bucket.Inv, Bucket.Linked, Enabled, Put, Take, MoveToHead, PageSet, Checked;
    LinkedInv(b);
    match step
    case Put(t, entry) => PutInv(b, t, entry);
    case Take(t, at) => TakeInv(b, t, at);
    case Move(t, latched) => if latched { MoveInv(b, t); } else { KeepInv(b, t); }
    case Unlock(t) => UnlockInv(b, t);
    case Recycle(t) => RecycleInv(b, t);
    case SetPage(at, page) => SetPageAt(b, at, page); SetPageInv(b, at, page);
    case OtherTakes(entry) => OthersInv(b, step);
    case OtherGives(entry) => OthersInv(b, step);
    case _ => LocalInv(b, step);
  }

  lemma {:induction false} LinkedInv(b: Bucket)
    requires b.Inv()
    ensures b.Linked() && b.NoDuplicates()
  {
  }

  // ---------------------------------------------------------------------- the map

  /** A bucket no thread has touched yet. */
  function Fresh(threads: set<Tid>): Bucket {
    Bucket(0, None, map[HEAD := Cell(None, None, None)], [HEAD], multiset{}, {}, map t | t in threads :: Idle)
  }

  lemma {:induction false} FreshInv(threads: set<Tid>)
    ensures Fresh(threads).Inv() && forall p: PID, g: Option<nat> :: !Fresh(threads).Binds(p, g)
  {
    assert forall t, e :: !Fresh(threads).InFlight(t, e);
  }

  /** The table is a map: a page has one frame at most. */
  lemma {:induction false} OneBinding(b: Bucket, p: PID, g: Option<nat>, h: Option<nat>)
    requires b.Inv() && b.Binds(p, g) && b.Binds(p, h)
    ensures g == h
  {
    var i :| 0 <= i < |b.chain| && b.cells[b.chain[i]].pid == Some(p) && b.cells[b.chain[i]].page == g;
    var j :| 0 <= j < |b.chain| && b.cells[b.chain[j]].pid == Some(p) && b.cells[b.chain[j]].page == h;
    assert i == j;
  }

  /** The effect of a step on the map: insert adds a binding, remove takes its page's binding away, setting a frame
      changes that page's binding, and no other step, moving an entry to the head included, changes what is bound. */
  ghost predicate Effect(b: Bucket, step: Step, p: PID, g: Option<nat>)
    requires b.Linked() && Enabled(b, step)
  {
    match step
    case Put(t, entry) => b.Binds(p, g) || (p == b.locals[t].pid && g == None)
    case Take(t, at) => b.Binds(p, g) && p != b.locals[t].pid
    case SetPage(at, page) => if b.cells[b.chain[at]].pid == Some(p) then g == page else b.Binds(p, g)
    case _ => b.Binds(p, g)
  }

  lemma {:induction false} PutStepBinds(b: Bucket, t: Tid, entry: EntryId, p: PID, g: Option<nat>)
    requires b.Inv() && Enabled(b, Step.Put(t, entry))
    ensures b.Linked() && b.NoDuplicates() && b.Absent(b.locals[t].pid) && Put(b, t, entry).Linked()
    ensures Put(b, t, entry).Binds(p, g) <==> Effect(b, Step.Put(t, entry), p, g)
  {
    LinkedInv(b);
    Facts(b, t);
    if b.cells[b.chain[0]].pid.Some? { PutEntryFresh(b, t, entry); }
    hide Bucket.Inv, Bucket.NoDuplicates, Bucket.Linked, Bucket.Binds, Put;
    PutBinds(b, t, entry);
  }

  lemma {:induction false} MoveStepBinds(b: Bucket, t: Tid, latched: bool, p: PID, g: Option<nat>)
    requires b.Inv() && Enabled(b, Step.Move(t, latched))
    ensures b.Linked() && Apply(b, Step.Move(t, latched)).Linked()
    ensures Apply(b, Step.Move(t, latched)).Binds(p, g) <==> b.Binds(p, g)
  {
    LinkedInv(b);
    Facts(b, t);
    hide Bucket.Inv, Bucket.NoDuplicates, Bucket.Linked, Bucket.Binds, MoveToHead, Put, Take;
    if latched { MoveBinds(b, t, b.locals[t].at); } else { SameChain(b, Apply(b, Step.Move(t, latched))); }
  }

  lemma {:induction false} SetPageBinds(b: Bucket, at: nat, page: Option<nat>, p: PID, g: Option<nat>)
    requires b.Linked() && b.NoDuplicates() && at < |b.chain| && b.cells[b.chain[at]].pid.Some?
    ensures PageSet(b, at, page).Linked()
    ensures PageSet(b, at, page).Binds(p, g) <==>
              if b.cells[b.chain[at]].pid == Some(p) then g == page else b.Binds(p, g)
  {
    SetPageChain(b, at, page);
    var r := PageSet(b, at, page);
    InCells(b);
    InCells(r);
    hide PageSet, Bucket.Linked;
    if b.cells[b.chain[at]].pid == Some(p) { OnlyOnce(b, at, p); }
    hide Bucket.NoDuplicates;
    assert forall i :: 0 <= i < |b.chain| ==> r.cells[r.chain[i]].pid == b.cells[b.chain[i]].pid;
  }

  lemma {:induction false} QuietStepBinds(b: Bucket, step: Step, p: PID, g: Option<nat>)
    requires b.Linked() && Enabled(b, step) && !step.Put? && !step.Take? && !step.Move? && !step.SetPage?
    ensures Apply(b, step).Linked() && (Apply(b, step).Binds(p, g) <==> b.Binds(p, g))
  {
    hide Bucket.Linked, Bucket.Binds, Apply, Enabled;
    if IsLocal(step) { LocalCells(b, step); } else { ListCells(b, step); }
    SameChain(b, Apply(b, step));
  }

  lemma {:induction false} LocalCells(b: Bucket, step: Step)
    requires b.Linked() && Enabled(b, step) && IsLocal(step)
    ensures Apply(b, step).cells == b.cells && Apply(b, step).chain == b.chain
  {
    hide Bucket.Linked, Put, Take, MoveToHead, PageSet, Bucket.Holds;
  }

  lemma {:induction false} ListCells(b: Bucket, step: Step)
    requires b.Linked() && Enabled(b, step) && (step.Unlock? || step.Recycle? || step.OtherTakes? || step.OtherGives?)
    ensures Apply(b, step).cells == b.cells && Apply(b, step).chain == b.chain
  {
    hide Bucket.Linked, Put, Take, MoveToHead, PageSet, Bucket.Holds, Checked;
  }

  /** Every step has exactly its effect, and insert is never for a page that is there already. */
  lemma {:induction false} StepBinds(b: Bucket, step: Step, p: PID, g: Option<nat>)
    requires b.Inv() && Enabled(b, step)
    ensures b.Linked() && Apply(b, step).Linked() && (Apply(b, step).Binds(p, g) <==> Effect(b, step, p, g))
    ensures step.Put? ==> b.Absent(b.locals[step.t].pid)
  {
    LinkedInv(b);
    hide Bucket.Inv, Bucket.NoDuplicates, Bucket.Linked, Bucket.Binds, Bucket.Absent, Put, Take, MoveToHead, PageSet;
    if step.Put? {
      PutStepBinds(b, step.t, step.entry, p, g);
    } else if step.Take? {
      TakeBinds(b, step.t, step.at);
    } else if step.Move? {
      MoveStepBinds(b, step.t, step.latched, p, g);
    } else if step.SetPage? {
      SetPageBinds(b, step.at, step.page, p, g);
    } else {
      QuietStepBinds(b, step, p, g);
    }
  }

  /** A page hit behind an empty head gets into the head if nobody has held the lock since the scan began and the coin
      and the page's latch allow it; its entry leaves the chain and is recycled. */
  lemma {:induction false} MovesInline(b: Bucket, t: Tid)
    requires b.Inv() && Enabled(b, LockMove(t))
    ensures b.Linked()
    ensures var l, m := b.locals[t], Apply(b, LockMove(t));
      && (m.holder == Some(t) <==> b.holder.None? && b.version == l.v && b.cells[HEAD].pid.None?)
      && (m.holder == Some(t) ==>
            && b.cells[l.entry].pid == Some(l.pid) && m.Linked() && Enabled(m, Move(t, true))
            && var r := Apply(m, Move(t, true));
              && r.Linked() && r.cells[HEAD].pid == Some(l.pid) && r.cells[HEAD].page == b.cells[l.entry].page
              && l.entry in b.chain && l.entry !in r.chain && |r.chain| + 1 == |b.chain|
              && r.free == b.free + multiset{l.entry})
  {
    hide Bucket.Inv, Bucket.NoDuplicates, Bucket.Linked, MoveToHead, Bucket.LocalOk, Apply;
    LockMoveIs(b, t);
    var l, m := b.locals[t], Apply(b, LockMove(t));
    if m.holder == Some(t) {
      MoveChain(m, t, l.at);
      MoveParts(m, t, l.at);
    }
  }

  lemma {:induction false} LockMoveIs(b: Bucket, t: Tid)
    requires b.Inv() && Enabled(b, LockMove(t))
    ensures b.Linked() && |b.chain| > 0 && b.chain[0] == HEAD && HEAD in b.cells
    ensures var l, m := b.locals[t], Apply(b, LockMove(t));
      && (m.holder == Some(t) <==> b.holder.None? && b.version == l.v && b.cells[HEAD].pid.None?)
      && (m.holder == Some(t) ==>
            && l.at < |b.chain| && l.entry == b.chain[l.at] && l.entry in b.cells && b.cells[l.entry].pid == Some(l.pid)
            && m == At(b, t, Moving(l.entry, l.at)).(holder := Some(t)) && m.Linked() && 0 < l.at
            && Enabled(m, Move(t, true)) && Apply(m, Move(t, true)) == MoveToHead(m, t, l.at))
  {
    hide Bucket.Inv, Bucket.NoDuplicates, Bucket.Linked, MoveToHead, Bucket.LocalOk, Apply, Enabled;
    LinkedInv(b);
    LockMoveTakes(b, t);
    Facts(b, t);
    InCells(b);
    FoundFacts(b, t);
    var l := b.locals[t];
    var m := At(b, t, Moving(l.entry, l.at)).(holder := Some(t));
    SameChain(b, m);
    if 0 < l.at < |b.chain| { MoveMoves(m, t); }
  }

  lemma {:induction false} LockMoveTakes(b: Bucket, t: Tid)
    requires b.Linked() && Enabled(b, LockMove(t))
    ensures t in b.locals && b.locals[t].Found?
    ensures var l := b.locals[t];
      Apply(b, LockMove(t)) == if b.Word() == l.v && b.cells[b.chain[0]].pid.None?
                               then At(b, t, Moving(l.entry, l.at)).(holder := Some(t)) else At(b, t, Idle)
  {
  }

  lemma {:induction false} MoveMoves(b: Bucket, t: Tid)
    requires b.Linked() && t in b.locals && b.locals[t].Moving? && 0 < b.locals[t].at < |b.chain|
    ensures Enabled(b, Move(t, true)) && Apply(b, Move(t, true)) == MoveToHead(b, t, b.locals[t].at)
  {
    hide Bucket.Linked, MoveToHead;
  }

  lemma {:induction false} MoveParts(b: Bucket, t: Tid, at: nat)
    requires b.Linked() && t in b.locals && 0 < at < |b.chain|
    ensures var r := MoveToHead(b, t, at);
      && r.free == b.free + multiset{b.chain[at]} && r.elsewhere == b.elsewhere
      && r.chain == b.chain[..at] + b.chain[at + 1..] && r.locals == b.locals[t := Unlocking(None)]
      && r.cells.Keys <= b.cells.Keys + {b.chain[at]}
  {
  }

  lemma {:induction false} FoundFacts(b: Bucket, t: Tid)
    requires b.Linked() && t in b.locals && b.locals[t].Found? && b.LocalOk(b.locals[t]) && b.version < LOCK_BIT
    requires b.holder == Some(t) <==> b.Holds(b.locals[t])
    ensures var l := b.locals[t];
      && b.holder != Some(t) && (b.Word() == l.v <==> b.holder.None? && b.version == l.v)
      && (b.Word() == l.v ==> l.at < |b.chain| && l.entry == b.chain[l.at] && b.cells[l.entry].pid == Some(l.pid))
  {
  }

  ghost predicate Bound(b: Bucket, pid: PID)
    requires b.Linked()
  {
    exists g :: b.Binds(pid, g)
  }

  /** An answer: access hits or misses, insert refuses a page that is there already. */
  predicate Answered(l: Local) { l.Found? || l.Missed? || l.Refused? }

  /** What thread t makes of a check of the lock word. */
  ghost predicate Answers(b: Bucket, l: Local, l': Local)
    requires b.Linked() && l.Seen?
  {
    // if the word has changed, the scan is worth nothing
    && (b.Word() != l.v ==> l' == Idle)
    // a hit is an entry of the chain that holds the page
    && (l'.Found? ==>
          l'.pid == l.pid && l'.entry in b.chain && l'.entry in b.cells && b.cells[l'.entry].pid == Some(l.pid))
    // access answers, and insert refuses, by whether the page is in the table now
    && (b.Word() == l.v && l.purpose == Access && Answered(l') ==>
          && (l'.Found? <==> Bound(b, l.pid))
          && (l'.Missed? <==> !Bound(b, l.pid)))
    && (b.Word() == l.v && l.purpose == Insert && Answered(l') ==> l' == Refused(l.pid) && Bound(b, l.pid))
    // without an answer the scan goes on behind an entry that does not match; only insert may come to the end
    && (b.Word() == l.v && !Answered(l') ==>
          && l.at < |b.chain| && b.chain[l.at] in b.cells && b.cells[b.chain[l.at]].pid != Some(l.pid)
          && l' == Scan(l.purpose, l.pid, l.v, b.Next(l.at), l.at + 1)
          && (l'.cur == None ==> l.purpose == Insert && !Bound(b, l.pid)))
  }

  /** What a thread that has looked at an entry knows when its check passes. */
  lemma {:induction false} SeenIs(b: Bucket, l: Local)
    requires b.Linked() && l.Seen? && b.LocalOk(l) && b.Word() == l.v
    ensures l.at < |b.chain| && l.entry == b.chain[l.at] && l.entry in b.cells && l.next == b.Next(l.at)
    ensures l.isMatch <==> b.cells[l.entry].pid == Some(l.pid)
    ensures l.isMatch ==> Bound(b, l.pid)
    ensures !l.isMatch && l.next == None ==> !Bound(b, l.pid)
  {
    if l.isMatch { assert b.Binds(l.pid, b.cells[b.chain[l.at]].page); }
  }

  lemma {:induction false} CheckIsExact(b: Bucket, t: Tid)
    requires b.Inv() && Enabled(b, Check(t))
    ensures b.Linked() && t in Apply(b, Check(t)).locals && Answers(b, b.locals[t], Apply(b, Check(t)).locals[t])
  {
    hide Bucket.Inv, Bucket.NoDuplicates, Bucket.Linked, Bucket.LocalOk, Bucket.Binds, Bound, Put, Take, MoveToHead,
         PageSet;
    Facts(b, t);
    CheckIs(b, t);
    if b.Word() == b.locals[t].v { SeenIs(b, b.locals[t]); }
    hide Apply;
  }

  // ---------------------------------------------------------------------- no entry is lost

  /** Where an entry is: in the chain, on a list of recycled entries, or with the thread that unlinked it. */
  ghost predicate Home(b: Bucket, e: EntryId) {
    e in b.chain || e in b.free || e in b.elsewhere || exists t :: b.InFlight(t, e)
  }

  ghost predicate NoneLost(b: Bucket) {
    forall e :: e in b.cells ==> Home(b, e)
  }

  lemma {:induction false} SameHomes(b: Bucket, r: Bucket)
    requires NoneLost(b) && r.cells.Keys <= b.cells.Keys && r.chain == b.chain && r.free == b.free
    requires r.elsewhere == b.elsewhere && forall u, e :: b.InFlight(u, e) ==> r.InFlight(u, e)
    ensures NoneLost(r)
  {
    hide Bucket.InFlight;
    forall e | e in r.cells
      ensures Home(r, e)
    {
      assert Home(b, e);
    }
  }

  /** The entry e changes its home, all others keep theirs. */
  lemma {:induction false} OneMoves(b: Bucket, r: Bucket, e: EntryId)
    requires NoneLost(b) && r.cells.Keys <= b.cells.Keys + {e} && Home(r, e)
    requires forall x :: x != e && x in b.chain ==> x in r.chain
    requires forall x :: x != e && x in b.free ==> x in r.free || x in r.elsewhere
    requires forall x :: x != e && x in b.elsewhere ==> x in r.elsewhere
    requires forall u, x :: x != e && b.InFlight(u, x) ==> r.InFlight(u, x)
    ensures NoneLost(r)
  {
    hide Bucket.InFlight;
    forall x | x in r.cells
      ensures Home(r, x)
    {
      if x != e { assert Home(b, x); }
    }
  }

  lemma {:induction false} OthersStay(c: seq<EntryId>, d: seq<EntryId>, at: nat)
    requires at < |c| && d == c[..at] + c[at + 1..]
    ensures forall x :: x != c[at] && x in c ==> x in d
  {
    forall x | x != c[at] && x in c
      ensures x in d
    {
      var i :| 0 <= i < |c| && c[i] == x;
      assert d[if i < at then i else i - 1] == x;
    }
  }

  lemma {:induction false} TakeKeepsAll(b: Bucket, t: Tid, at: nat)
    requires b.Inv() && NoneLost(b) && Enabled(b, Step.Take(t, at))
    ensures b.Linked() && NoneLost(Take(b, t, at))
  {
    Facts(b, t);
    hide Bucket.Inv, Bucket.Linked, Bucket.LocalOk, NoneLost, Home;
    var r := Take(b, t, at);
    if 0 < at < |b.chain| {
      var e := b.chain[at];
      OthersStay(b.chain, r.chain, at);
      assert r.InFlight(t, e);
      assert Home(r, e) by { HasHome(r, t, e); }
      assert forall u, x :: x != e && b.InFlight(u, x) ==> r.InFlight(u, x);
      assert r.cells.Keys <= b.cells.Keys + {e};
      hide Take, Bucket.InFlight;
      OneMoves(b, r, e);
    } else {
      assert forall u, x :: b.InFlight(u, x) ==> r.InFlight(u, x);
      assert r.cells.Keys <= b.cells.Keys;
      hide Take, Bucket.InFlight;
      SameHomes(b, r);
    }
  }

  lemma {:induction false} HasHome(b: Bucket, t: Tid, e: EntryId)
    requires b.InFlight(t, e)
    ensures Home(b, e)
  {
  }

  lemma {:induction false} MoveKeepsAll(b: Bucket, t: Tid, at: nat)
    requires b.Inv() && NoneLost(b) && t in b.locals && b.locals[t].Moving? && 0 < at < |b.chain|
    ensures b.Linked() && NoneLost(MoveToHead(b, t, at))
  {
    Facts(b, t);
    hide Bucket.Inv, Bucket.LocalOk, Bucket.Linked, NoneLost, MoveToHead, Bucket.InFlight;
    var r := MoveToHead(b, t, at);
    MoveParts(b, t, at);
    OthersStay(b.chain, r.chain, at);
    FlightsStay(b, r, t);
    OneMoves(b, r, b.chain[at]);
  }

  lemma {:induction false} FlightsStay(b: Bucket, r: Bucket, t: Tid)
    requires t in b.locals && b.locals[t].Moving? && r.locals == b.locals[t := Unlocking(None)]
    ensures forall u, x :: b.InFlight(u, x) ==> r.InFlight(u, x)
  {
  }

  lemma {:induction false} PutKeepsAll(b: Bucket, t: Tid, entry: EntryId)
    requires b.Inv() && NoneLost(b) && Enabled(b, Step.Put(t, entry))
    ensures b.Linked() && NoneLost(Put(b, t, entry))
  {
    Facts(b, t);
    hide Bucket.Inv, Bucket.LocalOk, NoneLost;
    var r := Put(b, t, entry);
    assert forall u, x :: b.InFlight(u, x) ==> r.InFlight(u, x);
    if b.cells[b.chain[0]].pid.None? {
      hide Bucket.InFlight;
      assert r.cells.Keys <= b.cells.Keys;
      SameHomes(b, r);
    } else {
      assert r.chain[1] == entry;
      assert forall x :: x in b.chain ==> x in r.chain by { BehindHead(b.chain, r.chain, entry); }
      assert Home(r, entry);
      hide Put, Bucket.InFlight, Bucket.Linked, Home;
      OneMoves(b, r, entry);
    }
  }

  lemma {:induction false} BehindHead(c: seq<EntryId>, d: seq<EntryId>, e: EntryId)
    requires |c| > 0 && d == [c[0], e] + c[1..]
    ensures forall x :: x in c ==> x in d
  {
    forall x | x in c
      ensures x in d
    {
      var i :| 0 <= i < |c| && c[i] == x;
      assert d[if i == 0 then 0 else i + 1] == x;
    }
  }

  lemma {:induction false} ListsKeepAll(b: Bucket, step: Step)
    requires b.Inv() && NoneLost(b) && Enabled(b, step) && (step.Recycle? || step.OtherTakes? || step.OtherGives?)
    ensures b.Linked() && NoneLost(Apply(b, step))
  {
    LinkedInv(b);
    hide Bucket.Inv, Bucket.Linked, Bucket.NoDuplicates, NoneLost, Put, Take, MoveToHead, PageSet, Checked;
    var r := Apply(b, step);
    var e := if step.Recycle? then b.locals[step.t].entry else step.entry;
    assert forall u, x :: x != e && b.InFlight(u, x) ==> r.InFlight(u, x);
    assert Home(r, e);
    hide Apply, Enabled, Bucket.InFlight, Home;
    OneMoves(b, r, e);
  }

  /** Steps that move no entry. */
  predicate MovesNone(step: Step) {
    && !step.Put? && !step.Take? && !step.Recycle? && !step.OtherTakes? && !step.OtherGives?
    && !(step.Move? && step.latched)
  }

  lemma {:induction false} QuietLists(b: Bucket, step: Step)
    requires b.Linked() && Enabled(b, step) && MovesNone(step)
    ensures var r := Apply(b, step);
      r.chain == b.chain && r.free == b.free && r.elsewhere == b.elsewhere && r.cells.Keys <= b.cells.Keys
  {
    hide Bucket.Linked, Bucket.Holds, Put, Take, MoveToHead;
  }

  lemma {:induction false} QuietFlights(b: Bucket, step: Step)
    requires b.Linked() && Enabled(b, step) && MovesNone(step)
    ensures forall u, x :: b.InFlight(u, x) ==> Apply(b, step).InFlight(u, x)
  {
    hide Bucket.Linked, Put, Take, MoveToHead, PageSet;
    var r := Apply(b, step);
    if step.SetPage? {
      assert r.locals == b.locals by { SetPageLocals(b, step.at, step.page); }
    } else {
      assert r.locals == b.locals || r.locals == b.locals[step.t := r.locals[step.t]];
      assert step.t in b.locals && r.locals != b.locals && b.locals[step.t].Unlocking? ==>
          && step.Unlock?
          && r.locals[step.t] == match b.locals[step.t].recycled case None => Idle case Some(e) => Recycling(e);
    }
    hide Apply;
  }

  lemma {:induction false} SetPageLocals(b: Bucket, at: nat, page: Option<nat>)
    requires at < |b.chain| && b.chain[at] in b.cells
    ensures PageSet(b, at, page).locals == b.locals
  {
  }

  lemma {:induction false} QuietKeepsAll(b: Bucket, step: Step)
    requires b.Inv() && NoneLost(b) && Enabled(b, step) && MovesNone(step)
    ensures b.Linked() && NoneLost(Apply(b, step))
  {
    hide Bucket.Inv, Bucket.Linked, Bucket.InFlight, NoneLost, Home, Enabled, Apply;
    LinkedInv(b);
    QuietLists(b, step);
    QuietFlights(b, step);
    SameHomes(b, Apply(b, step));
  }

  /** No step loses an entry. */
  lemma {:induction false} StepLosesNone(b: Bucket, step: Step)
    requires b.Inv() && NoneLost(b) && Enabled(b, step)
    ensures b.Linked() && NoneLost(Apply(b, step))
  {
    LinkedInv(b);
    hide Bucket.Inv, Bucket.Linked, Bucket.NoDuplicates, NoneLost, Put, Take, MoveToHead, PageSet, Checked;
    if step.Put? {
      PutKeepsAll(b, step.t, step.entry);
    } else if step.Take? {
      TakeKeepsAll(b, step.t, step.at);
    } else if step.Move? && step.latched {
      MoveKeepsAll(b, step.t, b.locals[step.t].at);
    } else if step.Recycle? || step.OtherTakes? || step.OtherGives? {
      ListsKeepAll(b, step);
    } else {
      QuietKeepsAll(b, step);
    }
  }

  // ---------------------------------------------------------------------- runs

  ghost predicate Next(b: Bucket, r: Bucket) {
    b.Linked() && exists step :: Enabled(b, step) && r == Apply(b, step)
  }

  ghost predicate Run(tr: seq<Bucket>) {
    && |tr| > 0 && (exists threads :: tr[0] == Fresh(threads))
    && forall k :: 0 <= k < |tr| - 1 ==> Next(tr[k], tr[k + 1])
  }

  /** In every state of every run no page is in the chain twice, and recycled entries are in no chain. */
  lemma {:induction false} RunInv(tr: seq<Bucket>, k: nat)
    requires Run(tr) && k < |tr|
    ensures tr[k].Inv()
    decreases k
  {
    hide Bucket.Inv, Bucket.Linked, Apply, Enabled, Fresh;
    if k == 0 {
      var threads :| tr[0] == Fresh(threads);
      FreshInv(threads);
    } else {
      RunInv(tr, k - 1);
      assert Next(tr[k - 1], tr[k - 1 + 1]);
      var step :| Enabled(tr[k - 1], step) && tr[k] == Apply(tr[k - 1], step);
      StepInv(tr[k - 1], step);
    }
  }

  /** In every run every entry ever allocated stays in the chain, on a list, or on its way to one. */
  lemma {:induction false} RunLosesNone(tr: seq<Bucket>, k: nat)
    requires Run(tr) && k < |tr|
    ensures NoneLost(tr[k])
    decreases k
  {
    hide Bucket.Inv, Bucket.Linked, Apply, Enabled, NoneLost;
    if k == 0 {
      assert NoneLost(tr[0]) by { FreshLosesNone(tr[0]); }
    } else {
      RunLosesNone(tr, k - 1);
      RunInv(tr, k - 1);
      assert Next(tr[k - 1], tr[k - 1 + 1]);
      var step :| Enabled(tr[k - 1], step) && tr[k] == Apply(tr[k - 1], step);
      StepLosesNone(tr[k - 1], step);
    }
  }

  lemma {:induction false} FreshLosesNone(b: Bucket)
    requires exists threads :: b == Fresh(threads)
    ensures NoneLost(b)
  {
  }

  /** So in every run: an access whose checks pass hits if and only if the page is in the table at that instant, and
      misses if and only if it is not; an insert refuses if and only if it is. */
  lemma {:induction false} RunAnswers(tr: seq<Bucket>, k: nat, t: Tid)
    requires Run(tr) && k + 1 < |tr| && Enabled(tr[k], Check(t)) && tr[k].Linked()
    requires tr[k + 1] == Apply(tr[k], Check(t))
    ensures t in tr[k + 1].locals && Answers(tr[k], tr[k].locals[t], tr[k + 1].locals[t])
  {
    hide Run, Bucket.Inv, Bucket.Linked, Apply;
    RunInv(tr, k);
    CheckIsExact(tr[k], t);
  }

  // ---------------------------------------------------------------------- the lock itself

  /** step tries to take the lock with the word seen; a move does so only for an empty head. */
  ghost predicate Tries(b: Bucket, step: Step, seen: nat) {
    match step
    case LockInsert(t) => t in b.locals && b.locals[t].Scan? && b.locals[t].v == seen
    case LockRemove(t, pid, v) => v == seen
    case LockMove(t) =>
      t in b.locals && b.locals[t].Found? && b.locals[t].v == seen && HEAD in b.cells && b.cells[HEAD].pid.None?
    case _ => false
  }

  lemma {:induction false} SeenWord(b: Bucket, step: Step, seen: nat)
    requires b.Inv() && Enabled(b, step) && Tries(b, step, seen)
    ensures seen < LOCK_BIT && b.version < LOCK_BIT
  {
    hide Bucket.Linked, Bucket.NoDuplicates, Bucket.FreeOk, Bucket.FlightsOk, Bucket.Passed, Bucket.Absent;
    if !step.LockRemove? { assert b.LocalOk(b.locals[step.t]); }
  }

  lemma {:induction false} TriesIs(b: Bucket, step: Step, seen: nat)
    requires b.Inv() && Enabled(b, step) && Tries(b, step, seen)
    ensures b.Linked() && Apply(b, step).Inv() && seen < LOCK_BIT && b.version < LOCK_BIT
    ensures b.Word() != seen ==> Apply(b, step).Word() == b.Word() && Apply(b, step).holder == b.holder
    ensures b.Word() == seen ==>
              b.holder == None && Apply(b, step).holder == Some(step.t) && Apply(b, step).Word() == seen + LOCK_BIT
  {
    hide Bucket.Inv, Bucket.Linked, Put, Take, MoveToHead, PageSet, Checked;
    SeenWord(b, step, seen);
    StepInv(b, step);
    InCells(b);
  }

  lemma {:induction false} UnlockIs(b: Bucket, t: Tid)
    requires b.Inv() && Enabled(b, Step.Unlock(t))
    ensures b.Linked() && Apply(b, Step.Unlock(t)).Inv() && b.version + 1 < LOCK_BIT
    ensures b.holder == Some(t) && Apply(b, Step.Unlock(t)).holder == None
    ensures Apply(b, Step.Unlock(t)).Word() == b.version + 1
  {
    hide Bucket.Linked, Bucket.NoDuplicates, Bucket.FreeOk, Bucket.FlightsOk, Bucket.LocalOk, Put, Take, MoveToHead,
      PageSet, Checked;
    StepInv(b, Step.Unlock(t));
    assert b.holder == Some(t) <==> b.Holds(b.locals[t]);
    hide Bucket.Inv;
  }

  /** The lock bit on a version. */
  lemma {:induction false} LockBit(v: nat)
    requires v < LOCK_BIT
    ensures IsLocked(v + LOCK_BIT) && !IsLocked(v) && (v + LOCK_BIT) % LOCK_BIT == v
  {
  }

  /** The word, and the bucket it protects: each operation is the step of the same name. */
  class VersionedLock {
    var version: nat
    ghost var view: Bucket

    ghost predicate Valid()
      reads this
    {
      view.Inv() && view.Word() == version
    }

    constructor Init(ghost threads: set<Tid>)
      ensures Valid() && view == Fresh(threads)
    {
      version := 0;
      view := Fresh(threads);
      FreshInv(threads);
    }

    /** Succeeds if and only if the word is the one seen; then the thread alone holds the lock. */
    method TryLock(seen: nat, ghost step: Step) returns (locked: bool)
      requires Valid() && Enabled(view, step) && Tries(view, step, seen)
      modifies this
      ensures old(view).Linked() && Valid() && view == Apply(old(view), step)
      ensures locked <==> old(version) == seen
      ensures locked ==>
                old(view).holder == None && view.holder == Some(step.t) && IsLocked(version)
                    && version == seen + LOCK_BIT
      ensures !locked ==> view.holder == old(view).holder && version == old(version)
    {
      hide Bucket.Inv, Bucket.Linked, Enabled, Apply, Tries, IsLocked;
      TriesIs(view, step, seen);
      LockBit(seen);
      locked := version == seen;
      if locked { version := seen + LOCK_BIT; }
      view := Apply(view, step);
    }

    /** Nobody holds the lock, and the version is one that no thread has seen. */
    method Unlock(ghost t: Tid)
      requires Valid() && Enabled(view, Step.Unlock(t))
      modifies this
      ensures old(view).Linked() && Valid() && view == Apply(old(view), Step.Unlock(t))
      ensures old(view).holder == Some(t) && view.holder == None
      ensures !IsLocked(version) && version == old(view).version + 1 == old(version) % LOCK_BIT + 1
    {
      hide Bucket.Inv, Bucket.Linked, Enabled, Apply, IsLocked;
      UnlockIs(view, t);
      LockBit(view.version);
      LockBit(view.version + 1);
      version := version % LOCK_BIT + 1;
      view := Apply(view, Step.Unlock(t));
    }
  }
}
