/** ResidentPageSet of page.hpp: open addressing with linear probing and tombstones, swept by a clock. */
module ResidentSet {
  import opened Arithmetic
  import opened Pages

  datatype Slot = Empty | Tombstone | Held(pid: PID)

  // ---------------------------------------------------------------------- positions on the circle

  /** k steps on from home, for k up to the table size; the table size is a power of two, so "and mask" is this. */
  function Along(n: nat, home: nat, k: nat): (pos: nat)
    requires home < n && k < n
    ensures pos < n
  {
    if home + k < n then home + k else home + k - n
  }

  /** How many steps lead from home to pos. */
  function StepsTo(n: nat, home: nat, pos: nat): (k: nat)
    requires home < n && pos < n
    ensures k < n && Along(n, home, k) == pos
  {
    if pos >= home then pos - home else pos + n - home
  }

  lemma {:induction false} DistOf(n: nat, home: nat, k: nat)
    requires home < n && k < n
    ensures StepsTo(n, home, Along(n, home, k)) == k
  {
  }

  lemma {:induction false} StepOn(n: nat, home: nat, k: nat)
    requires home < n && k < n
    ensures (Along(n, home, k) + 1) % n == if k + 1 < n then Along(n, home, k + 1) else home
  {
    var p := Along(n, home, k);
    if p + 1 == n { assert n % n == 0; }
  }

  /** Where a walk from the slot from stands after k steps, however often it has gone around. */
  function Around(n: nat, from: nat, k: nat): (pos: nat)
    requires from < n
    ensures pos < n
  {
    Along(n, from, k % n)
  }

  lemma {:induction false} WalkOn(n: nat, from: nat, k: nat)
    requires from < n
    ensures (Around(n, from, k) + 1) % n == Around(n, from, k + 1)
  {
    StepOn(n, from, k % n);
    ModAdd(k, 1, n);
    if k % n + 1 < n { SmallMod(k % n + 1, n); } else { AddOnce(0, n); }
  }

  // ---------------------------------------------------------------------- the table

  predicate Sits(s: seq<Slot>, pos: nat, p: PID) { pos < |s| && s[pos] == Held(p) }

  /** No empty slot lies on the way from the home of a stored pid to where it is. */
  ghost predicate Reachable(s: seq<Slot>, home: PID -> nat)
    requires forall p :: home(p) < |s|
  {
    forall pos, p, k :: Sits(s, pos, p) && 0 <= k < StepsTo(|s|, home(p), pos) ==> s[Along(|s|, home(p), k)] != Empty
  }

  ghost predicate Unique(s: seq<Slot>) {
    forall a, b, p :: Sits(s, a, p) && Sits(s, b, p) ==> a == b
  }

  /** The pids in the table. */
  ghost function Elements(s: seq<Slot>): set<PID> {
    set pos | 0 <= pos < |s| && s[pos].Held? :: s[pos].pid
  }

  lemma {:induction false} ElementsAre(s: seq<Slot>, p: PID)
    ensures p in Elements(s) <==> exists pos :: Sits(s, pos, p)
  {
    if pos: nat :| Sits(s, pos, p) { assert s[pos].Held?; }
    if p in Elements(s) {
      var pos :| 0 <= pos < |s| && s[pos].Held? && s[pos].pid == p;
      assert Sits(s, pos, p);
    }
  }

  function Live(s: seq<Slot>): nat {
    if s == [] then 0 else (if s[0].Held? then 1 else 0) + Live(s[1..])
  }

  lemma {:induction false} LiveUpdate(s: seq<Slot>, pos: nat, x: Slot)
    requires pos < |s|
    ensures Live(s[pos := x]) == Live(s) - (if s[pos].Held? then 1 else 0) + (if x.Held? then 1 else 0)
  {
    if pos > 0 {
      LiveUpdate(s[1..], pos - 1, x);
      assert s[pos := x][1..] == s[1..][pos - 1 := x];
    } else {
      assert s[pos := x][1..] == s[1..];
    }
  }

  function Empties(s: seq<Slot>): nat {
    if s == [] then 0 else (if s[0] == Empty then 1 else 0) + Empties(s[1..])
  }

  lemma {:induction false} EmptiesUpdate(s: seq<Slot>, pos: nat, x: Slot)
    requires pos < |s|
    ensures Empties(s[pos := x]) == Empties(s) - (if s[pos] == Empty then 1 else 0) + (if x == Empty then 1 else 0)
  {
    if pos > 0 {
      EmptiesUpdate(s[1..], pos - 1, x);
      assert s[pos := x][1..] == s[1..][pos - 1 := x];
    } else {
      assert s[pos := x][1..] == s[1..];
    }
  }

  lemma {:induction false} SomeEmpty(s: seq<Slot>)
    ensures Empties(s) > 0 <==> exists f :: 0 <= f < |s| && s[f] == Empty
  {
    if s != [] {
      SomeEmpty(s[1..]);
      if f: nat :| f < |s| && s[f] == Empty { assert f > 0 ==> s[1..][f - 1] == Empty; }
      if f: nat :| f < |s[1..]| && s[1..][f] == Empty { assert s[f + 1] == Empty; }
    }
  }

  // ---------------------------------------------------------------------- insert and remove

  /** The first slot on the way from home that is empty or a tombstone is k steps on. */
  ghost predicate FirstFree(s: seq<Slot>, home: nat, k: nat)
    requires home < |s|
  {
    k < |s| && !s[Along(|s|, home, k)].Held? && forall j :: 0 <= j < k ==> s[Along(|s|, home, j)].Held?
  }

  /** r is s with p in that slot. */
  ghost predicate Inserted(s: seq<Slot>, home: PID -> nat, p: PID, r: seq<Slot>)
    requires home(p) < |s|
  {
    exists k :: FirstFree(s, home(p), k) && r == s[Along(|s|, home(p), k) := Held(p)]
  }

  /** r is s with a tombstone for p. */
  ghost predicate Removed(s: seq<Slot>, p: PID, r: seq<Slot>) {
    exists at: nat :: Sits(s, at, p) && r == s[at := Tombstone]
  }

  /** A free slot is used for p: it must be the first on p's way. */
  lemma {:induction false} InsertedOk(s: seq<Slot>, home: PID -> nat, p: PID, k: nat)
    requires (forall q :: home(q) < |s|) && Reachable(s, home) && Unique(s) && FirstFree(s, home(p), k)
    requires !exists pos :: Sits(s, pos, p)
    ensures var r := s[Along(|s|, home(p), k) := Held(p)];
      Reachable(r, home) && Unique(r) && Live(r) == Live(s) + 1 && Elements(r) == Elements(s) + {p}
  {
    var at := Along(|s|, home(p), k);
    var r := s[at := Held(p)];
    DistOf(|s|, home(p), k);
    LiveUpdate(s, at, Held(p));
    forall pos, q, j | Sits(r, pos, q) && 0 <= j < StepsTo(|r|, home(q), pos)
      ensures r[Along(|r|, home(q), j)] != Empty
    {
      if pos != at { assert Sits(s, pos, q) && s[Along(|s|, home(q), j)] != Empty; }
    }
    assert Unique(r) by {
      forall a, b, q | Sits(r, a, q) && Sits(r, b, q)
        ensures a == b
      {
        if a != at && b != at { assert Sits(s, a, q) && Sits(s, b, q); }
        if a == at && b != at { assert Sits(s, b, p); }
        if b == at && a != at { assert Sits(s, a, p); }
      }
    }
    forall q
      ensures q in Elements(r) <==> q in Elements(s) + {p}
    {
      ElementsAre(r, q);
      ElementsAre(s, q);
      if pos: nat :| Sits(s, pos, q) { assert pos != at && Sits(r, pos, q); }
      if pos: nat :| Sits(r, pos, q) { assert pos != at ==> Sits(s, pos, q); }
      assert Sits(r, at, p);
    }
  }

  /** A stored pid becomes a tombstone. */
  lemma {:induction false} RemovedOk(s: seq<Slot>, home: PID -> nat, p: PID, at: nat)
    requires (forall q :: home(q) < |s|) && Reachable(s, home) && Unique(s) && Sits(s, at, p)
    ensures var r := s[at := Tombstone];
      Reachable(r, home) && Unique(r) && Live(r) + 1 == Live(s) && Elements(r) == Elements(s) - {p}
  {
    var r := s[at := Tombstone];
    LiveUpdate(s, at, Tombstone);
    forall pos, q, j | Sits(r, pos, q) && 0 <= j < StepsTo(|r|, home(q), pos)
      ensures r[Along(|r|, home(q), j)] != Empty
    {
      assert Sits(s, pos, q) && s[Along(|s|, home(q), j)] != Empty;
    }
    assert Unique(r) by {
      forall a, b, q | Sits(r, a, q) && Sits(r, b, q)
        ensures a == b
      {
        assert Sits(s, a, q) && Sits(s, b, q);
      }
    }
    forall q
      ensures q in Elements(r) <==> q in Elements(s) - {p}
    {
      ElementsAre(r, q);
      ElementsAre(s, q);
      if pos: nat :| Sits(s, pos, q) { assert q != p ==> pos != at && Sits(r, pos, q); }
      if pos: nat :| Sits(r, pos, q) { assert Sits(s, pos, q); assert pos != at; }
    }
  }

  class ResidentPageSet {
    const ht: array<Slot>
    const home: PID -> nat
    var clockPos: nat
    var size: nat

    ghost predicate Valid()
      reads this, ht
    {
      && ht.Length > 0 && clockPos < ht.Length && (forall p :: home(p) < ht.Length)
      && Reachable(ht[..], home) && Unique(ht[..]) && size == Live(ht[..])
    }

    constructor (count: nat, home: PID -> nat)
      requires count > 0 && forall p :: home(p) < count
      ensures Valid() && fresh(ht) && ht.Length == count && this.home == home && Elements(ht[..]) == {} && clockPos == 0
    {
      this.home := home;
      ht := new Slot[count](_ => Empty);
      clockPos, size := 0, 0;
      new;
      AllEmpty(ht[..]);
    }

    /** Inserts an absent pid into the first slot on its way that is empty or a tombstone. */
    method Insert(pid: PID)
      requires Valid() && pid !in Elements(ht[..]) && exists f :: 0 <= f < ht.Length && !ht[f].Held?
      modifies this`size, ht
      ensures Valid() && Elements(ht[..]) == old(Elements(ht[..])) + {pid} && size == old(size) + 1
      ensures Inserted(old(ht[..]), home, pid, ht[..])
    {
      ghost var s := ht[..];
      var pos := home(pid);
      ghost var k := 0;
      ghost var f :| 0 <= f < ht.Length && !ht[f].Held?;
      while ht[pos].Held?
        invariant k < ht.Length && pos == Along(ht.Length, home(pid), k) && k <= StepsTo(ht.Length, home(pid), f)
        invariant ht[..] == s && Valid() && size == old(size)
        invariant forall j :: 0 <= j < k ==> s[Along(|s|, home(pid), j)].Held?
        decreases ht.Length - k
      {
        StepOn(ht.Length, home(pid), k);
        pos := (pos + 1) % ht.Length;
        k := k + 1;
      }
      ElementsAre(s, pid);
      InsertedOk(s, home, pid, k);
      ht[pos] := Held(pid);
      size := size + 1;
      assert ht[..] == s[pos := Held(pid)];
    }

    /** Finds and removes a pid. Returns false at the first empty slot. */
    method Remove(pid: PID) returns (removed: bool)
      requires Valid() && (pid in Elements(ht[..]) || Empties(ht[..]) > 0)
      modifies this`size, ht
      ensures Valid() && removed == (pid in old(Elements(ht[..]))) && Elements(ht[..]) == old(Elements(ht[..])) - {pid}
      ensures size == old(size) - if removed then 1 else 0
      ensures if removed then Removed(old(ht[..]), pid, ht[..]) else ht[..] == old(ht[..])
    {
      ghost var s := ht[..];
      var pos := home(pid);
      ghost var k := 0;
      ghost var f := Stop(s, pid);
      while true
        invariant k < ht.Length && pos == Along(ht.Length, home(pid), k) && k <= StepsTo(ht.Length, home(pid), f)
        invariant ht[..] == s && Valid() && size == old(size)
        invariant forall j :: 0 <= j < k ==>
                    s[Along(|s|, home(pid), j)] != Empty && s[Along(|s|, home(pid), j)] != Held(pid)
        decreases ht.Length - k
      {
        if ht[pos] == Empty {
          NotStored(s, home, pid, k);
          assert Elements(s) - {pid} == Elements(s);
          return false;
        }
        if ht[pos] == Held(pid) {
          assert Sits(s, pos, pid);
          RemovedOk(s, home, pid, pos);
          ht[pos] := Tombstone;
          size := size - 1;
          assert ht[..] == s[pos := Tombstone];
          return true;
        }
        StepOn(ht.Length, home(pid), k);
        pos := (pos + 1) % ht.Length;
        k := k + 1;
      }
    }

    /** One batch of the clock: claims the next interval of slots and hands out the pids in it. */
    method IterateClockBatch(batch: nat) returns (pids: seq<PID>)
      requires Valid()
      modifies this`clockPos
      ensures Valid() && clockPos == (old(clockPos) + batch) % ht.Length
      ensures pids == Swept(ht[..], old(clockPos), batch)
    {
      hide Reachable, Unique, Live;
      var pos := clockPos;
      var from := pos;
      clockPos := (pos + batch) % ht.Length;
      pids := [];
      var i := 0;
      SmallMod(0, ht.Length);
      while i < batch
        invariant i <= batch && pos == Around(ht.Length, from, i)
        invariant pids == Swept(ht[..], from, i)
        modifies {}
      {
        if ht[pos].Held? { pids := pids + [ht[pos].pid]; }
        WalkOn(ht.Length, from, i);
        pos := (pos + 1) % ht.Length;
        i := i + 1;
      }
    }
  }

  /** The pids in the n slots from position from on. */
  function Swept(s: seq<Slot>, from: nat, n: nat): seq<PID>
    requires from < |s|
  {
    if n == 0 then []
    else
      var slot := s[Around(|s|, from, n - 1)];
      Swept(s, from, n - 1) + if slot.Held? then [slot.pid] else []
  }

  /** A batch hands out a pid if and only if its slot is in the batch's interval. */
  lemma {:induction false} SweptAre(s: seq<Slot>, from: nat, n: nat, p: PID)
    requires from < |s|
    ensures p in Swept(s, from, n) <==> exists k :: 0 <= k < n && Sits(s, Around(|s|, from, k), p)
  {
    if n > 0 {
      SweptAre(s, from, n - 1, p);
      if p in Swept(s, from, n) && p !in Swept(s, from, n - 1) { assert Sits(s, Around(|s|, from, n - 1), p); }
    }
  }

  /** Different steps of one round lead to different slots. */
  lemma {:induction false} ApartOnRound(n: nat, from: nat, j: nat, k: nat)
    requires from < n && j < k < n
    ensures Around(n, from, j) != Around(n, from, k)
  {
    SmallMod(j, n);
    SmallMod(k, n);
    DistOf(n, from, j);
    DistOf(n, from, k);
  }

  lemma {:induction false} Together(a: seq<PID>, b: seq<PID>, p: PID)
    ensures multiset(a + b)[p] == multiset(a)[p] + multiset(b)[p]
  {
  }

  lemma {:induction false} NoneSwept(t: seq<Slot>, from: nat)
    requires from < |t|
    ensures Swept(t, from, 0) == []
  {
  }

  lemma {:induction false} OneSwept(t: seq<Slot>, from: nat, n: nat, p: PID)
    requires from < |t| && n > 0
    ensures multiset(Swept(t, from, n))[p] ==
            multiset(Swept(t, from, n - 1))[p] + if t[Around(|t|, from, n - 1)] == Held(p) then 1 else 0
  {
    hide Around;
    var slot := t[Around(|t|, from, n - 1)];
    Together(Swept(t, from, n - 1), if slot.Held? then [slot.pid] else [], p);
  }

  lemma {:induction false} NotBefore(s: seq<Slot>, from: nat, n: nat, p: PID)
    requires from < |s| && n < |s| && Unique(s) && s[Around(|s|, from, n)] == Held(p)
    ensures p !in Swept(s, from, n)
  {
    hide Around, Swept;
    SweptAre(s, from, n, p);
    assert Sits(s, Around(|s|, from, n), p);
    forall k | 0 <= k < n
      ensures !Sits(s, Around(|s|, from, k), p)
    {
      ApartOnRound(|s|, from, k, n);
    }
  }

  /** A batch no longer than the table hands out no pid twice. */
  lemma {:induction false} SweptOnce(s: seq<Slot>, from: nat, n: nat, p: PID)
    requires from < |s| && n <= |s| && Unique(s)
    ensures multiset(Swept(s, from, n))[p] <= 1
  {
    hide Unique, Around, Swept;
    if n == 0 {
      NoneSwept(s, from);
    } else {
      SweptOnce(s, from, n - 1, p);
      OneSwept(s, from, n, p);
      if s[Around(|s|, from, n - 1)] == Held(p) { NotBefore(s, from, n - 1, p); }
    }
  }

  // ---------------------------------------------------------------------- coverage of the clock

  /** Where the clock stands after i batches. */
  function ClockAfter(n: nat, start: nat, batch: nat, i: nat): (pos: nat)
    requires start < n
    ensures pos < n
  {
    if i == 0 then start else (ClockAfter(n, start, batch, i - 1) + batch) % n
  }

  lemma {:induction false} ClockIs(n: nat, start: nat, batch: nat, i: nat)
    requires start < n
    ensures ClockAfter(n, start, batch, i) == (start + i * batch) % n
  {
    if i > 0 {
      ClockIs(n, start, batch, i - 1);
      var x := start + (i - 1) * batch;
      assert i * batch == (i - 1) * batch + batch;
      ModAdd(x, batch, n);
    } else {
      SmallMod(start, n);
    }
  }

  lemma {:induction false} BatchOf(d: nat, batch: nat, m: nat) returns (i: nat, k: nat)
    requires 0 < batch && d < m * batch
    ensures i < m && k < batch && i * batch + k == d
  {
    i, k := d / batch, d % batch;
    assert i * batch + k == d;
    if i >= m { MulLe(batch, m, i); }
  }

  /** Any m batches whose lengths add up to the table size at least meet every slot. */
  lemma {:induction false} BatchesCover(n: nat, start: nat, batch: nat, m: nat, pos: nat) returns (i: nat, k: nat)
    requires start < n && pos < n && batch > 0 && m * batch >= n
    ensures i < m && k < batch && Around(n, ClockAfter(n, start, batch, i), k) == pos
  {
    var d := StepsTo(n, start, pos);
    i, k := BatchOf(d, batch, m);
    ClockIs(n, start, batch, i);
    AroundMod(n, ClockAfter(n, start, batch, i), k);
    ModAdd(start + i * batch, k, n);
    AlongMod(n, start, d);
  }

  lemma {:induction false} AlongMod(n: nat, home: nat, k: nat)
    requires home < n && k < n
    ensures Along(n, home, k) == (home + k) % n
  {
    if home + k < n {
      SmallMod(home + k, n);
    } else {
      AddOnce(home + k - n, n);
      SmallMod(home + k - n, n);
    }
  }

  lemma {:induction false} AroundMod(n: nat, from: nat, k: nat)
    requires from < n
    ensures Around(n, from, k) == (from + k) % n
  {
    AlongMod(n, from, k % n);
    ModAdd(k, from, n);
  }

  /** So every pid in a table that stays as it is is handed out by one of them. */
  lemma {:induction false} ClockReaches(s: seq<Slot>, start: nat, batch: nat, m: nat, p: PID) returns (i: nat)
    requires start < |s| && batch > 0 && m * batch >= |s| && p in Elements(s)
    ensures i < m && p in Swept(s, ClockAfter(|s|, start, batch, i), batch)
  {
    ElementsAre(s, p);
    var pos: nat :| Sits(s, pos, p);
    var k;
    i, k := BatchesCover(|s|, start, batch, m, pos);
    SweptAre(s, ClockAfter(|s|, start, batch, i), batch, p);
  }

  lemma {:induction false} AllEmpty(s: seq<Slot>)
    requires forall pos :: 0 <= pos < |s| ==> s[pos] == Empty
    ensures Live(s) == 0 && Elements(s) == {}
  {
    if s != [] { AllEmpty(s[1..]); }
  }

  /** An empty slot on the way says that the pid is not in the table. */
  lemma {:induction false} NotStored(s: seq<Slot>, home: PID -> nat, pid: PID, k: nat)
    requires (forall q :: home(q) < |s|) && Reachable(s, home) && k < |s| && s[Along(|s|, home(pid), k)] == Empty
    requires forall j :: 0 <= j < k ==> s[Along(|s|, home(pid), j)] != Held(pid)
    ensures pid !in Elements(s)
  {
    ElementsAre(s, pid);
    if pos: nat :| Sits(s, pos, pid) { SitsAt(s, home, pid, pos); }
  }

  lemma {:induction false} SitsAt(s: seq<Slot>, home: PID -> nat, pid: PID, pos: nat)
    requires (forall q :: home(q) < |s|) && Reachable(s, home) && Sits(s, pos, pid)
    ensures var d := StepsTo(|s|, home(pid), pos);
      s[Along(|s|, home(pid), d)] == Held(pid) && forall j :: 0 <= j < d ==> s[Along(|s|, home(pid), j)] != Empty
  {
  }

  // ---------------------------------------------------------------------- searches that never end

  /** The k-th slot that remove's loop looks at ends it. */
  predicate Halts(s: seq<Slot>, home: nat, pid: PID, k: nat)
    requires home < |s|
  {
    s[Around(|s|, home, k)] == Empty || s[Around(|s|, home, k)] == Held(pid)
  }

  ghost predicate Ends(s: seq<Slot>, home: nat, pid: PID)
    requires home < |s|
  {
    exists k: nat :: Halts(s, home, pid, k)
  }

  lemma {:induction false} Stop(s: seq<Slot>, pid: PID) returns (f: nat)
    requires pid in Elements(s) || Empties(s) > 0
    ensures f < |s| && (s[f] == Empty || s[f] == Held(pid))
  {
    ElementsAre(s, pid);
    SomeEmpty(s);
    if pid in Elements(s) {
      var at: nat :| Sits(s, at, pid);
      f := at;
    } else {
      var at :| 0 <= at < |s| && s[at] == Empty;
      f := at;
    }
  }

  /** The loop ends if and only if the pid is in the table or some slot is empty. */
  lemma {:induction false} SearchEnds(s: seq<Slot>, home: nat, pid: PID)
    requires home < |s|
    ensures Ends(s, home, pid) <==> pid in Elements(s) || Empties(s) > 0
  {
    if pid in Elements(s) || Empties(s) > 0 {
      var f := Stop(s, pid);
      SmallMod(StepsTo(|s|, home, f), |s|);
      assert Halts(s, home, pid, StepsTo(|s|, home, f));
    }
    if k: nat :| Halts(s, home, pid, k) {
      var pos := Around(|s|, home, k);
      SomeEmpty(s);
      ElementsAre(s, pid);
      assert s[pos] == Empty || Sits(s, pos, pid);
    }
  }

  ghost predicate Next(s: seq<Slot>, home: PID -> nat, r: seq<Slot>)
    requires forall p :: home(p) < |s|
  {
    exists p :: (p !in Elements(s) && Inserted(s, home, p, r)) || Removed(s, p, r)
  }

  /** The tables of a run of insertions and removals that starts with an empty table of n slots. */
  ghost predicate Run(tr: seq<seq<Slot>>, home: PID -> nat, n: nat) {
    && |tr| > 0 && n > 0 && (forall p :: home(p) < n) && tr[0] == seq(n, _ => Empty)
    && forall i :: 0 <= i < |tr| ==> |tr[i]| == n && (i + 1 < |tr| ==> Next(tr[i], home, tr[i + 1]))
  }

  lemma {:induction false} NextEmpties(s: seq<Slot>, home: PID -> nat, r: seq<Slot>)
    requires (forall p :: home(p) < |s|) && Next(s, home, r)
    ensures Empties(r) <= Empties(s)
  {
    var p :| (p !in Elements(s) && Inserted(s, home, p, r)) || Removed(s, p, r);
    if Removed(s, p, r) {
      var at: nat :| Sits(s, at, p) && r == s[at := Tombstone];
      EmptiesUpdate(s, at, Tombstone);
    } else {
      var k :| FirstFree(s, home(p), k) && r == s[Along(|s|, home(p), k) := Held(p)];
      EmptiesUpdate(s, Along(|s|, home(p), k), Held(p));
    }
  }

  /** A slot that was used never becomes empty again: once no slot is empty, no search for an absent pid ends. */
  lemma {:induction false} EmptiesNeverGrow(tr: seq<seq<Slot>>, home: PID -> nat, n: nat, i: nat, j: nat)
    requires Run(tr, home, n) && i <= j < |tr|
    ensures Empties(tr[j]) <= Empties(tr[i])
    ensures Empties(tr[i]) == 0 ==> forall p :: p !in Elements(tr[j]) ==> !Ends(tr[j], home(p), p)
    decreases j
  {
    if i < j {
      EmptiesNeverGrow(tr, home, n, i, j - 1);
      assert Next(tr[j - 1], home, tr[j - 1 + 1]);
      NextEmpties(tr[j - 1], home, tr[j]);
    }
    if Empties(tr[i]) == 0 {
      forall p | p !in Elements(tr[j])
        ensures !Ends(tr[j], home(p), p)
      {
        SearchEnds(tr[j], home(p), p);
      }
    }
  }

  /** m tombstones, and n - m slots that were never used. */
  function Worn(n: nat, m: nat): (s: seq<Slot>)
    ensures |s| == n
  {
    seq(n, i => if i < m then Tombstone else Empty)
  }

  lemma {:induction false} NoneHeld(s: seq<Slot>)
    requires forall i :: 0 <= i < |s| ==> !s[i].Held?
    ensures Live(s) == 0 && Elements(s) == {}
  {
    if s != [] { NoneHeld(s[1..]); }
  }

  lemma {:induction false} Churn(home: PID -> nat, pids: seq<PID>, m: nat) returns (tr: seq<seq<Slot>>)
    requires pids != [] && (forall p :: home(p) < |pids|) && (forall i :: 0 <= i < |pids| ==> home(pids[i]) == i)
    requires m <= |pids|
    ensures Run(tr, home, |pids|) && tr[|tr| - 1] == Worn(|pids|, m)
    ensures forall i :: 0 <= i < |tr| ==> Live(tr[i]) <= 1
  {
    var n := |pids|;
    NoneHeld(Worn(n, m));
    if m == 0 {
      tr := [Worn(n, 0)];
    } else {
      var before := Churn(home, pids, m - 1);
      var s, p := Worn(n, m - 1), pids[m - 1];
      var full := s[m - 1 := Held(p)];
      NoneHeld(s);
      LiveUpdate(s, m - 1, Held(p));
      assert FirstFree(s, home(p), 0);
      assert Inserted(s, home, p, full);
      assert Sits(full, m - 1, p) && Worn(n, m) == full[m - 1 := Tombstone];
      assert Removed(full, p, Worn(n, m));
      tr := before + [full, Worn(n, m)];
      assert forall i :: 0 <= i < |before| ==> tr[i] == before[i];
    }
  }

  /** It can come to that although there is never more than one pid in the table: inserting and removing, one after
      the other, a pid for every home leaves tombstones only, and then no search ends at all. */
  lemma {:induction false} TombstonesFill(home: PID -> nat, pids: seq<PID>) returns (tr: seq<seq<Slot>>)
    requires pids != [] && (forall p :: home(p) < |pids|) && forall i :: 0 <= i < |pids| ==> home(pids[i]) == i
    ensures Run(tr, home, |pids|) && (forall i :: 0 <= i < |tr| ==> Live(tr[i]) <= 1)
    ensures forall p :: !Ends(tr[|tr| - 1], home(p), p)
  {
    tr := Churn(home, pids, |pids|);
    var s := tr[|tr| - 1];
    NoneHeld(s);
    SomeEmpty(s);
    forall p
      ensures !Ends(s, home(p), p)
    {
      SearchEnds(s, home(p), p);
    }
  }
}
