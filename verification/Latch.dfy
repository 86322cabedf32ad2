/** The page latch of page.hpp: one word holding an 8-bit state and a 56-bit version, changed by
    compare-and-swap. The step system lets any number of threads interleave its operations under the
    callers' discipline; the lemmas say what the word means in every run. */
module Latch {
  import opened Pages

  const VERSIONS: nat := 0x100_0000_0000_0000

  const UNLOCKED: nat := 0
  const MAX_SHARED: nat := 252
  const MARKED: nat := 253
  const LOCKED: nat := 254
  const INVALID: nat := 255

  type Word = w: nat | w < 256 * VERSIONS

  function GetState(w: Word): nat { w / VERSIONS }

  function GetVersion(w: Word): nat { w % VERSIONS }

  function SameVersion(w: Word, state: nat): (r: Word)
    requires state <= INVALID
    ensures GetState(r) == state && GetVersion(r) == GetVersion(w)
  {
    Packed(w % VERSIONS, state);
    w % VERSIONS + state * VERSIONS
  }

  /** Versions do not wrap: the last version has no next one. */
  function NextVersion(w: Word, state: nat): (r: Word)
    requires state <= INVALID && GetVersion(w) + 1 < VERSIONS
    ensures GetState(r) == state && GetVersion(r) == GetVersion(w) + 1
  {
    Packed(w % VERSIONS + 1, state);
    w % VERSIONS + 1 + state * VERSIONS
  }

  lemma {:induction false} Packed(v: nat, state: nat)
    requires v < VERSIONS && state <= INVALID
    ensures v + state * VERSIONS < 256 * VERSIONS
    ensures (v + state * VERSIONS) / VERSIONS == state && (v + state * VERSIONS) % VERSIONS == v
  {
  }

  // ---------------------------------------------------------------------- operations on the word

  /** The word that tryLockS asks for, if it asks at all. */
  function Shared(seen: Word): (r: Option<Word>) {
    var s := GetState(seen);
    if s < MAX_SHARED then Some(SameVersion(seen, s + 1))
    else if s == MARKED then Some(SameVersion(seen, 1))
    else None
  }

  // ---------------------------------------------------------------------- interleavings

  type Tid = nat

  /** One latch, the page it protects, and who holds what: x the exclusive holder, and what it has loaded on
      its way out; s the shared holders, a thread once per lock; done the number of exclusive sections that ended. */
  datatype System = System(word: Word, x: Option<Tid>, loaded: Option<Word>, s: multiset<Tid>, done: nat, page: Page)

  datatype Step =
    | LockX(t: Tid, seen: Word)
    | Elsewhere
    | Write(t: Tid, page: Page)
    | LoadX(t: Tid)
    | StoreX(t: Tid, state: nat)
    | LockS(t: Tid, seen: Word)
    | UnlockS(t: Tid, seen: Word)
    | Upgrade(t: Tid, seen: Word)
    | Mark(t: Tid, seen: Word)
    | ClearMark(t: Tid, seen: Word)

  function Initial(page: Page): System {
    System(SameVersion(0, INVALID), None, None, multiset{}, 0, page)
  }

  /** What the callers promise about a step. Compared words may be stale: any earlier load will do. */
  predicate Allowed(a: System, step: Step) {
    match step
    case LockX(t, seen) => GetState(seen) == UNLOCKED || GetState(seen) == MARKED || GetState(seen) == INVALID
    case Elsewhere => true
    case Write(t, page) => a.x == Some(t)
    case LoadX(t) => a.x == Some(t) && a.loaded.None?
    case StoreX(t, state) =>
      && a.x == Some(t) && a.loaded.Some? && GetVersion(a.loaded.value) + 1 < VERSIONS
      && (state == UNLOCKED || state == INVALID || state == 1)
    case LockS(t, seen) => true
    case UnlockS(t, seen) => t in a.s && 0 < GetState(seen) <= MAX_SHARED
    case Upgrade(t, seen) => t in a.s && GetState(seen) == 1
    case Mark(t, seen) => GetState(seen) == UNLOCKED
    case ClearMark(t, seen) => GetState(seen) == MARKED
  }

  function Apply(a: System, step: Step): System
    requires Allowed(a, step)
  {
    match step
    case LockX(t, seen) =>
      if a.word == seen then a.(word := SameVersion(seen, LOCKED), x := Some(t)) else a
    case Elsewhere => a
    case Write(t, page) => a.(page := page)
    case LoadX(t) => a.(loaded := Some(a.word))
    case StoreX(t, state) =>
      a.(word := NextVersion(a.loaded.value, state), x := None, loaded := None, done := a.done + 1,
         s := if state == 1 then a.s + multiset{t} else a.s)
    case LockS(t, seen) =>
      if a.word == seen && Shared(seen).Some? then a.(word := Shared(seen).value, s := a.s + multiset{t}) else a
    case UnlockS(t, seen) =>
      if a.word == seen then a.(word := SameVersion(seen, GetState(seen) - 1), s := a.s - multiset{t}) else a
    case Upgrade(t, seen) =>
      if a.word == seen then a.(word := SameVersion(seen, LOCKED), x := Some(t), s := a.s - multiset{t}) else a
    case Mark(t, seen) => if a.word == seen then a.(word := SameVersion(seen, MARKED)) else a
    case ClearMark(t, seen) => if a.word == seen then a.(word := SameVersion(seen, UNLOCKED)) else a
  }

  /** What the word says about the holders. */
  predicate Inv(a: System) {
    && (GetState(a.word) == LOCKED <==> a.x.Some?)
    && (a.loaded.Some? ==> a.x.Some? && a.loaded.value == a.word)
    && |a.s| == (if GetState(a.word) <= MAX_SHARED then GetState(a.word) else 0)
    && GetVersion(a.word) == a.done
  }

  lemma {:induction false} InitInv(page: Page)
    ensures Inv(Initial(page))
  {
  }

  /** Every step keeps the invariant: at most one exclusive holder, never beside shared ones, and so on. */
  lemma {:induction false} StepInv(a: System, step: Step)
    requires Inv(a) && Allowed(a, step)
    ensures Inv(Apply(a, step))
    ensures a.done <= Apply(a, step).done
  {
    if step.LockS? || step.UnlockS? || step.Upgrade? {
      SharedStepInv(a, step);
    } else {
      hide GetState, GetVersion;
    }
  }

  lemma {:induction false} SharedStepInv(a: System, step: Step)
    requires Inv(a) && Allowed(a, step) && (step.LockS? || step.UnlockS? || step.Upgrade?)
    ensures Inv(Apply(a, step)) && a.done <= Apply(a, step).done
  {
    hide GetState, GetVersion;
  }

  /** With the word as it is, a shared lock is refused only if the latch is held exclusively, has its full number of
      shared holders, or the page is invalid. */
  lemma {:induction false} SharedWhen(a: System, t: Tid)
    requires Inv(a)
    ensures t in Apply(a, LockS(t, a.word)).s && |Apply(a, LockS(t, a.word)).s| == |a.s| + 1 <==>
            a.x.None? && |a.s| < MAX_SHARED && GetState(a.word) != INVALID
  {
  }

  // ---------------------------------------------------------------------- the operations themselves

  /** An exclusive holder loads the word, then stores its successor with a new state. */
  ghost function Leave(a: System, t: Tid, state: nat): System
    requires a.x == Some(t) && a.loaded.None? && GetVersion(a.word) + 1 < VERSIONS
    requires state == UNLOCKED || state == INVALID || state == 1
  {
    Apply(Apply(a, LoadX(t)), StoreX(t, state))
  }

  /** The word, and the holders it stands for: each operation is the step of the same name. */
  class PageState {
    var stateAndVersion: Word
    ghost var view: System

    ghost predicate Valid()
      reads this
    {
      Inv(view) && view.word == stateAndVersion && view.loaded.None?
    }

    constructor Init(ghost page: Page)
      ensures Valid() && view == Initial(page)
    {
      stateAndVersion := SameVersion(0, INVALID);
      view := Initial(page);
    }

    /** Succeeds if and only if the word is the one seen; then nobody else holds the latch in any way. */
    method TryLockX(seen: Word, ghost t: Tid) returns (locked: bool)
      requires Valid() && Allowed(view, LockX(t, seen))
      modifies this
      ensures Valid() && view == Apply(old(view), LockX(t, seen))
      ensures locked <==> old(stateAndVersion) == seen
      ensures !locked ==> view == old(view)
      ensures locked ==> old(view.x) == None && view.x == Some(t) && view.s == old(view.s) == multiset{}
      ensures locked ==> GetState(stateAndVersion) == LOCKED && GetVersion(stateAndVersion) == GetVersion(seen)
    {
      hide GetState, GetVersion;
      InvMeans(view);
      StepInv(view, LockX(t, seen));
      locked := stateAndVersion == seen;
      if locked { stateAndVersion := SameVersion(seen, LOCKED); }
      view := Apply(view, LockX(t, seen));
    }

    method UnlockX(ghost t: Tid) returns (newVersion: Word)
      requires Valid() && view.x == Some(t) && GetVersion(stateAndVersion) + 1 < VERSIONS
      modifies this
      ensures Valid() && view == Leave(old(view), t, UNLOCKED) && newVersion == stateAndVersion
      ensures view.x == None && view.s == multiset{} && view.done == old(view.done) + 1
      ensures GetState(newVersion) == UNLOCKED && GetVersion(newVersion) == old(GetVersion(stateAndVersion)) + 1
    {
      hide GetState, GetVersion;
      LeaveInv(view, t, UNLOCKED);
      newVersion := NextVersion(stateAndVersion, UNLOCKED);
      stateAndVersion := newVersion;
      view := Leave(view, t, UNLOCKED);
    }

    method UnlockXInvalid(ghost t: Tid)
      requires Valid() && view.x == Some(t) && GetVersion(stateAndVersion) + 1 < VERSIONS
      modifies this
      ensures Valid() && view == Leave(old(view), t, INVALID)
      ensures view.x == None && view.s == multiset{} && view.done == old(view.done) + 1
      ensures GetState(stateAndVersion) == INVALID
      ensures GetVersion(stateAndVersion) == old(GetVersion(stateAndVersion)) + 1
    {
      hide GetState, GetVersion;
      LeaveInv(view, t, INVALID);
      stateAndVersion := NextVersion(stateAndVersion, INVALID);
      view := Leave(view, t, INVALID);
    }

    /** The exclusive holder becomes the only shared one. */
    method DowngradeLock(ghost t: Tid)
      requires Valid() && view.x == Some(t) && GetVersion(stateAndVersion) + 1 < VERSIONS
      modifies this
      ensures Valid() && view == Leave(old(view), t, 1)
      ensures view.x == None && view.s == multiset{t} && view.done == old(view.done) + 1
      ensures GetState(stateAndVersion) == 1 && GetVersion(stateAndVersion) == old(GetVersion(stateAndVersion)) + 1
    {
      hide GetState, GetVersion;
      LeaveInv(view, t, 1);
      stateAndVersion := NextVersion(stateAndVersion, 1);
      view := Leave(view, t, 1);
    }

    /** Succeeds if and only if the word is the one seen and has room for a shared holder; clears a mark. */
    method TryLockS(seen: Word, ghost t: Tid) returns (locked: bool)
      requires Valid()
      modifies this
      ensures Valid() && view == Apply(old(view), LockS(t, seen))
      ensures locked <==> old(stateAndVersion) == seen && (GetState(seen) < MAX_SHARED || GetState(seen) == MARKED)
      ensures !locked ==> view == old(view)
      ensures locked ==> view.x == None && view.s == old(view.s) + multiset{t} && GetState(stateAndVersion) == |view.s|
      ensures GetVersion(stateAndVersion) == old(GetVersion(stateAndVersion))
    {
      hide GetState, GetVersion;
      StepInv(view, LockS(t, seen));
      var s := GetState(seen);
      locked := false;
      if s < MAX_SHARED {
        locked := stateAndVersion == seen;
        if locked { stateAndVersion := SameVersion(seen, s + 1); }
      } else if s == MARKED {
        locked := stateAndVersion == seen;
        if locked { stateAndVersion := SameVersion(seen, 1); }
      }
      view := Apply(view, LockS(t, seen));
      InvMeans(view);
    }

    /** One thread at a time, the retry loop succeeds in its first round. */
    method UnlockS(ghost t: Tid)
      requires Valid() && t in view.s
      modifies this
      ensures Valid() && view == Apply(old(view), Step.UnlockS(t, old(stateAndVersion)))
      ensures view.s == old(view.s) - multiset{t} && GetState(stateAndVersion) == |view.s|
      ensures GetVersion(stateAndVersion) == old(GetVersion(stateAndVersion))
    {
      hide GetState, GetVersion;
      InvMeans(view);
      ghost var a, step := view, Step.UnlockS(t, stateAndVersion);
      StepInv(a, step);
      stateAndVersion := SameVersion(stateAndVersion, GetState(stateAndVersion) - 1);
      view := Apply(a, step);
    }

    /** Succeeds if and only if the word is the one seen; a marked page has no holders. */
    method TryMark(seen: Word, ghost t: Tid) returns (marked: bool)
      requires Valid() && GetState(seen) == UNLOCKED
      modifies this
      ensures Valid() && view == Apply(old(view), Mark(t, seen))
      ensures marked <==> old(stateAndVersion) == seen
      ensures !marked ==> view == old(view)
      ensures marked ==> view.x == None && view.s == multiset{} && GetState(stateAndVersion) == MARKED
      ensures GetVersion(stateAndVersion) == old(GetVersion(stateAndVersion))
    {
      hide GetState, GetVersion;
      InvMeans(view);
      StepInv(view, Mark(t, seen));
      marked := stateAndVersion == seen;
      if marked { stateAndVersion := SameVersion(seen, MARKED); }
      view := Apply(view, Mark(t, seen));
    }
  }

  lemma {:induction false} LeaveInv(a: System, t: Tid, state: nat)
    requires Inv(a) && a.x == Some(t) && a.loaded.None? && GetVersion(a.word) + 1 < VERSIONS
    requires state == UNLOCKED || state == INVALID || state == 1
    ensures Inv(Leave(a, t, state)) && a.s == multiset{} && Leave(a, t, state).word == NextVersion(a.word, state)
    ensures Leave(a, t, state).loaded.None? && Leave(a, t, state).s == if state == 1 then multiset{t} else multiset{}
  {
    hide GetState, GetVersion;
    InvMeans(a);
    StepInv(a, LoadX(t));
    StepInv(Apply(a, LoadX(t)), StoreX(t, state));
  }

  // ---------------------------------------------------------------------- runs

  ghost predicate Next(a: System, b: System) {
    exists step :: Allowed(a, step) && b == Apply(a, step)
  }

  ghost predicate Run(tr: seq<System>) {
    && |tr| > 0 && (exists page :: tr[0] == Initial(page))
    && forall i :: 0 <= i < |tr| - 1 ==> Next(tr[i], tr[i + 1])
  }

  /** In every state of every run, Locked means one exclusive holder and no shared one, a state n up to 252
      means n shared locks, and the version counts the exclusive sections that have ended. */
  lemma {:induction false} RunInv(tr: seq<System>, i: nat)
    requires Run(tr) && i < |tr|
    ensures Inv(tr[i])
    ensures tr[i].x.Some? <==> GetState(tr[i].word) == LOCKED
    ensures tr[i].x.Some? ==> tr[i].s == multiset{}
    ensures 1 <= GetState(tr[i].word) <= MAX_SHARED ==> |tr[i].s| == GetState(tr[i].word)
    ensures tr[i].s != multiset{} ==> 1 <= GetState(tr[i].word) <= MAX_SHARED
    ensures GetVersion(tr[i].word) == tr[i].done
    decreases i
  {
    hide GetState, GetVersion, Apply, Allowed, Inv, Initial;
    if i == 0 {
      var page :| tr[0] == Initial(page);
      InitInv(page);
    } else {
      RunInv(tr, i - 1);
      assert Next(tr[i - 1], tr[i - 1 + 1]);
      var step :| Allowed(tr[i - 1], step) && tr[i] == Apply(tr[i - 1], step);
      StepInv(tr[i - 1], step);
    }
    InvMeans(tr[i]);
  }

  lemma {:induction false} InvMeans(a: System)
    requires Inv(a)
    ensures a.x.Some? <==> GetState(a.word) == LOCKED
    ensures a.x.Some? ==> a.s == multiset{}
    ensures 1 <= GetState(a.word) <= MAX_SHARED ==> |a.s| == GetState(a.word)
    ensures a.s != multiset{} ==> 1 <= GetState(a.word) <= MAX_SHARED
    ensures GetVersion(a.word) == a.done
  {
    hide GetState, GetVersion;
  }

  // ---------------------------------------------------------------------- optimistic reads

  /** A word with which GuardO.init lets a reader start. */
  predicate Readable(version: Word) { GetState(version) <= MAX_SHARED }

  /** checkVersionAndRestart: now is the word it loads. If that is marked, it has to clear the mark as well, and later
      is the word it finds then. */
  predicate CheckPasses(version: Word, now: Word, later: Word) {
    || version == now
    || (GetVersion(now) == GetVersion(version)
        && (GetState(now) <= MAX_SHARED || (GetState(now) == MARKED && later == now)))
  }

  /** No exclusive section is open between i and j, or ends there. */
  ghost predicate Quiet(tr: seq<System>, i: nat, j: nat)
    requires i <= j < |tr|
  {
    forall k :: i <= k <= j ==> tr[k].x.None? && tr[k].done == tr[i].done
  }

  lemma {:induction false} RunStep(tr: seq<System>, k: nat) returns (step: Step)
    requires Run(tr) && k + 1 < |tr|
    ensures Inv(tr[k]) && Allowed(tr[k], step) && tr[k + 1] == Apply(tr[k], step)
  {
    hide Apply, Allowed, Inv, Initial;
    RunInv(tr, k);
    assert Next(tr[k], tr[k + 1]);
    step :| Allowed(tr[k], step) && tr[k + 1] == Apply(tr[k], step);
  }

  /** An exclusive section that was open at k is still open at j, or has ended and been counted. */
  lemma {:induction false} SectionCounted(tr: seq<System>, k: nat, j: nat)
    requires Run(tr) && k <= j < |tr|
    ensures tr[k].done <= tr[j].done
    ensures tr[k].x.Some? ==> tr[j].x.Some? || tr[k].done < tr[j].done
    decreases j
  {
    hide Run, Inv, GetState, GetVersion, Allowed;
    if k < j {
      SectionCounted(tr, k, j - 1);
      var step := RunStep(tr, j - 1);
    }
  }

  /** Only an exclusive holder writes. */
  lemma {:induction false} FreeKeeps(tr: seq<System>, i: nat, j: nat)
    requires Run(tr) && i <= j < |tr| && forall k :: i <= k <= j ==> tr[k].x.None?
    ensures tr[j].page == tr[i].page
    decreases j
  {
    hide Run, Inv, GetState, GetVersion;
    if i < j {
      FreeKeeps(tr, i, j - 1);
      var step := RunStep(tr, j - 1);
      assert tr[j - 1].x.None?;
    }
  }

  /** Without exclusive sections a page stays as it is, and a readable latch never becomes invalid. */
  lemma {:induction false} QuietKeeps(tr: seq<System>, i: nat, j: nat)
    requires Run(tr) && i <= j < |tr| && Quiet(tr, i, j) && Readable(tr[i].word)
    ensures tr[j].page == tr[i].page && GetState(tr[j].word) <= MARKED
    decreases j
  {
    hide Run, GetState, GetVersion;
    if i < j {
      QuietKeeps(tr, i, j - 1);
      var step := RunStep(tr, j - 1);
    }
  }

  /** A reader took the version at i and checks it at j; a mark that it finds it clears at m. It passes if and only if
      no exclusive section was open or ended in between, unless another thread was first to change a marked word; then
      the page was the same all along. */
  lemma {:induction false} OptimisticCheck(tr: seq<System>, i: nat, j: nat, m: nat)
    requires Run(tr) && i <= j <= m < |tr| && Readable(tr[i].word)
    ensures CheckPasses(tr[i].word, tr[j].word, tr[m].word) <==>
            Quiet(tr, i, j) && (GetState(tr[j].word) == MARKED ==> tr[m].word == tr[j].word)
    ensures Quiet(tr, i, j) ==> forall k :: i <= k <= j ==> tr[k].page == tr[i].page
  {
    hide Run, GetState, GetVersion;
    RunInv(tr, i);
    RunInv(tr, j);
    forall k | i <= k <= j
      ensures tr[i].done <= tr[k].done <= tr[j].done
      ensures tr[k].x.Some? ==> tr[j].x.Some? || tr[i].done < tr[j].done
    {
      SectionCounted(tr, i, k);
      SectionCounted(tr, k, j);
    }
    if Quiet(tr, i, j) {
      forall k | i <= k <= j
        ensures tr[k].page == tr[i].page && GetState(tr[k].word) <= MARKED
      {
        QuietKeeps(tr, i, k);
      }
    }
  }

  /** Turning an optimistic guard into an exclusive or shared one: if the step takes the lock, the page is the
      one the reader started from, and nobody else holds the latch exclusively. */
  lemma {:induction false} GuardUpgrade(tr: seq<System>, i: nat, j: nat, t: Tid, seen: Word, exclusive: bool)
    requires Run(tr) && i <= j && j + 1 < |tr| && Readable(tr[i].word)
    requires exclusive ==>
               GetVersion(seen) == GetVersion(tr[i].word) && (GetState(seen) == UNLOCKED || GetState(seen) == MARKED)
    requires !exclusive ==> seen == tr[i].word && Shared(seen).Some?
    requires tr[j].word == seen && tr[j + 1] == Apply(tr[j], if exclusive then LockX(t, seen) else LockS(t, seen))
    ensures Quiet(tr, i, j) && tr[j + 1].page == tr[i].page && tr[j + 1].done == tr[i].done
    ensures if exclusive then tr[j + 1].x == Some(t) && tr[j + 1].s == multiset{}
        else tr[j + 1].x == None && t in tr[j + 1].s
  {
    hide Run;
    OptimisticCheck(tr, i, j, j);
    RunInv(tr, j);
    hide GetState, GetVersion;
  }
}
