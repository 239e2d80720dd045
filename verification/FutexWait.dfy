/**
 Waiting on words that are not futex words themselves
 (include/gpcl/detail/futex_atomic_wait.hpp, the proxy path with `notify_all`).

 Any number of awaited words share one `futex_atomic_wait_state`: its `waiter_count`, its
 `proxy` word and the kernel queue on that word.  Every action is one atomic access or one
 system call, under sequential consistency; the proxy counter does not wrap.
 */
module FutexWait {
  import opened Basics

  type Tid = nat
  type Addr = nat
  type Word = int

  datatype Pc =
    | Idle
    | LoadingEvent(x: Addr, was: Word)               // wait(): about to load the proxy
    | LoadingValue(x: Addr, was: Word, event: nat)   // wait(): about to load the word
    | Entering(x: Addr, was: Word, event: nat)       // about to count itself as a waiter
    | Calling(x: Addr, was: Word, event: nat)        // about to call futex_wait
    | Sleeping(x: Addr, was: Word, event: nat)       // in the kernel queue
    | Rechecking(x: Addr, was: Word, event: nat)     // back from futex_wait, about to load the word
    | Leaving                                        // about to count itself out
    | Notifying                                      // the word was stored; wake() is about to add to the proxy
    | Counting                                       // wake(): about to read the waiter count
    | Waking                                         // wake(): about to call futex_wake

  datatype State = State(words: map<Addr, Word>, proxy: nat, waiterCount: int, pcs: map<Tid, Pc>)

  datatype Action =
    | StartWait(x: Addr, was: Word)
    | LoadEvent
    | LoadValue
    | StartWaiting
    | CallFutexWait
    | WakeSpuriously
    | Recheck
    | FinishWaiting
    | Store(x: Addr, v: Word)  // store a value, then notify_all
    | AddToProxy
    | ReadCount
    | CallFutexWake

  predicate Enabled(s: State, t: Tid, a: Action) {
    t in s.pcs &&
    var pc := s.pcs[t];
    match a
    case StartWait(x, _) => pc.Idle? && x in s.words
    case LoadEvent => pc.LoadingEvent?
    case LoadValue => pc.LoadingValue? && pc.x in s.words
    case StartWaiting => pc.Entering?
    case CallFutexWait => pc.Calling?
    case WakeSpuriously => pc.Sleeping?
    case Recheck => pc.Rechecking? && pc.x in s.words
    case FinishWaiting => pc.Leaving?
    case Store(_, _) => pc.Idle?
    case AddToProxy => pc.Notifying?
    case ReadCount => pc.Counting?
    case CallFutexWake => pc.Waking?
  }

  function WakeAll(pcs: map<Tid, Pc>): map<Tid, Pc> {
    map t | t in pcs :: if pcs[t].Sleeping? then Rechecking(pcs[t].x, pcs[t].was, pcs[t].event) else pcs[t]
  }

  function Next(s: State, t: Tid, a: Action): State
    requires Enabled(s, t, a)
  {
    var pc := s.pcs[t];
    match a
    case StartWait(x, was) => s.(pcs := s.pcs[t := LoadingEvent(x, was)])
    case LoadEvent => s.(pcs := s.pcs[t := LoadingValue(pc.x, pc.was, s.proxy)])
    case LoadValue =>
      s.(pcs := s.pcs[t := if s.words[pc.x] != pc.was then Idle else Entering(pc.x, pc.was, pc.event)])
    case StartWaiting =>
      s.(waiterCount := s.waiterCount + 1, pcs := s.pcs[t := Calling(pc.x, pc.was, pc.event)])
    case CallFutexWait =>
      s.(pcs := s.pcs[t := if s.proxy == pc.event then Sleeping(pc.x, pc.was, pc.event)
                           else Rechecking(pc.x, pc.was, pc.event)])
    case WakeSpuriously => s.(pcs := s.pcs[t := Rechecking(pc.x, pc.was, pc.event)])
    case Recheck =>
      s.(pcs := s.pcs[t := if s.words[pc.x] == pc.was then Calling(pc.x, pc.was, pc.event) else Leaving])
    case FinishWaiting => s.(waiterCount := s.waiterCount - 1, pcs := s.pcs[t := Idle])
    case Store(x, v) => s.(words := s.words[x := v], pcs := s.pcs[t := Notifying])
    case AddToProxy => s.(proxy := s.proxy + 1, pcs := s.pcs[t := Counting])
    case ReadCount => s.(pcs := s.pcs[t := if s.waiterCount > 0 then Waking else Idle])
    case CallFutexWake => s.(pcs := WakeAll(s.pcs)[t := Idle])
  }

  // ----- the invariant -----

  predicate Counted(pc: Pc) { pc.Calling? || pc.Sleeping? || pc.Rechecking? || pc.Leaving? }

  ghost function Waiters(pcs: map<Tid, Pc>): set<Tid> { set t | t in pcs && Counted(pcs[t]) }

  /** A thread that has stored a value or added to the proxy and has not yet woken anybody. */
  predicate Owes(pc: Pc) { pc.Notifying? || pc.Counting? || pc.Waking? }

  predicate HasEvent(pc: Pc) {
    pc.LoadingValue? || pc.Entering? || pc.Calling? || pc.Sleeping? || pc.Rechecking?
  }

  ghost predicate EventsAreOld(s: State) {
    forall t :: t in s.pcs ==>
      && (s.pcs[t].LoadingEvent? ==> s.pcs[t].x in s.words)
      && (HasEvent(s.pcs[t]) ==> s.pcs[t].x in s.words && s.pcs[t].event <= s.proxy)
  }

  /** A sleeper whose event has passed will be woken by someone who has added to the proxy. */
  ghost predicate NoLostWakeup(s: State) {
    forall t :: t in s.pcs && s.pcs[t].Sleeping? && s.pcs[t].event != s.proxy ==>
      exists w :: w in s.pcs && (s.pcs[w].Counting? || s.pcs[w].Waking?)
  }

  /** A waiter that could still go to sleep has seen the word's value, or someone is about to notify. */
  ghost predicate NoMissedStore(s: State) {
    forall t :: t in s.pcs && (s.pcs[t].Entering? || s.pcs[t].Calling? || s.pcs[t].Sleeping?)
                && s.pcs[t].x in s.words && s.words[s.pcs[t].x] != s.pcs[t].was && s.pcs[t].event == s.proxy ==>
      exists w :: w in s.pcs && s.pcs[w].Notifying?
  }

  ghost predicate Inv(s: State) {
    && s.waiterCount == |Waiters(s.pcs)|
    && EventsAreOld(s) && NoLostWakeup(s) && NoMissedStore(s)
  }

  lemma WaitersAfter(pcs: map<Tid, Pc>, t: Tid, pc: Pc)
    requires t in pcs
    ensures |Waiters(pcs[t := pc])| == |Waiters(pcs)| - One(Counted(pcs[t])) + One(Counted(pc))
  {
    var rest := Waiters(pcs) - {t};
    assert Waiters(pcs[t := pc]) - {t} == rest;
    hide Waiters;
    Apart(Waiters(pcs), t);
    Apart(Waiters(pcs[t := pc]), t);
  }

  lemma Apart(s: set<Tid>, t: Tid)
    ensures |s| == |s - {t}| + One(t in s)
  {
    if t in s { assert s == (s - {t}) + {t}; } else { assert s == s - {t}; }
  }

  lemma CountKept(s: State, t: Tid, a: Action)
    requires Inv(s) && Enabled(s, t, a)
    ensures Next(s, t, a).waiterCount == |Waiters(Next(s, t, a).pcs)|
  {
    if a.CallFutexWake? {
      assert Waiters(WakeAll(s.pcs)) == Waiters(s.pcs);
      WaitersAfter(WakeAll(s.pcs), t, Idle);
    } else {
      WaitersAfter(s.pcs, t, Next(s, t, a).pcs[t]);
    }
    hide Waiters, WakeAll, EventsAreOld, NoLostWakeup, NoMissedStore;
  }

  lemma SleepersAreCounted(s: State, t: Tid)
    requires Inv(s) && t in s.pcs && s.pcs[t].Sleeping?
    ensures s.waiterCount > 0
  {
    assert t in Waiters(s.pcs);
  }

  lemma WakeupKept(s: State, t: Tid, a: Action)
    requires Inv(s) && Enabled(s, t, a)
    ensures NoLostWakeup(Next(s, t, a))
  {
    var s' := Next(s, t, a);
    forall u | u in s'.pcs && s'.pcs[u].Sleeping? && s'.pcs[u].event != s'.proxy
      ensures exists w :: w in s'.pcs && (s'.pcs[w].Counting? || s'.pcs[w].Waking?)
    {
      if a.AddToProxy? {
        assert s'.pcs[t].Counting?;
      } else {
        assert s.pcs[u].Sleeping? && s.pcs[u].event != s.proxy;
        var w :| w in s.pcs && (s.pcs[w].Counting? || s.pcs[w].Waking?);
        if w == t {
          SleepersAreCounted(s, u);
          assert s'.pcs[t].Waking?;
        } else {
          assert s'.pcs[w] == s.pcs[w];
        }
      }
    }
  }

  lemma StoreKept(s: State, t: Tid, a: Action)
    requires Inv(s) && Enabled(s, t, a)
    ensures NoMissedStore(Next(s, t, a))
  {
    var s' := Next(s, t, a);
    forall u | u in s'.pcs && (s'.pcs[u].Entering? || s'.pcs[u].Calling? || s'.pcs[u].Sleeping?)
               && s'.pcs[u].x in s'.words && s'.words[s'.pcs[u].x] != s'.pcs[u].was && s'.pcs[u].event == s'.proxy
      ensures exists w :: w in s'.pcs && s'.pcs[w].Notifying?
    {
      if a.Store? {
        assert s'.pcs[t].Notifying?;
      } else {
        assert s.pcs[u].x in s.words && s.pcs[u].event == s.proxy;
        var w :| w in s.pcs && s.pcs[w].Notifying?;
        assert s'.pcs[w] == s.pcs[w];
      }
    }
  }

  lemma StepKeepsInv(s: State, t: Tid, a: Action)
    requires Inv(s) && Enabled(s, t, a)
    ensures Inv(Next(s, t, a))
  {
    CountKept(s, t, a);
    WakeupKept(s, t, a);
    StoreKept(s, t, a);
  }

  // ----- runs -----

  ghost predicate Init(s: State) {
    s.waiterCount == 0 && forall t :: t in s.pcs ==> s.pcs[t].Idle?
  }

  ghost predicate IsRun(trace: seq<State>, steps: seq<(Tid, Action)>) {
    && |trace| == |steps| + 1
    && Init(trace[0])
    && forall i :: 0 <= i < |steps| ==>
         Enabled(trace[i], steps[i].0, steps[i].1) && trace[i + 1] == Next(trace[i], steps[i].0, steps[i].1)
  }

  lemma {:induction false} RunKeepsInv(trace: seq<State>, steps: seq<(Tid, Action)>, i: nat)
    requires IsRun(trace, steps) && i < |trace|
    ensures Inv(trace[i])
  {
    if i > 0 {
      RunKeepsInv(trace, steps, i - 1);
      StepKeepsInv(trace[i - 1], steps[i - 1].0, steps[i - 1].1);
    } else {
      assert Waiters(trace[0].pcs) == {};
    }
  }

  /** In every reachable state a sleeper whose word has changed has somebody who still owes it a wakeup. */
  lemma SleeperIsOwedWakeup(trace: seq<State>, steps: seq<(Tid, Action)>, i: nat, t: Tid)
    requires IsRun(trace, steps) && i < |trace| && t in trace[i].pcs && trace[i].pcs[t].Sleeping?
    ensures trace[i].pcs[t].x in trace[i].words
    ensures trace[i].words[trace[i].pcs[t].x] != trace[i].pcs[t].was || trace[i].pcs[t].event != trace[i].proxy ==>
            exists w :: w in trace[i].pcs && Owes(trace[i].pcs[w])
  {
    RunKeepsInv(trace, steps, i);
  }

  /** What a thread that owes a wakeup does next. */
  function NextDuty(pc: Pc): Action {
    if pc.Notifying? then AddToProxy else if pc.Counting? then ReadCount else CallFutexWake
  }

  /** Left alone, it wakes every sleeper within three steps. */
  lemma {:induction false} DutyWakes(s: State, w: Tid, t: Tid)
    requires Inv(s) && w in s.pcs && Owes(s.pcs[w]) && t in s.pcs && s.pcs[t].Sleeping?
    ensures Enabled(s, w, NextDuty(s.pcs[w]))
    ensures var s' := Next(s, w, NextDuty(s.pcs[w]));
            if s.pcs[w].Waking? then s'.pcs[t].Rechecking?
            else t in s'.pcs && s'.pcs[t].Sleeping? && w in s'.pcs && Owes(s'.pcs[w])
                 && Remaining(s'.pcs[w]) < Remaining(s.pcs[w])
  {
    SleepersAreCounted(s, t);
  }

  function Remaining(pc: Pc): nat {
    if pc.Notifying? then 3 else if pc.Counting? then 2 else if pc.Waking? then 1 else 0
  }

  /** The state when thread `w` has done all it owes. */
  ghost function Discharge(s: State, w: Tid): State
    requires w in s.pcs
    decreases Remaining(s.pcs[w])
  {
    if !Owes(s.pcs[w]) then s else Discharge(Next(s, w, NextDuty(s.pcs[w])), w)
  }

  lemma {:induction false} DischargeWakes(s: State, w: Tid, t: Tid)
    requires Inv(s) && w in s.pcs && Owes(s.pcs[w]) && t in s.pcs && s.pcs[t].Sleeping?
    ensures t in Discharge(s, w).pcs && !Discharge(s, w).pcs[t].Sleeping?
    decreases Remaining(s.pcs[w])
  {
    DutyWakes(s, w, t);
    var s' := Next(s, w, NextDuty(s.pcs[w]));
    if !s.pcs[w].Waking? {
      StepKeepsInv(s, w, NextDuty(s.pcs[w]));
      DischargeWakes(s', w, t);
    }
  }

  /** Nobody sleeps on a changed word once every notifier has finished. */
  lemma QuietSleepersAreRight(trace: seq<State>, steps: seq<(Tid, Action)>, i: nat, t: Tid)
    requires IsRun(trace, steps) && i < |trace| && t in trace[i].pcs && trace[i].pcs[t].Sleeping?
    requires forall w :: w in trace[i].pcs ==> !Owes(trace[i].pcs[w])
    ensures trace[i].pcs[t].x in trace[i].words && trace[i].words[trace[i].pcs[t].x] == trace[i].pcs[t].was
    ensures trace[i].pcs[t].event == trace[i].proxy
    ensures trace[i].waiterCount == |Waiters(trace[i].pcs)|
  {
    RunKeepsInv(trace, steps, i);
  }

  // ----- what the loop does not promise -----

  /** A waiter in its loop whose event has passed. */
  ghost predicate Stale(s: State, t: Tid) {
    && t in s.pcs && (s.pcs[t].Entering? || s.pcs[t].Calling? || s.pcs[t].Rechecking?)
    && s.pcs[t].event < s.proxy
  }

  lemma StaleStep(s: State, u: Tid, a: Action, t: Tid)
    requires Stale(s, t) && Enabled(s, u, a)
    ensures var s' := Next(s, u, a);
            || (Stale(s', t) && s'.pcs[t].x == s.pcs[t].x && s'.pcs[t].was == s.pcs[t].was
                && s'.pcs[t].event == s.pcs[t].event)
            || (u == t && a.Recheck? && s'.pcs[t].Leaving? && s.words[s.pcs[t].x] != s.pcs[t].was)
  {
  }

  /**
   The event is loaded once, before the loop.  When it has passed, as it does with every
   notification for any word on the same proxy, the waiter never sleeps again: it stays in
   its loop, awake, until it finds another value.
   */
  lemma {:induction false} StaleNeverSleeps(trace: seq<State>, steps: seq<(Tid, Action)>, i: nat, j: nat, t: Tid)
    requires IsRun(trace, steps) && i <= j < |trace| && Stale(trace[i], t)
    ensures (forall k :: i <= k <= j ==> Stale(trace[k], t)) || LeftBetween(trace, i, j, t)
    decreases j
  {
    if i < j {
      StaleNeverSleeps(trace, steps, i, j - 1, t);
      if Stale(trace[j - 1], t) { StaleStep(trace[j - 1], steps[j - 1].0, steps[j - 1].1, t); }
      if !Stale(trace[j], t) && (forall k :: i <= k < j ==> Stale(trace[k], t)) {
        assert LeftAt(trace, i, j, t);
      } else if LeftBetween(trace, i, j - 1, t) {
        var k :| i < k <= j - 1 && LeftAt(trace, i, k, t);
        assert LeftAt(trace, i, k, t);
      }
    }
  }

  /** The first state after `i` in which the thread is out of the loop; it has found another value. */
  ghost predicate LeftAt(trace: seq<State>, i: nat, k: nat, t: Tid)
    requires i < k < |trace|
  {
    && (forall m :: i <= m < k ==> Stale(trace[m], t))
    && t in trace[k].pcs && trace[k].pcs[t].Leaving?
    && trace[k - 1].pcs[t].x in trace[k - 1].words
    && trace[k - 1].words[trace[k - 1].pcs[t].x] != trace[k - 1].pcs[t].was
  }

  ghost predicate LeftBetween(trace: seq<State>, i: nat, j: nat, t: Tid)
    requires i <= j < |trace|
  {
    exists k: nat :: i < k <= j && LeftAt(trace, i, k, t)
  }

  /** Meanwhile it spins: as long as the value is the old one, two steps lead back to the same state. */
  lemma StaleSpins(s: State, t: Tid)
    requires Stale(s, t) && s.pcs[t].Calling? && s.pcs[t].x in s.words && s.words[s.pcs[t].x] == s.pcs[t].was
    ensures Enabled(s, t, CallFutexWait) && Enabled(Next(s, t, CallFutexWait), t, Recheck)
    ensures Next(Next(s, t, CallFutexWait), t, Recheck) == s
  {
    var s' := Next(Next(s, t, CallFutexWait), t, Recheck);
    assert s'.pcs == s.pcs;
  }

  /** A notification for any word makes every waiter on the proxy stale. */
  lemma NotificationMakesStale(s: State, u: Tid, t: Tid)
    requires Inv(s) && Enabled(s, u, AddToProxy)
    requires t in s.pcs && (s.pcs[t].Entering? || s.pcs[t].Calling? || s.pcs[t].Rechecking?)
    ensures Stale(Next(s, u, AddToProxy), t)
  {
  }

  /** Some step from `i` up to `j` has added to the proxy. */
  ghost predicate Notified(steps: seq<(Tid, Action)>, i: nat, j: nat)
    requires j <= |steps|
  {
    exists k :: i <= k < j && steps[k].1.AddToProxy?
  }

  lemma {:induction false} ProxyMoves(trace: seq<State>, steps: seq<(Tid, Action)>, i: nat, j: nat)
    requires IsRun(trace, steps) && i <= j < |trace|
    ensures trace[i].proxy <= trace[j].proxy
    ensures trace[i].proxy < trace[j].proxy <==> Notified(steps, i, j)
    decreases j
  {
    if i < j {
      ProxyMoves(trace, steps, i, j - 1);
      if steps[j - 1].1.AddToProxy? { assert Notified(steps, i, j); }
    }
  }

  /** While a waiter has an event, it is the proxy of the moment it was loaded. */
  lemma {:induction false} EventWasLoaded(trace: seq<State>, steps: seq<(Tid, Action)>, i: nat, j: nat, t: Tid)
    requires IsRun(trace, steps) && i < j < |trace| && steps[i] == (t, LoadEvent)
    requires forall k :: i < k < j ==> steps[k] != (t, LoadEvent)
    ensures t in trace[j].pcs && (HasEvent(trace[j].pcs[t]) ==> trace[j].pcs[t].event == trace[i].proxy)
    decreases j
  {
    if i + 1 < j {
      EventWasLoaded(trace, steps, i, j - 1, t);
      EventStep(trace[j - 1], steps[j - 1].0, steps[j - 1].1, t);
    }
  }

  /** Only loading gives a thread an event. */
  lemma EventStep(s: State, u: Tid, a: Action, t: Tid)
    requires Enabled(s, u, a) && t in s.pcs && (u, a) != (t, LoadEvent)
    ensures var s' := Next(s, u, a);
            t in s'.pcs &&
            (HasEvent(s'.pcs[t]) ==> HasEvent(s.pcs[t]) && s'.pcs[t].event == s.pcs[t].event)
  {
  }

  /** A waiter is stale if and only if somebody has added to the proxy since it loaded its event. */
  lemma StaleSinceNotified(trace: seq<State>, steps: seq<(Tid, Action)>, i: nat, j: nat, t: Tid)
    requires IsRun(trace, steps) && i < j < |trace| && steps[i] == (t, LoadEvent)
    requires forall k :: i < k < j ==> steps[k] != (t, LoadEvent)
    requires var pc := trace[j].pcs; t in pc && (pc[t].Entering? || pc[t].Calling? || pc[t].Rechecking?)
    ensures Stale(trace[j], t) <==> Notified(steps, i, j)
  {
    EventWasLoaded(trace, steps, i, j, t);
    ProxyMoves(trace, steps, i, j);
  }

  /** A call with a current event sleeps: the kernel compares it with the proxy. */
  lemma CallSleeps(trace: seq<State>, steps: seq<(Tid, Action)>, i: nat, j: nat, t: Tid)
    requires IsRun(trace, steps) && i < j < |steps| && steps[i] == (t, LoadEvent) && steps[j] == (t, CallFutexWait)
    requires forall k :: i < k < j ==> steps[k] != (t, LoadEvent)
    ensures t in trace[j + 1].pcs && (trace[j + 1].pcs[t].Sleeping? <==> !Notified(steps, i, j))
  {
    EventWasLoaded(trace, steps, i, j, t);
    ProxyMoves(trace, steps, i, j);
    assert trace[j + 1] == Next(trace[j], t, CallFutexWait);
  }

  // ----- what wait promises -----

  /** In `wait(x, was)`, with the value not yet found changed. */
  predicate Awaits(pc: Pc, x: Addr, was: Word) { (pc.LoadingEvent? || HasEvent(pc)) && pc.x == x && pc.was == was }

  predicate IsLoad(a: Action) { a.LoadValue? || a.Recheck? }

  /** Step `k` is a load of the word by `t`, and it finds another value than `was`. */
  ghost predicate FindsOther(trace: seq<State>, steps: seq<(Tid, Action)>, k: nat, t: Tid, x: Addr, was: Word)
    requires |trace| == |steps| + 1 && k < |steps|
  {
    steps[k].0 == t && IsLoad(steps[k].1) && x in trace[k].words && trace[k].words[x] != was
  }

  /** The last load of `t` before `j` is after `i` and has found another value. */
  ghost predicate HasFound(trace: seq<State>, steps: seq<(Tid, Action)>, i: nat, j: nat, t: Tid, x: Addr, was: Word)
    requires |trace| == |steps| + 1 && j <= |steps|
  {
    exists k :: i < k < j && FindsOther(trace, steps, k, t, x, was)
                && forall l :: k < l < j ==> !(steps[l].0 == t && IsLoad(steps[l].1))
  }

  /** A load decides: the thread goes on waiting if and only if the word still has the old value. */
  lemma LoadDecides(s: State, t: Tid, a: Action, x: Addr, was: Word)
    requires Enabled(s, t, a) && IsLoad(a) && Awaits(s.pcs[t], x, was)
    ensures x in s.words && t in Next(s, t, a).pcs
    ensures Awaits(Next(s, t, a).pcs[t], x, was) <==> s.words[x] == was
    ensures s.words[x] != was ==> Next(s, t, a).pcs[t] == if a.LoadValue? then Idle else Leaving
  {
  }

  lemma AwaitStep(s: State, u: Tid, a: Action, t: Tid, x: Addr, was: Word)
    requires Enabled(s, u, a) && t in s.pcs && Awaits(s.pcs[t], x, was) && !(u == t && IsLoad(a))
    ensures t in Next(s, u, a).pcs && Awaits(Next(s, u, a).pcs[t], x, was)
  {
  }

  lemma LeaveStep(s: State, u: Tid, a: Action, t: Tid)
    requires Enabled(s, u, a) && t in s.pcs && s.pcs[t].Leaving?
    ensures var pc := Next(s, u, a).pcs; t in pc && (pc[t].Leaving? || pc[t].Idle?) && !(u == t && IsLoad(a))
  {
  }

  /** Until it is idle again, a waiting thread waits, or has found another value with its last load. */
  lemma {:induction false} WaitsOrHasFound(trace: seq<State>, steps: seq<(Tid, Action)>, i: nat, j: nat, t: Tid,
                                           x: Addr, was: Word)
    requires IsRun(trace, steps) && i < j < |trace| && steps[i] == (t, StartWait(x, was))
    requires forall k :: i < k < j ==> t in trace[k].pcs && !trace[k].pcs[t].Idle?
    ensures t in trace[j].pcs
    ensures Awaits(trace[j].pcs[t], x, was)
            || ((trace[j].pcs[t].Leaving? || trace[j].pcs[t].Idle?) && HasFound(trace, steps, i, j, t, x, was))
    decreases j
  {
    if i + 1 < j {
      WaitsOrHasFound(trace, steps, i, j - 1, t, x, was);
      var s, u, a := trace[j - 1], steps[j - 1].0, steps[j - 1].1;
      if !Awaits(s.pcs[t], x, was) {
        LeaveStep(s, u, a, t);
        FoundStays(trace, steps, i, j - 1, t, x, was);
      } else if u == t && IsLoad(a) {
        LoadDecides(s, t, a, x, was);
        assert s.words[x] != was ==> FindsOther(trace, steps, j - 1, t, x, was);
      } else {
        AwaitStep(s, u, a, t, x, was);
      }
    }
  }

  lemma FoundStays(trace: seq<State>, steps: seq<(Tid, Action)>, i: nat, j: nat, t: Tid, x: Addr, was: Word)
    requires |trace| == |steps| + 1 && j < |steps| && HasFound(trace, steps, i, j, t, x, was)
    requires !(steps[j].0 == t && IsLoad(steps[j].1))
    ensures HasFound(trace, steps, i, j + 1, t, x, was)
  {
    var k :| i < k < j && FindsOther(trace, steps, k, t, x, was)
             && forall l :: k < l < j ==> !(steps[l].0 == t && IsLoad(steps[l].1));
    assert i < k < j + 1;
  }

  /** `wait` returns only after it has found another value than the old one, with its last load of the word. */
  lemma WaitReturnsAnotherValue(trace: seq<State>, steps: seq<(Tid, Action)>, i: nat, j: nat, t: Tid,
                                x: Addr, was: Word)
    requires IsRun(trace, steps) && i < j < |trace| && steps[i] == (t, StartWait(x, was))
    requires forall k :: i < k < j ==> t in trace[k].pcs && !trace[k].pcs[t].Idle?
    requires t in trace[j].pcs && trace[j].pcs[t].Idle?
    ensures HasFound(trace, steps, i, j, t, x, was)
  {
    WaitsOrHasFound(trace, steps, i, j, t, x, was);
  }

  /** Words change by stores only, and hold what was stored last. */
  lemma {:induction false} WordIsLastStored(trace: seq<State>, steps: seq<(Tid, Action)>, i: nat, j: nat,
                                            x: Addr, v: Word)
    requires IsRun(trace, steps) && i < j < |trace| && steps[i].1 == Store(x, v)
    requires forall k :: i < k < j ==> !(steps[k].1.Store? && steps[k].1.x == x)
    ensures x in trace[j].words && trace[j].words[x] == v
    decreases j
  {
    if i + 1 < j { WordIsLastStored(trace, steps, i, j - 1, x, v); }
  }
}
