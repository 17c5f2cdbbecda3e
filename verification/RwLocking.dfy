/** The readers-writer lock: two counters behind a mutex and two condition
    variables. Each critical section is one step; a thread that finds its
    condition false goes to sleep in the same step, and checks again after a
    notification or a spurious wake-up. */
module RwLocking {

  type Thread = nat

  datatype Place =
    | Outside
    // Inside lock: about to check the condition; asleep; holding.
    | WantWrite
    | SleepWrite
    | Writing
    // Inside lock_r likewise.
    | WantRead
    | SleepRead
    | Reading

  datatype State = State(readers: int, writer: int, at: map<Thread, Place>)

  datatype Action = CallLock | CheckWrite | Unlock | CallLockR | CheckRead | UnlockR | WakeUp

  datatype Outcome = Next(state: State) | Abort

  /** The step a thread may take where it is: calls are matched. */
  predicate Enabled(s: State, t: Thread, a: Action) {
    t in s.at &&
    match a
    case CallLock => s.at[t] == Outside
    case CheckWrite => s.at[t] == WantWrite
    case Unlock => s.at[t] == Writing
    case CallLockR => s.at[t] == Outside
    case CheckRead => s.at[t] == WantRead
    case UnlockR => s.at[t] == Reading
    case WakeUp => s.at[t] == SleepWrite || s.at[t] == SleepRead
  }

  function NotifyWriters(at: map<Thread, Place>): (r: map<Thread, Place>)
    ensures r.Keys == at.Keys
  {
    map t | t in at :: if at[t] == SleepWrite then WantWrite else at[t]
  }

  function NotifyReaders(at: map<Thread, Place>): (r: map<Thread, Place>)
    ensures r.Keys == at.Keys
  {
    map t | t in at :: if at[t] == SleepRead then WantRead else at[t]
  }

  function Step(s: State, t: Thread, a: Action): Outcome
    requires t in s.at
  {
    match a
    case CallLock => Next(s.(at := s.at[t := WantWrite]))
    case CheckWrite =>
      if s.writer == 0 && s.readers == 0 then
        var s' := s.(writer := s.writer + 1, at := s.at[t := Writing]);
        if s'.writer != 1 || s'.readers != 0 then Abort else Next(s')
      else
        Next(s.(at := s.at[t := SleepWrite]))
    case Unlock =>
      var s' := s.(writer := s.writer - 1, at := s.at[t := Outside]);
      if s'.writer != 0 then Abort
      else Next(s'.(at := NotifyReaders(NotifyWriters(s'.at))))
    case CallLockR => Next(s.(at := s.at[t := WantRead]))
    case CheckRead =>
      if s.writer == 0 then Next(s.(readers := s.readers + 1, at := s.at[t := Reading]))
      else Next(s.(at := s.at[t := SleepRead]))
    case UnlockR =>
      if s.readers == 0 then Abort
      else
        var s' := s.(readers := s.readers - 1, at := s.at[t := Outside]);
        if s'.readers == 0 then Next(s'.(at := NotifyWriters(s'.at))) else Next(s')
    case WakeUp => Next(s.(at := s.at[t := if s.at[t] == SleepWrite then WantWrite else WantRead]))
  }

  /** The threads at a place. */
  function In(at: map<Thread, Place>, p: Place): set<Thread> {
    set t | t in at && at[t] == p
  }

  /** The counters count the holders; a writer is alone; whoever sleeps sleeps
      because of a holder. */
  ghost predicate Inv(s: State) {
    && s.writer == |In(s.at, Writing)| <= 1
    && s.readers == |In(s.at, Reading)|
    && (s.writer == 1 ==> s.readers == 0)
    && (In(s.at, SleepWrite) != {} ==> s.writer != 0 || s.readers != 0)
    && (In(s.at, SleepRead) != {} ==> s.writer != 0)
  }

  /** The four places the invariant speaks about. */
  datatype Census = Census(
    writing: set<Thread>,
    reading: set<Thread>,
    sleepWrite: set<Thread>,
    sleepRead: set<Thread>)

  function CensusOf(at: map<Thread, Place>): Census {
    Census(In(at, Writing), In(at, Reading), In(at, SleepWrite), In(at, SleepRead))
  }

  function Put(here: bool, s: set<Thread>, t: Thread): set<Thread> {
    if here then s + {t} else s - {t}
  }

  /** One thread moves. */
  lemma CensusMoved(at: map<Thread, Place>, t: Thread, p: Place)
    requires t in at
    ensures var c := CensusOf(at);
            CensusOf(at[t := p]) == Census(
              Put(p == Writing, c.writing, t), Put(p == Reading, c.reading, t),
              Put(p == SleepWrite, c.sleepWrite, t), Put(p == SleepRead, c.sleepRead, t))
  {
  }

  /** Notified threads are no longer asleep; holders stay where they are. */
  lemma CensusNotified(at: map<Thread, Place>)
    ensures CensusOf(NotifyWriters(at)) == CensusOf(at).(sleepWrite := {})
    ensures CensusOf(NotifyReaders(at)) == CensusOf(at).(sleepRead := {})
  {
    var c, w, r := CensusOf(at), CensusOf(NotifyWriters(at)), CensusOf(NotifyReaders(at));
    assert w.writing == c.writing && w.reading == c.reading && w.sleepRead == c.sleepRead && w.sleepWrite == {};
    assert r.writing == c.writing && r.reading == c.reading && r.sleepWrite == c.sleepWrite && r.sleepRead == {};
  }

  lemma SoleMember(s: set<Thread>, t: Thread)
    requires |s| <= 1 && t in s
    ensures s == {t}
  {
    assert |s - {t}| == |s| - 1;
    assert s == (s - {t}) + {t};
  }

  lemma UnlockKeeps(s: State, t: Thread)
    requires Inv(s) && Enabled(s, t, Unlock)
    ensures Step(s, t, Unlock).Next? && Inv(Step(s, t, Unlock).state)
  {
    assert t in In(s.at, Writing);
    SoleMember(In(s.at, Writing), t);
    CensusMoved(s.at, t, Outside);
    CensusNotified(s.at[t := Outside]);
    CensusNotified(NotifyWriters(s.at[t := Outside]));
    assert CensusOf(s.at[t := Outside]).writing == {};
    assert t !in In(s.at, Reading);
  }

  lemma UnlockReaderKeeps(s: State, t: Thread)
    requires Inv(s) && Enabled(s, t, UnlockR)
    ensures Step(s, t, UnlockR).Next? && Inv(Step(s, t, UnlockR).state)
  {
    assert t in In(s.at, Reading) && t !in In(s.at, Writing) && t !in In(s.at, SleepRead);
    CensusMoved(s.at, t, Outside);
    CensusNotified(s.at[t := Outside]);
    var c := CensusOf(s.at[t := Outside]);
    assert c.writing == In(s.at, Writing) && c.sleepRead == In(s.at, SleepRead);
    assert |c.reading| == |In(s.at, Reading)| - 1;
  }

  lemma CheckWriteKeeps(s: State, t: Thread)
    requires Inv(s) && Enabled(s, t, CheckWrite)
    ensures Step(s, t, CheckWrite).Next? && Inv(Step(s, t, CheckWrite).state)
  {
    StayPut(s.at, t);
    CensusMoved(s.at, t, if s.writer == 0 && s.readers == 0 then Writing else SleepWrite);
  }

  lemma CheckReadKeeps(s: State, t: Thread)
    requires Inv(s) && Enabled(s, t, CheckRead)
    ensures Step(s, t, CheckRead).Next? && Inv(Step(s, t, CheckRead).state)
  {
    assert t !in In(s.at, Reading);
    StayPut(s.at, t);
    CensusMoved(s.at, t, if s.writer == 0 then Reading else SleepRead);
  }

  /** Who holds nothing and does not sleep is in none of the four places. */
  lemma StayPut(at: map<Thread, Place>, t: Thread)
    requires t in at && at[t] != Writing && at[t] != Reading
    ensures In(at, Writing) - {t} == In(at, Writing)
    ensures In(at, Reading) - {t} == In(at, Reading)
    ensures In(at, SleepWrite) - {t} <= In(at, SleepWrite)
    ensures In(at, SleepRead) - {t} <= In(at, SleepRead)
  {
  }

  lemma OtherKeeps(s: State, t: Thread, a: Action)
    requires Inv(s) && Enabled(s, t, a) && (a == CallLock || a == CallLockR || a == WakeUp)
    ensures Step(s, t, a).Next? && Inv(Step(s, t, a).state)
  {
    CensusMoved(s.at, t, WantWrite);
    CensusMoved(s.at, t, WantRead);
    StayPut(s.at, t);
  }

  /** No step of a matched call aborts, and every one keeps the invariant. */
  lemma StepKeeps(s: State, t: Thread, a: Action)
    requires Inv(s) && Enabled(s, t, a)
    ensures Step(s, t, a).Next? && Inv(Step(s, t, a).state)
  {
    match a
    case Unlock => UnlockKeeps(s, t);
    case UnlockR => UnlockReaderKeeps(s, t);
    case CheckWrite => CheckWriteKeeps(s, t);
    case CheckRead => CheckReadKeeps(s, t);
    case _ => OtherKeeps(s, t, a);
  }

  // ---- Runs ----

  /** Nobody has called yet. */
  predicate Initial(s: State) {
    s.readers == 0 && s.writer == 0 && forall t :: t in s.at ==> s.at[t] == Outside
  }

  /** The state after a run of matched calls, in any interleaving. */
  ghost predicate Runs(s: State, run: seq<(Thread, Action)>, s': State)
    decreases |run|
  {
    if run == [] then s' == s
    else
      var (t, a) := run[0];
      && Enabled(s, t, a)
      && Step(s, t, a).Next?
      && Runs(Step(s, t, a).state, run[1..], s')
  }

  lemma {:induction false} RunKeeps(s: State, run: seq<(Thread, Action)>, s': State)
    requires Inv(s) && Runs(s, run, s')
    ensures Inv(s')
    decreases |run|
  {
    if run != [] {
      StepKeeps(s, run[0].0, run[0].1);
      RunKeeps(Step(s, run[0].0, run[0].1).state, run[1..], s');
    }
  }

  ghost predicate Reachable(s: State) {
    exists s0, run :: Initial(s0) && Runs(s0, run, s)
  }

  lemma ReachableInv(s: State)
    requires Reachable(s)
    ensures Inv(s)
  {
    var s0, run :| Initial(s0) && Runs(s0, run, s);
    assert CensusOf(s0.at) == Census({}, {}, {}, {});
    RunKeeps(s0, run, s);
  }

  /** At most one thread writes, nobody reads meanwhile, the counters are the
      numbers of holders, and no step of a matched call aborts. */
  lemma Exclusion(s: State)
    requires Reachable(s)
    ensures forall t, u :: t in In(s.at, Writing) && u in In(s.at, Writing) ==> t == u
    ensures In(s.at, Writing) != {} ==> In(s.at, Reading) == {}
    ensures s.writer == |In(s.at, Writing)| && s.readers == |In(s.at, Reading)|
    ensures forall t, a :: Enabled(s, t, a) ==> Step(s, t, a).Next?
  {
    ReachableInv(s);
    forall t, u | t in In(s.at, Writing) && u in In(s.at, Writing) ensures t == u {
      SoleMember(In(s.at, Writing), t);
    }
    forall t, a | Enabled(s, t, a) ensures Step(s, t, a).Next? {
      StepKeeps(s, t, a);
    }
  }

  /** Whoever sleeps waits for a thread that holds the lock and will notify it. */
  lemma NoLostWakeup(s: State)
    requires Reachable(s)
    ensures In(s.at, SleepWrite) != {} ==> In(s.at, Writing) != {} || In(s.at, Reading) != {}
    ensures In(s.at, SleepRead) != {} ==> In(s.at, Writing) != {}
  {
    ReachableInv(s);
  }

  /** A thread takes the lock with its next step. */
  predicate Enters(s: State, t: Thread, a: Action) {
    && Enabled(s, t, a)
    && Step(s, t, a).Next?
    && t in Step(s, t, a).state.at
    && Step(s, t, a).state.at[t] in {Writing, Reading}
  }

  /** No deadlock: when some thread is inside a call, either a holder can
      release, or a thread that wants the lock gets it at its next check. */
  lemma Progress(s: State, t: Thread)
    requires Reachable(s) && t in s.at && s.at[t] != Outside
    ensures || (exists u :: Enabled(s, u, Unlock) || Enabled(s, u, UnlockR))
            || (exists u, a :: Enters(s, u, a))
  {
    ReachableInv(s);
    assert t in In(s.at, s.at[t]);
    if u :| u in In(s.at, Writing) {
      assert Enabled(s, u, Unlock);
    } else if u :| u in In(s.at, Reading) {
      assert Enabled(s, u, UnlockR);
    } else if s.at[t] == WantWrite {
      assert Enters(s, t, CheckWrite);
    } else {
      assert Enters(s, t, CheckRead);
    }
  }

  /** Without the matching, unlock aborts exactly when nobody writes, and
      unlock_r exactly when nobody reads. */
  lemma AbortsExactly(s: State, t: Thread)
    requires Reachable(s) && t in s.at
    ensures Step(s, t, Unlock).Abort? <==> In(s.at, Writing) == {}
    ensures Step(s, t, UnlockR).Abort? <==> In(s.at, Reading) == {}
  {
    ReachableInv(s);
  }

  // ---- Sides ----

  /** What a thread has called for and not yet released. */
  datatype Side = Neither | Write | Read

  function SideOf(p: Place): Side {
    match p
    case Outside => Neither
    case WantWrite | SleepWrite | Writing => Write
    case WantRead | SleepRead | Reading => Read
  }

  /** The side a thread has changed to by its calls and releases in a run. */
  function SideAfter(side: Side, run: seq<(Thread, Action)>, u: Thread): Side
    decreases |run|
  {
    if run == [] then side
    else
      var (t, a) := run[0];
      SideAfter(if t == u then Turned(side, a) else side, run[1..], u)
  }

  function Turned(side: Side, a: Action): Side {
    match a
    case CallLock => Write
    case CallLockR => Read
    case Unlock | UnlockR => Neither
    case CheckWrite | CheckRead | WakeUp => side
  }

  /** Only its own calls and releases change the side of a thread: whoever waits
      for a read lock is never given a write lock, whatever is notified. A
      release needs the matching lock, and a thread that is woken checks again. */
  lemma SideKept(s: State, t: Thread, a: Action, u: Thread)
    requires Inv(s) && Enabled(s, t, a) && u in s.at
    ensures Step(s, t, a).Next? && Step(s, t, a).state.at.Keys == s.at.Keys
    ensures SideOf(Step(s, t, a).state.at[u])
         == if u == t then Turned(SideOf(s.at[u]), a) else SideOf(s.at[u])
    ensures a == WakeUp || a == CallLock || a == CallLockR ==>
              Step(s, t, a).state.at[t] in {WantWrite, WantRead}
    ensures a == CheckWrite || a == CheckRead ==> Step(s, t, a).state.at[t] !in {WantWrite, WantRead}
    // Holders and callers are moved by no other thread.
    ensures u != t && s.at[u] !in {SleepWrite, SleepRead} ==> Step(s, t, a).state.at[u] == s.at[u]
  {
    StepKeeps(s, t, a);
  }

  /** The same over every run: what a thread holds or waits for is what it last
      called for. */
  lemma {:induction false} SidesOverRuns(s: State, run: seq<(Thread, Action)>, s': State, u: Thread)
    requires Inv(s) && Runs(s, run, s') && u in s.at
    ensures s'.at.Keys == s.at.Keys
    ensures SideOf(s'.at[u]) == SideAfter(SideOf(s.at[u]), run, u)
    decreases |run|
  {
    if run != [] {
      var (t, a) := run[0];
      StepKeeps(s, t, a);
      SideKept(s, t, a, u);
      SidesOverRuns(Step(s, t, a).state, run[1..], s', u);
    }
  }

  // ---- Sleepers ----

  predicate Free(s: State) {
    s.writer == 0 && s.readers == 0
  }

  /** A step of another thread wakes a sleeping writer exactly when it leaves the
      lock free. */
  lemma WriterWoken(s: State, t: Thread, a: Action, w: Thread)
    requires Inv(s) && Enabled(s, t, a) && t != w && w in s.at && s.at[w] == SleepWrite
    ensures Step(s, t, a).Next? && w in Step(s, t, a).state.at
    ensures Step(s, t, a).state.at[w] == if Free(Step(s, t, a).state) then WantWrite else SleepWrite
  {
    StepKeeps(s, t, a);
    assert w in In(s.at, SleepWrite);
  }

  /** A step of another thread wakes a sleeping reader exactly when it leaves the
      lock without a writer. */
  lemma ReaderWoken(s: State, t: Thread, a: Action, r: Thread)
    requires Inv(s) && Enabled(s, t, a) && t != r && r in s.at && s.at[r] == SleepRead
    ensures Step(s, t, a).Next? && r in Step(s, t, a).state.at
    ensures Step(s, t, a).state.at[r] == if Step(s, t, a).state.writer == 0 then WantRead else SleepRead
  {
    StepKeeps(s, t, a);
    assert r in In(s.at, SleepRead);
  }

  /** At no moment of the run is the lock free. */
  ghost predicate HeldThroughout(s: State, run: seq<(Thread, Action)>)
    decreases |run|
  {
    && !Free(s)
    && (run != [] && run[0].0 in s.at && Step(s, run[0].0, run[0].1).Next? ==>
         HeldThroughout(Step(s, run[0].0, run[0].1).state, run[1..]))
  }

  /** A thread about to check the condition stays there until it does. */
  lemma {:induction false} CheckerWaits(s: State, run: seq<(Thread, Action)>, s': State, w: Thread)
    requires Runs(s, run, s') && w in s.at && s.at[w] == WantWrite
    requires forall i :: 0 <= i < |run| ==> run[i].0 != w
    ensures w in s'.at && s'.at[w] == WantWrite
    decreases |run|
  {
    if run != [] {
      var m := Step(s, run[0].0, run[0].1).state;
      assert run[0].0 != w;
      assert w in m.at && m.at[w] == WantWrite;
      CheckerWaits(m, run[1..], s', w);
    }
  }

  /** Over any run in which it takes no step itself, a sleeping writer is still
      asleep in the end exactly when the lock was never free; otherwise it is
      about to check again. */
  lemma {:induction false} WriterSleepsWhileHeld(s: State, run: seq<(Thread, Action)>, s': State, w: Thread)
    requires Inv(s) && Runs(s, run, s') && w in s.at && s.at[w] == SleepWrite
    requires forall i :: 0 <= i < |run| ==> run[i].0 != w
    ensures w in s'.at && s'.at[w] == if HeldThroughout(s, run) then SleepWrite else WantWrite
    decreases |run|
  {
    assert w in In(s.at, SleepWrite);
    if run != [] {
      var (t, a) := run[0];
      var m := Step(s, t, a).state;
      assert t != w;
      StepKeeps(s, t, a);
      WriterWoken(s, t, a, w);
      if Free(m) {
        CheckerWaits(m, run[1..], s', w);
      } else {
        WriterSleepsWhileHeld(m, run[1..], s', w);
      }
    }
  }

  // ---- Starvation ----

  lemma {:induction false} RunsAppend(s: State, a: seq<(Thread, Action)>, m: State, b: seq<(Thread, Action)>, s': State)
    requires Runs(s, a, m) && Runs(m, b, s')
    ensures Runs(s, a + b, s')
    decreases |a|
  {
    if a == [] {
      assert a + b == b;
    } else {
      RunsAppend(Step(s, a[0].0, a[0].1).state, a[1..], m, b, s');
      assert (a + b)[1..] == a[1..] + b;
    }
  }

  /** `a` reads, `b` does not, and `w` sleeps. */
  predicate Shadowed(s: State, w: Thread, a: Thread, b: Thread) {
    && w != a && w != b && a != b && {w, a, b} <= s.at.Keys
    && s.writer == 0 && s.readers == 1
    && s.at[w] == SleepWrite && s.at[a] == Reading && s.at[b] == Outside
  }

  /** `b` calls lock_r and gets it; then `a` calls unlock_r. */
  function Turn(a: Thread, b: Thread): seq<(Thread, Action)> {
    [(b, CallLockR), (b, CheckRead), (a, UnlockR)]
  }

  /** `n` turns, the two readers changing places after each. */
  function Turns(a: Thread, b: Thread, n: nat): seq<(Thread, Action)>
    decreases n
  {
    if n == 0 then [] else Turn(a, b) + Turns(b, a, n - 1)
  }

  /** Each of the turns is a turn: even ones release `a`, odd ones `b`. */
  lemma {:induction false} TurnsAlternate(a: Thread, b: Thread, n: nat, j: nat)
    requires j < n
    ensures |Turns(a, b, n)| == 3 * n
    ensures Turns(a, b, n)[3 * j..3 * j + 3] == if j % 2 == 0 then Turn(a, b) else Turn(b, a)
    decreases n
  {
    var rest := Turns(b, a, n - 1);
    if n > 1 {
      TurnsAlternate(b, a, n - 1, if j > 0 then j - 1 else 0);
    }
    if j > 0 {
      assert (Turn(a, b) + rest)[3 * j..3 * j + 3] == rest[3 * (j - 1)..3 * (j - 1) + 3];
    } else {
      assert (Turn(a, b) + rest)[0..3] == Turn(a, b);
    }
  }

  lemma TakeTurn(s: State, w: Thread, a: Thread, b: Thread) returns (s': State)
    requires Shadowed(s, w, a, b)
    ensures Runs(s, Turn(a, b), s') && Shadowed(s', w, b, a)
  {
    var s1 := Step(s, b, CallLockR).state;
    var s2 := Step(s1, b, CheckRead).state;
    s' := Step(s2, a, UnlockR).state;
    var run := Turn(a, b);
    assert run[1..] == [(b, CheckRead), (a, UnlockR)] && run[1..][1..] == [(a, UnlockR)];
    assert Runs(s2, [(a, UnlockR)], s');
    assert Runs(s1, run[1..], s');
  }

  /** There is no fairness: two readers that take turns, each releasing what it
      took, keep a writer asleep for as many turns as they like. */
  lemma {:induction false} WriterMayStarve(s: State, w: Thread, a: Thread, b: Thread, n: nat)
    returns (s': State)
    requires Shadowed(s, w, a, b)
    ensures Runs(s, Turns(a, b, n), s')
    ensures if n % 2 == 0 then Shadowed(s', w, a, b) else Shadowed(s', w, b, a)
    decreases n
  {
    if n == 0 {
      s' := s;
    } else {
      var m := TakeTurn(s, w, a, b);
      s' := WriterMayStarve(m, w, b, a, n - 1);
      RunsAppend(s, Turn(a, b), m, Turns(b, a, n - 1), s');
    }
  }

  lemma StarvationReachable() returns (s: State)
    ensures Reachable(s) && Shadowed(s, 0, 1, 2)
  {
    var s0 := State(0, 0, map[0 := Outside, 1 := Outside, 2 := Outside]);
    var s1 := Step(s0, 1, CallLockR).state;
    var s2 := Step(s1, 1, CheckRead).state;
    var s3 := Step(s2, 0, CallLock).state;
    s := Step(s3, 0, CheckWrite).state;
    assert Runs(s3, [(0, CheckWrite)], s);
    RunsAppend(s2, [(0, CallLock)], s3, [(0, CheckWrite)], s);
    RunsAppend(s1, [(1, CheckRead)], s2, [(0, CallLock)] + [(0, CheckWrite)], s);
    RunsAppend(s0, [(1, CallLockR)], s1, [(1, CheckRead)] + ([(0, CallLock)] + [(0, CheckWrite)]), s);
    assert Initial(s0);
  }

  // ---- The lock object ----

  /** The lock, with its critical sections as methods. Where each thread is,
      and so who sleeps on which condition variable, is the scheduler's part. */
  class RwLock {
    var readers: int
    var writer: int
    var at: map<Thread, Place>

    function View(): State
      reads this
    {
      State(readers, writer, at)
    }

    ghost predicate Valid()
      reads this
    {
      Inv(View())
    }

    constructor (threads: set<Thread>)
      ensures Valid() && Initial(View()) && at.Keys == threads
    {
      readers := 0;
      writer := 0;
      at := map t | t in threads :: Outside;
      new;
      assert CensusOf(at) == Census({}, {}, {}, {});
    }

    /** The section of lock between acquiring the mutex and releasing it, or
        going to sleep. */
    method CheckWrite(t: Thread) returns (entered: bool)
      requires Valid() && Enabled(View(), t, Action.CheckWrite)
      modifies this
      ensures Valid() && Step(old(View()), t, Action.CheckWrite) == Next(View())
      ensures entered <==> old(In(at, Writing) == {} && In(at, Reading) == {})
      ensures entered ==> In(at, Writing) == {t}
      ensures at == old(at)[t := if entered then Writing else SleepWrite]
      ensures readers == old(readers) && writer == (if entered then 1 else old(writer))
    {
      StepKeeps(View(), t, Action.CheckWrite);
      StayPut(at, t);
      CensusMoved(at, t, Writing);
      entered := writer == 0 && readers == 0;
      if entered {
        writer := writer + 1;
        // The source aborts when either fails.
        assert writer == 1;
        assert readers == 0;
        at := at[t := Writing];
      } else {
        at := at[t := SleepWrite];
      }
    }

    /** Releases the lock and wakes everybody. */
    method Unlock(t: Thread)
      requires Valid() && Enabled(View(), t, Action.Unlock)
      modifies this
      ensures Valid() && Step(old(View()), t, Action.Unlock) == Next(View())
      ensures In(at, Writing) == {} && In(at, SleepWrite) == {} && In(at, SleepRead) == {}
      ensures at.Keys == old(at).Keys
      // Everybody else stays on its side, awake.
      ensures forall u :: u in at ==>
                at[u] == if u == t then Outside
                         else if old(at)[u] == SleepWrite then WantWrite
                         else if old(at)[u] == SleepRead then WantRead
                         else old(at)[u]
      ensures readers == old(readers) && writer == 0
    {
      StepKeeps(View(), t, Action.Unlock);
      CensusNotified(at[t := Outside]);
      CensusNotified(NotifyWriters(at[t := Outside]));
      writer := writer - 1;
      // The source aborts when this fails.
      assert writer == 0;
      at := at[t := Outside];
      at := NotifyWriters(at);
      at := NotifyReaders(at);
    }

    /** The section of lock_r. */
    method CheckRead(t: Thread) returns (entered: bool)
      requires Valid() && Enabled(View(), t, Action.CheckRead)
      modifies this
      ensures Valid() && Step(old(View()), t, Action.CheckRead) == Next(View())
      ensures entered <==> old(In(at, Writing) == {})
      ensures entered ==> In(at, Reading) == old(In(at, Reading)) + {t}
      ensures at == old(at)[t := if entered then Reading else SleepRead]
      ensures readers == old(readers) + (if entered then 1 else 0) && writer == old(writer)
    {
      StepKeeps(View(), t, Action.CheckRead);
      CensusMoved(at, t, Reading);
      entered := writer == 0;
      if entered {
        // The source aborts when this fails.
        assert writer == 0;
        readers := readers + 1;
        at := at[t := Reading];
      } else {
        at := at[t := SleepRead];
      }
    }

    /** Releases a read lock; the last one wakes the writers. */
    method UnlockR(t: Thread)
      requires Valid() && Enabled(View(), t, Action.UnlockR)
      modifies this
      ensures Valid() && Step(old(View()), t, Action.UnlockR) == Next(View())
      ensures In(at, Reading) == old(In(at, Reading)) - {t}
      ensures In(at, Reading) == {} ==> In(at, SleepWrite) == {}
      ensures at.Keys == old(at).Keys
      ensures forall u :: u in at ==>
                at[u] == if u == t then Outside
                         else if readers == 0 && old(at)[u] == SleepWrite then WantWrite
                         else old(at)[u]
      ensures readers == old(readers) - 1 && writer == old(writer)
    {
      StepKeeps(View(), t, Action.UnlockR);
      CensusMoved(at, t, Outside);
      CensusNotified(at[t := Outside]);
      // The source aborts when this fails.
      assert readers != 0;
      readers := readers - 1;
      at := at[t := Outside];
      if readers == 0 {
        at := NotifyWriters(at);
      }
    }
  }
}
