/**
  Sessions and their IDs: accepting, resuming, reconnecting, stopping and releasing, in every interleaving.

  A session object is a handle. Its operations are the locked regions of module StratumSession; allocating and freeing
  an ID are the locked regions of module SessionIDs. A stop is two steps, the locked transition and later the release
  of the ID, with anything in between.
*/
module StratumSessionManager {
  import opened Bits
  import opened Byte32
  import opened SessionIDs
  import opened StratumSession
  import EthereumStride

  // ---- The system ----

  /** `workers` are the generations recorded by the session's workers; `releases` counts its `FreeSessionID` calls. */
  datatype Session = Session(
    sessionID: u32,
    life: Lifecycle,
    started: bool,
    releasing: bool,
    releases: nat,
    workers: seq<nat>)

  datatype System = System(ids: Ids, sessions: map<nat, Session>)

  function NewSession(sessionID: u32): Session {
    Session(sessionID, NEW, false, false, 0, [])
  }

  datatype Action =
    | Run
    | SpawnStop
    | Stop(spawned: nat)
    | Record
    | TryStop(worker: nat)
    | TryReconnect(worker: nat, connected: bool)
    | SwitchCoinType(worker: nat, connected: bool)

  datatype Step =
    | Accept(handle: nat)
    | Resume(handle: nat, sessionID: u32)
    | Release(handle: nat)
    | Act(handle: nat, action: Action)

  /** `Run` is called once on a new session. A stop runs only when it was spawned; a worker exists once it recorded. */
  predicate Enabled(x: Session, action: Action) {
    match action
    case Run => !x.started
    case SpawnStop => x.started
    case Stop(k) => k < |x.life.stops|
    case Record => x.started
    case TryStop(w) => w < |x.workers|
    case TryReconnect(w, _) => w < |x.workers|
    case SwitchCoinType(w, _) => w < |x.workers|
  }

  function After(x: Session, action: Action): Session
    requires Enabled(x, action)
  {
    match action
    case Run => x.(started := true, life := Ran(x.life))
    case SpawnStop => x.(life := StopSpawned(x.life))
    case Stop(k) =>
      x.(life := Stopped(x.life).(stops := x.life.stops[..k] + x.life.stops[k + 1..]),
         releasing := x.releasing || !x.life.stat.StatStopped?)
    case Record => x.(workers := x.workers + [x.life.generation])
    case TryStop(w) => x.(life := StopTried(x.life, Counter(x.workers[w])))
    case TryReconnect(w, connected) => x.(life := ReconnectTried(x.life, Counter(x.workers[w]), connected))
    case SwitchCoinType(w, connected) => x.(life := ReconnectTried(x.life, Counter(x.workers[w]), connected))
  }

  ghost predicate AcceptStep(s: System, handle: nat, t: System) {
    && handle !in s.sessions
    && if Full(s.ids) then t == s
       else
         exists ids, sessionID: u32 ::
           Allocates(s.ids, ids, sessionID) && t == System(ids, s.sessions[handle := NewSession(sessionID)])
  }

  /** `ResumeStratumSession` goes on with the session even when its ID was occupied. */
  ghost predicate ResumeStep(s: System, handle: nat, sessionID: u32, t: System) {
    && handle !in s.sessions
    && t == System(Resumed(s.ids, sessionID), s.sessions[handle := NewSession(sessionID)])
  }

  ghost predicate ReleaseStep(s: System, handle: nat, t: System) {
    && handle in s.sessions && s.sessions[handle].releasing
    && var x := s.sessions[handle];
    t == System(Freed(s.ids, x.sessionID), s.sessions[handle := x.(releasing := false, releases := x.releases + 1)])
  }

  ghost predicate ActStep(s: System, handle: nat, action: Action, t: System) {
    && handle in s.sessions && Enabled(s.sessions[handle], action)
    && t == s.(sessions := s.sessions[handle := After(s.sessions[handle], action)])
  }

  ghost predicate Next(s: System, step: Step, t: System) {
    match step
    case Accept(handle) => AcceptStep(s, handle, t)
    case Resume(handle, sessionID) => ResumeStep(s, handle, sessionID, t)
    case Release(handle) => ReleaseStep(s, handle, t)
    case Act(handle, action) => ActStep(s, handle, action, t)
  }

  // ---- The invariant ----

  predicate Unreleased(x: Session) {
    x.releases == 0
  }

  ghost predicate LifeOK(x: Session) {
    && (!x.started ==> x.life == NEW && x.workers == [] && !x.releasing && x.releases == 0)
    && (x.started ==> (x.life.stat.StatStopped? <==> x.releasing || x.releases == 1))
    && (x.releasing ==> x.releases == 0)
    && x.releases <= 1
    && (x.life.stat.StatReconnecting? ==> x.life.stops != [])
    && forall w | 0 <= w < |x.workers| :: x.workers[w] <= x.life.generation
  }

  ghost predicate AllLifeOK(s: System) {
    forall h | h in s.sessions :: LifeOK(s.sessions[h])
  }

  /** `h` holds the index of its ID. */
  predicate Holds(s: System, h: nat, index: nat) {
    h in s.sessions && Unreleased(s.sessions[h]) && IndexOf(s.ids, s.sessions[h].sessionID) == index
  }

  /** No two unreleased sessions hold one index. */
  ghost predicate Distinct(s: System) {
    forall g, h, index | Holds(s, g, index) && Holds(s, h, index) :: g == h
  }

  /** What is held is taken, and nothing else is. */
  ghost predicate Conserved(s: System) {
    && (forall h, index | Holds(s, h, index) :: index in s.ids.taken)
    && (forall index | index in s.ids.taken :: exists h :: Holds(s, h, index))
  }

  ghost predicate Inv(s: System) {
    WellFormed(s.ids) && InRange(s.ids) && AllLifeOK(s) && Distinct(s) && Conserved(s)
  }

  /** A resumed ID has a free index, and the cursor does not jump past the mask. */
  ghost predicate Fits(ids: Ids, sessionID: u32) {
    && IndexOf(ids, sessionID) !in ids.taken
    && (IndexOf(ids, sessionID) < ids.allocIDx || (IndexOf(ids, sessionID) + ids.allocInterval) % TWO32 < Size(ids))
  }

  // ---- Steps keep the invariant ----

  lemma AddSession(s: System, handle: nat, sessionID: u32, ids: Ids)
    requires AllLifeOK(s) && Distinct(s) && Conserved(s) && handle !in s.sessions
    requires ids.indexBits == s.ids.indexBits && IndexOf(ids, sessionID) !in s.ids.taken
    requires ids.taken == s.ids.taken + {IndexOf(ids, sessionID)}
    ensures AllLifeOK(System(ids, s.sessions[handle := NewSession(sessionID)]))
    ensures Distinct(System(ids, s.sessions[handle := NewSession(sessionID)]))
    ensures Conserved(System(ids, s.sessions[handle := NewSession(sessionID)]))
  {
    var t := System(ids, s.sessions[handle := NewSession(sessionID)]);
    forall h, index
      ensures Holds(t, h, index) <==> if h == handle then index == IndexOf(ids, sessionID) else Holds(s, h, index)
    {
    }
    forall index | index in t.ids.taken ensures exists h :: Holds(t, h, index) {
      if index == IndexOf(ids, sessionID) {
        assert Holds(t, handle, index);
      } else {
        var h :| Holds(s, h, index);
        assert Holds(t, h, index);
      }
    }
  }

  lemma AcceptKeepsInv(s: System, handle: nat, t: System)
    requires Inv(s) && AcceptStep(s, handle, t)
    ensures Inv(t)
  {
    if !Full(s.ids) {
      var ids, sessionID: u32 :|
        Allocates(s.ids, ids, sessionID) && t == System(ids, s.sessions[handle := NewSession(sessionID)]);
      var d: nat :| StopsAt(s.ids, d) && ids == Allocated(s.ids, d) && sessionID == AllocatedID(s.ids, d);
      AllocationInRange(s.ids, d);
      AllocationWellFormed(s.ids, d);
      hide WellFormed, InRange, StopsAt, Full;
      AddSession(s, handle, sessionID, ids);
    }
  }

  lemma ResumeKeepsInv(s: System, handle: nat, sessionID: u32, t: System)
    requires Inv(s) && ResumeStep(s, handle, sessionID, t) && Fits(s.ids, sessionID)
    ensures Inv(t)
  {
    ResumeWellFormed(s.ids, sessionID);
    ResumeInRangeIff(s.ids, sessionID);
    AddSession(s, handle, sessionID, t.ids);
  }

  /** A resume keeps the invariant exactly when the resumed ID fits. */
  lemma ResumeKeepsInvIff(s: System, handle: nat, sessionID: u32, t: System)
    requires Inv(s) && ResumeStep(s, handle, sessionID, t)
    ensures Inv(t) <==> Fits(s.ids, sessionID)
  {
    var index := IndexOf(s.ids, sessionID);
    if Fits(s.ids, sessionID) {
      ResumeKeepsInv(s, handle, sessionID, t);
    } else if index in s.ids.taken {
      var h :| Holds(s, h, index);
      assert Holds(t, h, index) && Holds(t, handle, index);
    } else {
      ResumeInRangeIff(s.ids, sessionID);
    }
  }

  lemma ReleaseKeepsInv(s: System, handle: nat, t: System)
    requires Inv(s) && ReleaseStep(s, handle, t)
    ensures Inv(t)
  {
    var x := s.sessions[handle];
    var own := IndexOf(s.ids, x.sessionID);
    FreeWellFormed(s.ids, x.sessionID);
    FreeInRange(s.ids, x.sessionID);
    assert LifeOK(x);
    assert Holds(s, handle, own);
    hide WellFormed, InRange;
    forall h, index ensures Holds(t, h, index) <==> h != handle && Holds(s, h, index) {
    }
    forall index | index in t.ids.taken ensures exists h :: Holds(t, h, index) {
      var h :| Holds(s, h, index);
      assert Holds(t, h, index);
    }
  }

  lemma ActKeepsLife(x: Session, action: Action)
    requires LifeOK(x) && Enabled(x, action)
    ensures LifeOK(After(x, action))
    ensures x.life.generation <= After(x, action).life.generation <= x.life.generation + 1
    ensures x.started ==> After(x, action).started
  {
    var y := After(x, action);
    forall w | 0 <= w < |y.workers| ensures y.workers[w] <= y.life.generation {
    }
  }

  lemma ActKeepsInv(s: System, handle: nat, action: Action, t: System)
    requires Inv(s) && ActStep(s, handle, action, t)
    ensures Inv(t)
  {
    ActKeepsLife(s.sessions[handle], action);
    hide WellFormed, InRange, LifeOK;
    forall h, index ensures Holds(t, h, index) <==> Holds(s, h, index) {
    }
    forall index | index in t.ids.taken ensures exists h :: Holds(t, h, index) {
      var h :| Holds(s, h, index);
      assert Holds(t, h, index);
    }
  }

  lemma StepKeepsInv(s: System, step: Step, t: System)
    requires Inv(s) && Next(s, step, t)
    requires step.Resume? ==> Fits(s.ids, step.sessionID)
    ensures Inv(t)
  {
    match step
    case Accept(handle) => AcceptKeepsInv(s, handle, t);
    case Resume(handle, sessionID) => ResumeKeepsInv(s, handle, sessionID, t);
    case Release(handle) => ReleaseKeepsInv(s, handle, t);
    case Act(handle, action) => ActKeepsInv(s, handle, action, t);
  }

  // ---- Every run ----

  /** A new manager with no sessions. */
  function Initial(serverID: byte, indexBits: nat, interval: u32): System
    requires indexBits <= 24
  {
    System(Fresh(serverID, indexBits).(allocInterval := interval), map[])
  }

  /** The steps of a manager from its creation on, and the states before, between and after them. */
  datatype History = History(serverID: byte, indexBits: nat, interval: u32, states: seq<System>, steps: seq<Step>)

  ghost predicate IsRun(r: History) {
    && r.serverID != 0 && r.indexBits <= 24
    && |r.states| == |r.steps| + 1
    && r.states[0] == Initial(r.serverID, r.indexBits, r.interval)
    && forall i | 0 <= i < |r.steps| :: Next(r.states[i], r.steps[i], r.states[i + 1])
  }

  /** Every resume in the run finds its index free and leaves the cursor within the mask. */
  ghost predicate ResumesFit(r: History)
    requires |r.states| == |r.steps| + 1
  {
    forall i | 0 <= i < |r.steps| && r.steps[i].Resume? :: Fits(r.states[i].ids, r.steps[i].sessionID)
  }

  lemma {:induction false} RunKeepsInv(r: History, k: nat)
    requires 8 <= r.indexBits && k < |r.states|
    requires IsRun(r) && ResumesFit(r)
    ensures Inv(r.states[k])
  {
    if k == 0 {
      FreshInRangeIff(r.serverID, r.indexBits);
      assert Outside(r.states[0].ids) == {};
    } else {
      RunKeepsInv(r, k - 1);
      assert Next(r.states[k - 1], r.steps[k - 1], r.states[k - 1 + 1]);
      StepKeepsInv(r.states[k - 1], r.steps[k - 1], r.states[k]);
    }
  }

  /** Sessions that have not been released have different IDs, even below the mask. */
  lemma UnreleasedAreDistinct(r: History, k: nat, g: nat, h: nat)
    requires 8 <= r.indexBits && k < |r.states|
    requires IsRun(r) && ResumesFit(r)
    requires g != h && g in r.states[k].sessions && h in r.states[k].sessions
    requires Unreleased(r.states[k].sessions[g]) && Unreleased(r.states[k].sessions[h])
    ensures r.states[k].sessions[g].sessionID != r.states[k].sessions[h].sessionID
    ensures IndexOf(r.states[k].ids, r.states[k].sessions[g].sessionID) !=
            IndexOf(r.states[k].ids, r.states[k].sessions[h].sessionID)
  {
    RunKeepsInv(r, k);
    assert Holds(r.states[k], g, IndexOf(r.states[k].ids, r.states[k].sessions[g].sessionID));
    assert Holds(r.states[k], h, IndexOf(r.states[k].ids, r.states[k].sessions[h].sessionID));
  }

  function UnreleasedSessions(s: System): set<nat> {
    set h | h in s.sessions && Unreleased(s.sessions[h])
  }

  /** No ID leaks: the manager counts exactly the unreleased sessions, so it is full when they are `2^indexBits`. */
  lemma TakenCountsUnreleased(s: System)
    requires Inv(s)
    ensures |s.ids.taken| == |UnreleasedSessions(s)|
    ensures Full(s.ids) <==> |UnreleasedSessions(s)| == Size(s.ids)
  {
    RangeOutside(Size(s.ids), s.ids.taken);
    forall h | h in UnreleasedSessions(s) ensures IndexOfSession(s, h) in s.ids.taken {
      assert Holds(s, h, IndexOfSession(s, h));
    }
    forall g, h |
      g in UnreleasedSessions(s) && h in UnreleasedSessions(s) && IndexOfSession(s, g) == IndexOfSession(s, h)
      ensures g == h
    {
      assert Holds(s, g, IndexOfSession(s, g)) && Holds(s, h, IndexOfSession(s, g));
    }
    forall index | index in s.ids.taken
      ensures exists h :: h in UnreleasedSessions(s) && IndexOfSession(s, h) == index
    {
      var h :| Holds(s, h, index);
      assert h in UnreleasedSessions(s) && IndexOfSession(s, h) == index;
    }
    hide Inv, UnreleasedSessions, Full, Size;
    SameSize(s, UnreleasedSessions(s), s.ids.taken);
  }

  function IndexOfSession(s: System, h: nat): nat
    requires h in s.sessions
  {
    IndexOf(s.ids, s.sessions[h].sessionID)
  }

  lemma {:induction false} SameSize(s: System, handles: set<nat>, indices: set<nat>)
    requires forall h | h in handles :: h in s.sessions && IndexOfSession(s, h) in indices
    requires forall g, h | g in handles && h in handles && IndexOfSession(s, g) == IndexOfSession(s, h) :: g == h
    requires forall index | index in indices :: exists h :: h in handles && IndexOfSession(s, h) == index
    ensures |handles| == |indices|
  {
    if handles == {} {
      assert forall index | index in indices :: false;
    } else {
      var h: nat :| h in handles;
      forall index | index in indices - {IndexOfSession(s, h)}
        ensures exists g :: g in handles - {h} && IndexOfSession(s, g) == index
      {
        var g :| g in handles && IndexOfSession(s, g) == index;
        assert g in handles - {h};
      }
      SameSize(s, handles - {h}, indices - {IndexOfSession(s, h)});
    }
  }

  // ---- Stop and release ----

  /** The `i`-th step stops session `h`, which was not stopped before. */
  ghost predicate StopsSession(r: History, h: nat, i: nat)
    requires |r.states| == |r.steps| + 1
  {
    && i < |r.steps| && r.steps[i].Act? && r.steps[i].handle == h && r.steps[i].action.Stop?
    && h in r.states[i].sessions && !r.states[i].sessions[h].life.stat.StatStopped?
  }

  /** A session stays, keeps its ID, is started once and released at most once; a stopped one stays stopped. */
  lemma StepKeepsSession(s: System, step: Step, t: System, h: nat)
    requires AllLifeOK(s) && Next(s, step, t) && h in s.sessions
    ensures h in t.sessions && LifeOK(t.sessions[h])
    ensures t.sessions[h].sessionID == s.sessions[h].sessionID
    ensures s.sessions[h].started ==> t.sessions[h].started
    ensures s.sessions[h].life.generation <= t.sessions[h].life.generation
    ensures s.sessions[h].started && s.sessions[h].life.stat.StatStopped? ==>
              t.sessions[h].life.stat.StatStopped? && t.sessions[h].life.generation == s.sessions[h].life.generation
    ensures s.sessions[h].life.stat.StatReconnecting? ==>
              !t.sessions[h].life.stat.StatRunning? && t.sessions[h].life.generation == s.sessions[h].life.generation
    ensures t.sessions[h].releases == s.sessions[h].releases + if step == Release(h) then 1 else 0
    ensures t.sessions[h].releasing && !s.sessions[h].releasing ==>
              step.Act? && step.handle == h && step.action.Stop? && !s.sessions[h].life.stat.StatStopped?
  {
    assert LifeOK(s.sessions[h]);
    if step.Act? && step.handle == h {
      ActKeepsLife(s.sessions[h], step.action);
    }
  }

  lemma StepKeepsLife(s: System, step: Step, t: System)
    requires AllLifeOK(s) && Next(s, step, t)
    ensures AllLifeOK(t)
  {
    forall h | h in t.sessions ensures LifeOK(t.sessions[h]) {
      if h in s.sessions {
        StepKeepsSession(s, step, t, h);
      }
    }
  }

  lemma {:induction false} AlwaysOK(r: History, k: nat)
    requires k < |r.states|
    requires IsRun(r)
    ensures AllLifeOK(r.states[k])
  {
    if k > 0 {
      AlwaysOK(r, k - 1);
      assert Next(r.states[k - 1], r.steps[k - 1], r.states[k - 1 + 1]);
      StepKeepsLife(r.states[k - 1], r.steps[k - 1], r.states[k]);
    }
  }

  function ReleaseSteps(steps: seq<Step>, h: nat, k: nat): nat
    requires k <= |steps|
  {
    if k == 0 then 0 else ReleaseSteps(steps, h, k - 1) + if steps[k - 1] == Release(h) then 1 else 0
  }

  lemma {:induction false} ReleasesAreCounted(r: History, h: nat, k: nat)
    requires IsRun(r) && k < |r.states|
    ensures ReleaseSteps(r.steps, h, k) == if h in r.states[k].sessions then r.states[k].sessions[h].releases else 0
  {
    if k > 0 {
      AlwaysOK(r, k - 1);
      ReleasesAreCounted(r, h, k - 1);
      assert Next(r.states[k - 1], r.steps[k - 1], r.states[k - 1 + 1]);
      if h in r.states[k - 1].sessions {
        StepKeepsSession(r.states[k - 1], r.steps[k - 1], r.states[k], h);
      }
    }
  }

  lemma {:induction false} StoppedBefore(r: History, h: nat, k: nat) returns (i: nat)
    requires IsRun(r) && k < |r.states|
    requires h in r.states[k].sessions && (r.states[k].sessions[h].releasing || r.states[k].sessions[h].releases > 0)
    ensures i < k && StopsSession(r, h, i)
  {
    assert k > 0;
    AlwaysOK(r, k - 1);
    var s, step, t := r.states[k - 1], r.steps[k - 1], r.states[k];
    assert Next(s, step, r.states[k - 1 + 1]);
    assert h in s.sessions;
    StepKeepsSession(s, step, t, h);
    if t.sessions[h].releasing && !s.sessions[h].releasing {
      i := k - 1;
    } else {
      i := StoppedBefore(r, h, k - 1);
    }
  }

  /** `FreeSessionID` is called at most once for a session, and only after a step that moved it into stopped. */
  lemma ReleasedOnceAfterStop(r: History, h: nat, k: nat) returns (i: nat)
    requires IsRun(r) && k < |r.states|
    ensures ReleaseSteps(r.steps, h, k) <= 1
    ensures ReleaseSteps(r.steps, h, k) == 1 ==> i < k && StopsSession(r, h, i)
  {
    ReleasesAreCounted(r, h, k);
    AlwaysOK(r, k);
    i := 0;
    if h in r.states[k].sessions && r.states[k].sessions[h].releases > 0 {
      i := StoppedBefore(r, h, k);
    }
    assert h in r.states[k].sessions ==> LifeOK(r.states[k].sessions[h]);
  }

  /** A session is moved into stopped by at most one step of a run. */
  lemma StoppedOnce(r: History, h: nat, i: nat, j: nat)
    requires IsRun(r)
    requires StopsSession(r, h, i) && StopsSession(r, h, j)
    ensures i == j
  {
    if i < j {
      StoppedForGood(r, h, i, j);
    } else if j < i {
      StoppedForGood(r, h, j, i);
    }
  }

  lemma StoppedForGood(r: History, h: nat, i: nat, j: nat)
    requires i < j < |r.states|
    requires IsRun(r)
    requires StopsSession(r, h, i)
    ensures h in r.states[j].sessions && r.states[j].sessions[h].started
    ensures r.states[j].sessions[h].life.stat.StatStopped?
  {
    AlwaysOK(r, i);
    assert Next(r.states[i], r.steps[i], r.states[i + 1]);
    assert LifeOK(r.states[i].sessions[h]);
    Later(r, h, i + 1, j);
  }

  /** What holds of a session from one state of a run to any later one. */
  lemma {:induction false} Later(r: History, h: nat, i: nat, j: nat)
    requires i <= j < |r.states| && h in r.states[i].sessions
    requires IsRun(r)
    ensures h in r.states[j].sessions && LifeOK(r.states[j].sessions[h])
    ensures r.states[j].sessions[h].sessionID == r.states[i].sessions[h].sessionID
    ensures r.states[i].sessions[h].started ==> r.states[j].sessions[h].started
    ensures r.states[i].sessions[h].life.generation <= r.states[j].sessions[h].life.generation
    ensures r.states[i].sessions[h].started && r.states[i].sessions[h].life.stat.StatStopped? ==>
              r.states[j].sessions[h].life.stat.StatStopped?
              && r.states[j].sessions[h].life.generation == r.states[i].sessions[h].life.generation
    ensures r.states[i].sessions[h].life.stat.StatReconnecting? ==>
              !r.states[j].sessions[h].life.stat.StatRunning?
              && r.states[j].sessions[h].life.generation == r.states[i].sessions[h].life.generation
  {
    AlwaysOK(r, i);
    assert LifeOK(r.states[i].sessions[h]);
    if i < j {
      Later(r, h, i, j - 1);
      AlwaysOK(r, j - 1);
      assert Next(r.states[j - 1], r.steps[j - 1], r.states[j - 1 + 1]);
      StepKeepsSession(r.states[j - 1], r.steps[j - 1], r.states[j], h);
    }
  }

  /**
    After a failed reconnect the session is never running again: in every later state it is still reconnecting
    with a stop on its way, or stopped.
  */
  lemma FailedReconnectOnlyStops(r: History, h: nat, i: nat, j: nat)
    requires i <= j < |r.states|
    requires IsRun(r)
    requires h in r.states[i].sessions && r.states[i].sessions[h].life.stat.StatReconnecting?
    ensures h in r.states[j].sessions
    ensures r.states[j].sessions[h].life.stat.StatStopped?
            || (r.states[j].sessions[h].life.stat.StatReconnecting? && r.states[j].sessions[h].life.stops != [])
  {
    Later(r, h, i, j);
  }

  // ---- Reconnect generations ----

  /** The worker that an action offers the counter of. */
  function WorkerOf(action: Action): nat
    requires action.TryStop? || action.TryReconnect? || action.SwitchCoinType?
  {
    match action
    case TryStop(w) => w
    case TryReconnect(w, _) => w
    case SwitchCoinType(w, _) => w
  }

  /** The counter that the action offers is the session's, and the session is running. */
  predicate IsHeard(x: Session, action: Action) {
    && (action.TryStop? || action.TryReconnect? || action.SwitchCoinType?) && WorkerOf(action) < |x.workers|
    && Heard(x.life, Counter(x.workers[WorkerOf(action)]))
  }

  /** An action by which a worker of the session starts a reconnect. */
  predicate Reconnects(x: Session, action: Action) {
    (action.TryReconnect? || action.SwitchCoinType?) && IsHeard(x, action)
  }

  /** The `i`-th step is a worker of `h` that is heard, starting a reconnect. */
  ghost predicate ReconnectsAt(r: History, h: nat, i: nat)
    requires |r.states| == |r.steps| + 1
  {
    && i < |r.steps| && r.steps[i].Act? && r.steps[i].handle == h
    && h in r.states[i].sessions && Reconnects(r.states[i].sessions[h], r.steps[i].action)
  }

  /** A reconnect that connects leaves the session running, in the next generation and with no new stop. */
  lemma ConnectedReconnectRuns(r: History, h: nat, i: nat)
    requires IsRun(r) && ReconnectsAt(r, h, i) && r.steps[i].action.connected
    ensures h in r.states[i + 1].sessions && r.states[i + 1].sessions[h].life.stat.StatRunning?
    ensures r.states[i + 1].sessions[h].life.generation == r.states[i].sessions[h].life.generation + 1
    ensures r.states[i + 1].sessions[h].life.stops == r.states[i].sessions[h].life.stops
  {
    assert Next(r.states[i], r.steps[i], r.states[i + 1]);
  }

  /**
    A reconnect that does not connect ends the session: in every later state it is reconnecting with a stop on its way,
    or stopped, and no worker reconnects it again.
  */
  lemma FailedReconnectEnds(r: History, h: nat, i: nat, j: nat)
    requires IsRun(r) && ReconnectsAt(r, h, i) && !r.steps[i].action.connected && i < j < |r.states|
    ensures h in r.states[j].sessions
    ensures var life := r.states[j].sessions[h].life;
            life.stat.StatStopped? || (life.stat.StatReconnecting? && life.stops != [])
    ensures j < |r.steps| ==> !ReconnectsAt(r, h, j)
  {
    assert Next(r.states[i], r.steps[i], r.states[i + 1]);
    assert r.states[i + 1].sessions[h].life.stat.StatReconnecting?;
    hide Next;
    FailedReconnectOnlyStops(r, h, i + 1, j);
  }

  /**
    A worker that recorded the counter is heard, while the session runs, exactly as long as nobody has reconnected the
    session since, or a multiple of 2^32 times.
  */
  lemma RecordedWorkerIsHeardIff(r: History, h: nat, i: nat, j: nat, action: Action)
    requires IsRun(r) && i < |r.steps| && r.steps[i] == Act(h, Record) && i < j < |r.states|
    requires action.TryStop? || action.TryReconnect? || action.SwitchCoinType?
    requires h in r.states[i].sessions && WorkerOf(action) == |r.states[i].sessions[h].workers|
    ensures h in r.states[j].sessions && WorkerOf(action) < |r.states[j].sessions[h].workers|
    ensures IsHeard(r.states[j].sessions[h], action) <==>
            && r.states[j].sessions[h].life.stat.StatRunning?
            && (r.states[j].sessions[h].life.generation - r.states[i].sessions[h].life.generation) % TWO32 == 0
    ensures NoReconnect(r, h, i + 1, j) ==>
              (IsHeard(r.states[j].sessions[h], action) <==> r.states[j].sessions[h].life.stat.StatRunning?)
  {
    assert Next(r.states[i], r.steps[i], r.states[i + 1]);
    WorkerStays(r, h, i + 1, j, WorkerOf(action));
    GenerationStaysIff(r, h, i + 1, j);
    HeardIff(r.states[j].sessions[h].life, r.states[i].sessions[h].life.generation);
    hide IsRun, Next, NoReconnect, Heard;
  }

  lemma {:induction false} WorkerStays(r: History, h: nat, i: nat, j: nat, w: nat)
    requires IsRun(r) && i <= j < |r.states| && h in r.states[i].sessions && w < |r.states[i].sessions[h].workers|
    ensures h in r.states[j].sessions && w < |r.states[j].sessions[h].workers|
    ensures r.states[j].sessions[h].workers[w] == r.states[i].sessions[h].workers[w]
  {
    if i < j {
      WorkerStays(r, h, i, j - 1, w);
      assert Next(r.states[j - 1], r.steps[j - 1], r.states[j - 1 + 1]);
    }
  }

  /** The counter that the worker of a reconnecting step had recorded. */
  function CounterOffered(r: History, h: nat, i: nat): u32
    requires |r.states| == |r.steps| + 1 && ReconnectsAt(r, h, i)
  {
    Counter(r.states[i].sessions[h].workers[WorkerOf(r.steps[i].action)])
  }

  /**
    For each value of the counter at most one of the workers that recorded it reconnects the session, until the counter
    has gone round: each reconnect leaves a later generation than the one before, and two that offer the same counter
    lie 2^32 generations apart.
  */
  lemma OneReconnectPerGeneration(r: History, h: nat, i: nat, j: nat)
    requires i < j
    requires IsRun(r)
    requires ReconnectsAt(r, h, i) && ReconnectsAt(r, h, j)
    ensures r.states[i].sessions[h].life.stat.StatRunning? && r.states[j].sessions[h].life.stat.StatRunning?
    ensures r.states[i].sessions[h].life.generation < r.states[j].sessions[h].life.generation
    ensures CounterOffered(r, h, i) == CounterOffered(r, h, j) ==>
              r.states[j].sessions[h].life.generation - r.states[i].sessions[h].life.generation >= TWO32
  {
    StepReconnectsIff(r, h, i);
    GenerationStaysIff(r, h, i + 1, j);
    var a, b := r.states[i].sessions[h].life.generation, r.states[j].sessions[h].life.generation;
    CounterGap(a, b);
    if b - a < TWO32 {
      ModUnique(b - a, TWO32, 0, b - a);
    }
    hide IsRun;
  }

  /** A worker's attempt changes something exactly when the session runs in the worker's generation, modulo 2^32. */
  lemma WorkerActsIff(x: Session, action: Action)
    requires LifeOK(x) && (action.TryStop? || action.TryReconnect? || action.SwitchCoinType?) && Enabled(x, action)
    ensures x.workers[WorkerOf(action)] <= x.life.generation
    ensures After(x, action) != x <==>
              x.life.stat.StatRunning? && (x.life.generation - x.workers[WorkerOf(action)]) % TWO32 == 0
  {
    HeardIff(x.life, x.workers[WorkerOf(action)]);
    assert After(x, action) != x <==> Heard(x.life, Counter(x.workers[WorkerOf(action)]));
  }

  /**
    An action that spawns a stop, and the generation it is spawned in: a failed start, a worker that is heard and
    wants to stop, or a heard worker's reconnect that does not connect.
  */
  predicate Spawns(x: Session, action: Action, g: nat) {
    || (action.SpawnStop? && g == x.life.generation)
    || (action.TryStop? && IsHeard(x, action) && g == x.life.generation)
    || (Reconnects(x, action) && !action.connected && g == x.life.generation + 1)
  }

  /** The `i`-th step spawns a stop of session `h`, in generation `g`. */
  ghost predicate SpawnsStopAt(r: History, h: nat, i: nat, g: nat)
    requires |r.states| == |r.steps| + 1
  {
    && i < |r.steps| && r.steps[i].Act? && r.steps[i].handle == h
    && h in r.states[i].sessions && Spawns(r.states[i].sessions[h], r.steps[i].action, g)
  }

  /** A step runs or spawns at most one stop of a session, and leaves the others waiting. */
  lemma StopsWait(s: System, step: Step, t: System, h: nat, k: nat) returns (before: nat)
    requires Next(s, step, t) && h in t.sessions && k < |t.sessions[h].life.stops|
    ensures if h in s.sessions && before < |s.sessions[h].life.stops|
            then t.sessions[h].life.stops[k] == s.sessions[h].life.stops[before]
            else && h in s.sessions && step.Act? && step.handle == h
                 && Spawns(s.sessions[h], step.action, t.sessions[h].life.stops[k])
                 && t.sessions[h].life.generation == t.sessions[h].life.stops[k]
  {
    before := k;
    if step.Act? && step.handle == h && step.action.Stop? && step.action.spawned <= k {
      before := k + 1;
    }
  }

  /** Every waiting stop was spawned by an earlier step, in the generation it carries. */
  lemma {:induction false} StopWasSpawned(r: History, h: nat, j: nat, k: nat) returns (i: nat)
    requires IsRun(r) && j < |r.states| && h in r.states[j].sessions && k < |r.states[j].sessions[h].life.stops|
    ensures i < j && SpawnsStopAt(r, h, i, r.states[j].sessions[h].life.stops[k])
    ensures h in r.states[i + 1].sessions
    ensures r.states[i + 1].sessions[h].life.generation == r.states[j].sessions[h].life.stops[k]
  {
    assert j > 0;
    i := j - 1;
    assert Next(r.states[i], r.steps[i], r.states[i + 1]);
    var before := StopsWait(r.states[i], r.steps[i], r.states[i + 1], h, k);
    hide Next;
    if h in r.states[i].sessions && before < |r.states[i].sessions[h].life.stops| {
      i := StopWasSpawned(r, h, i, before);
    }
  }

  /** A session's generation changes in exactly the steps by which a heard worker reconnects it, and then by one. */
  lemma StepReconnectsIff(r: History, h: nat, j: nat)
    requires IsRun(r) && j < |r.steps| && h in r.states[j].sessions
    ensures h in r.states[j + 1].sessions
    ensures r.states[j + 1].sessions[h].life.generation ==
            r.states[j].sessions[h].life.generation + if ReconnectsAt(r, h, j) then 1 else 0
  {
    assert Next(r.states[j], r.steps[j], r.states[j + 1]);
    GenerationAfter(r.states[j], r.steps[j], r.states[j + 1], h);
    hide Next, IsRun, Reconnects;
  }

  lemma GenerationAfter(s: System, step: Step, t: System, h: nat)
    requires Next(s, step, t) && h in s.sessions
    ensures h in t.sessions
    ensures t.sessions[h].life.generation ==
            s.sessions[h].life.generation
            + if step.Act? && step.handle == h && Reconnects(s.sessions[h], step.action) then 1 else 0
  {
  }

  /** No step from the `i`-th up to the `j`-th reconnects the session. */
  ghost predicate NoReconnect(r: History, h: nat, i: nat, j: nat)
    requires |r.states| == |r.steps| + 1
  {
    forall m | i <= m < j :: !ReconnectsAt(r, h, m)
  }

  lemma NoReconnectStep(r: History, h: nat, i: nat, j: nat)
    requires IsRun(r) && i < j < |r.states|
    ensures NoReconnect(r, h, i, j) <==> NoReconnect(r, h, i, j - 1) && !ReconnectsAt(r, h, j - 1)
  {
    hide IsRun, ReconnectsAt;
  }

  /** Between two states of a run a session's generation stays exactly when no step in between reconnects it. */
  lemma {:induction false} GenerationStaysIff(r: History, h: nat, i: nat, j: nat)
    requires IsRun(r) && i <= j < |r.states| && h in r.states[i].sessions
    ensures h in r.states[j].sessions
    ensures r.states[i].sessions[h].life.generation <= r.states[j].sessions[h].life.generation
    ensures r.states[j].sessions[h].life.generation == r.states[i].sessions[h].life.generation <==>
            NoReconnect(r, h, i, j)
  {
    assert |r.states| == |r.steps| + 1;
    if i < j {
      hide *;
      GenerationStaysIff(r, h, i, j - 1);
      StepReconnectsIff(r, h, j - 1);
      NoReconnectStep(r, h, i, j);
      assert j - 1 + 1 == j;
    } else {
      hide IsRun, ReconnectsAt;
    }
  }

  /**
    A stop that moves a session into stopped finds the generation it was spawned in exactly when no step after the one
    that spawned it has reconnected the session.
  */
  lemma StopFindsItsGenerationIff(r: History, h: nat, j: nat) returns (i: nat, g: nat)
    requires IsRun(r) && StopsSession(r, h, j)
    ensures r.steps[j].action.spawned < |r.states[j].sessions[h].life.stops|
    ensures g == r.states[j].sessions[h].life.stops[r.steps[j].action.spawned]
    ensures i < j && SpawnsStopAt(r, h, i, g)
    ensures r.states[j].sessions[h].life.generation == g <==> NoReconnect(r, h, i + 1, j)
  {
    assert Next(r.states[j], r.steps[j], r.states[j + 1]);
    var k := r.steps[j].action.spawned;
    g := r.states[j].sessions[h].life.stops[k];
    i := StopWasSpawned(r, h, j, k);
    hide Next, IsRun;
    GenerationStaysIff(r, h, i + 1, j);
  }

  /**
    The condition can fail, as `tryStop` only spawns the stop: when another worker of the same generation reconnects
    first, the stop goes through all the same, and stops a later generation than the one it was meant for.
  */
  lemma StopOutlivesItsGeneration(x: Session)
    requires LifeOK(x) && x.life.stat.StatRunning? && x.workers == [x.life.generation, x.life.generation]
    ensures Enabled(After(After(x, TryStop(0)), TryReconnect(1, true)), Stop(|x.life.stops|))
    ensures After(After(x, TryStop(0)), TryReconnect(1, true)).life.stat.StatRunning?
    ensures var y := After(After(After(x, TryStop(0)), TryReconnect(1, true)), Stop(|x.life.stops|));
            y.life.stat.StatStopped? && y.life.generation == x.life.generation + 1 && y.releasing
  {
    assert Enabled(After(x, TryStop(0)), TryReconnect(1, true));
  }

  // ---- Resuming after an upgrade ----

  /** Resumes the sessions of a list in order; the handle of a session is its position. */
  function ResumeAll(s: System, sessionIDs: seq<u32>): System {
    if sessionIDs == [] then s
    else
      var n := |sessionIDs| - 1;
      var before := ResumeAll(s, sessionIDs[..n]);
      System(Resumed(before.ids, sessionIDs[n]), before.sessions[n := NewSession(sessionIDs[n])])
  }

  lemma {:induction false} ResumedSessions(s: System, sessionIDs: seq<u32>)
    requires s.sessions == map[]
    ensures ResumeAll(s, sessionIDs).ids.indexBits == s.ids.indexBits
    ensures ResumeAll(s, sessionIDs).ids.allocInterval == s.ids.allocInterval
    ensures forall h: nat :: h in ResumeAll(s, sessionIDs).sessions <==> h < |sessionIDs|
    ensures forall h: nat | h < |sessionIDs| :: ResumeAll(s, sessionIDs).sessions[h] == NewSession(sessionIDs[h])
  {
    if sessionIDs != [] {
      ResumedSessions(s, sessionIDs[..|sessionIDs| - 1]);
    }
  }

  /** The IDs have pairwise different indices. */
  ghost predicate DifferentIndices(ids: Ids, sessionIDs: seq<u32>) {
    forall j, k | 0 <= j < |sessionIDs| && 0 <= k < |sessionIDs| ::
      IndexOf(ids, sessionIDs[j]) == IndexOf(ids, sessionIDs[k]) ==> j == k
  }

  /** Without a stride, a new manager that resumed IDs with different indices satisfies the invariant. */
  lemma {:induction false} ResumedSatisfyInv(serverID: byte, indexBits: nat, sessionIDs: seq<u32>)
    requires serverID != 0 && 8 <= indexBits <= 24
    requires DifferentIndices(Initial(serverID, indexBits, 0).ids, sessionIDs)
    ensures Inv(ResumeAll(Initial(serverID, indexBits, 0), sessionIDs))
  {
    var s := Initial(serverID, indexBits, 0);
    if sessionIDs == [] {
      FreshInRangeIff(serverID, indexBits);
    } else {
      var n := |sessionIDs| - 1;
      var before := ResumeAll(s, sessionIDs[..n]);
      ResumedSatisfyInv(serverID, indexBits, sessionIDs[..n]);
      ResumedSessions(s, sessionIDs[..n]);
      NextIndexIsFree(s, sessionIDs, n);
      FitsWithoutStride(before.ids, sessionIDs[n]);
      hide Inv, Fits, DifferentIndices;
      ResumeKeepsInv(before, n, sessionIDs[n], ResumeAll(s, sessionIDs));
    }
  }

  lemma NextIndexIsFree(s: System, sessionIDs: seq<u32>, n: nat)
    requires s.sessions == map[] && n < |sessionIDs| && DifferentIndices(s.ids, sessionIDs)
    requires Conserved(ResumeAll(s, sessionIDs[..n]))
    ensures IndexOf(s.ids, sessionIDs[n]) !in ResumeAll(s, sessionIDs[..n]).ids.taken
  {
    var before := ResumeAll(s, sessionIDs[..n]);
    ResumedSessions(s, sessionIDs[..n]);
    var index := IndexOf(s.ids, sessionIDs[n]);
    forall h: nat ensures !Holds(before, h, index) {
      assert h < n ==> IndexOf(s.ids, sessionIDs[..n][h]) == IndexOf(s.ids, sessionIDs[h]) != index;
    }
  }

  lemma FitsWithoutStride(ids: Ids, sessionID: u32)
    requires ids.allocInterval == 0 && ids.indexBits <= 24 && IndexOf(ids, sessionID) !in ids.taken
    ensures Fits(ids, sessionID)
  {
    SizeBound(ids);
    ModUnique(IndexOf(ids, sessionID), TWO32, 0, IndexOf(ids, sessionID));
  }

  /**
    With the Ethereum stride the resumes need not fit: after an upgrade that resumes two sessions with different IDs,
    the first session accepted gets the ID that a resumed session still holds.
  */
  lemma UpgradeCanDuplicate() returns (r: History)
    ensures IsRun(r) && r.indexBits == 16 && r.interval == 256
    ensures r.steps == [Resume(0, 0xff_0080), Resume(1, 0xff_ff80), Accept(2)]
    ensures 0 in r.states[3].sessions && 2 in r.states[3].sessions
    ensures Unreleased(r.states[3].sessions[0]) && Unreleased(r.states[3].sessions[2])
    ensures r.states[3].sessions[0].sessionID == r.states[3].sessions[2].sessionID
  {
    var ids, next, sessionID := ResumeCanReissue();
    var s0 := Initial(0xff, 16, 256);
    hide Fresh, Resumed, Allocates;
    var s1 := System(Resumed(s0.ids, 0xff_0080), s0.sessions[0 := NewSession(0xff_0080)]);
    var s2 := System(Resumed(s1.ids, 0xff_ff80), s1.sessions[1 := NewSession(0xff_ff80)]);
    var s3 := System(next, s2.sessions[2 := NewSession(sessionID)]);
    var steps := [Resume(0, 0xff_0080), Resume(1, 0xff_ff80), Accept(2)];
    r := History(0xff, 16, 256, [s0, s1, s2, s3], steps);
    assert Next(s0, steps[0], s1) && Next(s1, steps[1], s2);
    assert !Full(ids) by { AllocatesWhenNotFull(ids, next, sessionID); }
    assert AcceptStep(s2, 2, s3);
    assert Next(s2, steps[2], s3);
  }

  lemma AllocatesWhenNotFull(s: Ids, t: Ids, sessionID: nat)
    requires Allocates(s, t, sessionID)
    ensures !Full(s)
  {
  }

  // ---- The manager ----

  datatype ChainType = ChainTypeBitcoin | ChainTypeDecredNormal | ChainTypeDecredGoMiner | ChainTypeEthereum

  datatype ChainChoice = Known(chainType: ChainType, indexBits: nat) | UnknownChainType

  function LowerChar(c: char): char {
    if 'A' <= c <= 'Z' then (c as int + 32) as char else c
  }

  /** `strings.ToLower`, for texts of ASCII characters. */
  function ToLower(s: string): (t: string)
    ensures |t| == |s|
    ensures forall i | 0 <= i < |s| :: t[i] == if 'A' <= s[i] <= 'Z' then (s[i] as int + 32) as char else s[i]
  {
    if s == "" then "" else [LowerChar(s[0])] + ToLower(s[1..])
  }

  /** The configured chain type, in upper or lower case. */
  function ChooseChain(name: string): ChainChoice {
    var lower := ToLower(name);
    if lower == "bitcoin" then Known(ChainTypeBitcoin, 24)
    else if lower == "decred-normal" then Known(ChainTypeDecredNormal, 24)
    else if lower == "decred-gominer" then Known(ChainTypeDecredGoMiner, 24)
    else if lower == "ethereum" then Known(ChainTypeEthereum, 16)
    else UnknownChainType
  }

  /** The session ID in the form that miners and servers see, by chain. */
  function SessionIDText(chainType: ChainType, sessionID: u32): string {
    match chainType
    case ChainTypeBitcoin => Hex(EthereumStride.BigEndian32(sessionID))
    case ChainTypeDecredNormal => "0000000000000000" + Hex(Reverse(EthereumStride.BigEndian32(sessionID)))
    case ChainTypeDecredGoMiner => Hex(Reverse(EthereumStride.BigEndian32(sessionID)))
    case ChainTypeEthereum => EthereumStride.SessionIDString(sessionID)
  }

  /**
    How the texts read as numbers: eight digits on Bitcoin; the same with the bytes reversed on Decred, after sixteen
    zeros for ordinary miners; the six low digits on Ethereum.
  */
  lemma SessionIDTextReads(sessionID: u32)
    ensures var text := DecodeHex(SessionIDText(ChainTypeBitcoin, sessionID));
            text.Bytes? && |text.bytes| == 4 && Value(text.bytes) == sessionID
    ensures var text := DecodeHex(SessionIDText(ChainTypeDecredGoMiner, sessionID));
            text.Bytes? && |text.bytes| == 4 && Value(Reverse(text.bytes)) == sessionID
    ensures SessionIDText(ChainTypeDecredNormal, sessionID) ==
            "0000000000000000" + SessionIDText(ChainTypeDecredGoMiner, sessionID)
    ensures var text := DecodeHex(SessionIDText(ChainTypeEthereum, sessionID));
            text.Bytes? && |text.bytes| == 3 && Value(text.bytes) == sessionID % 0x100_0000
  {
    var b := EthereumStride.BigEndian32(sessionID);
    EthereumStride.BigEndianReads(sessionID);
    EthereumStride.StringOfLowBytes(sessionID);
    hide EthereumStride.BigEndian32, EthereumStride.SessionIDString;
    ReadsAsNumber(b);
    DecodeOfHex(b);
    DecodeOfHex(b[1..]);
    DecodeOfHex(Reverse(b));
    ReverseInvolutive(b);
    hide Value, Hex, DecodeHex, Reverse;
    ModUnique(sessionID, 0x100_0000, b[0] as int,
              b[1] as int * 0x1_0000 + b[2] as int * 0x100 + b[3] as int);
  }

  lemma ReadsAsNumber(b: seq<byte>)
    requires |b| == 4
    ensures Value(b) == b[0] as int * 0x100_0000 + b[1] as int * 0x1_0000 + b[2] as int * 0x100 + b[3] as int
    ensures Value(b[1..]) == b[1] as int * 0x1_0000 + b[2] as int * 0x100 + b[3] as int
  {
    assert b == [b[0], b[1], b[2], b[3]] && b[1..] == [b[1], b[2], b[3]];
    ValueOfFour(b[0], b[1], b[2], b[3]);
    ValueOfFour(0, b[1], b[2], b[3]);
    assert [0, b[1], b[2], b[3]][1..] == b[1..];
    hide Pow256;
  }

  /** Different session IDs have different texts; on Ethereum, as long as they have 24 bits. */
  lemma SessionIDTextsDiffer(chainType: ChainType, a: u32, b: u32)
    requires a != b && (chainType.ChainTypeEthereum? ==> a < 0x100_0000 && b < 0x100_0000)
    ensures SessionIDText(chainType, a) != SessionIDText(chainType, b)
  {
    if chainType.ChainTypeEthereum? {
      EthereumStride.SessionIDStringsDiffer(a, b);
    } else {
      var x, y := EthereumStride.BigEndian32(a), EthereumStride.BigEndian32(b);
      EthereumStride.BigEndianReads(a);
      EthereumStride.BigEndianReads(b);
      ReverseInvolutive(x);
      ReverseInvolutive(y);
      hide EthereumStride.BigEndian32;
      TextsOfDifferentBytes(x, y);
      TextsOfDifferentBytes(Reverse(x), Reverse(y));
      var zeros := "0000000000000000";
      assert (zeros + Hex(Reverse(x)))[16..] == Hex(Reverse(x));
      assert (zeros + Hex(Reverse(y)))[16..] == Hex(Reverse(y));
    }
  }

  lemma TextsOfDifferentBytes(x: seq<byte>, y: seq<byte>)
    requires x != y
    ensures Hex(x) != Hex(y)
  {
    if Hex(x) == Hex(y) {
      HexInjective(x, y);
    }
  }

  /** The server ID and the number of index bits of a manager never change. */
  lemma {:induction false} ServerStays(r: History, k: nat)
    requires IsRun(r) && k < |r.states|
    ensures r.states[k].ids.indexBits == r.indexBits
    ensures r.states[k].ids.serverID == r.serverID as int * Pow2(r.indexBits)
  {
    if k > 0 {
      ServerStays(r, k - 1);
      assert Next(r.states[k - 1], r.steps[k - 1], r.states[k - 1 + 1]);
    }
  }

  /** In a run whose resumes fit, every accepted session's ID has the server ID above its index bits. */
  lemma AcceptedCarriesServer(r: History, k: nat)
    requires IsRun(r) && 8 <= r.indexBits && ResumesFit(r)
    requires k < |r.steps| && r.steps[k].Accept? && !Full(r.states[k].ids)
    ensures r.steps[k].handle in r.states[k + 1].sessions
    ensures r.states[k + 1].sessions[r.steps[k].handle].sessionID / Pow2(r.indexBits) == r.serverID as int
  {
    RunKeepsInv(r, k);
    ServerStays(r, k);
    var s, h, t := r.states[k], r.steps[k].handle, r.states[k + 1];
    assert Next(s, r.steps[k], t);
    var ids, sessionID: u32 :|
      Allocates(s.ids, ids, sessionID) && t == System(ids, s.sessions[h := NewSession(sessionID)]);
    var d: nat :| StopsAt(s.ids, d) && ids == Allocated(s.ids, d) && sessionID == AllocatedID(s.ids, d);
    AllocationInRange(s.ids, d);
    SizeBound(s.ids);
    PartsOfSum(r.serverID as int, Size(s.ids), Probe(s.ids, d));
  }

  /**
    Sessions accepted by Ethereum managers with different server IDs have different IDs and texts, so their miners get
    different extranonces.
  */
  lemma ServersDoNotCollide(r: History, k: nat, q: History, m: nat)
    requires IsRun(r) && r.indexBits == 16 && ResumesFit(r)
    requires k < |r.steps| && r.steps[k].Accept? && !Full(r.states[k].ids)
    requires IsRun(q) && q.indexBits == 16 && ResumesFit(q)
    requires m < |q.steps| && q.steps[m].Accept? && !Full(q.states[m].ids)
    requires r.serverID != q.serverID
    ensures r.steps[k].handle in r.states[k + 1].sessions && q.steps[m].handle in q.states[m + 1].sessions
    ensures SessionIDText(ChainTypeEthereum, r.states[k + 1].sessions[r.steps[k].handle].sessionID) !=
            SessionIDText(ChainTypeEthereum, q.states[m + 1].sessions[q.steps[m].handle].sessionID)
  {
    assert k + 1 < |r.states| && m + 1 < |q.states|;
    hide *;
    AcceptedCarriesServer(r, k);
    AcceptedCarriesServer(q, m);
    OtherServersText(r.serverID, r.states[k + 1].sessions[r.steps[k].handle].sessionID,
                     q.serverID, q.states[m + 1].sessions[q.steps[m].handle].sessionID);
  }

  lemma OtherServersText(s: byte, a: u32, t: byte, b: u32)
    requires a / Pow2(16) == s as int && b / Pow2(16) == t as int && s != t
    ensures SessionIDText(ChainTypeEthereum, a) != SessionIDText(ChainTypeEthereum, b)
  {
    Pow2Constants();
    SessionIDTextsDiffer(ChainTypeEthereum, a, b);
    hide SessionIDText, Pow2;
  }

  class StratumSessionManager {
    const serverID: byte
    const chainType: ChainType
    const sessionIDManager: SessionIDManager
    var sessions: map<u32, StratumSession>

    ghost predicate Valid()
      reads this, sessionIDManager
    {
      sessionIDManager.Valid()
    }

    constructor (serverID: byte, chainType: ChainType, sessionIDManager: SessionIDManager)
      ensures this.serverID == serverID && this.chainType == chainType && this.sessionIDManager == sessionIDManager
      ensures sessions == map[]
    {
      this.serverID := serverID;
      this.chainType := chainType;
      this.sessionIDManager := sessionIDManager;
      sessions := map[];
    }

    /** A full manager closes the connection; otherwise the session starts running with a new ID. */
    method RunStratumSession() returns (session: StratumSession?)
      requires Valid()
      modifies sessionIDManager
      ensures Valid()
      ensures session == null <==> Full(old(sessionIDManager.State()))
      ensures session == null ==> sessionIDManager.State() == old(sessionIDManager.State())
      ensures session != null ==>
                && fresh(session) && session.Valid() && session.State() == Ran(NEW)
                && Allocates(old(sessionIDManager.State()), sessionIDManager.State(), session.sessionID)
    {
      var sessionID, ok := sessionIDManager.AllocSessionID();
      if !ok {
        return null;
      }
      session := new StratumSession(sessionID);
      var _ := session.Run();
    }

    /** An occupied ID is reported, and the session is resumed with it all the same. */
    method ResumeStratumSession(sessionID: u32) returns (session: StratumSession, occupied: bool)
      requires Valid()
      modifies sessionIDManager
      ensures Valid() && sessionIDManager.State() == Resumed(old(sessionIDManager.State()), sessionID)
      ensures fresh(session) && session.Valid() && session.State() == Ran(NEW) && session.sessionID == sessionID
      ensures occupied <==> IndexOf(old(sessionIDManager.State()), sessionID) in old(sessionIDManager.State()).taken
    {
      var ok := sessionIDManager.ResumeSessionID(sessionID);
      occupied := !ok;
      session := new StratumSession(sessionID);
      var _ := session.Run();
    }

    method RegisterStratumSession(session: StratumSession)
      modifies this
      ensures sessions == old(sessions)[session.sessionID := session]
    {
      sessions := sessions[session.sessionID := session];
    }

    method UnRegisterStratumSession(session: StratumSession)
      modifies this
      ensures sessions == old(sessions) - {session.sessionID}
    {
      sessions := sessions - {session.sessionID};
    }

    method ReleaseStratumSession(session: StratumSession)
      requires Valid()
      modifies this, sessionIDManager
      ensures Valid()
      ensures sessions == old(sessions) - {session.sessionID}
      ensures sessionIDManager.State() == Freed(old(sessionIDManager.State()), session.sessionID)
    {
      sessions := sessions - {session.sessionID};
      sessionIDManager.FreeSessionID(session.sessionID);
    }

    /** `session.Stop()`: whoever moves the session into stopped releases it. */
    method StopSession(session: StratumSession)
      requires Valid() && session.Valid()
      modifies this, sessionIDManager, session
      ensures Valid() && session.Valid()
      ensures session.State() == Stopped(old(session.State()))
      ensures sessionIDManager.State() ==
              if old(session.State()).stat.StatStopped? then old(sessionIDManager.State())
              else Freed(old(sessionIDManager.State()), session.sessionID)
    {
      var release := session.Stop();
      if release {
        ReleaseStratumSession(session);
      }
    }
  }

  /** `NewStratumSessionManager`, with the server ID already assigned. */
  method NewStratumSessionManager(name: string, serverID: byte) returns (manager: StratumSessionManager?)
    ensures manager == null <==>
            ToLower(name) !in {"bitcoin", "decred-normal", "decred-gominer", "ethereum"} || serverID == 0
    ensures manager != null ==>
              && fresh(manager) && fresh(manager.sessionIDManager) && manager.Valid() && manager.serverID == serverID
              && manager.chainType == (
                   if ToLower(name) == "bitcoin" then ChainTypeBitcoin
                   else if ToLower(name) == "decred-normal" then ChainTypeDecredNormal
                   else if ToLower(name) == "decred-gominer" then ChainTypeDecredGoMiner
                   else ChainTypeEthereum)
              && manager.sessionIDManager.State() == (
                   if ToLower(name) == "ethereum" then EthereumStride.Start(serverID) else Fresh(serverID, 24))
              && WellFormed(manager.sessionIDManager.State()) && InRange(manager.sessionIDManager.State())
  {
    var choice := ChooseChain(name);
    if choice.UnknownChainType? {
      return null;
    }
    var sessionIDManager := NewSessionIDManager(serverID, choice.indexBits);
    if sessionIDManager == null {
      return null;
    }
    if choice.chainType.ChainTypeEthereum? {
      sessionIDManager.SetAllocInterval(256);
    }
    FreshInRangeIff(serverID, choice.indexBits);
    manager := new StratumSessionManager(serverID, choice.chainType, sessionIDManager);
  }
}
