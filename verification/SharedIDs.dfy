/**
  When the index of a session that has not been released is free, and when it is handed out again.

  Two things take the bit of an index away from a session. `ResumeStratumSession` resumes a session even when its ID is
  occupied: both sessions then hold the index while it is taken once, and the first of them to be released frees it
  under the other. And a cursor that a resume has moved beyond the mask makes an allocation set the bit beyond the mask,
  while the ID it returns has the masked index.
*/
module SharedIDs {
  import opened Bits
  import opened Byte32
  import opened SessionIDs
  import opened StratumSession
  import opened StratumSessionManager

  /** An unreleased session holds the index, but the index is free. */
  ghost predicate Exposed(s: System, h: nat, index: nat) {
    Holds(s, h, index) && index !in s.ids.taken
  }

  /** The `j`-th step releases a session that shares the index with session `h`. */
  ghost predicate ReleasesShared(r: History, j: nat, h: nat, index: nat)
    requires |r.states| == |r.steps| + 1
  {
    && j < |r.steps| && r.steps[j].Release? && r.steps[j].handle != h
    && Holds(r.states[j], r.steps[j].handle, index) && Holds(r.states[j], h, index)
  }

  /** The next allocation would take a bit beyond the mask, whose masked index is `index`. */
  ghost predicate CursorBeyond(ids: Ids, index: nat) {
    ids.allocIDx >= Size(ids) && ids.allocIDx !in ids.taken && ids.allocIDx % Size(ids) == index
  }

  ghost predicate SearchStopsAt(ids: Ids, index: nat) {
    exists d: nat :: StopsAt(ids, d) && Probe(ids, d) == index
  }

  /**
    The `j`-th step accepts a session with the index, which is free, and sets a bit beyond the
    mask instead of its bit.
  */
  ghost predicate AcceptsBeyond(r: History, j: nat, index: nat)
    requires |r.states| == |r.steps| + 1
  {
    && j < |r.steps| && r.steps[j].Accept? && !Full(r.states[j].ids)
    && CursorBeyond(r.states[j].ids, index) && index !in r.states[j].ids.taken
  }

  /** The `m`-th step sets the bit of the index. */
  ghost predicate TakesIndex(r: History, m: nat, index: nat)
    requires |r.states| == |r.steps| + 1
  {
    m < |r.steps| && SetsBit(r.states[m].ids, r.steps[m], index)
  }

  ghost predicate SetsBit(ids: Ids, step: Step, index: nat) {
    match step
    case Accept(_) => !Full(ids) && SearchStopsAt(ids, index)
    case Resume(_, sessionID) => IndexOf(ids, sessionID) == index
    case _ => false
  }

  /** The cursor of the manager is within the mask in every state. */
  ghost predicate StaysInRange(r: History) {
    forall k | 0 <= k < |r.states| :: InRange(r.states[k].ids)
  }

  // ---- One step ----

  lemma StepKeepsWellFormed(s: System, step: Step, t: System)
    requires WellFormed(s.ids) && Next(s, step, t)
    ensures WellFormed(t.ids) && Size(t.ids) == Size(s.ids)
  {
    match step
    case Accept(h) =>
      if !Full(s.ids) {
        var ids, sessionID: u32 :|
          Allocates(s.ids, ids, sessionID) && t == System(ids, s.sessions[h := NewSession(sessionID)]);
        var d: nat :| StopsAt(s.ids, d) && ids == Allocated(s.ids, d) && sessionID == AllocatedID(s.ids, d);
        AllocationWellFormed(s.ids, d);
      }
    case Resume(_, sessionID) => ResumeWellFormed(s.ids, sessionID);
    case Release(h) => FreeWellFormed(s.ids, s.sessions[h].sessionID);
    case Act(_, _) =>
  }

  lemma {:induction false} AlwaysWellFormed(r: History, k: nat)
    requires IsRun(r) && k < |r.states|
    ensures WellFormed(r.states[k].ids)
  {
    if k == 0 {
      FreshInRangeIff(r.serverID, r.indexBits);
      assert Outside(r.states[0].ids) == {};
    } else {
      AlwaysWellFormed(r, k - 1);
      assert Next(r.states[k - 1], r.steps[k - 1], r.states[k - 1 + 1]);
      StepKeepsWellFormed(r.states[k - 1], r.steps[k - 1], r.states[k]);
    }
  }

  /** Without a stride the cursor never leaves the mask. */
  lemma {:induction false} NoStrideStaysInRange(r: History, k: nat)
    requires IsRun(r) && r.interval == 0 && r.indexBits >= 8 && k < |r.states|
    ensures InRange(r.states[k].ids) && r.states[k].ids.allocInterval == 0
  {
    if k == 0 {
      FreshInRangeIff(r.serverID, r.indexBits);
    } else {
      NoStrideStaysInRange(r, k - 1);
      AlwaysWellFormed(r, k - 1);
      assert Next(r.states[k - 1], r.steps[k - 1], r.states[k - 1 + 1]);
      NoStrideStep(r.states[k - 1], r.steps[k - 1], r.states[k]);
    }
  }

  lemma NoStrideStep(s: System, step: Step, t: System)
    requires WellFormed(s.ids) && InRange(s.ids) && s.ids.allocInterval == 0 && Next(s, step, t)
    ensures InRange(t.ids) && t.ids.allocInterval == 0
  {
    match step
    case Accept(h) =>
      if !Full(s.ids) {
        var ids, sessionID: u32 :|
          Allocates(s.ids, ids, sessionID) && t == System(ids, s.sessions[h := NewSession(sessionID)]);
        var d: nat :| StopsAt(s.ids, d) && ids == Allocated(s.ids, d) && sessionID == AllocatedID(s.ids, d);
        AllocationInRange(s.ids, d);
      }
    case Resume(_, sessionID) =>
      if IndexOf(s.ids, sessionID) !in s.ids.taken {
        FitsWithoutStride(s.ids, sessionID);
        ResumeInRangeIff(s.ids, sessionID);
      }
    case Release(h) => FreeInRange(s.ids, s.sessions[h].sessionID);
    case Act(_, _) =>
  }

  /** An accepted session gets the masked value of the bit at which the search stops. */
  lemma AcceptedIndex(s: System, h: nat, t: System) returns (d: nat)
    requires WellFormed(s.ids) && AcceptStep(s, h, t) && !Full(s.ids)
    ensures StopsAt(s.ids, d) && h in t.sessions
    ensures t.sessions == s.sessions[h := t.sessions[h]] && Unreleased(t.sessions[h])
    ensures IndexOf(s.ids, t.sessions[h].sessionID) == Probe(s.ids, d) % Size(s.ids)
    ensures t.ids.taken == s.ids.taken + {Probe(s.ids, d)} && t.ids.indexBits == s.ids.indexBits
  {
    var ids, sessionID: u32 :|
      Allocates(s.ids, ids, sessionID) && t == System(ids, s.sessions[h := NewSession(sessionID)]);
    d :| StopsAt(s.ids, d) && ids == Allocated(s.ids, d) && sessionID == AllocatedID(s.ids, d);
    AllocatedIndex(s.ids, d);
  }

  /** Where the search stops: within the mask, or at once at a cursor beyond it. */
  lemma StopsWithinOrBeyond(ids: Ids, d: nat, index: nat)
    requires StopsAt(ids, d) && index < Size(ids)
    ensures Probe(ids, d) % Size(ids) == index <==> Probe(ids, d) == index || CursorBeyond(ids, index)
    ensures SearchStopsAt(ids, index) <==> Probe(ids, d) == index
    ensures CursorBeyond(ids, index) ==> Probe(ids, d) >= Size(ids)
  {
    if Probe(ids, d) < Size(ids) {
      ModUnique(Probe(ids, d), Size(ids), 0, Probe(ids, d));
      assert Probe(ids, 0) == ids.allocIDx;
    }
    forall e: nat | StopsAt(ids, e) ensures e == d {
      StopsAtUnique(ids, d, e);
    }
  }

  /** What a step does to the bit of an index: a holder's release clears it, and `SetsBit` says when it is set. */
  lemma StepChangesBit(s: System, step: Step, t: System, index: nat)
    requires WellFormed(s.ids) && AllLifeOK(s) && Next(s, step, t) && index < Size(s.ids)
    ensures t.ids.indexBits == s.ids.indexBits
    ensures index in t.ids.taken <==>
            (index in s.ids.taken && !(step.Release? && Holds(s, step.handle, index))) || SetsBit(s.ids, step, index)
  {
    match step
    case Accept(h) =>
      if !Full(s.ids) {
        var d := AcceptedIndex(s, h, t);
        StopsWithinOrBeyond(s.ids, d, index);
      }
    case Resume(_, _) =>
    case Release(h) => assert LifeOK(s.sessions[h]);
    case Act(_, _) =>
  }

  lemma StepKeepsHolding(s: System, step: Step, t: System, h: nat, index: nat)
    requires AllLifeOK(s) && Next(s, step, t) && h in s.sessions && t.ids.indexBits == s.ids.indexBits
    ensures Holds(t, h, index) ==> Holds(s, h, index) && step != Release(h)
    ensures Holds(s, h, index) && step != Release(h) ==> Holds(t, h, index)
  {
    StepKeepsSession(s, step, t, h);
  }

  /** A session that appears without the bit of its index was accepted with the cursor beyond the mask. */
  lemma AppearsWithoutBit(s: System, step: Step, t: System, h: nat, index: nat)
    requires WellFormed(s.ids) && Next(s, step, t) && h !in s.sessions && Holds(t, h, index)
    requires index !in t.ids.taken
    ensures step == Accept(h) && !Full(s.ids) && CursorBeyond(s.ids, index) && index !in s.ids.taken
  {
    if step.Accept? && !Full(s.ids) {
      var d := AcceptedIndex(s, step.handle, t);
      StopsWithinOrBeyond(s.ids, d, index);
    }
  }

  // ---- Every run ----

  /** The `j`-th step leaves the index of session `h` free. */
  ghost predicate Exposes(r: History, j: nat, h: nat, index: nat)
    requires |r.states| == |r.steps| + 1
  {
    ReleasesShared(r, j, h, index) || AcceptsBeyond(r, j, index)
  }

  ghost predicate ExposedSince(r: History, h: nat, index: nat, j: nat, k: nat)
    requires |r.states| == |r.steps| + 1
  {
    Exposes(r, j, h, index) && forall m | j < m < k :: !TakesIndex(r, m, index)
  }

  lemma RunStep(r: History, k: nat)
    requires IsRun(r) && k < |r.steps|
    ensures Next(r.states[k], r.steps[k], r.states[k + 1])
    ensures WellFormed(r.states[k].ids) && AllLifeOK(r.states[k])
  {
    AlwaysWellFormed(r, k);
    AlwaysOK(r, k);
  }

  /** What a step of a run does to the bit of an index. */
  lemma RunStepChangesBit(r: History, k: nat, index: nat)
    requires IsRun(r) && k < |r.steps| && index < Size(r.states[k + 1].ids)
    ensures Size(r.states[k].ids) == Size(r.states[k + 1].ids)
    ensures index in r.states[k + 1].ids.taken <==>
            || (index in r.states[k].ids.taken
                && !(r.steps[k].Release? && Holds(r.states[k], r.steps[k].handle, index)))
            || TakesIndex(r, k, index)
  {
    RunStep(r, k);
    StepKeepsWellFormed(r.states[k], r.steps[k], r.states[k + 1]);
    StepChangesBit(r.states[k], r.steps[k], r.states[k + 1], index);
    hide WellFormed, AllLifeOK, Next, IsRun, SetsBit;
  }

  lemma ExposingClears(r: History, h: nat, index: nat, j: nat)
    requires IsRun(r) && Exposes(r, j, h, index) && index < Size(r.states[j + 1].ids)
    ensures index !in r.states[j + 1].ids.taken
  {
    RunStepChangesBit(r, j, index);
    if AcceptsBeyond(r, j, index) {
      BeyondSetsNoBit(r.states[j].ids, index);
    }
    hide IsRun, CursorBeyond, SearchStopsAt;
  }

  /** An exposing step leaves the index free, and it stays free until its bit is set. */
  lemma {:induction false} FreeSince(r: History, h: nat, index: nat, j: nat, k: nat)
    requires IsRun(r) && j < k < |r.states| && ExposedSince(r, h, index, j, k) && index < Size(r.states[k].ids)
    ensures index !in r.states[k].ids.taken
  {
    assert |r.states| == |r.steps| + 1 && k - 1 + 1 == k;
    hide IsRun, Exposes, TakesIndex, Size;
    if j == k - 1 {
      ExposingClears(r, h, index, j);
    } else {
      RunStepChangesBit(r, k - 1, index);
      FreeSince(r, h, index, j, k - 1);
    }
  }

  lemma BeyondSetsNoBit(ids: Ids, index: nat)
    requires CursorBeyond(ids, index) && index < Size(ids)
    ensures !SearchStopsAt(ids, index)
  {
    assert Probe(ids, 0) == ids.allocIDx;
    assert StopsAt(ids, 0);
    StopsWithinOrBeyond(ids, 0, index);
  }

  /** The cause of an index being free under its holder. */
  lemma {:induction false} ExposingStep(r: History, h: nat, index: nat, k: nat) returns (j: nat)
    requires IsRun(r) && k < |r.states| && Exposed(r.states[k], h, index)
    ensures j < k && ExposedSince(r, h, index, j, k)
  {
    assert k > 0;
    j := k - 1;
    RunStep(r, j);
    var s, step, t := r.states[j], r.steps[j], r.states[j + 1];
    StepKeepsWellFormed(s, step, t);
    StepChangesBit(s, step, t, index);
    if h !in s.sessions {
      AppearsWithoutBit(s, step, t, h, index);
    } else {
      StepKeepsHolding(s, step, t, h, index);
      hide WellFormed, AllLifeOK, Next, IsRun;
      if index !in s.ids.taken {
        j := ExposingStep(r, h, index, j);
      }
    }
  }

  /**
    In every run the index of an unreleased session is free exactly when a session sharing it was released, or a session
    was accepted with it while the cursor was beyond the mask, and its bit has not been set since.
  */
  lemma ExposedIff(r: History, h: nat, index: nat, k: nat)
    requires IsRun(r) && k < |r.states| && Holds(r.states[k], h, index)
    ensures index !in r.states[k].ids.taken <==> exists j: nat :: j < k && ExposedSince(r, h, index, j, k)
  {
    if index !in r.states[k].ids.taken {
      var j := ExposingStep(r, h, index, k);
    } else {
      forall j: nat | j < k ensures !ExposedSince(r, h, index, j, k) {
        if ExposedSince(r, h, index, j, k) {
          FreeSince(r, h, index, j, k);
        }
      }
    }
  }

  /**
    In every run an accepted session gets the index of an unreleased session `h` exactly when the cursor is beyond the
    mask, free there, and masked to that index, or the search stops at it, having been left free by an earlier step.
  */
  lemma AcceptSharesIff(r: History, k: nat, h: nat)
    requires IsRun(r) && k < |r.steps| && r.steps[k].Accept? && !Full(r.states[k].ids)
    requires h in r.states[k].sessions && Unreleased(r.states[k].sessions[h])
    ensures r.steps[k].handle in r.states[k + 1].sessions
    ensures var ids := r.states[k].ids;
            var index := IndexOf(ids, r.states[k].sessions[h].sessionID);
            IndexOf(ids, r.states[k + 1].sessions[r.steps[k].handle].sessionID) == index <==>
            || CursorBeyond(ids, index)
            || (SearchStopsAt(ids, index) && exists j: nat :: j < k && ExposedSince(r, h, index, j, k))
  {
    var s, t := r.states[k], r.states[k + 1];
    RunStep(r, k);
    var d := AcceptedIndex(s, r.steps[k].handle, t);
    var index := IndexOf(s.ids, s.sessions[h].sessionID);
    assert Holds(s, h, index);
    ExposedIff(r, h, index, k);
    StopsWithinOrBeyond(s.ids, d, index);
    hide WellFormed, AllLifeOK, Next, IsRun, ExposedSince, CursorBeyond, SearchStopsAt;
  }

  /** While the cursor stays within the mask, the release of a sharing session is the only cause. */
  lemma ExposedInRangeIff(r: History, h: nat, index: nat, k: nat)
    requires IsRun(r) && StaysInRange(r) && k < |r.states| && Holds(r.states[k], h, index)
    ensures index !in r.states[k].ids.taken <==>
            exists j: nat :: j < k && ReleasesShared(r, j, h, index) && forall m | j < m < k :: !TakesIndex(r, m, index)
  {
    ExposedIff(r, h, index, k);
    forall j: nat | j < k ensures !AcceptsBeyond(r, j, index) {
      assert InRange(r.states[j].ids);
    }
    hide IsRun, TakesIndex, ReleasesShared, AcceptsBeyond, StaysInRange;
    if index !in r.states[k].ids.taken {
      var j: nat :| j < k && ExposedSince(r, h, index, j, k);
      assert ReleasesShared(r, j, h, index);
    } else {
      forall j: nat | j < k && ReleasesShared(r, j, h, index) ensures exists m :: j < m < k && TakesIndex(r, m, index) {
        assert !ExposedSince(r, h, index, j, k);
      }
    }
  }

  lemma JumpedCursor() returns (ids: Ids)
    ensures ids == Resumed(Fresh(0xff, 16).(allocInterval := 256), 0xff_ff80)
    ensures WellFormed(ids) && ids.indexBits == 16 && Size(ids) == 0x1_0000
    ensures ids.allocIDx == 0x1_0080 && ids.taken == {0xff80}
  {
    Pow2Constants();
    FreshInRangeIff(0xff, 16);
    var empty := Fresh(0xff, 16).(allocInterval := 256);
    assert Outside(empty) == {};
    ids := Resumed(empty, 0xff_ff80);
    ResumeWellFormed(empty, 0xff_ff80);
    hide WellFormed;
  }

  lemma AllocationAfterJump(ids: Ids) returns (next: Ids, sessionID: u32)
    requires WellFormed(ids) && Size(ids) == 0x1_0000 && ids.allocIDx == 0x1_0080 && ids.taken == {0xff80}
    ensures Allocates(ids, next, sessionID) && IndexOf(next, sessionID) == 0x80 && 0x80 !in next.taken
  {
    assert Probe(ids, 0) == 0x1_0080;
    assert StopsAt(ids, 0);
    AllocatedIndex(ids, 0);
    hide Size, WellFormed, AllocatedID, Masked;
    next, sessionID := Allocated(ids, 0), AllocatedID(ids, 0);
  }

  /**
    A resume may leave the cursor beyond the mask, and then an accepted session's own index stays
    free from the start.
  */
  lemma AcceptCanExpose() returns (r: History)
    ensures IsRun(r) && r.indexBits == 16 && r.interval == 256
    ensures r.steps == [Resume(0, 0xff_ff80), Accept(1)] && Exposed(r.states[2], 1, 0x80)
  {
    var ids := JumpedCursor();
    var next, sessionID := AllocationAfterJump(ids);
    var s0 := Initial(0xff, 16, 256);
    hide Fresh, Resumed, Allocates;
    AllocatesWhenNotFull(ids, next, sessionID);
    var s1 := System(ids, s0.sessions[0 := NewSession(0xff_ff80)]);
    var s2 := System(next, s1.sessions[1 := NewSession(sessionID)]);
    assert ResumeStep(s0, 0, 0xff_ff80, s1) && AcceptStep(s1, 1, s2);
    r := History(0xff, 16, 256, [s0, s1, s2], [Resume(0, 0xff_ff80), Accept(1)]);
  }

  // ---- Sharing leads to exposure ----

  /** Appends a step to a run. */
  function Extended(r: History, step: Step, t: System): History {
    r.(states := r.states + [t], steps := r.steps + [step])
  }

  lemma ExtendedIsRun(r: History, step: Step, t: System)
    requires IsRun(r) && Next(r.states[|r.steps|], step, t)
    ensures IsRun(Extended(r, step, t))
  {
    var longer := Extended(r, step, t);
    forall i | 0 <= i < |longer.steps| ensures Next(longer.states[i], longer.steps[i], longer.states[i + 1]) {
      if i < |r.steps| {
        assert Next(r.states[i], r.steps[i], r.states[i + 1]);
      }
    }
  }

  function Last(r: History): System
    requires r.states != []
  {
    r.states[|r.states| - 1]
  }

  /** Lets session `g` do something at the end of a run. */
  lemma ThenAct(r: History, g: nat, action: Action) returns (longer: History)
    requires IsRun(r) && g in Last(r).sessions && Enabled(Last(r).sessions[g], action)
    ensures IsRun(longer) && r.states <= longer.states && r.steps <= longer.steps
    ensures Last(longer) == Last(r).(sessions := Last(r).sessions[g := After(Last(r).sessions[g], action)])
  {
    var t := Last(r).(sessions := Last(r).sessions[g := After(Last(r).sessions[g], action)]);
    longer := Extended(r, Act(g, action), t);
    ExtendedIsRun(r, Act(g, action), t);
  }

  /** However far a session has come, it can be stopped, so that only the release of its ID is left. */
  lemma ThenStop(r: History, g: nat) returns (longer: History)
    requires IsRun(r) && g in Last(r).sessions && Unreleased(Last(r).sessions[g])
    ensures IsRun(longer) && r.states <= longer.states && r.steps <= longer.steps
    ensures g in Last(longer).sessions && Last(longer).sessions[g].releasing
    ensures Last(longer).ids == Last(r).ids
    ensures Last(longer).sessions == Last(r).sessions[g := Last(longer).sessions[g]]
    ensures Last(longer).sessions[g].sessionID == Last(r).sessions[g].sessionID && Unreleased(Last(longer).sessions[g])
  {
    AlwaysOK(r, |r.states| - 1);
    assert LifeOK(Last(r).sessions[g]);
    longer := r;
    if !Last(longer).sessions[g].started {
      longer := ThenAct(longer, g, Run);
    }
    if !Last(longer).sessions[g].releasing {
      longer := ThenAct(longer, g, SpawnStop);
      longer := ThenAct(longer, g, Stop(0));
    }
  }

  /** While two unreleased sessions share an index, either can be released next and leaves the other exposed. */
  lemma SharedCanBeExposed(r: History, g: nat, h: nat, index: nat) returns (longer: History)
    requires IsRun(r) && g != h && Holds(Last(r), g, index) && Holds(Last(r), h, index)
    ensures IsRun(longer) && r.states <= longer.states && r.steps <= longer.steps
    ensures Exposed(Last(longer), h, index)
  {
    longer := ThenStop(r, g);
    var s := Last(longer);
    var x := s.sessions[g];
    var t := System(Freed(s.ids, x.sessionID), s.sessions[g := x.(releasing := false, releases := x.releases + 1)]);
    assert ReleaseStep(s, g, t);
    ExtendedIsRun(longer, Release(g), t);
    longer := Extended(longer, Release(g), t);
  }

  /** No session is ever exposed in a run whose resumes fit. */
  lemma FittingRunExposesNobody(r: History, k: nat, h: nat, index: nat)
    requires IsRun(r) && r.indexBits >= 8 && ResumesFit(r) && k < |r.states|
    ensures !Exposed(r.states[k], h, index)
  {
    RunKeepsInv(r, k);
  }
}
