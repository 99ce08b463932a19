/**
  Sessions together with their ZooKeeper channels.

  `ReleaseStratumSession` frees the ID of a session first and releases its channel afterwards, by path and ID. In
  between the ID can be given to another session, which may register a channel under the same path and ID.
*/
module SessionWatches {
  import opened Bits
  import opened Byte32
  import opened SessionIDs
  import SM = StratumSessionManager
  import ZK = ZookeeperManager

  /**
    `releasing` are the sessions whose ID has been freed and whose channel has not been released yet; `owners` says
    which session got a channel.
  */
  datatype World = World(manager: SM.System, zk: ZK.System, releasing: set<nat>, owners: map<nat, nat>)

  datatype Step =
    | Manage(managing: SM.Step)
    | GetW(handle: nat, path: string, reachable: bool)
    | UnRegister(handle: nat)
    | ReleaseW(handle: nat)
    | Store(storing: ZK.Step)

  function IDOf(s: World, h: nat): u32
    requires h in s.manager.sessions
  {
    s.manager.sessions[h].sessionID
  }

  ghost predicate Unreleased(s: World, h: nat) {
    h in s.manager.sessions && SM.Unreleased(s.manager.sessions[h])
  }

  function WithOwner(s: World, h: nat, zk: ZK.System): World {
    s.(zk := zk, owners := if |zk.channels| > |s.zk.channels| then s.owners[|s.zk.channels| := h] else s.owners)
  }

  /** Until its channel has been released, a session may call `GetW`, for its own path or another. */
  ghost predicate MayWatch(s: World, h: nat) {
    h in s.manager.sessions && (Unreleased(s, h) || h in s.releasing)
  }

  /** `paths` are the paths by which the sessions release their channels. */
  ghost predicate Next(paths: nat -> string, s: World, step: Step, t: World) {
    match step
    case Manage(m) =>
      && SM.Next(s.manager, m, t.manager)
      && t == s.(manager := t.manager, releasing := s.releasing + if m.Release? then {m.handle} else {})
    case GetW(h, path, reachable) =>
      && MayWatch(s, h) && ZK.References(s.zk)
      && t == WithOwner(s, h, ZK.GotW(s.zk, path, IDOf(s, h), reachable))
    case UnRegister(h) =>
      Unreleased(s, h) && ZK.References(s.zk) && t == s.(zk := ZK.ReleasedW(s.zk, paths(h), IDOf(s, h)))
    case ReleaseW(h) =>
      && h in s.releasing && h in s.manager.sessions && ZK.References(s.zk)
      && t == s.(zk := ZK.ReleasedW(s.zk, paths(h), IDOf(s, h)), releasing := s.releasing - {h})
    case Store(z) =>
      && !z.GetW? && !z.ReleaseW? && ZK.Enabled(s.zk, z) && t == s.(zk := ZK.After(s.zk, z))
  }

  // ---- The invariant ----

  predicate Registered(zk: ZK.System, c: nat) {
    c < |zk.channels| && zk.channels[c].fate.Registered?
  }

  /** A registered channel carries its owner's ID, and an owner that is gone has released its own path. */
  ghost predicate OwnerOK(paths: nat -> string, s: World, c: nat) {
    && c in s.owners && s.owners[c] in s.manager.sessions
    && c < |s.zk.channels| && s.zk.channels[c].sessionID == IDOf(s, s.owners[c])
    && (MayWatch(s, s.owners[c]) || s.zk.channels[c].path != paths(s.owners[c]))
  }

  ghost predicate Owned(paths: nat -> string, s: World) {
    && (forall c: nat | Registered(s.zk, c) :: OwnerOK(paths, s, c))
    && (forall h | h in s.releasing :: h in s.manager.sessions && !Unreleased(s, h))
  }

  ghost predicate Inv(paths: nat -> string, s: World) {
    SM.AllLifeOK(s.manager) && ZK.Inv(s.zk) && Owned(paths, s)
  }

  lemma ManageKeepsOwned(paths: nat -> string, s: World, m: SM.Step, t: World)
    requires Inv(paths, s) && Next(paths, s, Manage(m), t)
    ensures Owned(paths, t)
  {
    forall h | h in s.manager.sessions
      ensures h in t.manager.sessions && IDOf(t, h) == IDOf(s, h)
      ensures Unreleased(t, h) <==> Unreleased(s, h) && m != SM.Release(h)
    {
      SM.StepKeepsSession(s.manager, m, t.manager, h);
    }
    hide SM.AllLifeOK, ZK.Inv, SM.Next;
    forall c: nat | Registered(t.zk, c) ensures OwnerOK(paths, t, c) {
      assert OwnerOK(paths, s, c);
    }
  }

  /** A registered channel belongs to the path and session it was registered for, and to no other. */
  lemma RegisteredHas(zk: ZK.System, c: nat) returns (w: nat)
    requires ZK.Inv(zk) && Registered(zk, c)
    ensures ZK.HasChannel(zk, w, zk.channels[c].sessionID, c) && zk.watchers[w].nodePath == zk.channels[c].path
    ensures zk.channels[c].path in zk.watcherMap && zk.watcherMap[zk.channels[c].path] == w
  {
    assert ZK.FateOK(zk, c);
    w :| ZK.HasChannel(zk, w, zk.channels[c].sessionID, c);
  }

  /** Releasing by path and ID closes exactly the channel registered for them. */
  lemma ReleaseCloses(zk: ZK.System, path: string, sessionID: u32, c: nat)
    requires ZK.Inv(zk) && c < |zk.channels|
    ensures ZK.References(zk) && c < |ZK.ReleasedW(zk, path, sessionID).channels| == |zk.channels|
    ensures Registered(ZK.ReleasedW(zk, path, sessionID), c) <==>
            Registered(zk, c) && !(zk.channels[c].path == path && zk.channels[c].sessionID == sessionID)
    ensures ZK.SameCall(zk.channels[c], ZK.ReleasedW(zk, path, sessionID).channels[c])
  {
    if path in zk.watcherMap && sessionID in zk.watchers[zk.watcherMap[path]].watcherChannels {
      var w := zk.watcherMap[path];
      assert ZK.HasChannel(zk, w, sessionID, zk.watchers[w].watcherChannels[sessionID]);
    }
    if Registered(zk, c) {
      var w := RegisteredHas(zk, c);
    }
  }

  /** `GetW` replaces the channel registered for the path and ID, if it succeeds. */
  lemma GetWRegisters(zk: ZK.System, path: string, sessionID: u32, reachable: bool, c: nat)
    requires ZK.Inv(zk) && ZK.References(zk)
    requires Registered(ZK.GotW(zk, path, sessionID, reachable), c)
    ensures var t := ZK.GotW(zk, path, sessionID, reachable);
            if c < |zk.channels| then Registered(zk, c) && ZK.SameCall(zk.channels[c], t.channels[c])
            else c == |zk.channels| && t.channels[c].path == path && t.channels[c].sessionID == sessionID
  {
    var step := ZK.Step.GetW(path, sessionID, reachable);
    if c < |zk.channels| {
      ZK.StepFate(zk, step, c);
    }
  }

  lemma GetWKeepsOwned(paths: nat -> string, s: World, h: nat, path: string, reachable: bool, t: World)
    requires Inv(paths, s) && Next(paths, s, GetW(h, path, reachable), t)
    ensures Owned(paths, t)
  {
    forall c: nat | Registered(t.zk, c) ensures OwnerOK(paths, t, c) {
      GetWRegisters(s.zk, path, IDOf(s, h), reachable, c);
      if c < |s.zk.channels| {
        assert OwnerOK(paths, s, c);
      }
    }
  }

  lemma ReleaseKeepsOwned(paths: nat -> string, s: World, h: nat, t: World)
    requires Inv(paths, s) && h in s.manager.sessions && ZK.References(s.zk)
    requires || t == s.(zk := ZK.ReleasedW(s.zk, paths(h), IDOf(s, h)), releasing := s.releasing - {h})
             || Next(paths, s, UnRegister(h), t)
    ensures Owned(paths, t)
  {
    hide SM.AllLifeOK;
    forall c: nat | Registered(t.zk, c) ensures OwnerOK(paths, t, c) {
      SameChannels(s.zk, paths(h), IDOf(s, h));
      ReleaseCloses(s.zk, paths(h), IDOf(s, h), c);
      assert OwnerOK(paths, s, c);
    }
  }

  lemma SameChannels(zk: ZK.System, path: string, sessionID: u32)
    requires ZK.References(zk)
    ensures |ZK.ReleasedW(zk, path, sessionID).channels| == |zk.channels|
  {
  }

  lemma StoreKeepsOwned(paths: nat -> string, s: World, z: ZK.Step, t: World)
    requires Inv(paths, s) && Next(paths, s, Store(z), t)
    ensures Owned(paths, t)
  {
    StoreAddsNoChannel(s.zk, z);
    forall c: nat | Registered(t.zk, c) ensures OwnerOK(paths, t, c) {
      ZK.StepFate(s.zk, z, c);
      hide ZK.After, ZK.Inv, SM.AllLifeOK;
      assert OwnerOK(paths, s, c);
    }
  }

  lemma StoreAddsNoChannel(zk: ZK.System, z: ZK.Step)
    requires ZK.Inv(zk) && ZK.Enabled(zk, z) && !z.GetW? && !z.ReleaseW?
    ensures |ZK.After(zk, z).channels| == |zk.channels|
  {
    if z.Deliver? {
      ZK.DeliverSignals(zk, z.watcher, z.order);
    }
  }

  lemma NextKeepsInv(paths: nat -> string, s: World, step: Step, t: World)
    requires Inv(paths, s) && Next(paths, s, step, t)
    ensures Inv(paths, t)
  {
    match step
    case Manage(m) =>
      SM.StepKeepsLife(s.manager, m, t.manager);
      ManageKeepsOwned(paths, s, m, t);
    case GetW(h, path, reachable) =>
      ZK.StepKeepsInv(s.zk, ZK.Step.GetW(path, IDOf(s, h), reachable));
      GetWKeepsOwned(paths, s, h, path, reachable, t);
    case UnRegister(h) =>
      ZK.StepKeepsInv(s.zk, ZK.Step.ReleaseW(paths(h), IDOf(s, h)));
      ReleaseKeepsOwned(paths, s, h, t);
    case ReleaseW(h) =>
      ZK.StepKeepsInv(s.zk, ZK.Step.ReleaseW(paths(h), IDOf(s, h)));
      ReleaseKeepsOwned(paths, s, h, t);
    case Store(z) =>
      ZK.StepKeepsInv(s.zk, z);
      StoreKeepsOwned(paths, s, z, t);
  }

  // ---- Every run ----

  datatype History = History(
    serverID: byte, indexBits: nat, interval: u32, nodes: map<string, ZK.Value>, paths: nat -> string,
    states: seq<World>, steps: seq<Step>)

  ghost predicate IsRun(r: History) {
    && r.serverID != 0 && r.indexBits <= 24
    && |r.states| == |r.steps| + 1
    && r.states[0] == World(SM.Initial(r.serverID, r.indexBits, r.interval), ZK.Initial(r.nodes), {}, map[])
    && forall i | 0 <= i < |r.steps| :: Next(r.paths, r.states[i], r.steps[i], r.states[i + 1])
  }

  lemma {:induction false} RunKeepsInv(r: History, k: nat)
    requires IsRun(r) && k < |r.states|
    ensures Inv(r.paths, r.states[k])
  {
    if k > 0 {
      RunKeepsInv(r, k - 1);
      assert Next(r.paths, r.states[k - 1], r.steps[k - 1], r.states[k - 1 + 1]);
      NextKeepsInv(r.paths, r.states[k - 1], r.steps[k - 1], r.states[k]);
    }
  }

  /**
    The `k`-th step, releasing the channel of session `h`, closes a channel that an unreleased
    session `g` registered.
  */
  ghost predicate ClosesChannelOf(r: History, k: nat, h: nat, g: nat, c: nat)
    requires |r.states| == |r.steps| + 1
  {
    && k < |r.steps| && r.steps[k] == ReleaseW(h) && g != h && Unreleased(r.states[k], g)
    && Registered(r.states[k].zk, c) && c in r.states[k].owners && r.states[k].owners[c] == g
    && !Registered(r.states[k + 1].zk, c)
  }

  lemma {:induction false} SessionStays(r: History, h: nat, i: nat, j: nat)
    requires IsRun(r) && i <= j < |r.states| && h in r.states[i].manager.sessions
    ensures h in r.states[j].manager.sessions && IDOf(r.states[j], h) == IDOf(r.states[i], h)
    ensures Unreleased(r.states[j], h) ==> Unreleased(r.states[i], h)
  {
    if i < j {
      SessionStays(r, h, i, j - 1);
      RunKeepsInv(r, j - 1);
      var s, t := r.states[j - 1], r.states[j - 1 + 1];
      assert Next(r.paths, s, r.steps[j - 1], t);
      if r.steps[j - 1].Manage? {
        SM.StepKeepsSession(s.manager, r.steps[j - 1].managing, t.manager, h);
      }
    }
  }

  /** A session whose channel is still to be released had its ID freed by an earlier step. */
  lemma {:induction false} FreedBefore(r: History, h: nat, k: nat) returns (j: nat)
    requires IsRun(r) && k < |r.states| && h in r.states[k].releasing
    ensures j < k && r.steps[j] == Manage(SM.Release(h))
  {
    assert k > 0;
    j := k - 1;
    assert Next(r.paths, r.states[j], r.steps[j], r.states[j + 1]);
    hide SM.Next;
    if r.steps[j] != Manage(SM.Release(h)) {
      j := FreedBefore(r, h, j);
    }
  }

  /** In state `j` both sessions hold the same ID, and neither has been released. */
  ghost predicate BothHold(r: History, j: nat, g: nat, h: nat)
    requires j < |r.states|
  {
    Unreleased(r.states[j], g) && Unreleased(r.states[j], h) && IDOf(r.states[j], g) == IDOf(r.states[j], h)
  }

  /**
    In every run the release of the channel of `h` closes a channel that an unreleased session `g` registered exactly
    when that channel is for the path of `h` and both have the same ID. Then either `g` did not exist yet when the ID of
    `h` was freed, and was given the ID in between, or the two held the ID together already.
  */
  lemma ClosesAnothersIff(r: History, k: nat, h: nat, g: nat, c: nat) returns (j: nat)
    requires IsRun(r) && k < |r.steps| && r.steps[k] == ReleaseW(h) && g != h && Unreleased(r.states[k], g)
    requires Registered(r.states[k].zk, c) && c in r.states[k].owners && r.states[k].owners[c] == g
    ensures h in r.states[k].manager.sessions
    ensures ClosesChannelOf(r, k, h, g, c) <==>
            r.states[k].zk.channels[c].path == r.paths(h) && IDOf(r.states[k], g) == IDOf(r.states[k], h)
    ensures j < k && r.steps[j] == Manage(SM.Release(h))
    ensures IDOf(r.states[k], g) == IDOf(r.states[k], h) ==> g !in r.states[j].manager.sessions || BothHold(r, j, g, h)
  {
    RunKeepsInv(r, k);
    assert Next(r.paths, r.states[k], r.steps[k], r.states[k + 1]);
    assert OwnerOK(r.paths, r.states[k], c);
    ReleaseCloses(r.states[k].zk, r.paths(h), IDOf(r.states[k], h), c);
    j := FreedBefore(r, h, k);
    if g in r.states[j].manager.sessions && IDOf(r.states[k], g) == IDOf(r.states[k], h) {
      HeldTogether(r, j, k, g, h);
    }
  }

  lemma HeldTogether(r: History, j: nat, k: nat, g: nat, h: nat)
    requires IsRun(r) && j < k < |r.states| && r.steps[j] == Manage(SM.Release(h)) && g != h
    requires g in r.states[j].manager.sessions && Unreleased(r.states[k], g) && h in r.states[k].manager.sessions
    requires IDOf(r.states[k], g) == IDOf(r.states[k], h)
    ensures BothHold(r, j, g, h)
  {
    assert Next(r.paths, r.states[j], r.steps[j], r.states[j + 1]);
    RunKeepsInv(r, j);
    assert SM.LifeOK(r.states[j].manager.sessions[h]);
    SessionStays(r, g, j, k);
    SessionStays(r, h, j, k);
  }

  /** Every resume in the run fits. */
  ghost predicate ResumesFit(r: History)
    requires |r.states| == |r.steps| + 1
  {
    forall i | 0 <= i < |r.steps| && r.steps[i].Manage? && r.steps[i].managing.Resume? ::
      SM.Fits(r.states[i].manager.ids, r.steps[i].managing.sessionID)
  }

  /** When all resumes fit, no two sessions hold an ID together, so the other session was accepted in between. */
  lemma {:induction false} FittingRunKeepsInv(r: History, k: nat)
    requires IsRun(r) && r.indexBits >= 8 && ResumesFit(r) && k < |r.states|
    ensures SM.Inv(r.states[k].manager)
    ensures forall g, h | g != h :: !BothHold(r, k, g, h)
  {
    if k == 0 {
      FreshInRangeIff(r.serverID, r.indexBits);
      assert Outside(r.states[0].manager.ids) == {};
    } else {
      FittingRunKeepsInv(r, k - 1);
      assert Next(r.paths, r.states[k - 1], r.steps[k - 1], r.states[k - 1 + 1]);
      if r.steps[k - 1].Manage? {
        SM.StepKeepsInv(r.states[k - 1].manager, r.steps[k - 1].managing, r.states[k].manager);
      }
    }
    forall g, h | g != h ensures !BothHold(r, k, g, h) {
      if BothHold(r, k, g, h) {
        NotBoth(r.states[k].manager, g, h);
      }
    }
  }

  lemma NotBoth(s: SM.System, g: nat, h: nat)
    requires SM.Distinct(s) && g != h && g in s.sessions && h in s.sessions
    requires SM.Unreleased(s.sessions[g]) && SM.Unreleased(s.sessions[h])
    ensures s.sessions[g].sessionID != s.sessions[h].sessionID
  {
    assert SM.Holds(s, g, IndexOf(s.ids, s.sessions[g].sessionID));
    assert SM.Holds(s, h, IndexOf(s.ids, s.sessions[h].sessionID));
  }

  // ---- It can happen ----

  const PATH: string := "/switcher/u"

  /** Without a stride, an ID that is freed before another is allocated is the next to be allocated. */
  lemma FreedIsNext(serverID: byte) returns (ids: Ids, sessionID: u32)
    requires serverID != 0
    ensures Allocates(Fresh(serverID, 24), ids, sessionID) && Freed(ids, sessionID) == Fresh(serverID, 24)
  {
    var empty := Fresh(serverID, 24);
    FreshInRangeIff(serverID, 24);
    SizeBound(empty);
    assert Probe(empty, 0) == FIRST_INDEX;
    assert StopsAt(empty, 0);
    AllocationInRange(empty, 0);
    ids, sessionID := Allocated(empty, 0), AllocatedID(empty, 0);
    ModUnique(FIRST_INDEX, TWO32, 0, FIRST_INDEX);
    ModUnique(FIRST_INDEX, Size(empty), 0, FIRST_INDEX);
    assert ids.taken - {FIRST_INDEX} == {};
  }

  lemma GetWWorks(zk: ZK.System, sessionID: u32)
    requires ZK.Inv(zk) && PATH in zk.nodes
    ensures ZK.References(zk)
    ensures var t := ZK.GotW(zk, PATH, sessionID, true);
            ZK.Inv(t) && t.nodes == zk.nodes && |t.channels| == |zk.channels| + 1 && Registered(t, |zk.channels|)
            && t.channels[|zk.channels|].path == PATH && t.channels[|zk.channels|].sessionID == sessionID
  {
    ZK.StepKeepsInv(zk, ZK.Step.GetW(PATH, sessionID, true));
  }

  function Last(r: History): World
    requires r.states != []
  {
    r.states[|r.states| - 1]
  }

  /** One more step at the end of a run. */
  lemma Then(r: History, step: Step, t: World) returns (longer: History)
    requires IsRun(r) && Next(r.paths, Last(r), step, t)
    ensures IsRun(longer) && Last(longer) == t && longer.paths == r.paths
    ensures |longer.steps| == |r.steps| + 1 && longer.steps[|r.steps|] == step
    ensures longer.states[|r.steps|] == Last(r) && longer.states[|r.steps| + 1] == t
  {
    longer := r.(states := r.states + [t], steps := r.steps + [step]);
    forall i | 0 <= i < |longer.steps|
      ensures Next(longer.paths, longer.states[i], longer.steps[i], longer.states[i + 1])
    {
      if i < |r.steps| {
        assert Next(r.paths, r.states[i], r.steps[i], r.states[i + 1]);
      }
    }
  }

  /** A session at the end of a run runs and is stopped, and its ID is freed. */
  lemma ThenStopAndFree(r: History, h: nat) returns (longer: History)
    requires IsRun(r) && h in Last(r).manager.sessions && Last(r).manager.sessions[h] == SM.NewSession(IDOf(Last(r), h))
    ensures IsRun(longer) && longer.paths == r.paths
    ensures var s, t := Last(r), Last(longer);
            && h in t.manager.sessions && IDOf(t, h) == IDOf(s, h) && !Unreleased(t, h)
            && t.manager == SM.System(Freed(s.manager.ids, IDOf(s, h)), s.manager.sessions[h := t.manager.sessions[h]])
            && t == s.(manager := t.manager, releasing := s.releasing + {h})
  {
    longer := ThenAct(r, h, SM.Run);
    longer := ThenAct(longer, h, SM.SpawnStop);
    longer := ThenAct(longer, h, SM.Stop(0));
    var s := Last(longer);
    var x := s.manager.sessions[h];
    var m := SM.System(Freed(s.manager.ids, x.sessionID),
                       s.manager.sessions[h := x.(releasing := false, releases := x.releases + 1)]);
    assert SM.ReleaseStep(s.manager, h, m);
    longer := Then(longer, Manage(SM.Release(h)), s.(manager := m, releasing := s.releasing + {h}));
  }

  lemma ThenAct(r: History, h: nat, action: SM.Action) returns (longer: History)
    requires IsRun(r) && h in Last(r).manager.sessions && SM.Enabled(Last(r).manager.sessions[h], action)
    ensures IsRun(longer) && longer.paths == r.paths
    ensures var m := Last(r).manager;
            Last(longer) == Last(r).(manager := m.(sessions := m.sessions[h := SM.After(m.sessions[h], action)]))
  {
    var m := Last(r).manager;
    var t := Last(r).(manager := m.(sessions := m.sessions[h := SM.After(m.sessions[h], action)]));
    assert SM.Next(m, SM.Act(h, action), t.manager);
    longer := Then(r, Manage(SM.Act(h, action)), t);
  }

  /** A new session is accepted and registers a channel for its path. */
  lemma ThenAcceptAndWatch(r: History, h: nat, ids: Ids, sessionID: u32) returns (longer: History)
    requires IsRun(r) && h !in Last(r).manager.sessions && Allocates(Last(r).manager.ids, ids, sessionID)
    requires ZK.Inv(Last(r).zk) && PATH in Last(r).zk.nodes && r.paths(h) == PATH
    ensures IsRun(longer) && longer.paths == r.paths
    ensures ZK.References(Last(r).zk)
    ensures var s, t := Last(r), Last(longer);
            && t.manager == SM.System(ids, s.manager.sessions[h := SM.NewSession(sessionID)])
            && t.zk == ZK.GotW(s.zk, PATH, sessionID, true) && ZK.Inv(t.zk)
            && t.releasing == s.releasing && t.owners == s.owners[|s.zk.channels| := h]
  {
    var s := Last(r);
    GetWWorks(s.zk, sessionID);
    var m := SM.System(ids, s.manager.sessions[h := SM.NewSession(sessionID)]);
    SM.AllocatesWhenNotFull(s.manager.ids, ids, sessionID);
    assert SM.AcceptStep(s.manager, h, m);
    longer := Then(r, Manage(SM.Accept(h)), s.(manager := m));
    hide IsRun;
    var t := Last(longer);
    longer := Then(longer, GetW(h, PATH, true), WithOwner(t, h, ZK.GotW(t.zk, PATH, sessionID, true)));
  }

  /** Session `h` has still to release its channel, and session `g` has registered one for the same path and ID. */
  ghost predicate Overtaken(s: World, path: string, h: nat, g: nat, c: nat) {
    && ZK.Inv(s.zk) && h in s.releasing && h in s.manager.sessions
    && g != h && Unreleased(s, g) && Registered(s.zk, c) && c in s.owners && s.owners[c] == g
    && s.zk.channels[c].path == path && s.zk.channels[c].sessionID == IDOf(s, h)
  }

  lemma ThenReleaseChannel(r: History, h: nat, g: nat, c: nat) returns (longer: History)
    requires IsRun(r) && Overtaken(Last(r), r.paths(h), h, g, c)
    ensures IsRun(longer) && ClosesChannelOf(longer, |r.steps|, h, g, c)
  {
    var s := Last(r);
    ReleaseCloses(s.zk, r.paths(h), IDOf(s, h), c);
    longer := Then(r, ReleaseW(h),
                   s.(zk := ZK.ReleasedW(s.zk, r.paths(h), IDOf(s, h)), releasing := s.releasing - {h}));
    hide IsRun, ZK.ReleasedW;
  }

  lemma FreedForReuse(serverID: byte) returns (r: History, ids: Ids, id: u32)
    requires serverID != 0
    ensures IsRun(r) && r.paths(0) == PATH && r.paths(1) == PATH && Allocates(Last(r).manager.ids, ids, id)
    ensures var s := Last(r);
            && ZK.Inv(s.zk) && PATH in s.zk.nodes && |s.zk.channels| == 1 && s.releasing == {0}
            && s.manager.sessions.Keys == {0} && IDOf(s, 0) == id
  {
    ids, id := FreedIsNext(serverID);
    var nodes: map<string, ZK.Value> := map[PATH := "btc"];
    var start := World(SM.Initial(serverID, 24, 0), ZK.Initial(nodes), {}, map[]);
    r := History(serverID, 24, 0, nodes, (_: nat) => PATH, [start], []);
    hide Fresh, Allocates, Freed;
    r := ThenAcceptAndWatch(r, 0, ids, id);
    GetWWorks(start.zk, id);
    r := ThenStopAndFree(r, 0);
    hide IsRun, ZK.GotW;
  }

  lemma OvertakenOnReuse(serverID: byte) returns (r: History)
    requires serverID != 0
    ensures IsRun(r) && r.paths(0) == PATH && Overtaken(Last(r), PATH, 0, 1, 1)
  {
    var ids, id;
    r, ids, id := FreedForReuse(serverID);
    hide Allocates;
    GetWWorks(Last(r).zk, id);
    r := ThenAcceptAndWatch(r, 1, ids, id);
  }

  /**
    A run in which it happens: session 0 is stopped and its ID freed, session 1 gets the ID and registers a channel, and
    then the release of session 0's channel closes the channel of session 1.
  */
  lemma ReleaseCanCloseAnothers(serverID: byte) returns (r: History, k: nat)
    requires serverID != 0
    ensures IsRun(r) && ClosesChannelOf(r, k, 0, 1, 1)
  {
    hide *;
    r := OvertakenOnReuse(serverID);
    k := |r.steps|;
    r := ThenReleaseChannel(r, 0, 1, 1);
  }
}
