/**
  The watch multiplexer: many sessions share one one-shot ZooKeeper watch for each node.

  Watchers and channels are objects of the source; here they are positions in two growing sequences, so that who
  refers to which is explicit. ZooKeeper itself is a store of node values that fires the armed watches of a node when
  it changes. Each region under the manager's lock is one step, and so is a change in the store and a receive on a
  channel.
*/
module ZookeeperManager {
  import opened Bits

  type Value = string

  /** `Fired`: the event is in the watch's channel, and the watcher's goroutine has not handled it yet. */
  datatype Watch = Armed | Fired | Done

  datatype NodeWatcher = NodeWatcher(nodePath: string, nodeValue: Value, watch: Watch, watcherChannels: map<u32, nat>)

  /** What became of a channel returned by `GetW`. */
  datatype Fate = Registered | Signalled | Released | Superseded

  /** A channel of capacity one, and the call it was made by: path, session, and the value returned with it. */
  datatype Channel = Channel(path: string, sessionID: u32, value: Value, open: bool, full: bool, fate: Fate)

  /** `fault` is set by a send on a closed or full channel, or by closing a closed one. */
  datatype System = System(
    nodes: map<string, Value>,
    watcherMap: map<string, nat>,
    watchers: seq<NodeWatcher>,
    channels: seq<Channel>,
    fault: bool)

  // ---- Steps ----

  function Supersede(channels: seq<Channel>, w: NodeWatcher, sessionID: u32): (r: seq<Channel>)
    ensures |r| == |channels|
  {
    if sessionID in w.watcherChannels && w.watcherChannels[sessionID] < |channels| then
      var c := w.watcherChannels[sessionID];
      channels[c := channels[c].(fate := Superseded)]
    else channels
  }

  /** A new channel for the session, over whatever channel it had. */
  function WithChannel(s: System, w: nat, sessionID: u32): System
    requires w < |s.watchers|
  {
    var watcher := s.watchers[w];
    s.(channels := Supersede(s.channels, watcher, sessionID)
         + [Channel(watcher.nodePath, sessionID, watcher.nodeValue, true, false, Registered)],
       watchers := s.watchers[w := watcher.(watcherChannels := watcher.watcherChannels[sessionID := |s.channels|])])
  }

  function WithWatcher(s: System, path: string): System
    requires path in s.nodes
  {
    s.(watchers := s.watchers + [NodeWatcher(path, s.nodes[path], Armed, map[])],
       watcherMap := s.watcherMap[path := |s.watchers|])
  }

  /** `reachable` says whether the connection answers; a call that fails changes nothing. */
  predicate GetWFails(s: System, path: string, reachable: bool) {
    path !in s.watcherMap && (!reachable || path !in s.nodes)
  }

  predicate References(s: System) {
    forall path | path in s.watcherMap :: s.watcherMap[path] < |s.watchers|
  }

  function GotW(s: System, path: string, sessionID: u32, reachable: bool): System
    requires References(s)
  {
    if path in s.watcherMap then WithChannel(s, s.watcherMap[path], sessionID)
    else if GetWFails(s, path, reachable) then s
    else WithChannel(WithWatcher(s, path), |s.watchers|, sessionID)
  }

  function ReleasedW(s: System, path: string, sessionID: u32): System
    requires References(s)
  {
    if path !in s.watcherMap then s
    else
      var w := s.watcherMap[path];
      var watcher := s.watchers[w];
      if sessionID !in watcher.watcherChannels then s
      else
        var c := watcher.watcherChannels[sessionID];
        if c >= |s.channels| || !s.channels[c].open then s.(fault := true)
        else
          s.(channels := s.channels[c := s.channels[c].(open := false, fate := Released)],
             watchers := s.watchers[w := watcher.(watcherChannels := watcher.watcherChannels - {sessionID})])
  }

  datatype Sent = Sent(channels: seq<Channel>) | Fault

  /** `eventChan <- event; close(eventChan)`. */
  function SendAndClose(channels: seq<Channel>, c: nat): Sent {
    if c >= |channels| || !channels[c].open || channels[c].full then Fault
    else Sent(channels[c := channels[c].(open := false, full := true, fate := Signalled)])
  }

  /** The loop over the channels, in the order given. */
  function SendAll(channels: seq<Channel>, registered: map<u32, nat>, order: seq<u32>): Sent {
    if order == [] then Sent(channels)
    else
      match SendAll(channels, registered, order[..|order| - 1])
      case Fault => Fault
      case Sent(cs) =>
        if order[|order| - 1] in registered then SendAndClose(cs, registered[order[|order| - 1]]) else Fault
  }

  /** `NodeWatcher.Run` once its event came: every channel is signalled, then the path is removed. */
  function Delivered(s: System, w: nat, order: seq<u32>): System
    requires w < |s.watchers|
  {
    match SendAll(s.channels, s.watchers[w].watcherChannels, order)
    case Fault => s.(fault := true)
    case Sent(cs) =>
      s.(channels := cs,
         watchers := s.watchers[w := s.watchers[w].(watch := Done)],
         watcherMap := s.watcherMap - {s.watchers[w].nodePath})
  }

  function FireOne(watcher: NodeWatcher): NodeWatcher {
    if watcher.watch.Armed? then watcher.(watch := Fired) else watcher
  }

  /** Fires the armed watches of a node. */
  function FireAll(watchers: seq<NodeWatcher>, path: string): (r: seq<NodeWatcher>)
    ensures |r| == |watchers|
    ensures forall i | 0 <= i < |watchers| ::
              r[i] == if watchers[i].nodePath == path then FireOne(watchers[i]) else watchers[i]
  {
    if watchers == [] then []
    else
      var last := watchers[|watchers| - 1];
      FireAll(watchers[..|watchers| - 1], path) + [if last.nodePath == path then FireOne(last) else last]
  }

  datatype Change = Write(value: Value) | Delete

  function Changed(s: System, path: string, change: Change): System {
    s.(nodes := if change.Write? then s.nodes[path := change.value] else s.nodes - {path},
       watchers := FireAll(s.watchers, path))
  }

  datatype Step =
    | GetW(path: string, sessionID: u32, reachable: bool)
    | ReleaseW(path: string, sessionID: u32)
    | Deliver(watcher: nat, order: seq<u32>)
    | ChangeNode(path: string, change: Change)
    | Disconnect(watcher: nat)
    | Receive(channel: nat)

  /** `order` lists the sessions of a watcher, each once. */
  ghost predicate Enumerates(order: seq<u32>, registered: map<u32, nat>) {
    && (forall i, j | 0 <= i < j < |order| :: order[i] != order[j])
    && (forall k | k in order :: k in registered)
    && (forall k | k in registered :: k in order)
  }

  ghost predicate Enabled(s: System, step: Step) {
    match step
    case GetW(_, _, _) => References(s)
    case ReleaseW(_, _) => References(s)
    case Deliver(w, order) =>
      w < |s.watchers| && s.watchers[w].watch.Fired? && Enumerates(order, s.watchers[w].watcherChannels)
    case ChangeNode(_, _) => true
    case Disconnect(w) => w < |s.watchers|
    case Receive(c) => c < |s.channels| && s.channels[c].full
  }

  function After(s: System, step: Step): System
    requires Enabled(s, step)
  {
    match step
    case GetW(path, sessionID, reachable) => GotW(s, path, sessionID, reachable)
    case ReleaseW(path, sessionID) => ReleasedW(s, path, sessionID)
    case Deliver(w, order) => Delivered(s, w, order)
    case ChangeNode(path, change) => Changed(s, path, change)
    case Disconnect(w) => s.(watchers := s.watchers[w := FireOne(s.watchers[w])])
    case Receive(c) => s.(channels := s.channels[c := s.channels[c].(full := false)])
  }

  // ---- The invariant ----

  predicate Live(s: System, w: nat) {
    w < |s.watchers| && !s.watchers[w].watch.Done?
  }

  /** The map holds exactly the watchers that still wait for their event, each at its path. */
  ghost predicate MapHoldsLive(s: System) {
    && (forall path | path in s.watcherMap ::
          Live(s, s.watcherMap[path]) && s.watchers[s.watcherMap[path]].nodePath == path)
    && (forall w: nat | Live(s, w) ::
          s.watchers[w].nodePath in s.watcherMap && s.watcherMap[s.watchers[w].nodePath] == w)
  }

  /** A watch that has not fired was set on the node's current value. */
  ghost predicate ArmedIsCurrent(s: System) {
    forall w: nat | Live(s, w) && s.watchers[w].watch.Armed? ::
      s.watchers[w].nodePath in s.nodes && s.nodes[s.watchers[w].nodePath] == s.watchers[w].nodeValue
  }

  /** The channel a live watcher has for a session. */
  predicate HasChannel(s: System, w: nat, sessionID: u32, c: nat) {
    Live(s, w) && sessionID in s.watchers[w].watcherChannels && s.watchers[w].watcherChannels[sessionID] == c
  }

  /** Every registered channel is open and empty and carries the watcher's value. */
  ghost predicate RegisteredAreReady(s: System) {
    forall w: nat, sessionID, c: nat | HasChannel(s, w, sessionID, c) ::
      c < |s.channels|
      && s.channels[c] == Channel(s.watchers[w].nodePath, sessionID, s.watchers[w].nodeValue, true, false, Registered)
  }

  ghost predicate FateOK(s: System, c: nat)
    requires c < |s.channels|
  {
    var channel := s.channels[c];
    match channel.fate
    case Registered => exists w: nat :: HasChannel(s, w, channel.sessionID, c)
    case Signalled => !channel.open
    case Released => !channel.open && !channel.full
    case Superseded => channel.open && !channel.full
  }

  ghost predicate FatesOK(s: System) {
    forall c: nat | c < |s.channels| :: FateOK(s, c)
  }

  ghost predicate Inv(s: System) {
    MapHoldsLive(s) && ArmedIsCurrent(s) && RegisteredAreReady(s) && FatesOK(s) && !s.fault
  }

  function Initial(nodes: map<string, Value>): System {
    System(nodes, map[], [], [], false)
  }

  // ---- Each step keeps the invariant ----

  lemma WithWatcherKeepsInv(s: System, path: string)
    requires Inv(s) && path in s.nodes && path !in s.watcherMap
    ensures Inv(WithWatcher(s, path))
  {
    var t := WithWatcher(s, path);
    forall w: nat, sessionID, c: nat ensures HasChannel(t, w, sessionID, c) <==> HasChannel(s, w, sessionID, c) {
    }
    assert FatesOK(t) by {
      forall c: nat | c < |t.channels| ensures FateOK(t, c) {
        assert FateOK(s, c);
      }
    }
  }

  lemma WithChannelKeepsInv(s: System, w: nat, sessionID: u32)
    requires Inv(s) && Live(s, w)
    ensures Inv(WithChannel(s, w, sessionID))
  {
    var t := WithChannel(s, w, sessionID);
    var n := |s.channels|;
    forall v: nat, k, c: nat
      ensures HasChannel(t, v, k, c) <==> if v == w && k == sessionID then c == n else HasChannel(s, v, k, c)
    {
    }
    forall v: nat, k, c: nat | HasChannel(s, v, k, c) && !(v == w && k == sessionID)
      ensures c < n && t.channels[c] == s.channels[c]
    {
    }
    assert MapHoldsLive(t) by {
      forall v: nat ensures Live(t, v) <==> Live(s, v) {
      }
    }
    assert FatesOK(t) by {
      forall c: nat | c < |t.channels| ensures FateOK(t, c) {
        if c == n {
          assert HasChannel(t, w, sessionID, n);
        } else {
          assert FateOK(s, c);
          if t.channels[c].fate.Registered? {
            var v: nat :| HasChannel(s, v, s.channels[c].sessionID, c);
            assert HasChannel(t, v, t.channels[c].sessionID, c);
          }
        }
      }
    }
  }

  lemma ReleaseKeepsInv(s: System, path: string, sessionID: u32)
    requires Inv(s)
    ensures Inv(ReleasedW(s, path, sessionID))
  {
    var t := ReleasedW(s, path, sessionID);
    if path in s.watcherMap && sessionID in s.watchers[s.watcherMap[path]].watcherChannels {
      var w := s.watcherMap[path];
      var own := s.watchers[w].watcherChannels[sessionID];
      assert HasChannel(s, w, sessionID, own);
      forall v: nat ensures Live(t, v) <==> Live(s, v) {
      }
      forall v: nat, k, c: nat
        ensures HasChannel(t, v, k, c) <==> !(v == w && k == sessionID) && HasChannel(s, v, k, c)
      {
      }
      forall v: nat, k, c: nat | HasChannel(t, v, k, c) ensures c != own {
      }
      forall c: nat | c < |t.channels| ensures FateOK(t, c) {
        assert FateOK(s, c);
        if t.channels[c].fate.Registered? {
          var v: nat :| HasChannel(s, v, s.channels[c].sessionID, c);
          assert HasChannel(t, v, t.channels[c].sessionID, c);
        }
      }
    }
  }

  lemma ChangeKeepsInv(s: System, path: string, change: Change)
    requires Inv(s)
    ensures Inv(Changed(s, path, change))
  {
    SameShape(s, Changed(s, path, change));
  }

  lemma DisconnectKeepsInv(s: System, w: nat)
    requires Inv(s) && w < |s.watchers|
    ensures Inv(s.(watchers := s.watchers[w := FireOne(s.watchers[w])]))
  {
    SameShape(s, s.(watchers := s.watchers[w := FireOne(s.watchers[w])]));
  }

  /** Watches fire; nothing else about the watchers and channels changes. */
  lemma SameShape(s: System, t: System)
    requires Inv(s) && t.watcherMap == s.watcherMap && t.channels == s.channels && t.fault == s.fault
    requires |t.watchers| == |s.watchers|
    requires forall i | 0 <= i < |s.watchers| ::
               t.watchers[i] == s.watchers[i] || t.watchers[i] == FireOne(s.watchers[i])
    ensures MapHoldsLive(t) && RegisteredAreReady(t) && FatesOK(t)
  {
    forall v: nat ensures Live(t, v) <==> Live(s, v) {
    }
    forall v: nat, k, c: nat ensures HasChannel(t, v, k, c) <==> HasChannel(s, v, k, c) {
    }
    forall c: nat | c < |t.channels| ensures FateOK(t, c) {
      assert FateOK(s, c);
      if t.channels[c].fate.Registered? {
        var v: nat :| HasChannel(s, v, s.channels[c].sessionID, c);
        assert HasChannel(t, v, t.channels[c].sessionID, c);
      }
    }
  }

  lemma ReceiveKeepsInv(s: System, c: nat)
    requires Inv(s) && c < |s.channels| && s.channels[c].full
    ensures Inv(s.(channels := s.channels[c := s.channels[c].(full := false)]))
  {
    var t := s.(channels := s.channels[c := s.channels[c].(full := false)]);
    forall v: nat, k, d: nat ensures HasChannel(t, v, k, d) <==> HasChannel(s, v, k, d) {
    }
    assert FateOK(s, c);
    forall d: nat | d < |t.channels| ensures FateOK(t, d) {
      assert FateOK(s, d);
      if t.channels[d].fate.Registered? {
        var v: nat :| HasChannel(s, v, s.channels[d].sessionID, d);
        assert HasChannel(t, v, t.channels[d].sessionID, d);
      }
    }
  }

  // ---- Delivery ----

  predicate Among(registered: map<u32, nat>, order: seq<u32>, c: nat) {
    exists k | k in order :: k in registered && registered[k] == c
  }

  function Signal(channel: Channel): Channel {
    channel.(open := false, full := true, fate := Signalled)
  }

  ghost predicate SentTo(channels: seq<Channel>, registered: map<u32, nat>, order: seq<u32>, cs: seq<Channel>) {
    && |cs| == |channels|
    && forall c: nat | c < |cs| :: cs[c] == if Among(registered, order, c) then Signal(channels[c]) else channels[c]
  }

  /** The channels are open and empty, and no two sessions share one. */
  ghost predicate Ready(channels: seq<Channel>, registered: map<u32, nat>) {
    && (forall k | k in registered ::
          registered[k] < |channels| && channels[registered[k]].open && !channels[registered[k]].full)
    && (forall j, k | j in registered && k in registered && registered[j] == registered[k] :: j == k)
  }

  /** When the channels are ready, no send blocks and no close fails, in whatever order the map is walked. */
  lemma {:induction false} SendAllSignals(channels: seq<Channel>, registered: map<u32, nat>, order: seq<u32>)
    requires Ready(channels, registered)
    requires forall k | k in order :: k in registered
    requires forall i, j | 0 <= i < j < |order| :: order[i] != order[j]
    ensures SendAll(channels, registered, order).Sent?
    ensures SentTo(channels, registered, order, SendAll(channels, registered, order).channels)
  {
    if order != [] {
      var n := |order| - 1;
      var before, last := order[..n], order[n];
      SendAllSignals(channels, registered, before);
      assert order == before + [last];
      var cs := SendAll(channels, registered, before).channels;
      assert !Among(registered, before, registered[last]);
      forall c: nat | c < |channels|
        ensures Among(registered, order, c) <==> c == registered[last] || Among(registered, before, c)
      {
        if c == registered[last] {
          assert last in order;
        }
      }
    }
  }

  lemma LiveIsReady(s: System, w: nat)
    requires Inv(s) && Live(s, w)
    ensures Ready(s.channels, s.watchers[w].watcherChannels)
  {
    forall k | k in s.watchers[w].watcherChannels ensures HasChannel(s, w, k, s.watchers[w].watcherChannels[k]) {
    }
  }

  lemma AmongIff(s: System, w: nat, order: seq<u32>, c: nat)
    requires Live(s, w) && Enumerates(order, s.watchers[w].watcherChannels)
    ensures Among(s.watchers[w].watcherChannels, order, c) <==> exists k :: HasChannel(s, w, k, c)
  {
    if exists k :: HasChannel(s, w, k, c) {
      var k :| HasChannel(s, w, k, c);
      assert k in order;
    }
    if Among(s.watchers[w].watcherChannels, order, c) {
      var k :| k in order && k in s.watchers[w].watcherChannels && s.watchers[w].watcherChannels[k] == c;
      assert HasChannel(s, w, k, c);
    }
  }

  /** Delivery signals exactly the watcher's registered channels. */
  lemma DeliverSignals(s: System, w: nat, order: seq<u32>)
    requires Inv(s) && Live(s, w) && Enumerates(order, s.watchers[w].watcherChannels)
    ensures var t := Delivered(s, w, order);
            && !t.fault && |t.channels| == |s.channels|
            && t.nodes == s.nodes && t.watcherMap == s.watcherMap - {s.watchers[w].nodePath}
            && t.watchers == s.watchers[w := s.watchers[w].(watch := Done)]
    ensures forall c: nat | c < |s.channels| ::
              Delivered(s, w, order).channels[c] ==
              if exists k :: HasChannel(s, w, k, c) then Signal(s.channels[c]) else s.channels[c]
  {
    LiveIsReady(s, w);
    SendAllSignals(s.channels, s.watchers[w].watcherChannels, order);
    forall c: nat | c < |s.channels|
      ensures Delivered(s, w, order).channels[c] ==
              if exists k :: HasChannel(s, w, k, c) then Signal(s.channels[c]) else s.channels[c]
    {
      AmongIff(s, w, order, c);
    }
  }

  lemma DeliverKeepsInv(s: System, w: nat, order: seq<u32>)
    requires Inv(s) && Live(s, w) && Enumerates(order, s.watchers[w].watcherChannels)
    ensures Inv(Delivered(s, w, order))
  {
    var t := Delivered(s, w, order);
    DeliverSignals(s, w, order);
    hide Delivered;
    forall v: nat ensures Live(t, v) <==> v != w && Live(s, v) {
    }
    forall v: nat, k, c: nat ensures HasChannel(t, v, k, c) <==> v != w && HasChannel(s, v, k, c) {
    }
    assert RegisteredAreReady(t) by {
      forall v: nat, k, c: nat | HasChannel(t, v, k, c) ensures c < |t.channels| && t.channels[c] == s.channels[c] {
        assert forall j | HasChannel(s, w, j, c) :: false;
      }
    }
    forall c: nat | c < |t.channels| ensures FateOK(t, c) {
      assert FateOK(s, c);
      if t.channels[c].fate.Registered? {
        var v: nat :| HasChannel(s, v, s.channels[c].sessionID, c);
        assert HasChannel(t, v, t.channels[c].sessionID, c);
      }
    }
  }

  lemma StepKeepsInv(s: System, step: Step)
    requires Inv(s) && Enabled(s, step)
    ensures Inv(After(s, step))
  {
    match step
    case GetW(path, sessionID, reachable) =>
      if path in s.watcherMap {
        WithChannelKeepsInv(s, s.watcherMap[path], sessionID);
      } else if !GetWFails(s, path, reachable) {
        WithWatcherKeepsInv(s, path);
        WithChannelKeepsInv(WithWatcher(s, path), |s.watchers|, sessionID);
      }
    case ReleaseW(path, sessionID) => ReleaseKeepsInv(s, path, sessionID);
    case Deliver(w, order) => DeliverKeepsInv(s, w, order);
    case ChangeNode(path, change) => ChangeKeepsInv(s, path, change);
    case Disconnect(w) => DisconnectKeepsInv(s, w);
    case Receive(c) => ReceiveKeepsInv(s, c);
  }

  // ---- Every run ----

  datatype History = History(nodes: map<string, Value>, states: seq<System>, steps: seq<Step>)

  ghost predicate IsRun(r: History) {
    && |r.states| == |r.steps| + 1
    && r.states[0] == Initial(r.nodes)
    && forall i | 0 <= i < |r.steps| ::
         Enabled(r.states[i], r.steps[i]) && r.states[i + 1] == After(r.states[i], r.steps[i])
  }

  lemma {:induction false} RunKeepsInv(r: History, k: nat)
    requires IsRun(r) && k < |r.states|
    ensures Inv(r.states[k])
  {
    if k > 0 {
      RunKeepsInv(r, k - 1);
      assert r.states[k - 1 + 1] == After(r.states[k - 1], r.steps[k - 1]);
      StepKeepsInv(r.states[k - 1], r.steps[k - 1]);
    }
  }

  /** No send blocks, nothing is sent to a closed channel or closed twice, and a path has one live watch at most. */
  lemma RunIsSafe(r: History, k: nat)
    requires IsRun(r) && k < |r.states|
    ensures !r.states[k].fault
    ensures forall w: nat, sessionID, c: nat | HasChannel(r.states[k], w, sessionID, c) ::
              c < |r.states[k].channels| && r.states[k].channels[c].open && !r.states[k].channels[c].full
    ensures forall v: nat, w: nat |
              Live(r.states[k], v) && Live(r.states[k], w)
              && r.states[k].watchers[v].nodePath == r.states[k].watchers[w].nodePath :: v == w
  {
    RunKeepsInv(r, k);
  }

  // ---- What each call does ----

  /** The channel registered for a path and a session. */
  ghost predicate RegisteredFor(s: System, path: string, sessionID: u32, c: nat) {
    path in s.watcherMap && HasChannel(s, s.watcherMap[path], sessionID, c)
  }

  /**
    `GetW` succeeds exactly when the path is watched already or ZooKeeper answers with a value. It then registers one
    new open and empty channel for the session, with the watcher's value, or the node's if there was no watcher. Only
    the channel that the session had for the path is affected, and it is replaced.
  */
  lemma GetWDoes(s: System, path: string, sessionID: u32, reachable: bool)
    requires Inv(s)
    ensures References(s)
    ensures var t, n := GotW(s, path, sessionID, reachable), |s.channels|;
            if path in s.watcherMap || (reachable && path in s.nodes)
            then
              && |t.channels| == n + 1 && RegisteredFor(t, path, sessionID, n)
              && t.channels[n] == Channel(
                   path, sessionID,
                   if path in s.watcherMap then s.watchers[s.watcherMap[path]].nodeValue else s.nodes[path],
                   true, false, Registered)
              && |t.watchers| == |s.watchers| + (if path in s.watcherMap then 0 else 1)
              && (path !in s.watcherMap ==> t.watchers[|s.watchers|].watch == Armed)
              && t.nodes == s.nodes
              && forall c: nat | c < n ::
                   t.channels[c] ==
                   if RegisteredFor(s, path, sessionID, c) then s.channels[c].(fate := Superseded) else s.channels[c]
            else t == s
  {
    if path in s.watcherMap {
      var w := s.watcherMap[path];
      if sessionID in s.watchers[w].watcherChannels {
        assert HasChannel(s, w, sessionID, s.watchers[w].watcherChannels[sessionID]);
      }
    }
  }

  /** `ReleaseW` closes the session's channel for the path, forgets it, and affects no other channel and no watch. */
  lemma ReleaseWDoes(s: System, path: string, sessionID: u32)
    requires Inv(s)
    ensures References(s)
    ensures var t := ReleasedW(s, path, sessionID);
            && |t.channels| == |s.channels| && t.nodes == s.nodes && t.watcherMap == s.watcherMap
            && (forall c: nat :: !RegisteredFor(t, path, sessionID, c))
            && (forall w: nat | w < |s.watchers| :: w < |t.watchers| && t.watchers[w].watch == s.watchers[w].watch)
            && forall c: nat | c < |s.channels| ::
                 t.channels[c] ==
                 if RegisteredFor(s, path, sessionID, c) then s.channels[c].(open := false, fate := Released)
                 else s.channels[c]
  {
    if path in s.watcherMap && sessionID in s.watchers[s.watcherMap[path]].watcherChannels {
      var w := s.watcherMap[path];
      assert HasChannel(s, w, sessionID, s.watchers[w].watcherChannels[sessionID]);
    }
  }

  /** A change of a node fires its watch, and no other: the event for every channel of the path is on its way. */
  lemma ChangeFires(s: System, path: string, change: Change, sessionID: u32, c: nat)
    requires Inv(s) && RegisteredFor(s, path, sessionID, c)
    ensures var t := Changed(s, path, change);
            && RegisteredFor(t, path, sessionID, c) && t.watchers[t.watcherMap[path]].watch == Fired
            && (if change.Write? then path in t.nodes && t.nodes[path] == change.value else path !in t.nodes)
            && (forall other | other != path :: other in t.nodes <==> other in s.nodes)
            && (forall other | other != path && other in s.nodes :: t.nodes[other] == s.nodes[other])
            && |t.watchers| == |s.watchers|
            && (forall w: nat | w < |s.watchers| && s.watchers[w].nodePath != path :: t.watchers[w] == s.watchers[w])
  {
  }

  /** Losing the connection fires a live watch, too, and touches nothing else. */
  lemma DisconnectFires(s: System, w: nat)
    requires Live(s, w)
    ensures Enabled(s, Disconnect(w))
    ensures var t := After(s, Disconnect(w));
            && t.watchers[w] == s.watchers[w].(watch := Fired)
            && t == s.(watchers := s.watchers[w := t.watchers[w]])
  {
  }

  // ---- No update is lost ----

  /** The watcher's value is the node's, or its event is on the way. */
  ghost predicate CurrentOrPending(s: System, w: nat)
    requires w < |s.watchers|
  {
    || s.watchers[w].watch.Fired?
    || (s.watchers[w].nodePath in s.nodes && s.nodes[s.watchers[w].nodePath] == s.watchers[w].nodeValue)
  }

  /** Steps by which a session gives up its channel for a path. */
  predicate GivesUp(step: Step, path: string, sessionID: u32) {
    match step
    case GetW(p, k, _) => p == path && k == sessionID
    case ReleaseW(p, k) => p == path && k == sessionID
    case _ => false
  }

  /** The same channel, whatever became of it. */
  predicate SameCall(a: Channel, b: Channel) {
    a.path == b.path && a.sessionID == b.sessionID && a.value == b.value
  }

  /**
    A channel's fate changes only while it is registered: to signalled only by the delivery of its watcher's event,
    to released or superseded only by its own session and path.
  */
  lemma StepFate(s: System, step: Step, c: nat)
    requires Inv(s) && Enabled(s, step) && c < |s.channels|
    ensures c < |After(s, step).channels|
    ensures var before, after := s.channels[c], After(s, step).channels[c];
            && SameCall(before, after)
            && (!before.fate.Registered? ==> after.fate == before.fate)
            && (before.fate.Registered? && after.fate.Signalled? ==>
                  step.Deliver? && HasChannel(s, step.watcher, before.sessionID, c) && after.full)
            && (before.fate.Registered? && after.fate.Released? ==> step == ReleaseW(before.path, before.sessionID))
            && (before.fate.Registered? && after.fate.Superseded? ==>
                  step.GetW? && GivesUp(step, before.path, before.sessionID))
  {
    match step
    case GetW(path, sessionID, reachable) =>
      if !GetWFails(s, path, reachable) {
        var u := if path in s.watcherMap then s else WithWatcher(s, path);
        if path !in s.watcherMap {
          WithWatcherKeepsInv(s, path);
        }
        var w := u.watcherMap[path];
        if sessionID in u.watchers[w].watcherChannels {
          assert HasChannel(u, w, sessionID, u.watchers[w].watcherChannels[sessionID]);
        }
      }
    case ReleaseW(path, sessionID) =>
      if path in s.watcherMap && sessionID in s.watchers[s.watcherMap[path]].watcherChannels {
        var w := s.watcherMap[path];
        assert HasChannel(s, w, sessionID, s.watchers[w].watcherChannels[sessionID]);
      }
    case Deliver(w, order) =>
      DeliverSignals(s, w, order);
      if k :| HasChannel(s, w, k, c) {
        assert s.channels[c].fate.Registered? && s.channels[c].sessionID == k;
      }
    case ChangeNode(_, _) =>
    case Disconnect(_) =>
    case Receive(_) =>
  }

  predicate Emptied(s: System, c: nat) {
    c < |s.channels| && s.channels[c].fate.Signalled? && !s.channels[c].full
  }

  lemma EmptiedStep(s: System, step: Step, c: nat)
    requires Inv(s) && Enabled(s, step) && Emptied(s, c)
    ensures Emptied(After(s, step), c)
  {
    StepFate(s, step, c);
    match step
    case GetW(path, _, _) =>
    case ReleaseW(path, _) =>
    case Deliver(w, order) =>
      DeliverSignals(s, w, order);
    case ChangeNode(_, _) =>
    case Disconnect(_) =>
    case Receive(_) =>
  }

  lemma ReceiveEmpties(s: System, c: nat)
    requires Inv(s) && Enabled(s, Receive(c))
    ensures Emptied(After(s, Receive(c)), c)
  {
    assert FateOK(s, c);
  }

  lemma {:induction false} StaysEmptied(r: History, i: nat, j: nat, c: nat)
    requires IsRun(r) && i <= j < |r.states| && Emptied(r.states[i], c)
    ensures Emptied(r.states[j], c)
  {
    hide Inv, Enabled, After, Emptied;
    if i < j {
      StaysEmptied(r, i, j - 1, c);
      RunStep(r, j - 1);
      hide *;
      EmptiedStep(r.states[j - 1], r.steps[j - 1], c);
    }
  }

  /** A channel tells its session of an event once at most. */
  lemma ReceivedOnce(r: History, i: nat, j: nat, c: nat)
    requires IsRun(r) && i < j < |r.steps| && r.steps[i] == Receive(c)
    ensures r.steps[j] != Receive(c)
  {
    RunStep(r, i);
    RunStep(r, j);
    ReceiveEmpties(r.states[i], c);
    StaysEmptied(r, i + 1, j, c);
  }

  /** The `i`-th step is a successful `GetW`, returning channel `c`. */
  ghost predicate Returns(r: History, i: nat, c: nat)
    requires |r.states| == |r.steps| + 1
  {
    i < |r.steps| && r.steps[i].GetW? && c == |r.states[i].channels| && |r.states[i + 1].channels| == c + 1
  }

  lemma GetWReturns(r: History, i: nat, c: nat)
    requires IsRun(r) && Returns(r, i, c)
    ensures var channel := r.states[i + 1].channels[c];
            && channel.path == r.steps[i].path && channel.sessionID == r.steps[i].sessionID
            && channel.open && !channel.full && channel.fate.Registered?
  {
    RunKeepsInv(r, i);
    assert r.states[i + 1] == After(r.states[i], r.steps[i]);
  }

  /** Channel `c` is the one of `call`, neither released nor replaced. */
  predicate Kept(call: Channel, s: System, c: nat) {
    && c < |s.channels| && SameCall(call, s.channels[c])
    && (s.channels[c].fate.Registered? || s.channels[c].fate.Signalled?)
  }

  lemma KeptStep(call: Channel, s: System, step: Step, c: nat)
    requires Inv(s) && Enabled(s, step) && Kept(call, s, c) && !GivesUp(step, call.path, call.sessionID)
    ensures Kept(call, After(s, step), c)
  {
    StepFate(s, step, c);
  }

  lemma RunStep(r: History, k: nat)
    requires IsRun(r) && k < |r.steps|
    ensures Inv(r.states[k]) && Enabled(r.states[k], r.steps[k]) && r.states[k + 1] == After(r.states[k], r.steps[k])
  {
    RunKeepsInv(r, k);
  }

  lemma {:induction false} KeptLater(r: History, call: Channel, i: nat, j: nat, c: nat)
    requires IsRun(r) && i <= j < |r.states| && Kept(call, r.states[i], c)
    requires forall m | i <= m < j :: !GivesUp(r.steps[m], call.path, call.sessionID)
    ensures Kept(call, r.states[j], c)
  {
    hide Inv, Enabled, After, Kept, GivesUp;
    if i < j {
      KeptLater(r, call, i, j - 1, c);
      RunStep(r, j - 1);
      hide *;
      KeptStep(call, r.states[j - 1], r.steps[j - 1], c);
    }
  }

  /**
    A channel returned by `GetW` with a value, unless its session released or replaced it, has been signalled,
    or it is registered with a watcher of that value whose node still has it or whose event is on the way.
  */
  lemma NoLostUpdate(r: History, i: nat, j: nat, c: nat) returns (w: nat)
    requires IsRun(r) && Returns(r, i, c) && i < j < |r.states|
    requires forall m | i < m < j :: !GivesUp(r.steps[m], r.steps[i].path, r.steps[i].sessionID)
    ensures c < |r.states[j].channels|
    ensures r.states[j].channels[c].fate.Signalled? ||
            (&& HasChannel(r.states[j], w, r.steps[i].sessionID, c)
             && r.states[j].watchers[w].nodePath == r.steps[i].path
             && r.states[j].watchers[w].nodeValue == r.states[i + 1].channels[c].value
             && CurrentOrPending(r.states[j], w))
  {
    GetWReturns(r, i, c);
    KeptLater(r, r.states[i + 1].channels[c], i + 1, j, c);
    RunKeepsInv(r, j);
    assert FateOK(r.states[j], c);
    w := 0;
    if r.states[j].channels[c].fate.Registered? {
      w :| HasChannel(r.states[j], w, r.steps[i].sessionID, c);
    }
  }

  /** A registered channel whose value is out of date can be delivered to at once, and delivery signals it. */
  lemma StaleIsDelivered(s: System, c: nat) returns (w: nat, order: seq<u32>)
    requires Inv(s) && c < |s.channels| && s.channels[c].fate.Registered?
    requires !(s.channels[c].path in s.nodes && s.nodes[s.channels[c].path] == s.channels[c].value)
    ensures Enabled(s, Deliver(w, order))
    ensures c < |After(s, Deliver(w, order)).channels|
    ensures After(s, Deliver(w, order)).channels[c] == Signal(s.channels[c])
  {
    assert FateOK(s, c);
    w :| HasChannel(s, w, s.channels[c].sessionID, c);
    order := Enumerate(s.watchers[w].watcherChannels.Keys);
    DeliverSignals(s, w, order);
  }

  lemma {:induction false} Enumerate(keys: set<u32>) returns (order: seq<u32>)
    ensures forall i, j | 0 <= i < j < |order| :: order[i] != order[j]
    ensures forall k :: k in order <==> k in keys
  {
    if keys == {} {
      order := [];
    } else {
      var k: u32 :| k in keys;
      var rest := Enumerate(keys - {k});
      order := rest + [k];
    }
  }

  // ---- The manager ----

  class ZookeeperManager {
    var watcherMap: map<string, nat>
    var watchers: seq<NodeWatcher>
    var channels: seq<Channel>
    /** What the ZooKeeper connection reads. */
    var nodes: map<string, Value>

    function State(): System
      reads this
    {
      System(nodes, watcherMap, watchers, channels, false)
    }

    ghost predicate Valid()
      reads this
    {
      Inv(State())
    }

    constructor (nodes: map<string, Value>)
      ensures Valid() && State() == Initial(nodes)
    {
      watcherMap, watchers, channels, this.nodes := map[], [], [], nodes;
    }

    /** `event` is the position of the new channel. */
    method GetW(path: string, sessionID: u32, reachable: bool) returns (value: Value, event: nat, ok: bool)
      requires Valid()
      modifies this
      ensures Valid() && State() == GotW(old(State()), path, sessionID, reachable)
      ensures ok <==> !GetWFails(old(State()), path, reachable)
      ensures ok ==> event == |old(channels)| < |channels| && value == channels[event].value
    {
      ghost var s := State();
      StepKeepsInv(s, Step.GetW(path, sessionID, reachable));
      hide Inv;
      event, value := |channels|, "";
      var w: nat;
      if path in watcherMap {
        w := watcherMap[path];
      } else {
        if !reachable || path !in nodes {
          return value, event, false;
        }
        w := |watchers|;
        watchers := watchers + [NodeWatcher(path, nodes[path], Armed, map[])];
        watcherMap := watcherMap[path := w];
      }
      ghost var u := State();
      var watcher := watchers[w];
      value := watcher.nodeValue;
      channels := Supersede(channels, watcher, sessionID)
        + [Channel(watcher.nodePath, sessionID, value, true, false, Registered)];
      watchers := watchers[w := watcher.(watcherChannels := watcher.watcherChannels[sessionID := event])];
      assert State() == WithChannel(u, w, sessionID);
      ok := true;
    }

    method ReleaseW(path: string, sessionID: u32)
      requires Valid()
      modifies this
      ensures Valid() && State() == ReleasedW(old(State()), path, sessionID)
    {
      ghost var s := State();
      StepKeepsInv(s, Step.ReleaseW(path, sessionID));
      if path !in watcherMap {
        return;
      }
      var w := watcherMap[path];
      var watcher := watchers[w];
      if sessionID !in watcher.watcherChannels {
        return;
      }
      var eventChan := watcher.watcherChannels[sessionID];
      assert HasChannel(s, w, sessionID, eventChan);
      Close(eventChan, Released);
      watchers := watchers[w := watcher.(watcherChannels := watcher.watcherChannels - {sessionID})];
    }

    /** A send on a channel of capacity one returns only when the channel is empty, and fails on a closed one. */
    method Send(c: nat)
      requires c < |channels| && channels[c].open && !channels[c].full
      modifies this`channels
      ensures channels == old(channels)[c := old(channels)[c].(full := true)]
    {
      channels := channels[c := channels[c].(full := true)];
    }

    /** Closing a closed channel fails. */
    method Close(c: nat, fate: Fate)
      requires c < |channels| && channels[c].open
      modifies this`channels
      ensures channels == old(channels)[c := old(channels)[c].(open := false, fate := fate)]
    {
      channels := channels[c := channels[c].(open := false, fate := fate)];
    }

    /** What a watcher's goroutine does when its event has come. */
    method DeliverEvent(w: nat)
      requires Valid() && w < |watchers| && watchers[w].watch.Fired?
      modifies this
      ensures Valid()
      ensures DeliveredInSomeOrder(old(State()), w, State())
    {
      ghost var s := State();
      LiveIsReady(s, w);
      hide Inv;
      var registered := watchers[w].watcherChannels;
      var rest := registered.Keys;
      ghost var order := [];
      while rest != {}
        invariant rest <= registered.Keys
        invariant Splits(order, rest, registered)
        invariant SendAll(s.channels, registered, order) == Sent(channels)
        invariant StillReady(channels, registered, rest)
        decreases rest
        modifies this`channels
      {
        var sessionID: u32 :| sessionID in rest;
        var eventChan := registered[sessionID];
        DeliverOne(s.channels, channels, registered, order, rest, sessionID);
        hide SendAll, Splits, StillReady;
        Send(eventChan);
        Close(eventChan, Signalled);
        order, rest := order + [sessionID], rest - {sessionID};
      }
      DeliverKeepsInv(s, w, order);
      hide SendAll, StillReady;
      RemoveNodeWatcher(w);
      assert State() == Delivered(s, w, order);
    }

    method RemoveNodeWatcher(w: nat)
      requires w < |watchers|
      modifies this`watcherMap, this`watchers
      ensures watcherMap == old(watcherMap) - {old(watchers)[w].nodePath}
      ensures watchers == old(watchers)[w := old(watchers)[w].(watch := Done)]
    {
      watcherMap := watcherMap - {watchers[w].nodePath};
      watchers := watchers[w := watchers[w].(watch := Done)];
    }
  }

  /** Each session is either listed in `order`, once, or still in `rest`. */
  ghost predicate Splits(order: seq<u32>, rest: set<u32>, registered: map<u32, nat>) {
    && (forall i, j | 0 <= i < j < |order| :: order[i] != order[j])
    && (forall k | k in order :: k in registered && k !in rest)
    && (forall k | k in registered :: k in order || k in rest)
  }

  ghost predicate StillReady(channels: seq<Channel>, registered: map<u32, nat>, rest: set<u32>) {
    forall k | k in rest ::
      k in registered && registered[k] < |channels| && channels[registered[k]].open && !channels[registered[k]].full
  }

  /** One turn of the delivery loop. */
  lemma DeliverOne(
    start: seq<Channel>, channels: seq<Channel>, registered: map<u32, nat>, order: seq<u32>, rest: set<u32>,
    sessionID: u32)
    requires Splits(order, rest, registered) && StillReady(channels, registered, rest) && sessionID in rest
    requires Ready(start, registered) && SendAll(start, registered, order) == Sent(channels)
    ensures var c := registered[sessionID];
            && c < |channels| && channels[c].open && !channels[c].full
            && SendAll(start, registered, order + [sessionID]) == Sent(channels[c := Signal(channels[c])])
            && StillReady(channels[c := Signal(channels[c])], registered, rest - {sessionID})
    ensures Splits(order + [sessionID], rest - {sessionID}, registered)
  {
    assert (order + [sessionID])[..|order|] == order;
  }

  ghost predicate DeliveredInSomeOrder(s: System, w: nat, t: System)
    requires w < |s.watchers|
  {
    exists order :: Enumerates(order, s.watchers[w].watcherChannels) && t == Delivered(s, w, order)
  }
}
