/**
  The life cycle of one Stratum session: its status and its reconnect generation counter.

  Three workers of a session race: two stream copiers and a coin watcher. Each records the counter when it starts
  and offers it back when it wants to stop or reconnect the session. Every operation below is one region
  under the session's lock; a `go session.Stop()` is a stop that waits for its turn.
*/
module StratumSession {
  import opened Bits

  datatype RunningStat = StatStopped | StatRunning | StatReconnecting

  /**
    `generation` counts the reconnects; the source keeps only its low 32 bits.
    `stops` are the stops spawned but not yet run, each with the generation it was spawned in.
  */
  datatype Lifecycle = Lifecycle(stat: RunningStat, generation: nat, stops: seq<nat>)

  const NEW: Lifecycle := Lifecycle(StatStopped, 0, [])

  /** The `reconnectCounter` of a generation. */
  function Counter(generation: nat): u32 {
    generation % TWO32
  }

  function Ran(l: Lifecycle): Lifecycle {
    if l.stat.StatStopped? then l.(stat := StatRunning) else l
  }

  function Stopped(l: Lifecycle): Lifecycle {
    l.(stat := StatStopped)
  }

  /** A worker is heard when the session runs and the counter is the one it recorded. */
  predicate Heard(l: Lifecycle, counter: u32) {
    l.stat.StatRunning? && Counter(l.generation) == counter
  }

  /** `go session.Stop()`. */
  function StopSpawned(l: Lifecycle): Lifecycle {
    l.(stops := l.stops + [l.generation])
  }

  function StopTried(l: Lifecycle, counter: u32): Lifecycle {
    if Heard(l, counter) then StopSpawned(l) else l
  }

  /** The lock is held while the server is contacted, so a reconnect is one step. */
  function ReconnectTried(l: Lifecycle, counter: u32, connected: bool): Lifecycle {
    if !Heard(l, counter) then l
    else if connected then l.(generation := l.generation + 1)
    else StopSpawned(Lifecycle(StatReconnecting, l.generation + 1, l.stops))
  }

  /** A worker of an earlier generation is not heard, unless 2^32 reconnects have passed since. */
  lemma HeardIff(l: Lifecycle, generation: nat)
    requires generation <= l.generation
    ensures Heard(l, Counter(generation)) <==> l.stat.StatRunning? && (l.generation - generation) % TWO32 == 0
    ensures l.generation - generation < TWO32 ==>
              (Heard(l, Counter(generation)) <==> l.stat.StatRunning? && l.generation == generation)
  {
    CounterGap(generation, l.generation);
  }

  lemma CounterGap(a: nat, b: nat)
    requires a <= b
    ensures Counter(a) == Counter(b) <==> (b - a) % TWO32 == 0
  {
    var ra, rb := a % TWO32, b % TWO32;
    assert b - a == TWO32 * (b / TWO32 - a / TWO32) + (rb - ra);
    if rb >= ra {
      ModUnique(b - a, TWO32, b / TWO32 - a / TWO32, rb - ra);
    } else {
      ModUnique(b - a, TWO32, b / TWO32 - a / TWO32 - 1, rb - ra + TWO32);
    }
  }

  const RETRY_TIME_WHEN_SERVER_DOWN: nat := 10

  class StratumSession {
    const sessionID: u32
    var runningStat: RunningStat
    var reconnectCounter: u32
    ghost var generation: nat
    ghost var stops: seq<nat>

    ghost function State(): Lifecycle
      reads this
    {
      Lifecycle(runningStat, generation, stops)
    }

    ghost predicate Valid()
      reads this
    {
      reconnectCounter == Counter(generation)
    }

    constructor (sessionID: u32)
      ensures Valid() && State() == NEW && this.sessionID == sessionID
    {
      this.sessionID := sessionID;
      runningStat := StatStopped;
      reconnectCounter := 0;
      generation, stops := 0, [];
    }

    /** The locked part of `Run` and of `Resume`; `entered` when the session goes on. */
    method Run() returns (entered: bool)
      requires Valid()
      modifies this
      ensures Valid() && State() == Ran(old(State()))
      ensures entered <==> old(runningStat).StatStopped?
    {
      if runningStat != StatStopped {
        return false;
      }
      runningStat := StatRunning;
      entered := true;
    }

    /** `release` when this call, having stopped the session, goes on to release its ID. */
    method Stop() returns (release: bool)
      requires Valid()
      modifies this
      ensures Valid() && State() == Stopped(old(State()))
      ensures release <==> !old(runningStat).StatStopped?
    {
      if runningStat == StatStopped {
        return false;
      }
      runningStat := StatStopped;
      release := true;
    }

    method TryStop(currentReconnectCounter: u32) returns (tried: bool)
      requires Valid()
      modifies this
      ensures Valid() && State() == StopTried(old(State()), currentReconnectCounter)
      ensures tried <==> Heard(old(State()), currentReconnectCounter)
    {
      if runningStat != StatRunning {
        return false;
      }
      if currentReconnectCounter == reconnectCounter {
        stops := stops + [generation];
        return true;
      }
      tried := false;
    }

    /** `outcomes[i]` says whether the `i`-th connection attempt would succeed. */
    method TryReconnect(currentReconnectCounter: u32, outcomes: seq<bool>) returns (tried: bool)
      requires Valid() && |outcomes| == 11
      modifies this
      ensures Valid()
      ensures State() == ReconnectTried(old(State()), currentReconnectCounter, true in outcomes)
      ensures Heard(old(State()), currentReconnectCounter) ==>
                && runningStat == (if true in outcomes then StatRunning else StatReconnecting)
                && reconnectCounter == (old(reconnectCounter) + 1) % TWO32
      ensures tried <==> Heard(old(State()), currentReconnectCounter)
    {
      if runningStat != StatRunning {
        return false;
      }
      if currentReconnectCounter == reconnectCounter {
        NextCounter(generation);
        runningStat := StatReconnecting;
        reconnectCounter := (reconnectCounter + 1) % TWO32;
        generation := generation + 1;
        ReconnectStratumServer(RETRY_TIME_WHEN_SERVER_DOWN, outcomes);
        return true;
      }
      tried := false;
    }

    /** The locked part of `switchCoinType`. */
    method SwitchCoinType(currentReconnectCounter: u32, outcomes: seq<bool>)
      requires Valid() && |outcomes| == 11
      modifies this
      ensures Valid()
      ensures State() == ReconnectTried(old(State()), currentReconnectCounter, true in outcomes)
      ensures Heard(old(State()), currentReconnectCounter) ==>
                && runningStat == (if true in outcomes then StatRunning else StatReconnecting)
                && reconnectCounter == (old(reconnectCounter) + 1) % TWO32
    {
      if runningStat != StatRunning {
        return;
      }
      if currentReconnectCounter != reconnectCounter {
        return;
      }
      NextCounter(generation);
      runningStat := StatReconnecting;
      reconnectCounter := (reconnectCounter + 1) % TWO32;
      generation := generation + 1;
      ReconnectStratumServer(RETRY_TIME_WHEN_SERVER_DOWN, outcomes);
    }

    /** Tries once and then `retryTime` more times; a failure leaves the status and spawns a stop. */
    method ReconnectStratumServer(retryTime: nat, outcomes: seq<bool>)
      requires |outcomes| == retryTime + 1
      modifies this`runningStat, this`stops
      ensures true in outcomes ==> runningStat == StatRunning && stops == old(stops)
      ensures true !in outcomes ==> runningStat == old(runningStat) && stops == old(stops) + [generation]
    {
      var i := -1;
      var connected := false;
      while i < retryTime && !connected
        invariant -1 <= i <= retryTime
        invariant connected <==> true in outcomes[..i + 1]
      {
        connected := outcomes[i + 1];
        i := i + 1;
      }
      if !connected {
        assert outcomes[..i + 1] == outcomes;
        stops := stops + [generation];
        return;
      }
      assert true in outcomes;
      runningStat := StatRunning;
    }
  }

  lemma NextCounter(generation: nat)
    ensures (Counter(generation) + 1) % TWO32 == Counter(generation + 1)
  {
    var q, r := generation / TWO32, generation % TWO32;
    if r + 1 < TWO32 {
      ModUnique(generation + 1, TWO32, q, r + 1);
    } else {
      ModUnique(generation + 1, TWO32, q + 1, 0);
    }
  }
}
