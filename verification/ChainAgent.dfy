/**
 The daemon's chain agent: drain events through the correlator, publish an alert for every chain
 and trip the circuit (crates/secureops-daemon/src/bpf_wire.rs, `run_chain_agent`).
 */
module ChainAgent {
  import opened Basics
  import opened Chain

  datatype CircuitState = Armed | Tripped

  datatype Severity = Critical | High | Medium | Low | Info

  /** An alert with the chain its message and details are rendered from. */
  datatype Alert = Alert(severity: Severity, monitor: string, chain: ExfilChain)

  datatype EnforcementMode = ObserveOnly | Enforce

  datatype ChainAction = AlertEscalate | DenyConnect

  function ToAlert(chain: ExfilChain): Alert {
    Alert(Critical, "ebpf-chain", chain)
  }

  function Decide(mode: EnforcementMode, chain: ExfilChain): ChainAction {
    match mode
    case ObserveOnly => AlertEscalate
    case Enforce => DenyConnect
  }

  function Alerts(chains: seq<ExfilChain>): (alerts: seq<Alert>)
    ensures |alerts| == |chains|
    ensures forall i | 0 <= i < |chains| ::
              alerts[i].severity == Critical && alerts[i].monitor == "ebpf-chain" && alerts[i].chain == chains[i]
  {
    seq(|chains|, i requires 0 <= i < |chains| => ToAlert(chains[i]))
  }

  /** What a correlator remembers after `events`, starting from what it remembered before. */
  function StatesFrom(states: States, events: seq<Timed>): States {
    if events == [] then states else StatesNext(StatesFrom(states, events[..|events| - 1]), events[|events| - 1])
  }

  /** The chains of `events` for a correlator that remembers `states`. */
  function ChainsFrom(ttl: nat, states: States, events: seq<Timed>): seq<ExfilChain> {
    if events == [] then []
    else
      var init := events[..|events| - 1];
      ChainsFrom(ttl, states, init) + Listed(Emitted(ttl, StatesFrom(states, init), events[|events| - 1]))
  }

  function Observed(events: seq<Timed>): (actions: seq<Action>)
    ensures |actions| == |events| && forall i | 0 <= i < |events| :: actions[i] == Observe(events[i])
  {
    seq(|events|, i requires 0 <= i < |events| => Observe(events[i]))
  }

  /** After any run of events and prunes, they are what these events add to the chains of the whole run. */
  lemma {:induction false} ChainsContinue(ttl: nat, history: seq<Action>, events: seq<Timed>)
    ensures StatesAfterAll(ttl, history + Observed(events)) == StatesFrom(StatesAfterAll(ttl, history), events)
    ensures ChainsWithPruning(ttl, history + Observed(events)) ==
            ChainsWithPruning(ttl, history) + ChainsFrom(ttl, StatesAfterAll(ttl, history), events)
  {
    hide Emitted, StatesNext, Listed, StatesAfterAll, ChainsWithPruning;
    if events == [] {
      assert history + Observed(events) == history;
    } else {
      var init, last := events[..|events| - 1], events[|events| - 1];
      ChainsContinue(ttl, history, init);
      Regroup(history, events);
      OneMoreObserve(ttl, history + Observed(init), last);
      var states := StatesAfterAll(ttl, history);
      Associate(ChainsWithPruning(ttl, history), ChainsFrom(ttl, states, init),
                Listed(Emitted(ttl, StatesFrom(states, init), last)));
    }
  }

  lemma Associate(a: seq<ExfilChain>, b: seq<ExfilChain>, c: seq<ExfilChain>)
    ensures (a + b) + c == a + (b + c)
  {
  }

  lemma OneMoreObserve(ttl: nat, actions: seq<Action>, t: Timed)
    ensures StatesAfterAll(ttl, actions + [Observe(t)]) == StatesNext(StatesAfterAll(ttl, actions), t)
    ensures ChainsWithPruning(ttl, actions + [Observe(t)]) ==
            ChainsWithPruning(ttl, actions) + Listed(Emitted(ttl, StatesAfterAll(ttl, actions), t))
  {
    assert (actions + [Observe(t)])[..|actions|] == actions;
  }

  lemma Regroup(history: seq<Action>, events: seq<Timed>)
    requires events != []
    ensures history + Observed(events) == (history + Observed(events[..|events| - 1])) + [Observe(events[|events| - 1])]
  {
  }

  /** Starting from nothing, they are the chains of the trace. */
  lemma {:induction false} ChainsFromNothing(ttl: nat, events: seq<Timed>)
    ensures StatesFrom(map[], events) == StatesAfter(events) && ChainsFrom(ttl, map[], events) == Chains(ttl, events)
  {
    hide Emitted, StatesNext, Listed;
    if events == [] {
    } else {
      ChainsFromNothing(ttl, events[..|events| - 1]);
    }
  }

  /** Drain the events until they end, or until cancellation wins the race before event `cancelAt`. */
  method RunChainAgent(correlator: ChainCorrelator, events: seq<Timed>, cancelAt: nat, mode: EnforcementMode,
                       circuit: CircuitState)
    returns (published: seq<Alert>, state: CircuitState, actions: seq<ChainAction>)
    modifies correlator
    ensures var done := if cancelAt < |events| then events[..cancelAt] else events;
            var chains := ChainsFrom(correlator.ttlMs, old(correlator.states), done);
            && correlator.states == StatesFrom(old(correlator.states), done)
            && published == Alerts(chains)
            && state == (if chains == [] then circuit else Tripped)
            && |actions| == |chains|
            && forall a | a in actions :: a == (if mode == Enforce then DenyConnect else AlertEscalate)
  {
    hide Emitted, StatesNext, ChainsFrom, StatesFrom;
    published, state, actions := [], circuit, [];
    ghost var start, chains: seq<ExfilChain> := correlator.states, [];
    var n := 0;
    NothingYet(correlator.ttlMs, start);
    while n < |events|
      invariant n <= |events| && n <= cancelAt
      invariant correlator.states == StatesFrom(start, events[..n])
      invariant chains == ChainsFrom(correlator.ttlMs, start, events[..n])
      invariant published == Alerts(chains)
      invariant state == if chains == [] then circuit else Tripped
      invariant |actions| == |chains|
      invariant forall a | a in actions :: a == if mode == Enforce then DenyConnect else AlertEscalate
    {
      if n == cancelAt {
        break;
      }
      OneMoreFrom(correlator.ttlMs, start, events, n);
      var chain := correlator.ObserveAt(events[n].ev, events[n].at);
      if chain.Some? {
        published := published + [ToAlert(chain.value)];
        state := Tripped;
        actions := actions + [Decide(mode, chain.value)];
      }
      chains := chains + Listed(chain);
      n := n + 1;
    }
    assert events[..|events|] == events;
  }

  lemma NothingYet(ttl: nat, states: States)
    ensures ChainsFrom(ttl, states, []) == [] && StatesFrom(states, []) == states
  {
  }

  lemma OneMoreFrom(ttl: nat, states: States, events: seq<Timed>, n: nat)
    requires n < |events|
    ensures StatesFrom(states, events[..n + 1]) == StatesNext(StatesFrom(states, events[..n]), events[n])
    ensures ChainsFrom(ttl, states, events[..n + 1]) ==
            ChainsFrom(ttl, states, events[..n]) + Listed(Emitted(ttl, StatesFrom(states, events[..n]), events[n]))
    ensures Timed(events[n].ev, events[n].at) == events[n]
  {
    assert events[..n + 1][..n] == events[..n];
  }

  lemma NoChainsYet(ttl: nat)
    ensures Chains(ttl, []) == [] && StatesAfter([]) == map[]
  {
  }

  lemma PrefixGrows(ttl: nat, events: seq<Timed>, n: nat)
    requires n < |events|
    ensures Chains(ttl, events[..n + 1]) == Chains(ttl, events[..n]) + Listed(EmittedAt(ttl, events, n))
  {
    assert events[..n + 1] == events[..n] + [events[n]];
    OneMoreEvent(ttl, events[..n], events[n]);
  }

  /** Whatever makes up a chain trips the circuit, and nothing else does. */
  lemma {:induction false} ChainsIffMadeUp(ttl: nat, trace: seq<Timed>)
    ensures Chains(ttl, trace) != [] <==>
            exists i: nat, j: nat, chain :: i < |trace| && MakesChain(ttl, trace, j, i, chain)
  {
    ChainsIffEmitted(ttl, trace);
    if Chains(ttl, trace) != [] {
      var i: nat :| i < |trace| && EmittedAt(ttl, trace, i).Some?;
      var chain := EmittedAt(ttl, trace, i).value;
      EmitsExactlyChains(ttl, trace, i, chain);
      var j: nat :| MakesChain(ttl, trace, j, i, chain);
      assert i < |trace| && MakesChain(ttl, trace, j, i, chain);
    }
    if i: nat, j: nat, chain :| i < |trace| && MakesChain(ttl, trace, j, i, chain) {
      EmitsExactlyChains(ttl, trace, i, chain);
    }
  }

  lemma {:induction false} ChainsIffEmitted(ttl: nat, trace: seq<Timed>)
    ensures Chains(ttl, trace) != [] <==> exists i: nat :: i < |trace| && EmittedAt(ttl, trace, i).Some?
  {
    hide EmittedAt, Chains;
    if trace == [] {
      NoChainsYet(ttl);
    } else {
      var n := |trace| - 1;
      ChainsIffEmitted(ttl, trace[..n]);
      ChainsUnfold(ttl, trace);
      forall i: nat | i < n ensures EmittedAt(ttl, trace[..n], i) == EmittedAt(ttl, trace, i) {
        EmittedInPrefix(ttl, trace, n, i);
      }
      if Chains(ttl, trace[..n]) != [] {
        var i: nat :| i < n && EmittedAt(ttl, trace[..n], i).Some?;
        assert i < |trace| && EmittedAt(ttl, trace, i).Some?;
      }
      if i: nat :| i < |trace| && EmittedAt(ttl, trace, i).Some? && i != n {
        assert i < n && EmittedAt(ttl, trace[..n], i).Some?;
      }
    }
  }

  lemma ChainsUnfold(ttl: nat, trace: seq<Timed>)
    requires trace != []
    ensures Chains(ttl, trace) != [] <==>
            Chains(ttl, trace[..|trace| - 1]) != [] || EmittedAt(ttl, trace, |trace| - 1).Some?
  {
  }

  lemma EmittedInPrefix(ttl: nat, trace: seq<Timed>, n: nat, i: nat)
    requires i < n <= |trace|
    ensures EmittedAt(ttl, trace[..n], i) == EmittedAt(ttl, trace, i)
  {
    assert trace[..n][..i] == trace[..i];
  }

  /** Being cancelled loses later alerts but never reorders or invents any. */
  lemma {:induction false} CancellingCutsOff(ttl: nat, events: seq<Timed>, k: nat)
    requires k <= |events|
    ensures Chains(ttl, events[..k]) <= Chains(ttl, events)
    decreases |events| - k
  {
    if k == |events| {
      assert events[..k] == events;
    } else {
      PrefixGrows(ttl, events, k);
      CancellingCutsOff(ttl, events, k + 1);
    }
  }
}
