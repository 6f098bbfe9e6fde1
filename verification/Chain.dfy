/**
 Correlating a secret read with a later dial-out of the same process
 (crates/secureops-bpf/src/chain.rs and lib.rs).
 */
module Chain {
  import opened Basics

  datatype SyscallKind = Openat | Connect | Execve

  datatype SyscallEvent = SyscallEvent(pid: int, comm: string, kind: SyscallKind, pathOrHost: string)

  /** An event and the millisecond it was observed at. */
  datatype Timed = Timed(ev: SyscallEvent, at: nat)

  datatype ExfilChain = ExfilChain(pid: int, comm: string, credPath: string, dest: string, gapMs: nat)

  datatype PidState = PidState(credPath: string, comm: string, openedAt: nat)

  type States = map<int, PidState>

  predicate Contains(s: string, word: string) {
    exists i | 0 <= i <= |s| :: OccursAt(s, word, i)
  }

  lemma ContainsMeans(s: string, word: string)
    ensures Contains(s, word) <==> exists front, rest :: s == front + word + rest
  {
    hide OccursAt;
    if Contains(s, word) {
      var i :| 0 <= i <= |s| && OccursAt(s, word, i);
      OccursAtMeans(s, word, i);
    }
    if front, rest :| s == front + word + rest {
      OccursAtMeans(s, word, |front|);
    }
  }

  predicate IsSecretRead(ev: SyscallEvent)
    ensures IsSecretRead(ev) ==> ev.kind == Openat
  {
    && ev.kind == Openat
    && (var p := ev.pathOrHost;
        || EndsWith(p, ".env") || Contains(p, "/.env") || Contains(p, "credentials")
        || Contains(p, "id_rsa") || Contains(p, "id_ed25519") || Contains(p, ".pem")
        || Contains(p, "secret") || Contains(p, "password") || Contains(p, "Keychains")
        || Contains(p, ".aws") || Contains(p, "canary"))
  }

  /** Words that make a path secret wherever they occur in it. */
  const SECRET_WORDS: seq<string> :=
    ["/.env", "credentials", "id_rsa", "id_ed25519", ".pem", "secret", "password", "Keychains", ".aws", "canary"]

  /** A secret read is the opening of a path that ends in `.env` or has one of these words in it. */
  lemma SecretReadIff(ev: SyscallEvent)
    ensures IsSecretRead(ev) <==>
            && ev.kind == Openat
            && (EndsWith(ev.pathOrHost, ".env") ||
                exists w | w in SECRET_WORDS :: Contains(ev.pathOrHost, w))
  {
    hide Contains, EndsWith;
    var w := SECRET_WORDS;
    assert w[0] == "/.env" && w[1] == "credentials" && w[2] == "id_rsa" && w[3] == "id_ed25519" && w[4] == ".pem";
    assert w[5] == "secret" && w[6] == "password" && w[7] == "Keychains" && w[8] == ".aws" && w[9] == "canary";
  }

  /** Saturating subtraction: a clock that ran backwards counts as no time at all. */
  function Gap(now: nat, then_: nat): nat {
    if now >= then_ then now - then_ else 0
  }

  // ---------- one step ----------

  function StatesNext(states: States, t: Timed): States {
    if IsSecretRead(t.ev) then states[t.ev.pid := PidState(t.ev.pathOrHost, t.ev.comm, t.at)]
    else if t.ev.kind == Connect then states - {t.ev.pid}
    else if t.ev.kind == Execve && t.ev.pid in states then
      states[t.ev.pid := states[t.ev.pid].(comm := t.ev.comm)]
    else states
  }

  function Emitted(ttl: nat, states: States, t: Timed): Option<ExfilChain> {
    if t.ev.kind == Connect && t.ev.pid in states then
      var st := states[t.ev.pid];
      var gap := Gap(t.at, st.openedAt);
      if gap <= ttl then Some(ExfilChain(t.ev.pid, st.comm, st.credPath, t.ev.pathOrHost, gap)) else None
    else None
  }

  function Pruned(ttl: nat, states: States, now: nat): States {
    map pid | pid in states && Gap(now, states[pid].openedAt) <= ttl :: states[pid]
  }

  class ChainCorrelator {
    const ttlMs: nat
    var states: States

    constructor (ttlMs: nat)
      ensures this.ttlMs == ttlMs && states == map[]
    {
      this.ttlMs := ttlMs;
      states := map[];
    }

    method ObserveAt(ev: SyscallEvent, now: nat) returns (chain: Option<ExfilChain>)
      modifies this
      ensures states == old(StatesNext(states, Timed(ev, now)))
      ensures chain == old(Emitted(ttlMs, states, Timed(ev, now)))
    {
      match ev.kind
      case Openat =>
        if IsSecretRead(ev) {
          states := states[ev.pid := PidState(ev.pathOrHost, ev.comm, now)];
        }
        chain := None;
      case Connect =>
        if ev.pid !in states {
          return None;
        }
        var st := states[ev.pid];
        states := states - {ev.pid};
        var gap := Gap(now, st.openedAt);
        chain := if gap <= ttlMs then Some(ExfilChain(ev.pid, st.comm, st.credPath, ev.pathOrHost, gap)) else None;
      case Execve =>
        if ev.pid in states {
          states := states[ev.pid := states[ev.pid].(comm := ev.comm)];
        }
        chain := None;
    }

    /** Secret reads older than the TTL are forgotten, and no connect from now on could tell. */
    method Prune(now: nat)
      modifies this
      ensures forall pid | pid in states :: pid in old(states) && states[pid] == old(states)[pid]
      ensures forall pid | pid in old(states) :: pid in states <==> now <= old(states)[pid].openedAt + ttlMs
      ensures forall t: Timed | t.at >= now :: Emitted(ttlMs, states, t) == old(Emitted(ttlMs, states, t))
      ensures states == old(Step(ttlMs, states, Action.Prune(now)))
    {
      states := map pid | pid in states && Gap(now, states[pid].openedAt) <= ttlMs :: states[pid];
    }

    /** The number of processes with a secret read that is pending and was not forgotten, after any run. */
    method Tracked(ghost actions: seq<Action>) returns (n: nat)
      requires states == StatesAfterAll(ttlMs, actions)
      ensures n == |Watched(ttlMs, actions)|
    {
      WatchedAreTracked(ttlMs, actions);
      n := |states|;
    }
  }

  // ---------- whole traces ----------

  function StatesAfter(trace: seq<Timed>): States {
    if trace == [] then map[] else StatesNext(StatesAfter(trace[..|trace| - 1]), trace[|trace| - 1])
  }

  function EmittedAt(ttl: nat, trace: seq<Timed>, i: nat): Option<ExfilChain>
    requires i < |trace|
  {
    Emitted(ttl, StatesAfter(trace[..i]), trace[i])
  }

  function Listed<T>(o: Option<T>): seq<T> {
    if o.Some? then [o.value] else []
  }

  /** The chains emitted over a trace, in order. */
  function Chains(ttl: nat, trace: seq<Timed>): seq<ExfilChain> {
    if trace == [] then []
    else Chains(ttl, trace[..|trace| - 1]) + Listed(EmittedAt(ttl, trace, |trace| - 1))
  }

  lemma OneMoreEvent(ttl: nat, events: seq<Timed>, t: Timed)
    ensures StatesAfter(events + [t]) == StatesNext(StatesAfter(events), t)
    ensures Chains(ttl, events + [t]) == Chains(ttl, events) + Listed(Emitted(ttl, StatesAfter(events), t))
  {
    assert (events + [t])[..|events|] == events;
  }

  // ---------- when a chain is emitted ----------

  ghost predicate Ends(t: Timed, pid: int) {
    t.ev.pid == pid && (IsSecretRead(t.ev) || t.ev.kind == Connect)
  }

  /** `pid` opened a secret at `j`, and up to `i` neither opened another one nor dialled out. */
  ghost predicate Pending(trace: seq<Timed>, pid: int, j: nat, i: nat)
    requires i <= |trace|
    ensures Pending(trace, pid, j, i) ==> j < i
  {
    && j < i && trace[j].ev.pid == pid && IsSecretRead(trace[j].ev)
    && forall k | j < k < i :: !Ends(trace[k], pid)
  }

  /** `comm` is that of the latest execve of `pid` between `j` and `i`, or else that of `j`. */
  ghost predicate CommAt(trace: seq<Timed>, pid: int, j: nat, i: nat, comm: string)
    requires j < i <= |trace|
  {
    exists k | j <= k < i ::
      && comm == trace[k].ev.comm
      && (k == j || IsExec(trace[k], pid))
      && forall m | k < m < i :: !IsExec(trace[m], pid)
  }

  ghost predicate IsExec(t: Timed, pid: int) {
    t.ev.pid == pid && t.ev.kind == Execve
  }

  /** What is remembered of a process is its pending secret open, and nothing else. */
  ghost predicate Remembers(trace: seq<Timed>, pid: int, states: States, i: nat)
    requires i <= |trace|
  {
    && (pid in states <==> exists j: nat :: Pending(trace, pid, j, i))
    && (forall j: nat | Pending(trace, pid, j, i) :: pid in states &&
          states[pid].credPath == trace[j].ev.pathOrHost && states[pid].openedAt == trace[j].at &&
          CommAt(trace, pid, j, i, states[pid].comm))
  }

  lemma PendingNext(trace: seq<Timed>, pid: int, j: nat, i: nat)
    requires i < |trace|
    ensures Pending(trace, pid, j, i + 1) <==>
            if Ends(trace[i], pid) then j == i && IsSecretRead(trace[i].ev)
            else Pending(trace, pid, j, i)
  {
  }

  lemma CommNext(trace: seq<Timed>, pid: int, j: nat, i: nat, comm: string)
    requires j < i < |trace| && CommAt(trace, pid, j, i, comm)
    ensures CommAt(trace, pid, j, i + 1, if IsExec(trace[i], pid) then trace[i].ev.comm else comm)
  {
  }

  lemma {:induction false} RemembersAlways(trace: seq<Timed>, pid: int, i: nat)
    requires i <= |trace|
    ensures Remembers(trace, pid, StatesAfter(trace[..i]), i)
  {
    hide Remembers, StatesNext;
    if i == 0 {
      NothingRemembered(trace, pid);
    } else {
      RemembersAlways(trace, pid, i - 1);
      assert trace[..i][..i - 1] == trace[..i - 1];
      RemembersNext(trace, pid, StatesAfter(trace[..i - 1]), i - 1, i);
    }
  }

  lemma NothingRemembered(trace: seq<Timed>, pid: int)
    ensures Remembers(trace, pid, StatesAfter(trace[..0]), 0)
  {
  }

  lemma RemembersNext(trace: seq<Timed>, pid: int, states: States, i: nat, n: nat)
    requires n == i + 1 <= |trace| && Remembers(trace, pid, states, i)
    ensures Remembers(trace, pid, StatesNext(states, trace[i]), n)
  {
    hide IsSecretRead, Pending, CommAt;
    var t, after := trace[i], StatesNext(states, trace[i]);
    forall j: nat ensures Pending(trace, pid, j, n) <==>
      if Ends(t, pid) then j == i && IsSecretRead(t.ev) else Pending(trace, pid, j, i) {
      PendingNext(trace, pid, j, i);
    }
    if Ends(t, pid) {
      if IsSecretRead(t.ev) {
        CommStarts(trace, pid, i);
        assert Pending(trace, pid, i, n);
      }
    } else {
      if pid in states {
        var j: nat :| Pending(trace, pid, j, i);
        assert Pending(trace, pid, j, n);
      }
      forall j: nat | Pending(trace, pid, j, n) ensures pid in after && CommAt(trace, pid, j, n, after[pid].comm) {
        CommNext(trace, pid, j, i, states[pid].comm);
      }
    }
  }

  lemma CommStarts(trace: seq<Timed>, pid: int, j: nat)
    requires j < |trace|
    ensures CommAt(trace, pid, j, j + 1, trace[j].ev.comm)
  {
  }

  /** The open at `j` and the connect at `i` make up `chain`. */
  ghost predicate MakesChain(ttl: nat, trace: seq<Timed>, j: nat, i: nat, chain: ExfilChain)
    requires i < |trace|
  {
    && trace[i].ev.kind == Connect
    && Pending(trace, trace[i].ev.pid, j, i)
    && trace[i].at <= trace[j].at + ttl
    && chain.pid == trace[i].ev.pid && chain.dest == trace[i].ev.pathOrHost
    && chain.credPath == trace[j].ev.pathOrHost
    && chain.gapMs == (if trace[j].at <= trace[i].at then trace[i].at - trace[j].at else 0)
    && CommAt(trace, chain.pid, j, i, chain.comm)
  }

  lemma CommUnique(trace: seq<Timed>, pid: int, j: nat, i: nat, c: string, d: string)
    requires j < i <= |trace| && CommAt(trace, pid, j, i, c) && CommAt(trace, pid, j, i, d)
    ensures c == d
  {
  }

  /** A chain is emitted exactly when a pending secret open and a timely connect make it up. */
  lemma EmitsExactlyChains(ttl: nat, trace: seq<Timed>, i: nat, chain: ExfilChain)
    requires i < |trace|
    ensures EmittedAt(ttl, trace, i) == Some(chain) <==> exists j: nat :: MakesChain(ttl, trace, j, i, chain)
  {
    hide IsSecretRead, CommAt, Pending;
    var pid, states := trace[i].ev.pid, StatesAfter(trace[..i]);
    RemembersAlways(trace, pid, i);
    if EmittedAt(ttl, trace, i) == Some(chain) {
      var j: nat :| Pending(trace, pid, j, i);
      assert MakesChain(ttl, trace, j, i, chain);
    }
    if j: nat :| MakesChain(ttl, trace, j, i, chain) {
      CommUnique(trace, pid, j, i, chain.comm, states[pid].comm);
    }
  }

  // ---------- pruning ----------

  datatype Action = Observe(t: Timed) | Prune(now: nat)

  function Time(a: Action): nat {
    match a
    case Observe(t) => t.at
    case Prune(now) => now
  }

  function Step(ttl: nat, states: States, action: Action): States {
    match action
    case Observe(t) => StatesNext(states, t)
    case Prune(now) => Pruned(ttl, states, now)
  }

  function StatesAfterAll(ttl: nat, actions: seq<Action>): States {
    if actions == [] then map[]
    else Step(ttl, StatesAfterAll(ttl, actions[..|actions| - 1]), actions[|actions| - 1])
  }

  /** The chains emitted when pruning happens in between. */
  function ChainsWithPruning(ttl: nat, actions: seq<Action>): seq<ExfilChain> {
    if actions == [] then []
    else
      var init := actions[..|actions| - 1];
      ChainsWithPruning(ttl, init) +
      match actions[|actions| - 1]
      case Observe(t) => Listed(Emitted(ttl, StatesAfterAll(ttl, init), t))
      case Prune(_) => []
  }

  /** The events of a run, without the pruning. */
  function Events(actions: seq<Action>): seq<Timed> {
    if actions == [] then []
    else
      var last := actions[|actions| - 1];
      Events(actions[..|actions| - 1]) + if last.Observe? then [last.t] else []
  }

  ghost predicate ClockRuns(actions: seq<Action>) {
    forall i, j | 0 <= i < j < |actions| :: Time(actions[i]) <= Time(actions[j])
  }

  ghost predicate EndsPending(a: Action, pid: int) {
    a.Observe? && Ends(a.t, pid)
  }

  /** `pid` opened a secret at `a`, and up to `i` neither opened another one nor dialled out. */
  ghost predicate Awaits(actions: seq<Action>, pid: int, a: nat, i: nat)
    requires i <= |actions|
  {
    && a < i && EndsPending(actions[a], pid) && IsSecretRead(actions[a].t.ev)
    && forall k | a < k < i :: !EndsPending(actions[k], pid)
  }

  /** The prune at `p` comes too late after the open at `a`. */
  ghost predicate Forgets(ttl: nat, actions: seq<Action>, a: nat, p: nat)
    requires a < |actions| && p < |actions|
  {
    actions[p].Prune? && actions[p].now > Time(actions[a]) + ttl
  }

  ghost predicate Forgotten(ttl: nat, actions: seq<Action>, a: nat, i: nat)
    requires a < i <= |actions|
  {
    exists p | a < p < i :: Forgets(ttl, actions, a, p)
  }

  /** What is remembered of `pid` with pruning and without it, before action `i`. */
  ghost predicate Follows(ttl: nat, actions: seq<Action>, pid: int, i: nat, pruned: States, full: States)
    requires i <= |actions|
  {
    && (pid in full <==> exists a: nat :: Awaits(actions, pid, a, i))
    && (forall a: nat | Awaits(actions, pid, a, i) ::
          && pid in full && full[pid].openedAt == Time(actions[a])
          && (pid in pruned <==> !Forgotten(ttl, actions, a, i)))
    && (pid in pruned ==> pid in full && pruned[pid] == full[pid])
  }

  function StepUnpruned(states: States, action: Action): States {
    if action.Observe? then StatesNext(states, action.t) else states
  }

  lemma AwaitsNext(actions: seq<Action>, pid: int, a: nat, i: nat)
    requires i < |actions|
    ensures Awaits(actions, pid, a, i + 1) <==>
            if EndsPending(actions[i], pid) then a == i && IsSecretRead(actions[i].t.ev) else Awaits(actions, pid, a, i)
  {
  }

  lemma ForgottenNext(ttl: nat, actions: seq<Action>, a: nat, i: nat)
    requires a < i < |actions|
    ensures Forgotten(ttl, actions, a, i + 1) <==> Forgotten(ttl, actions, a, i) || Forgets(ttl, actions, a, i)
  {
  }

  lemma FollowsNext(ttl: nat, actions: seq<Action>, pid: int, i: nat, n: nat, pruned: States, full: States)
    requires n == i + 1 <= |actions| && Follows(ttl, actions, pid, i, pruned, full)
    ensures Follows(ttl, actions, pid, n, Step(ttl, pruned, actions[i]), StepUnpruned(full, actions[i]))
  {
    hide IsSecretRead, Awaits, Forgotten;
    var act, full' := actions[i], StepUnpruned(full, actions[i]);
    forall a: nat ensures Awaits(actions, pid, a, n) <==>
      if EndsPending(act, pid) then a == i && IsSecretRead(act.t.ev) else Awaits(actions, pid, a, i) {
      AwaitsNext(actions, pid, a, i);
    }
    if EndsPending(act, pid) {
      if IsSecretRead(act.t.ev) {
        assert Awaits(actions, pid, i, n);
        NotForgottenYet(ttl, actions, i);
      }
    } else {
      if pid in full {
        var a: nat :| Awaits(actions, pid, a, i);
        assert Awaits(actions, pid, a, n);
      }
      forall a: nat | Awaits(actions, pid, a, n)
        ensures a < i && (Forgotten(ttl, actions, a, n) <==> Forgotten(ttl, actions, a, i) || Forgets(ttl, actions, a, i))
      {
        AwaitsNext(actions, pid, a, i);
        AwaitsBefore(actions, pid, a, i);
        ForgottenNext(ttl, actions, a, i);
      }
    }
  }

  lemma AwaitsBefore(actions: seq<Action>, pid: int, a: nat, i: nat)
    requires i <= |actions| && Awaits(actions, pid, a, i)
    ensures a < i
  {
  }

  lemma NotForgottenYet(ttl: nat, actions: seq<Action>, a: nat)
    requires a < |actions|
    ensures !Forgotten(ttl, actions, a, a + 1)
  {
  }

  lemma OneMoreAction(ttl: nat, actions: seq<Action>, i: nat)
    requires i < |actions|
    ensures StatesAfterAll(ttl, actions[..i + 1]) == Step(ttl, StatesAfterAll(ttl, actions[..i]), actions[i])
    ensures StatesAfter(Events(actions[..i + 1])) == StepUnpruned(StatesAfter(Events(actions[..i])), actions[i])
  {
    hide StatesNext, Pruned, StatesAfter;
    assert actions[..i + 1][..i] == actions[..i];
    if actions[i].Observe? {
      OneMoreEvent(ttl, Events(actions[..i]), actions[i].t);
    } else {
      assert Events(actions[..i]) + [] == Events(actions[..i]);
    }
  }

  lemma {:induction false} FollowsAlways(ttl: nat, actions: seq<Action>, pid: int, i: nat)
    requires i <= |actions|
    ensures Follows(ttl, actions, pid, i, StatesAfterAll(ttl, actions[..i]), StatesAfter(Events(actions[..i])))
  {
    hide Follows, Step, StepUnpruned, StatesAfterAll, StatesAfter, Events;
    if i == 0 {
      NothingFollowed(ttl, actions, pid);
    } else {
      FollowsAlways(ttl, actions, pid, i - 1);
      OneMoreAction(ttl, actions, i - 1);
      FollowsNext(ttl, actions, pid, i - 1, i, StatesAfterAll(ttl, actions[..i - 1]), StatesAfter(Events(actions[..i - 1])));
    }
  }

  lemma NothingFollowed(ttl: nat, actions: seq<Action>, pid: int)
    ensures Follows(ttl, actions, pid, 0, StatesAfterAll(ttl, actions[..0]), StatesAfter(Events(actions[..0])))
  {
  }

  /**
   The connect at `c` completes a chain with the open at `a`, but the prune at `p` in between, by a
   clock that is ahead of the connect's, has forgotten the open.
   */
  ghost predicate Loses(ttl: nat, actions: seq<Action>, a: nat, p: nat, c: nat) {
    && a < p < c < |actions|
    && actions[c].Observe? && actions[c].t.ev.kind == Connect
    && Awaits(actions, actions[c].t.ev.pid, a, c)
    && Time(actions[c]) <= Time(actions[a]) + ttl
    && Forgets(ttl, actions, a, p)
  }

  /** At each event, pruning loses the chain if there is such a prune, and changes nothing otherwise. */
  lemma LosesOrNot(ttl: nat, actions: seq<Action>, c: nat)
    requires c < |actions| && actions[c].Observe?
    ensures var with, without := Emitted(ttl, StatesAfterAll(ttl, actions[..c]), actions[c].t),
                                 Emitted(ttl, StatesAfter(Events(actions[..c])), actions[c].t);
            if exists a: nat, p: nat :: Loses(ttl, actions, a, p, c) then with.None? && without.Some? else with == without
  {
    hide Awaits, StatesAfterAll, StatesAfter, Events;
    var pid := actions[c].t.ev.pid;
    FollowsAlways(ttl, actions, pid, c);
    if pid in StatesAfter(Events(actions[..c])) && actions[c].t.ev.kind == Connect {
      var a: nat :| Awaits(actions, pid, a, c);
      AwaitsBefore(actions, pid, a, c);
      if Forgotten(ttl, actions, a, c) && Gap(Time(actions[c]), Time(actions[a])) <= ttl {
        var p: nat :| a < p < c && Forgets(ttl, actions, a, p);
        assert Loses(ttl, actions, a, p, c);
      }
    }
  }

  ghost predicate LosesBefore(ttl: nat, actions: seq<Action>, i: nat) {
    exists a: nat, p: nat, c: nat | c < i :: Loses(ttl, actions, a, p, c)
  }

  lemma OneMoreEmitted(ttl: nat, actions: seq<Action>, i: nat)
    requires i < |actions|
    ensures actions[i].Observe? ==>
              && ChainsWithPruning(ttl, actions[..i + 1]) == ChainsWithPruning(ttl, actions[..i]) +
                 Listed(Emitted(ttl, StatesAfterAll(ttl, actions[..i]), actions[i].t))
              && Chains(ttl, Events(actions[..i + 1])) == Chains(ttl, Events(actions[..i])) +
                 Listed(Emitted(ttl, StatesAfter(Events(actions[..i])), actions[i].t))
    ensures actions[i].Prune? ==>
              && ChainsWithPruning(ttl, actions[..i + 1]) == ChainsWithPruning(ttl, actions[..i])
              && Chains(ttl, Events(actions[..i + 1])) == Chains(ttl, Events(actions[..i]))
  {
    hide StatesAfterAll, StatesAfter, Chains, Emitted;
    assert actions[..i + 1][..i] == actions[..i];
    if actions[i].Observe? {
      OneMoreEvent(ttl, Events(actions[..i]), actions[i].t);
    } else {
      assert Events(actions[..i]) + [] == Events(actions[..i]);
    }
  }

  lemma LosesNext(ttl: nat, actions: seq<Action>, i: nat)
    requires i < |actions|
    ensures LosesBefore(ttl, actions, i + 1) <==>
            LosesBefore(ttl, actions, i) || exists a: nat, p: nat :: Loses(ttl, actions, a, p, i)
  {
    hide Loses;
  }

  lemma {:induction false} ChainsUpTo(ttl: nat, actions: seq<Action>, i: nat)
    requires i <= |actions|
    ensures var with, without := ChainsWithPruning(ttl, actions[..i]), Chains(ttl, Events(actions[..i]));
            |with| <= |without| && (with == without <==> !LosesBefore(ttl, actions, i))
  {
    hide ChainsWithPruning, Chains, Emitted, StatesAfterAll, StatesAfter, Events, LosesBefore, Loses;
    if i == 0 {
      NoneLostYet(ttl, actions);
    } else {
      ChainsUpTo(ttl, actions, i - 1);
      OneMoreEmitted(ttl, actions, i - 1);
      LosesNext(ttl, actions, i - 1);
      if actions[i - 1].Observe? {
        LosesOrNot(ttl, actions, i - 1);
        GrowAlike(ChainsWithPruning(ttl, actions[..i - 1]), Chains(ttl, Events(actions[..i - 1])),
                  Emitted(ttl, StatesAfterAll(ttl, actions[..i - 1]), actions[i - 1].t),
                  Emitted(ttl, StatesAfter(Events(actions[..i - 1])), actions[i - 1].t));
      } else {
        PruneLosesNothing(ttl, actions, i - 1);
      }
    }
  }

  lemma GrowAlike(x: seq<ExfilChain>, y: seq<ExfilChain>, dx: Option<ExfilChain>, dy: Option<ExfilChain>)
    requires |x| <= |y| && (dx == dy || (dx.None? && dy.Some?))
    ensures |x + Listed(dx)| <= |y + Listed(dy)|
    ensures x + Listed(dx) == y + Listed(dy) <==> x == y && dx == dy
  {
    if x + Listed(dx) == y + Listed(dy) {
      assert x == (x + Listed(dx))[..|x|] && y == (y + Listed(dy))[..|y|];
    }
  }

  lemma NoneLostYet(ttl: nat, actions: seq<Action>)
    ensures ChainsWithPruning(ttl, actions[..0]) == [] == Chains(ttl, Events(actions[..0])) && !LosesBefore(ttl, actions, 0)
  {
  }

  lemma PruneLosesNothing(ttl: nat, actions: seq<Action>, i: nat)
    requires i < |actions| && actions[i].Prune?
    ensures forall a: nat, p: nat :: !Loses(ttl, actions, a, p, i)
  {
  }

  /** Pruning changes the emitted chains if and only if some prune comes between an open and its connect. */
  lemma PruningIsUnobservableIff(ttl: nat, actions: seq<Action>)
    ensures ChainsWithPruning(ttl, actions) == Chains(ttl, Events(actions)) <==>
            !exists a: nat, p: nat, c: nat :: Loses(ttl, actions, a, p, c)
  {
    hide ChainsWithPruning, Chains, Events;
    ChainsUpTo(ttl, actions, |actions|);
    assert actions[..|actions|] == actions;
    assert (exists a: nat, p: nat, c: nat :: Loses(ttl, actions, a, p, c)) ==> LosesBefore(ttl, actions, |actions|);
  }

  /** Whenever the clock does not run backwards, pruning at any points changes no emitted chain. */
  lemma PruningIsUnobservable(ttl: nat, actions: seq<Action>)
    requires ClockRuns(actions)
    ensures ChainsWithPruning(ttl, actions) == Chains(ttl, Events(actions))
  {
    hide Awaits;
    PruningIsUnobservableIff(ttl, actions);
    forall a: nat, p: nat, c: nat ensures !Loses(ttl, actions, a, p, c) {
    }
  }

  /** If it does run backwards, pruning can lose a chain. */
  lemma PruningNeedsTheClock(ttl: nat, open: SyscallEvent, dial: SyscallEvent)
    requires IsSecretRead(open) && dial.kind == Connect && dial.pid == open.pid
    ensures var actions := [Observe(Timed(open, 0)), Prune(ttl + 1), Observe(Timed(dial, ttl))];
            ChainsWithPruning(ttl, actions) == [] && |Chains(ttl, Events(actions))| == 1
  {
    hide IsSecretRead, ChainsWithPruning, Chains, Events, StatesAfterAll, StatesAfter;
    var actions := [Observe(Timed(open, 0)), Prune(ttl + 1), Observe(Timed(dial, ttl))];
    NoneLostYet(ttl, actions);
    OneMoreEmitted(ttl, actions, 0);
    OneMoreEmitted(ttl, actions, 1);
    OneMoreEmitted(ttl, actions, 2);
    assert actions[..3] == actions;
    assert open.kind == Openat;
    LosesOrNot(ttl, actions, 2);
    assert Loses(ttl, actions, 0, 1, 2);
  }

  // ---------- what is tracked ----------

  /** `pid` has a pending secret open that no prune has forgotten. */
  ghost predicate IsWatched(ttl: nat, actions: seq<Action>, pid: int) {
    exists a: nat | a < |actions| :: Awaits(actions, pid, a, |actions|) && !Forgotten(ttl, actions, a, |actions|)
  }

  ghost function Watched(ttl: nat, actions: seq<Action>): set<int> {
    set act | act in actions && act.Observe? && IsWatched(ttl, actions, act.t.ev.pid) :: act.t.ev.pid
  }

  lemma WatchedAreTracked(ttl: nat, actions: seq<Action>)
    ensures Watched(ttl, actions) == StatesAfterAll(ttl, actions).Keys
    ensures |Watched(ttl, actions)| == |StatesAfterAll(ttl, actions)|
  {
    hide StatesAfterAll, IsWatched;
    var states := StatesAfterAll(ttl, actions);
    forall pid ensures pid in states <==> pid in Watched(ttl, actions) {
      TrackedIffWatched(ttl, actions, pid);
    }
    assert Watched(ttl, actions) == states.Keys;
    assert |states.Keys| == |states|;
  }

  lemma TrackedIffWatched(ttl: nat, actions: seq<Action>, pid: int)
    ensures pid in StatesAfterAll(ttl, actions) <==> IsWatched(ttl, actions, pid)
    ensures IsWatched(ttl, actions, pid) ==> exists act :: act in actions && act.Observe? && act.t.ev.pid == pid
  {
    hide StatesAfterAll, Forgotten, IsSecretRead, StatesAfter, Events;
    assert actions[..|actions|] == actions;
    FollowsAlways(ttl, actions, pid, |actions|);
    if IsWatched(ttl, actions, pid) {
      var a: nat :| a < |actions| && Awaits(actions, pid, a, |actions|);
      assert actions[a] in actions;
    }
  }

  // ---------- processes do not interfere ----------

  function Only(trace: seq<Timed>, pid: int): seq<Timed> {
    if trace == [] then []
    else
      var last := trace[|trace| - 1];
      Only(trace[..|trace| - 1], pid) + if last.ev.pid == pid then [last] else []
  }

  function ChainsOf(chains: seq<ExfilChain>, pid: int): seq<ExfilChain> {
    if chains == [] then []
    else
      var last := chains[|chains| - 1];
      ChainsOf(chains[..|chains| - 1], pid) + if last.pid == pid then [last] else []
  }

  lemma ChainsOfOneMore(chains: seq<ExfilChain>, more: Option<ExfilChain>, pid: int)
    ensures ChainsOf(chains + Listed(more), pid) ==
            if more.Some? && more.value.pid == pid then ChainsOf(chains, pid) + [more.value] else ChainsOf(chains, pid)
  {
    if more.Some? {
      assert (chains + [more.value])[..|chains|] == chains;
    } else {
      assert chains + [] == chains;
    }
  }

  ghost predicate SameFor(all: States, own: States, pid: int) {
    (pid in all <==> pid in own) && (pid in all ==> all[pid] == own[pid])
  }

  lemma SameForNext(ttl: nat, all: States, own: States, t: Timed, pid: int)
    requires SameFor(all, own, pid)
    ensures t.ev.pid == pid ==>
              SameFor(StatesNext(all, t), StatesNext(own, t), pid) && Emitted(ttl, all, t) == Emitted(ttl, own, t)
    ensures t.ev.pid != pid ==> SameFor(StatesNext(all, t), own, pid)
    ensures Emitted(ttl, all, t).Some? ==> Emitted(ttl, all, t).value.pid == t.ev.pid
  {
  }

  lemma Unfold(trace: seq<Timed>)
    requires trace != []
    ensures trace == trace[..|trace| - 1] + [trace[|trace| - 1]]
  {
  }

  /** The chains of a process are those its own events produce alone. */
  lemma {:induction false} ProcessesAreIndependent(ttl: nat, trace: seq<Timed>, pid: int)
    ensures ChainsOf(Chains(ttl, trace), pid) == Chains(ttl, Only(trace, pid))
    ensures SameFor(StatesAfter(trace), StatesAfter(Only(trace, pid)), pid)
  {
    if trace == [] {
    } else {
      var init, last := trace[..|trace| - 1], trace[|trace| - 1];
      ProcessesAreIndependent(ttl, init, pid);
      Unfold(trace);
      ProcessStep(ttl, init, last, pid);
    }
  }

  lemma ProcessStep(ttl: nat, init: seq<Timed>, last: Timed, pid: int)
    requires ChainsOf(Chains(ttl, init), pid) == Chains(ttl, Only(init, pid))
    requires SameFor(StatesAfter(init), StatesAfter(Only(init, pid)), pid)
    ensures ChainsOf(Chains(ttl, init + [last]), pid) == Chains(ttl, Only(init + [last], pid))
    ensures SameFor(StatesAfter(init + [last]), StatesAfter(Only(init + [last], pid)), pid)
  {
    hide StatesNext, Emitted, StatesAfter, Chains, ChainsOf, SameFor, Only;
    var own := Only(init, pid);
    OneMoreEvent(ttl, init, last);
    OneMoreEvent(ttl, own, last);
    OnlyOneMore(init, last, pid);
    SameForNext(ttl, StatesAfter(init), StatesAfter(own), last, pid);
    ChainsOfOneMore(Chains(ttl, init), Emitted(ttl, StatesAfter(init), last), pid);
  }

  lemma OnlyOneMore(init: seq<Timed>, last: Timed, pid: int)
    ensures Only(init + [last], pid) == if last.ev.pid == pid then Only(init, pid) + [last] else Only(init, pid)
  {
  }
}
