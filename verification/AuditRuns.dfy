/**
 Whole runs of the audit log: appends whose file write may fail, and restarts in between
 (crates/secureops-auditlog/src/lib.rs, `append` and `open`).
 */
module AuditRuns {
  import opened Basics
  import opened AuditChain
  import opened AuditStore

  datatype Op = Append(payload: Payload, now: string, written: bool) | Restart

  /** A log in memory and its file, or a daemon that could not reopen its log. */
  datatype Run = Running(state: LogState, file: seq<string>) | Dead

  ghost function Perform(env: Backend, run: Run, op: Op): Run {
    match run
    case Dead => Dead
    case Running(st, file) =>
      match op
      case Append(payload, now, written) =>
        (match EntryFor(env, st, payload, now)
         case None => run
         case Some(e) => Running(Extend(st, e), if written then file + [env.format.encode(e)] else file))
      case Restart =>
        match Load(env, file)
        case None => Dead
        case Some(again) => Running(again, file)
  }

  ghost function RunAll(env: Backend, ops: seq<Op>): Run {
    if ops == [] then Running(EMPTY, []) else Perform(env, RunAll(env, ops[..|ops| - 1]), ops[|ops| - 1])
  }

  ghost function WithoutRestarts(ops: seq<Op>): seq<Op> {
    if ops == [] then []
    else
      var init, last := WithoutRestarts(ops[..|ops| - 1]), ops[|ops| - 1];
      if last.Restart? then init else init + [last]
  }

  function Lines(format: LineFormat, entries: seq<LogEntry>): seq<string> {
    if entries == [] then []
    else Lines(format, entries[..|entries| - 1]) + [format.encode(entries[|entries| - 1])]
  }

  /** The log verifies, and its cursor is where its entries end. */
  ghost predicate InOrder(env: Backend, st: LogState) {
    Verified(env.hasher, env.signer, st.entries) && st == Resume(st.entries)
  }

  lemma {:induction false} DecodeLines(format: LineFormat, entries: seq<LogEntry>)
    requires ReadsBack(format)
    ensures Decode(format, Lines(format, entries)) == Some(entries)
    ensures |Lines(format, entries)| == |entries|
  {
    hide Decode, ReadsBack;
    if entries == [] {
      DecodeNothing(format);
    } else {
      var init, last := entries[..|entries| - 1], entries[|entries| - 1];
      DecodeLines(format, init);
      DecodeNext(format, Lines(format, init), init, last);
      assert entries == init + [last];
    }
  }

  lemma DecodeNothing(format: LineFormat)
    ensures Decode(format, []) == Some([])
  {
  }

  lemma DecodeNext(format: LineFormat, lines: seq<string>, entries: seq<LogEntry>, e: LogEntry)
    requires ReadsBack(format) && Decode(format, lines) == Some(entries)
    ensures Decode(format, lines + [format.encode(e)]) == Some(entries + [e])
  {
    var line := format.encode(e);
    assert (lines + [line])[..|lines|] == lines && (lines + [line])[|lines|] == line;
  }

  lemma LinesOneMore(format: LineFormat, entries: seq<LogEntry>, e: LogEntry)
    ensures Lines(format, entries + [e]) == Lines(format, entries) + [format.encode(e)]
  {
  }

  /** An append keeps the log in order: what is appended verifies. */
  lemma AppendKeepsOrder(env: Backend, st: LogState, payload: Payload, now: string)
    requires Agree(env.signer) && InOrder(env, st) && EntryFor(env, st, payload, now).Some?
    ensures InOrder(env, Extend(st, EntryFor(env, st, payload, now).value))
  {
    hide Repeat, Linked, Head, Agree;
    var e := EntryFor(env, st, payload, now).value;
    var after := Extend(st, e);
    SignatureHolds(env.signer, e.hash);
    assert after.entries[..|st.entries|] == st.entries && after.entries[..|st.entries| + 1] == after.entries;
    OrderCursor(env, st);
    VerifyNext(env.hasher, env.signer, after.entries, |st.entries|);
  }

  lemma SignatureHolds(s: Signer, hash: string)
    requires Agree(s) && s.sign(hash).Some?
    ensures s.verify(hash, s.sign(hash).value) == Some(true)
  {
  }

  lemma OrderCursor(env: Backend, st: LogState)
    requires InOrder(env, st)
    ensures st.nextSeq == |st.entries| && st.prevHash == Head(st.entries)
  {
  }

  lemma StartsInOrder(env: Backend)
    ensures InOrder(env, EMPTY)
  {
  }

  lemma RunOneMore(env: Backend, ops: seq<Op>, op: Op)
    ensures RunAll(env, ops + [op]) == Perform(env, RunAll(env, ops), op)
  {
  }

  lemma LinesOfNothing(format: LineFormat)
    ensures Lines(format, []) == []
  {
  }

  // ---------- what reaches the file ----------

  /** The append is signed and moves the log on, but does not reach the file. */
  ghost predicate IsLost(env: Backend, run: Run, op: Op) {
    && op.Append? && !op.written && run.Running?
    && EntryFor(env, run.state, op.payload, op.now).Some?
  }

  /** An entry was lost since the log was last opened. */
  ghost predicate LostSinceRestart(env: Backend, ops: seq<Op>) {
    ops != [] &&
    (var init, op := ops[..|ops| - 1], ops[|ops| - 1];
     op.Append? && (LostSinceRestart(env, init) || IsLost(env, RunAll(env, init), op)))
  }

  /** Some restart came after an entry was lost. */
  ghost predicate RestartAfterLoss(env: Backend, ops: seq<Op>) {
    ops != [] &&
    (var init, op := ops[..|ops| - 1], ops[|ops| - 1];
     RestartAfterLoss(env, init) || (op.Restart? && LostSinceRestart(env, init)))
  }

  /** The hashes link, and the cursor is where the entries end. */
  ghost predicate Resumable(env: Backend, st: LogState) {
    Linked(env.hasher, st.entries) && st == Resume(st.entries)
  }

  lemma StartsResumable(env: Backend)
    ensures Resumable(env, EMPTY)
  {
  }

  lemma ExtendKeepsResumable(env: Backend, st: LogState, payload: Payload, now: string)
    requires Resumable(env, st) && EntryFor(env, st, payload, now).Some?
    ensures Resumable(env, Extend(st, EntryFor(env, st, payload, now).value))
  {
    hide Linked, Head;
    var e := EntryFor(env, st, payload, now).value;
    var all := st.entries + [e];
    assert all[..|st.entries|] == st.entries && all[..|st.entries| + 1] == all;
    LinkedNext(env.hasher, all, |st.entries|);
  }

  lemma LoadLines(env: Backend, kept: seq<LogEntry>)
    requires ReadsBack(env.format)
    ensures Load(env, Lines(env.format, kept)) == if Linked(env.hasher, kept) then Some(Resume(kept)) else None
  {
    DecodeLines(env.format, kept);
  }

  /** After any run, restarts included: what reached the file, and how much of the log that is. */
  lemma {:induction false} FileHoldsWritten(env: Backend, ops: seq<Op>) returns (kept: seq<LogEntry>)
    requires ReadsBack(env.format) && RunAll(env, ops).Running?
    ensures Resumable(env, RunAll(env, ops).state)
    ensures RunAll(env, ops).file == Lines(env.format, kept)
    ensures LostSinceRestart(env, ops) ==> |kept| < |RunAll(env, ops).state.entries|
    ensures !LostSinceRestart(env, ops) ==> kept == RunAll(env, ops).state.entries
  {
    hide Resumable, Lines, EntryFor, Load;
    if ops == [] {
      kept := [];
      StartsResumable(env);
      LinesOfNothing(env.format);
    } else {
      var init, op := ops[..|ops| - 1], ops[|ops| - 1];
      kept := FileHoldsWritten(env, init);
      var st := RunAll(env, init).state;
      if op.Restart? {
        LoadLines(env, kept);
        LoadIsResumable(env, kept);
      } else if EntryFor(env, st, op.payload, op.now).Some? {
        ExtendKeepsResumable(env, st, op.payload, op.now);
        if op.written {
          var e := EntryFor(env, st, op.payload, op.now).value;
          LinesOneMore(env.format, kept, e);
          kept := kept + [e];
        }
      }
    }
  }

  lemma LoadIsResumable(env: Backend, kept: seq<LogEntry>)
    ensures Linked(env.hasher, kept) ==> Resumable(env, Resume(kept))
  {
  }

  /** After any run, reopening gives the log back if and only if no entry was lost since it was last opened. */
  lemma ReopenRestoresIffNothingLost(env: Backend, ops: seq<Op>)
    requires ReadsBack(env.format) && RunAll(env, ops).Running?
    ensures Load(env, RunAll(env, ops).file) == Some(RunAll(env, ops).state) <==> !LostSinceRestart(env, ops)
  {
    hide RunAll, Lines, LostSinceRestart, Load, Linked;
    var kept := FileHoldsWritten(env, ops);
    LoadLines(env, kept);
  }

  // ---------- when restarts can be told ----------

  /**
   As long as no restart comes after a loss, restarts at any points of a run are invisible: the log
   is the one that was never closed, and it verifies.
   */
  lemma {:induction false} RestartsAreInvisible(env: Backend, ops: seq<Op>)
    requires Sound(env) && !RestartAfterLoss(env, ops)
    ensures RunAll(env, ops).Running? && RunAll(env, ops) == RunAll(env, WithoutRestarts(ops))
    ensures InOrder(env, RunAll(env, ops).state)
  {
    hide InOrder, Load, EntryFor, Extend, LostSinceRestart;
    if ops == [] {
      StartsInOrder(env);
    } else {
      var init, op := ops[..|ops| - 1], ops[|ops| - 1];
      RestartsAreInvisible(env, init);
      RunOneMore(env, WithoutRestarts(init), op);
      if op.Restart? {
        ReopenRestoresIffNothingLost(env, init);
      } else if EntryFor(env, RunAll(env, init).state, op.payload, op.now).Some? {
        AppendKeepsOrder(env, RunAll(env, init).state, op.payload, op.now);
      }
    }
  }

  /** At no moment can the run be told from one that was never closed. */
  ghost predicate NeverShows(env: Backend, ops: seq<Op>) {
    forall k | 0 <= k <= |ops| :: RunAll(env, ops[..k]) == RunAll(env, WithoutRestarts(ops[..k]))
  }

  lemma {:induction false} NoLossBefore(env: Backend, ops: seq<Op>, k: nat)
    requires !RestartAfterLoss(env, ops) && k <= |ops|
    ensures !RestartAfterLoss(env, ops[..k])
    decreases |ops| - k
  {
    if k == |ops| {
      assert ops[..k] == ops;
    } else {
      NoLossBefore(env, ops, k + 1);
      assert ops[..k + 1][..k] == ops[..k];
    }
  }

  /** The restart after a loss shows at once: the log is shorter, or can not be opened. */
  lemma RestartShowsLoss(env: Backend, ops: seq<Op>)
    requires Sound(env) && RunAll(env, ops).Running? && LostSinceRestart(env, ops)
    ensures var run := Perform(env, RunAll(env, ops), Restart);
            run.Dead? || |run.state.entries| < |RunAll(env, ops).state.entries|
  {
    hide RunAll, Lines, LostSinceRestart, Load, Linked;
    var kept := FileHoldsWritten(env, ops);
    LoadLines(env, kept);
  }

  lemma {:induction false} FirstShows(env: Backend, ops: seq<Op>) returns (k: nat)
    requires Sound(env) && RestartAfterLoss(env, ops)
    ensures k <= |ops| && RunAll(env, ops[..k]) != RunAll(env, WithoutRestarts(ops[..k]))
  {
    hide Perform, LostSinceRestart;
    var init := ops[..|ops| - 1];
    if RestartAfterLoss(env, init) {
      k := FirstShows(env, init);
      assert ops[..k] == init[..k];
    } else {
      k := |ops|;
      assert ops[..k] == ops;
      RestartsAreInvisible(env, init);
      RestartShowsLoss(env, init);
    }
  }

  /** Restarts never show if and only if none comes after a loss. */
  lemma RestartsNeverShowIff(env: Backend, ops: seq<Op>)
    requires Sound(env)
    ensures NeverShows(env, ops) <==> !RestartAfterLoss(env, ops)
  {
    if RestartAfterLoss(env, ops) {
      var k := FirstShows(env, ops);
    } else {
      forall k | 0 <= k <= |ops| ensures RunAll(env, ops[..k]) == RunAll(env, WithoutRestarts(ops[..k])) {
        NoLossBefore(env, ops, k);
        RestartsAreInvisible(env, ops[..k]);
      }
    }
  }

  ghost predicate NeverFails(s: Signer) {
    forall x :: s.sign(x).Some?
  }

  /** With a signer that never fails, a log that was never closed has one entry per append. */
  lemma {:induction false} OneEntryEach(env: Backend, ops: seq<Op>)
    requires NeverFails(env.signer)
    ensures RunAll(env, WithoutRestarts(ops)).Running?
    ensures |RunAll(env, WithoutRestarts(ops)).state.entries| == |WithoutRestarts(ops)|
  {
    if ops == [] {
    } else {
      var init, op := ops[..|ops| - 1], ops[|ops| - 1];
      OneEntryEach(env, init);
      RunOneMore(env, WithoutRestarts(init), op);
    }
  }

  /** And a log that lost an entry lags behind for good. */
  lemma {:induction false} LossLags(env: Backend, ops: seq<Op>)
    requires Sound(env) && NeverFails(env.signer) && RunAll(env, ops).Running?
    ensures var run, n := RunAll(env, ops), |WithoutRestarts(ops)|;
            && |run.file| <= n && |run.state.entries| <= n
            && (LostSinceRestart(env, ops) || RestartAfterLoss(env, ops) ==> |run.file| < n)
            && (RestartAfterLoss(env, ops) ==> |run.state.entries| < n)
  {
    hide Load, Lines;
    if ops == [] {
    } else {
      var init, op := ops[..|ops| - 1], ops[|ops| - 1];
      LossLags(env, init);
      if op.Restart? {
        var kept := FileHoldsWritten(env, init);
        LoadLines(env, kept);
        DecodeLines(env.format, kept);
      }
    }
  }

  /** So with such a signer, what there is in the end is what never closing gives if and only if that. */
  lemma RestartsShowInTheEnd(env: Backend, ops: seq<Op>)
    requires Sound(env) && NeverFails(env.signer)
    ensures RunAll(env, ops) == RunAll(env, WithoutRestarts(ops)) <==> !RestartAfterLoss(env, ops)
  {
    hide RunAll, WithoutRestarts, RestartAfterLoss, LostSinceRestart;
    OneEntryEach(env, ops);
    if RestartAfterLoss(env, ops) {
      if RunAll(env, ops).Running? {
        LossLags(env, ops);
      }
    } else {
      RestartsAreInvisible(env, ops);
    }
  }

  // ---------- writing on after a loss ----------

  /**
   An entry written after a lost one leaves a file that can not be opened again, or the hash of the
   lost entry coincides with an earlier one, which exhibits a collision or a preimage of genesis.
   */
  lemma WritingOnIsRefused(env: Backend, ops: seq<Op>, op: Op) returns (kept: seq<LogEntry>)
    requires ReadsBack(env.format) && FixedLength(env.hasher) && CanonicalIsFaithful(env.hasher)
    requires RunAll(env, ops).Running? && LostSinceRestart(env, ops)
    requires op.Append? && op.written && EntryFor(env, RunAll(env, ops).state, op.payload, op.now).Some?
    ensures RunAll(env, ops).file == Lines(env.format, kept)
    ensures var h, all := env.hasher, RunAll(env, ops).state.entries;
            || Load(env, Perform(env, RunAll(env, ops), op).file).None?
            || Collision(h, kept, all) || HitsGenesis(h, kept) || HitsGenesis(h, all)
  {
    hide RunAll, Lines, LostSinceRestart, Load, Linked, Collision, HitsGenesis, FixedLength, CanonicalIsFaithful;
    kept := FileHoldsWritten(env, ops);
    var st := RunAll(env, ops).state;
    var e := EntryFor(env, st, op.payload, op.now).value;
    LinesOneMore(env.format, kept, e);
    LoadLines(env, kept + [e]);
    if Linked(env.hasher, kept + [e]) {
      LinkedPrefix(env.hasher, kept + [e]);
      assert (kept + [e])[..|kept|] == kept;
      HeadFixesLog(env.hasher, kept, st.entries);
    }
  }

  lemma {:induction false} DecodedGrow(format: LineFormat, lines: seq<string>, more: seq<string>)
    requires Decode(format, lines + more).Some?
    ensures Decode(format, lines).Some? && Decode(format, lines).value <= Decode(format, lines + more).value
  {
    if more == [] {
      assert lines + more == lines;
    } else {
      assert (lines + more)[..|lines + more| - 1] == lines + more[..|more| - 1];
      DecodedGrow(format, lines, more[..|more| - 1]);
    }
  }

  /** A file that is refused stays refused, whatever is appended to it. */
  lemma RefusedForGood(env: Backend, lines: seq<string>, more: seq<string>)
    requires Load(env, lines).None?
    ensures Load(env, lines + more).None?
  {
    hide Decode, Linked;
    if Decode(env.format, lines + more).Some? {
      DecodedGrow(env.format, lines, more);
      var all := Decode(env.format, lines + more).value;
      var some := Decode(env.format, lines).value;
      assert all[..|some|] == some;
      if Linked(env.hasher, all) {
        LinkedUpTo(env.hasher, all, |some|);
      }
    }
  }

  // ---------- what reopening does not look at ----------

  /** Reopening takes any entry that starts a chain, whatever its number and signature. */
  lemma OpensUnverified(env: Backend, number: nat, now: string, payload: Payload, signature: string)
    requires ReadsBack(env.format)
    ensures var hash := ChainHash(env.hasher, GENESIS, payload);
            var e := LogEntry(number, now, GENESIS, payload, hash, signature);
            && Load(env, [env.format.encode(e)]) == Some(Resume([e]))
            && (Verified(env.hasher, env.signer, [e]) <==> number == 0 && env.signer.verify(hash, signature) == Some(true))
  {
    hide Repeat;
    var e := LogEntry(number, now, GENESIS, payload, ChainHash(env.hasher, GENESIS, payload), signature);
    LoadLines(env, [e]);
    LinesOneMore(env.format, [], e);
    assert [] + [e] == [e] && [e][..0] == [];
  }

  /** The log holds one entry per append, with its payload and time, in order and across restarts. */
  ghost predicate Records(entries: seq<LogEntry>, appends: seq<Op>) {
    && |entries| == |appends|
    && forall i | 0 <= i < |appends| ::
         appends[i].Append? && entries[i].payload == appends[i].payload && entries[i].timestamp == appends[i].now
  }

  lemma {:induction false} EveryAppendIsRecorded(env: Backend, ops: seq<Op>)
    requires Sound(env) && NeverFails(env.signer) && !RestartAfterLoss(env, ops)
    ensures RunAll(env, ops).Running? && Records(RunAll(env, ops).state.entries, WithoutRestarts(ops))
  {
    hide Perform, Load, InOrder, Lines, Sound, Records, NeverFails, LostSinceRestart;
    RestartsAreInvisible(env, ops);
    if ops == [] {
      RecordsNothing();
    } else {
      var init, op := ops[..|ops| - 1], ops[|ops| - 1];
      EveryAppendIsRecorded(env, init);
      RestartsAreInvisible(env, init);
      if op.Append? {
        RecordsNext(env, RunAll(env, init), WithoutRestarts(init), op);
      }
    }
  }

  lemma RecordsNothing()
    ensures Records(EMPTY.entries, [])
  {
  }

  lemma RecordsNext(env: Backend, run: Run, appends: seq<Op>, op: Op)
    requires NeverFails(env.signer) && op.Append? && run.Running? && Records(run.state.entries, appends)
    ensures Records(Perform(env, run, op).state.entries, appends + [op])
  {
  }
}
