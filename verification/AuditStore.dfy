/**
 The audit log as an object with a file behind it: append, verify, export and reopen
 (crates/secureops-auditlog/src/lib.rs).
 */
module AuditStore {
  import opened Basics
  import opened AuditChain

  /** Everything the log is given from outside. */
  datatype Backend = Backend(hasher: Hasher, signer: Signer, format: LineFormat)

  /** Digests, signatures and lines behave; the digest may still collide. */
  ghost predicate Sound(env: Backend) {
    Agree(env.signer) && ReadsBack(env.format)
  }

  /** What the log holds in memory. */
  datatype LogState = LogState(nextSeq: nat, prevHash: string, entries: seq<LogEntry>)

  const EMPTY: LogState := LogState(0, GENESIS, [])

  function EntryFor(env: Backend, st: LogState, payload: Payload, now: string): Option<LogEntry> {
    var hash := ChainHash(env.hasher, st.prevHash, payload);
    match env.signer.sign(hash)
    case None => None
    case Some(sig) => Some(LogEntry(st.nextSeq, now, st.prevHash, payload, hash, sig))
  }

  function Extend(st: LogState, e: LogEntry): LogState {
    LogState(st.nextSeq + 1, e.hash, st.entries + [e])
  }

  /** The entries on the lines of a file, if every line that is not blank can be decoded. */
  function Decode(format: LineFormat, lines: seq<string>): Option<seq<LogEntry>> {
    if lines == [] then Some([])
    else
      match Decode(format, lines[..|lines| - 1])
      case None => None
      case Some(init) =>
        var text := format.trim(lines[|lines| - 1]);
        if text == "" then Some(init)
        else
          match format.decode(text)
          case None => None
          case Some(e) => Some(init + [e])
  }

  /** The lines decode if every line that is not blank does. */
  lemma {:induction false} DecodesIff(format: LineFormat, lines: seq<string>)
    ensures Decode(format, lines).Some? <==>
            forall i | 0 <= i < |lines| :: format.trim(lines[i]) == "" || format.decode(format.trim(lines[i])).Some?
  {
    if lines == [] {
    } else {
      var init, last := lines[..|lines| - 1], lines[|lines| - 1];
      DecodesIff(format, init);
      assert lines == init + [last];
    }
  }

  /** A blank line is as if it were not there. */
  lemma {:induction false} BlankLinesAreSkipped(format: LineFormat, before: seq<string>, blank: string, after: seq<string>)
    requires format.trim(blank) == ""
    ensures Decode(format, before + [blank] + after) == Decode(format, before + after)
    decreases |after|
  {
    if after == [] {
      assert before + [blank] + after == before + [blank] && before + after == before;
      assert (before + [blank])[..|before|] == before;
    } else {
      var init, last := after[..|after| - 1], after[|after| - 1];
      BlankLinesAreSkipped(format, before, blank, init);
      assert before + [blank] + after == (before + [blank] + init) + [last] && before + after == (before + init) + [last];
      assert ((before + [blank] + init) + [last])[..|before + [blank] + init|] == before + [blank] + init;
      assert ((before + init) + [last])[..|before + init|] == before + init;
    }
  }

  function Resume(entries: seq<LogEntry>): LogState {
    LogState(if entries == [] then 0 else entries[|entries| - 1].index + 1, Head(entries), entries)
  }

  /** Reopening succeeds if the lines decode to a linked chain; numbers and signatures are not looked at. */
  ghost function Load(env: Backend, lines: seq<string>): Option<LogState> {
    match Decode(env.format, lines)
    case None => None
    case Some(entries) => if Linked(env.hasher, entries) then Some(Resume(entries)) else None
  }

  datatype VerifyResult = Intact | ChainBroken(index: nat) | SignatureInvalid(index: nat) | SignerFailed

  /** Entry `i` carries on the chain: number, link and hash are right. */
  ghost predicate CarriesOn(h: Hasher, entries: seq<LogEntry>, i: nat)
    requires i < |entries|
  {
    entries[i].index == i && entries[i].prevHash == Head(entries[..i]) && RecomputeHashMatches(h, entries[i])
  }

  /** `r` reports entry `i` for what is wrong with it: the chain first, then the signature. */
  ghost predicate Reports(h: Hasher, s: Signer, entries: seq<LogEntry>, i: nat, r: VerifyResult)
    requires i < |entries|
  {
    if !CarriesOn(h, entries, i) then r == ChainBroken(entries[i].index)
    else
      match s.verify(entries[i].hash, entries[i].signature)
      case None => r == SignerFailed
      case Some(good) => !good && r == SignatureInvalid(entries[i].index)
  }

  class AuditLog {
    const env: Backend
    const persistent: bool
    var nextSeq: nat
    var prevHash: string
    var entries: seq<LogEntry>
    var file: seq<string>

    ghost function State(): LogState
      reads this
    {
      LogState(nextSeq, prevHash, entries)
    }

    constructor InMemory(env: Backend)
      ensures this.env == env && !persistent && State() == EMPTY && file == []
    {
      this.env, persistent, nextSeq, prevHash, entries, file := env, false, 0, GENESIS, [], [];
    }

    constructor Persisted(env: Backend, st: LogState, file: seq<string>)
      ensures this.env == env && persistent && State() == st && this.file == file
    {
      this.env, persistent, this.file := env, true, file;
      nextSeq, prevHash, entries := st.nextSeq, st.prevHash, st.entries;
    }

    /** `written` says whether the file could be written. Memory has moved on by then. */
    method Append(payload: Payload, now: string, written: bool) returns (r: Option<LogEntry>)
      modifies this
      ensures var e := old(EntryFor(env, State(), payload, now));
              && State() == (if e.Some? then Extend(old(State()), e.value) else old(State()))
              && file == (if e.Some? && persistent && written then old(file) + [env.format.encode(e.value)] else old(file))
              && r == (if persistent && !written then None else e)
    {
      var hash := ChainHash(env.hasher, prevHash, payload);
      var signature := env.signer.sign(hash);
      if signature.None? {
        return None;
      }
      var entry := LogEntry(nextSeq, now, prevHash, payload, hash, signature.value);
      nextSeq := nextSeq + 1;
      prevHash := hash;
      entries := entries + [entry];
      if persistent {
        if !written {
          return None;
        }
        file := file + [env.format.encode(entry)];
      }
      r := Some(entry);
    }

    /** Walk the chain. What is reported is the first entry that fails, and why it fails. */
    method VerifyChain() returns (r: VerifyResult)
      ensures r == Intact <==> Verified(env.hasher, env.signer, entries)
      ensures r != Intact ==> exists i | 0 <= i < |entries| ::
                Verified(env.hasher, env.signer, entries[..i]) && Reports(env.hasher, env.signer, entries, i, r)
    {
      hide Repeat;
      var expected := GENESIS;
      for i := 0 to |entries|
        invariant expected == Head(entries[..i])
        invariant Verified(env.hasher, env.signer, entries[..i])
      {
        var e := entries[i];
        VerifyNext(env.hasher, env.signer, entries, i);
        if e.index != i || e.prevHash != expected || !RecomputeHashMatches(env.hasher, e) {
          return ChainBroken(e.index);
        }
        var ok := env.signer.verify(e.hash, e.signature);
        if ok.None? {
          return SignerFailed;
        }
        if !ok.value {
          return SignatureInvalid(e.index);
        }
        expected := e.hash;
      }
      assert entries[..|entries|] == entries;
      r := Intact;
    }

    method ExportSegment(from: nat, to: nat) returns (r: Option<seq<LogEntry>>)
      ensures r.None? <==> from > to
      ensures r.Some? ==> r.value == Between(entries, from, to)
    {
      if from > to {
        return None;
      }
      var out := [];
      for i := 0 to |entries|
        invariant out == Between(entries[..i], from, to)
      {
        assert entries[..i + 1][..i] == entries[..i];
        if from <= entries[i].index <= to {
          out := out + [entries[i]];
        }
      }
      assert entries[..|entries|] == entries;
      r := Some(out);
    }
  }

  /** The entries whose numbers lie in a range, in order. */
  function Between(entries: seq<LogEntry>, from: nat, to: nat): seq<LogEntry> {
    if entries == [] then []
    else
      var last := entries[|entries| - 1];
      Between(entries[..|entries| - 1], from, to) + if from <= last.index <= to then [last] else []
  }

  function Clip(i: nat, entries: seq<LogEntry>): (j: nat)
    ensures j <= |entries|
  {
    if i < |entries| then i else |entries|
  }

  /** What is exported from a numbered log is one contiguous stretch of it. */
  lemma {:induction false} SegmentIsContiguous(entries: seq<LogEntry>, from: nat, to: nat)
    requires Numbered(entries) && from <= to
    ensures Clip(from, entries) <= Clip(to + 1, entries)
    ensures Between(entries, from, to) == entries[Clip(from, entries)..Clip(to + 1, entries)]
  {
    if entries == [] {
    } else {
      var init, last := entries[..|entries| - 1], entries[|entries| - 1];
      SegmentIsContiguous(init, from, to);
      assert last.index == |init|;
      hide Between, Numbered;
      StretchGrows(entries, from, to + 1);
    }
  }

  lemma StretchGrows(entries: seq<LogEntry>, lo: nat, hi: nat)
    requires entries != [] && lo < hi
    ensures var init := entries[..|entries| - 1];
            entries[Clip(lo, entries)..Clip(hi, entries)] ==
            init[Clip(lo, init)..Clip(hi, init)] + if lo <= |init| < hi then [entries[|init|]] else []
  {
  }

  /** Every entry of an exported segment commits to the one before it, so the segment proves its own order. */
  lemma SegmentIsLinked(h: Hasher, entries: seq<LogEntry>, from: nat, to: nat)
    requires Linked(h, entries) && Numbered(entries) && from <= to
    ensures var seg := Between(entries, from, to);
            && (forall i | 0 <= i < |seg| :: RecomputeHashMatches(h, seg[i]) && seg[i].index == Clip(from, entries) + i)
            && (forall i | 0 < i < |seg| :: seg[i].prevHash == seg[i - 1].hash)
  {
    hide Between, Linked, RecomputeHashMatches;
    SegmentIsContiguous(entries, from, to);
    var lo, seg := Clip(from, entries), Between(entries, from, to);
    forall i | 0 <= i < |seg|
      ensures RecomputeHashMatches(h, seg[i]) && (0 < i ==> seg[i].prevHash == seg[i - 1].hash)
    {
      LinkAt(h, entries, lo + i);
    }
  }

  lemma LinkAt(h: Hasher, entries: seq<LogEntry>, i: nat)
    requires Linked(h, entries) && i < |entries|
    ensures RecomputeHashMatches(h, entries[i]) && (i > 0 ==> entries[i].prevHash == entries[i - 1].hash)
  {
  }

  lemma VerifyNext(h: Hasher, s: Signer, entries: seq<LogEntry>, i: nat)
    requires i < |entries| && Verified(h, s, entries[..i])
    ensures Head(entries[..i + 1]) == entries[i].hash
    ensures var good := entries[i].index == i && entries[i].prevHash == Head(entries[..i]) &&
                        RecomputeHashMatches(h, entries[i]) &&
                        s.verify(entries[i].hash, entries[i].signature) == Some(true);
            && (Verified(h, s, entries[..i + 1]) <==> good)
            && (!good ==> !Verified(h, s, entries))
  {
    hide Repeat, Linked, Head;
    LinkedNext(h, entries, i);
    var now := entries[..i + 1];
    assert now[i] == entries[i];
    assert forall k | 0 <= k < i :: now[k] == entries[..i][k];
  }

  /** Reopen a file. Lines are read one by one; then the links are checked. */
  method Open(env: Backend, lines: seq<string>) returns (r: Option<AuditLog>)
    ensures r.Some? <==> Load(env, lines).Some?
    ensures r.Some? ==> r.value.env == env && r.value.persistent && r.value.file == lines &&
                        r.value.State() == Load(env, lines).value
  {
    hide Repeat;
    var entries: seq<LogEntry> := [];
    for i := 0 to |lines|
      invariant Decode(env.format, lines[..i]) == Some(entries)
    {
      assert lines[..i + 1][..i] == lines[..i];
      var text := env.format.trim(lines[i]);
      if text != "" {
        var e := env.format.decode(text);
        if e.None? {
          DecodeStops(env.format, lines, i + 1);
          return None;
        }
        entries := entries + [e.value];
      }
    }
    assert lines[..|lines|] == lines;
    var expected := GENESIS;
    for i := 0 to |entries|
      invariant expected == Head(entries[..i])
      invariant Linked(env.hasher, entries[..i])
    {
      LinkedNext(env.hasher, entries, i);
      if entries[i].prevHash != expected || !RecomputeHashMatches(env.hasher, entries[i]) {
        return None;
      }
      expected := entries[i].hash;
    }
    assert entries[..|entries|] == entries;
    var log := new AuditLog.Persisted(env, Resume(entries), lines);
    r := Some(log);
  }

  lemma {:induction false} DecodeStops(format: LineFormat, lines: seq<string>, i: nat)
    requires i <= |lines| && Decode(format, lines[..i]).None?
    ensures Decode(format, lines).None?
    decreases |lines| - i
  {
    if i == |lines| {
      assert lines[..i] == lines;
    } else {
      assert lines[..i + 1][..i] == lines[..i];
      DecodeStops(format, lines, i + 1);
    }
  }

  lemma LinkedNext(h: Hasher, entries: seq<LogEntry>, i: nat)
    requires i < |entries| && Linked(h, entries[..i])
    ensures Head(entries[..i + 1]) == entries[i].hash
    ensures var good := entries[i].prevHash == Head(entries[..i]) && RecomputeHashMatches(h, entries[i]);
            (Linked(h, entries[..i + 1]) <==> good) && (!good ==> !Linked(h, entries))
  {
    hide Repeat;
    var now, before := entries[..i + 1], entries[..i];
    assert now[i] == entries[i] && now[..i] == before;
    forall k | 0 <= k < i ensures now[k] == before[k] && now[..k] == before[..k] {
    }
  }
}
