/**
 The auditor's search for API keys below the state directory: a traversal with an explicit stack
 and a depth bound (crates/secureops-checks/src/credentials.rs, `scan_for_api_keys`).
 */
module Scan {
  import opened Basics
  import Patterns
  import Redact

  /** What the auditor can see: listings are empty for anything that is not a directory. */
  datatype Files = Files(list: string -> seq<string>, read: string -> Option<string>)

  const MAX_DEPTH: nat := 5

  function Join(dir: string, entry: string): string {
    dir + "/" + entry
  }

  /** The entry is a Markdown or JSON file that holds a key. */
  predicate IsHit(fs: Files, dir: string, entry: string) {
    && (EndsWith(entry, ".md") || EndsWith(entry, ".json"))
    && (var content := fs.read(Join(dir, entry)); content.Some? && Patterns.HasKey(content.value))
  }

  predicate IsSubdir(fs: Files, dir: string, entry: string) {
    !StartsWith(entry, ".secureops") && entry != "node_modules" && fs.list(Join(dir, entry)) != []
  }

  // ---------- the recursive walk ----------

  function Hits(fs: Files, dir: string, entries: seq<string>): seq<string> {
    if entries == [] then []
    else
      var last := entries[|entries| - 1];
      Hits(fs, dir, entries[..|entries| - 1]) + if IsHit(fs, dir, last) then [Join(dir, last)] else []
  }

  function Subdirs(fs: Files, dir: string, entries: seq<string>): seq<string> {
    if entries == [] then []
    else
      var last := entries[|entries| - 1];
      Subdirs(fs, dir, entries[..|entries| - 1]) + if IsSubdir(fs, dir, last) then [Join(dir, last)] else []
  }

  /** The hits of a directory, then those of its subdirectories in order, down to the depth bound. */
  function Walk(fs: Files, dir: string, depth: nat): seq<string>
    decreases MAX_DEPTH + 1 - depth, 0
  {
    if depth > MAX_DEPTH then []
    else
      var entries := fs.list(dir);
      Hits(fs, dir, entries) + WalkAll(fs, Subdirs(fs, dir, entries), depth + 1)
  }

  function WalkAll(fs: Files, dirs: seq<string>, depth: nat): seq<string>
    decreases MAX_DEPTH + 1 - depth, 1, |dirs|
  {
    if dirs == [] then [] else Walk(fs, dirs[0], depth) + WalkAll(fs, dirs[1..], depth)
  }

  /** How many directories the walk visits. */
  ghost function Visits(fs: Files, dir: string, depth: nat): nat
    decreases MAX_DEPTH + 1 - depth, 0
  {
    if depth > MAX_DEPTH then 1 else 1 + VisitsAll(fs, Subdirs(fs, dir, fs.list(dir)), depth + 1)
  }

  ghost function VisitsAll(fs: Files, dirs: seq<string>, depth: nat): nat
    decreases MAX_DEPTH + 1 - depth, 1, |dirs|
  {
    if dirs == [] then 0 else Visits(fs, dirs[0], depth) + VisitsAll(fs, dirs[1..], depth)
  }

  // ---------- the stack ----------

  /** What is still to come from a stack whose top is its last element. */
  ghost function Ahead(fs: Files, stack: seq<(string, nat)>): seq<string> {
    if stack == [] then []
    else
      var top := stack[|stack| - 1];
      Walk(fs, top.0, top.1) + Ahead(fs, stack[..|stack| - 1])
  }

  ghost function Work(fs: Files, stack: seq<(string, nat)>): nat {
    if stack == [] then 0
    else
      var top := stack[|stack| - 1];
      Visits(fs, top.0, top.1) + Work(fs, stack[..|stack| - 1])
  }

  lemma PushOne(fs: Files, stack: seq<(string, nat)>, dir: string, depth: nat)
    ensures Ahead(fs, stack + [(dir, depth)]) == Walk(fs, dir, depth) + Ahead(fs, stack)
    ensures Work(fs, stack + [(dir, depth)]) == Visits(fs, dir, depth) + Work(fs, stack)
  {
  }

  /** The scan finds exactly what the recursive walk finds, in the same order, whatever is listed. */
  method ScanForApiKeys(fs: Files, stateDir: string) returns (matches: seq<string>)
    ensures matches == Walk(fs, stateDir, 0)
  {
    hide Ahead, Work, Walk, WalkAll, Visits, VisitsAll, Hits, Subdirs;
    matches := [];
    var stack: seq<(string, nat)> := [(stateDir, 0)];
    Start(fs, stateDir);
    while stack != []
      invariant matches + Ahead(fs, stack) == Walk(fs, stateDir, 0)
      decreases Work(fs, stack)
    {
      var (dir, depth) := stack[|stack| - 1];
      PopAhead(fs, stack);
      PopWork(fs, stack);
      stack := stack[..|stack| - 1];
      if depth > MAX_DEPTH {
        continue;
      }
      var entries := fs.list(dir);
      var found, toRecurse := VisitDirectory(fs, dir, entries);
      ghost var below := stack;
      var k := |toRecurse|;
      PushNothing(fs, toRecurse, below, depth + 1);
      while k > 0
        invariant 0 <= k <= |toRecurse|
        invariant Ahead(fs, stack) == WalkAll(fs, toRecurse[k..], depth + 1) + Ahead(fs, below)
        invariant Work(fs, stack) == VisitsAll(fs, toRecurse[k..], depth + 1) + Work(fs, below)
      {
        k := k - 1;
        PushNext(fs, toRecurse, k, stack, below, depth + 1);
        stack := stack + [(toRecurse[k], depth + 1)];
      }
      Account(fs, dir, depth, matches, found, toRecurse, below);
      matches := matches + found;
    }
    Finish(fs, matches);
  }

  /** The loop over one directory's entries. */
  method VisitDirectory(fs: Files, dir: string, entries: seq<string>) returns (found: seq<string>, toRecurse: seq<string>)
    ensures found == Hits(fs, dir, entries) && toRecurse == Subdirs(fs, dir, entries)
  {
    found, toRecurse := [], [];
    for i := 0 to |entries|
      invariant found == Hits(fs, dir, entries[..i])
      invariant toRecurse == Subdirs(fs, dir, entries[..i])
    {
      EntryIsLast(entries, i);
      if IsHit(fs, dir, entries[i]) {
        found := found + [Join(dir, entries[i])];
      }
      if IsSubdir(fs, dir, entries[i]) {
        toRecurse := toRecurse + [Join(dir, entries[i])];
      }
    }
    assert entries[..|entries|] == entries;
  }

  lemma EntryIsLast(entries: seq<string>, i: nat)
    requires i < |entries|
    ensures entries[..i + 1][..i] == entries[..i] && entries[..i + 1][i] == entries[i]
  {
  }

  lemma Start(fs: Files, dir: string)
    ensures [] + Ahead(fs, [(dir, 0)]) == Walk(fs, dir, 0)
  {
  }

  lemma Finish(fs: Files, matches: seq<string>)
    ensures matches + Ahead(fs, []) == matches
  {
  }

  /** What popping takes off the list ahead. */
  lemma PopAhead(fs: Files, stack: seq<(string, nat)>)
    requires stack != []
    ensures var top, rest := stack[|stack| - 1], stack[..|stack| - 1];
            && Ahead(fs, stack) == Walk(fs, top.0, top.1) + Ahead(fs, rest)
            && (top.1 > MAX_DEPTH ==> Ahead(fs, stack) == Ahead(fs, rest))
  {
    hide Walk, Ahead;
    var top, rest := stack[|stack| - 1], stack[..|stack| - 1];
    TopIsLast(stack);
    PushOne(fs, rest, top.0, top.1);
    VisitsOne(fs, top.0, top.1);
    NothingBefore(Ahead(fs, rest));
  }

  /** What popping takes off the work ahead. */
  lemma PopWork(fs: Files, stack: seq<(string, nat)>)
    requires stack != []
    ensures var top, rest := stack[|stack| - 1], stack[..|stack| - 1];
            && Work(fs, rest) < Work(fs, stack)
            && (top.1 <= MAX_DEPTH ==>
                  VisitsAll(fs, Subdirs(fs, top.0, fs.list(top.0)), top.1 + 1) + Work(fs, rest) < Work(fs, stack))
  {
    hide Visits, VisitsAll, Subdirs, Work;
    var top, rest := stack[|stack| - 1], stack[..|stack| - 1];
    TopIsLast(stack);
    PushOne(fs, rest, top.0, top.1);
    VisitsOne(fs, top.0, top.1);
  }

  lemma TopIsLast(stack: seq<(string, nat)>)
    requires stack != []
    ensures stack == stack[..|stack| - 1] + [stack[|stack| - 1]]
  {
  }

  lemma NothingBefore(s: seq<string>)
    ensures [] + s == s
  {
  }

  lemma VisitsOne(fs: Files, dir: string, depth: nat)
    ensures Visits(fs, dir, depth) >= 1
    ensures depth > MAX_DEPTH ==> Walk(fs, dir, depth) == []
    ensures depth <= MAX_DEPTH ==>
              Visits(fs, dir, depth) == 1 + VisitsAll(fs, Subdirs(fs, dir, fs.list(dir)), depth + 1)
  {
  }

  lemma PushNothing(fs: Files, dirs: seq<string>, below: seq<(string, nat)>, depth: nat)
    ensures Ahead(fs, below) == WalkAll(fs, dirs[|dirs|..], depth) + Ahead(fs, below)
    ensures VisitsAll(fs, dirs[|dirs|..], depth) == 0
  {
  }

  lemma PushNext(fs: Files, dirs: seq<string>, k: nat, stack: seq<(string, nat)>, below: seq<(string, nat)>, depth: nat)
    requires k < |dirs|
    requires Ahead(fs, stack) == WalkAll(fs, dirs[k + 1..], depth) + Ahead(fs, below)
    requires Work(fs, stack) == VisitsAll(fs, dirs[k + 1..], depth) + Work(fs, below)
    ensures Ahead(fs, stack + [(dirs[k], depth)]) == WalkAll(fs, dirs[k..], depth) + Ahead(fs, below)
    ensures Work(fs, stack + [(dirs[k], depth)]) == VisitsAll(fs, dirs[k..], depth) + Work(fs, below)
  {
    hide Walk, Visits, Ahead, Work;
    PushOne(fs, stack, dirs[k], depth);
    assert dirs[k..][0] == dirs[k] && dirs[k..][1..] == dirs[k + 1..];
  }

  lemma Account(fs: Files, dir: string, depth: nat, matches: seq<string>, found: seq<string>, dirs: seq<string>,
                below: seq<(string, nat)>)
    requires depth <= MAX_DEPTH && found == Hits(fs, dir, fs.list(dir)) && dirs == Subdirs(fs, dir, fs.list(dir))
    ensures dirs[0..] == dirs
    ensures (matches + found) + (WalkAll(fs, dirs, depth + 1) + Ahead(fs, below)) ==
            matches + (Walk(fs, dir, depth) + Ahead(fs, below))
  {
    hide Ahead, WalkAll, Hits, Subdirs;
    assert Walk(fs, dir, depth) == found + WalkAll(fs, dirs, depth + 1);
    Regroup(matches, found, WalkAll(fs, dirs, depth + 1), Ahead(fs, below));
  }

  lemma Regroup(a: seq<string>, b: seq<string>, c: seq<string>, d: seq<string>)
    ensures (a + b) + (c + d) == a + ((b + c) + d)
  {
  }

  // ---------- what is reported ----------

  ghost predicate HoldsKey(fs: Files, path: string) {
    fs.read(path).Some? && Patterns.HasKey(fs.read(path).value)
  }

  lemma {:induction false} HitsHoldKeys(fs: Files, dir: string, entries: seq<string>)
    ensures forall p | p in Hits(fs, dir, entries) :: HoldsKey(fs, p)
  {
    if entries == [] {
    } else {
      HitsHoldKeys(fs, dir, entries[..|entries| - 1]);
    }
  }

  /** Only files that hold a key are reported. */
  lemma {:induction false} WalkReportsKeys(fs: Files, dir: string, depth: nat)
    ensures forall p | p in Walk(fs, dir, depth) :: HoldsKey(fs, p)
    decreases MAX_DEPTH + 1 - depth, 0
  {
    hide HoldsKey, IsHit, IsSubdir, Join, Hits, Subdirs, WalkAll;
    if depth <= MAX_DEPTH {
      HitsHoldKeys(fs, dir, fs.list(dir));
      WalkAllReportsKeys(fs, Subdirs(fs, dir, fs.list(dir)), depth + 1);
    }
  }

  lemma {:induction false} WalkAllReportsKeys(fs: Files, dirs: seq<string>, depth: nat)
    ensures forall p | p in WalkAll(fs, dirs, depth) :: HoldsKey(fs, p)
    decreases MAX_DEPTH + 1 - depth, 1, |dirs|
  {
    hide HoldsKey, Walk;
    if dirs == [] {
    } else {
      WalkReportsKeys(fs, dirs[0], depth);
      WalkAllReportsKeys(fs, dirs[1..], depth);
    }
  }

  /** Entering subdirectories name by name, `route` leads from `dir` to a file that holds a key. */
  ghost predicate Leads(fs: Files, dir: string, route: seq<string>)
    decreases |route|
  {
    && route != [] && route[0] in fs.list(dir)
    && if |route| == 1 then
         (EndsWith(route[0], ".md") || EndsWith(route[0], ".json")) && HoldsKey(fs, dir + "/" + route[0])
       else
         && !StartsWith(route[0], ".secureops") && route[0] != "node_modules"
         && fs.list(dir + "/" + route[0]) != []
         && Leads(fs, dir + "/" + route[0], route[1..])
  }

  ghost function PathAlong(dir: string, route: seq<string>): string
    decreases |route|
  {
    if route == [] then dir else PathAlong(dir + "/" + route[0], route[1..])
  }

  /** What the scan asks of an entry is what a route asks. */
  lemma EntryMeans(fs: Files, dir: string, e: string)
    ensures Join(dir, e) == dir + "/" + e
    ensures IsHit(fs, dir, e) <==> (EndsWith(e, ".md") || EndsWith(e, ".json")) && HoldsKey(fs, dir + "/" + e)
    ensures IsSubdir(fs, dir, e) <==>
            !StartsWith(e, ".secureops") && e != "node_modules" && fs.list(dir + "/" + e) != []
  {
    hide EndsWith, StartsWith, Patterns.HasKey;
  }

  lemma {:induction false} HitsAre(fs: Files, dir: string, entries: seq<string>, path: string)
    ensures path in Hits(fs, dir, entries) <==> exists e :: e in entries && IsHit(fs, dir, e) && path == Join(dir, e)
  {
    hide IsHit, Join;
    if entries == [] {
    } else {
      HitsAre(fs, dir, entries[..|entries| - 1], path);
      assert entries == entries[..|entries| - 1] + [entries[|entries| - 1]];
    }
  }

  lemma {:induction false} SubdirsAre(fs: Files, dir: string, entries: seq<string>, path: string)
    ensures path in Subdirs(fs, dir, entries) <==> exists e :: e in entries && IsSubdir(fs, dir, e) && path == Join(dir, e)
  {
    hide IsSubdir, Join;
    if entries == [] {
    } else {
      SubdirsAre(fs, dir, entries[..|entries| - 1], path);
      assert entries == entries[..|entries| - 1] + [entries[|entries| - 1]];
    }
  }

  lemma {:induction false} WalkAllIs(fs: Files, dirs: seq<string>, depth: nat, path: string)
    ensures path in WalkAll(fs, dirs, depth) <==> exists d :: d in dirs && path in Walk(fs, d, depth)
    decreases |dirs|
  {
    hide Walk;
    if dirs == [] {
    } else {
      WalkAllIs(fs, dirs[1..], depth, path);
      assert path in WalkAll(fs, dirs, depth) <==> path in Walk(fs, dirs[0], depth) || path in WalkAll(fs, dirs[1..], depth);
      if path in Walk(fs, dirs[0], depth) {
        assert dirs[0] in dirs && path in Walk(fs, dirs[0], depth);
      } else if path in WalkAll(fs, dirs[1..], depth) {
        var d :| d in dirs[1..] && path in Walk(fs, d, depth);
        assert d in dirs && path in Walk(fs, d, depth);
      }
      if d :| d in dirs && path in Walk(fs, d, depth) && d != dirs[0] {
        assert d in dirs[1..] && path in Walk(fs, d, depth);
      }
    }
  }

  /** Every route with no more names than the depth bound allows is found. */
  lemma {:induction false} WalkFinds(fs: Files, dir: string, depth: nat, route: seq<string>)
    requires Leads(fs, dir, route) && depth + |route| <= MAX_DEPTH + 1
    ensures PathAlong(dir, route) in Walk(fs, dir, depth)
    decreases |route|
  {
    hide IsHit, IsSubdir, Join, Hits, Subdirs, WalkAll, HoldsKey, EndsWith, StartsWith;
    var e, entries := route[0], fs.list(dir);
    EntryMeans(fs, dir, e);
    if |route| == 1 {
      HitsAre(fs, dir, entries, Join(dir, e));
    } else {
      WalkFinds(fs, Join(dir, e), depth + 1, route[1..]);
      SubdirsAre(fs, dir, entries, Join(dir, e));
      WalkAllIs(fs, Subdirs(fs, dir, entries), depth + 1, PathAlong(dir, route));
    }
  }

  /** And nothing else is. */
  lemma {:induction false} FoundByRoute(fs: Files, dir: string, depth: nat, path: string) returns (route: seq<string>)
    requires path in Walk(fs, dir, depth)
    ensures Leads(fs, dir, route) && depth + |route| <= MAX_DEPTH + 1 && PathAlong(dir, route) == path
    decreases MAX_DEPTH + 1 - depth
  {
    hide IsHit, IsSubdir, Join, Hits, Subdirs, WalkAll, HoldsKey, EndsWith, StartsWith;
    var entries := fs.list(dir);
    HitsAre(fs, dir, entries, path);
    if e :| e in entries && IsHit(fs, dir, e) && path == Join(dir, e) {
      EntryMeans(fs, dir, e);
      route := [e];
      assert route[1..] == [];
    } else {
      WalkAllIs(fs, Subdirs(fs, dir, entries), depth + 1, path);
      var d :| d in Subdirs(fs, dir, entries) && path in Walk(fs, d, depth + 1);
      SubdirsAre(fs, dir, entries, d);
      var e :| e in entries && IsSubdir(fs, dir, e) && d == Join(dir, e);
      var more := FoundByRoute(fs, d, depth + 1, path);
      EntryMeans(fs, dir, e);
      route := [e] + more;
      assert route[1..] == more;
    }
  }

  /** A file is reported if and only if a route of at most six names leads to it. */
  lemma ReportsExactlyReachable(fs: Files, stateDir: string, path: string)
    ensures path in Walk(fs, stateDir, 0) <==>
            exists route :: Leads(fs, stateDir, route) && |route| <= 6 && PathAlong(stateDir, route) == path
  {
    if path in Walk(fs, stateDir, 0) {
      var route := FoundByRoute(fs, stateDir, 0, path);
    }
    if route :| Leads(fs, stateDir, route) && |route| <= 6 && PathAlong(stateDir, route) == path {
      WalkFinds(fs, stateDir, 0, route);
    }
  }

  // ---------- in which order ----------

  ghost predicate Rises(at: seq<nat>, n: nat) {
    && (forall k | 0 <= k < |at| :: at[k] < n)
    && (forall j, k | 0 <= j < k < |at| :: at[j] < at[k])
  }

  /** `paths` are those of the entries at the positions `at`, which rise. */
  ghost predicate InOrder(dir: string, entries: seq<string>, paths: seq<string>, at: seq<nat>) {
    && Rises(at, |entries|) && |at| == |paths|
    && forall k | 0 <= k < |at| :: paths[k] == dir + "/" + entries[at[k]]
  }

  lemma InOrderNext(dir: string, init: seq<string>, last: string, paths: seq<string>, at: seq<nat>)
    requires InOrder(dir, init, paths, at)
    ensures InOrder(dir, init + [last], paths, at)
    ensures InOrder(dir, init + [last], paths + [dir + "/" + last], at + [|init|])
  {
  }

  /** Hits are listed in the order of the directory's entries. */
  lemma {:induction false} HitsInOrder(fs: Files, dir: string, entries: seq<string>) returns (at: seq<nat>)
    ensures InOrder(dir, entries, Hits(fs, dir, entries), at)
  {
    hide IsHit;
    if entries == [] {
      at := [];
    } else {
      var init, last := entries[..|entries| - 1], entries[|entries| - 1];
      at := HitsInOrder(fs, dir, init);
      InOrderNext(dir, init, last, Hits(fs, dir, init), at);
      assert entries == init + [last];
      if IsHit(fs, dir, last) {
        at := at + [|init|];
      }
    }
  }

  /** So are subdirectories. */
  lemma {:induction false} SubdirsInOrder(fs: Files, dir: string, entries: seq<string>) returns (at: seq<nat>)
    ensures InOrder(dir, entries, Subdirs(fs, dir, entries), at)
  {
    hide IsSubdir;
    if entries == [] {
      at := [];
    } else {
      var init, last := entries[..|entries| - 1], entries[|entries| - 1];
      at := SubdirsInOrder(fs, dir, init);
      InOrderNext(dir, init, last, Subdirs(fs, dir, init), at);
      assert entries == init + [last];
      if IsSubdir(fs, dir, last) {
        at := at + [|init|];
      }
    }
  }

  lemma {:induction false} WalkAllSplits(fs: Files, dirs: seq<string>, more: seq<string>, depth: nat)
    ensures WalkAll(fs, dirs + more, depth) == WalkAll(fs, dirs, depth) + WalkAll(fs, more, depth)
    decreases |dirs|
  {
    hide Walk;
    if dirs == [] {
      assert dirs + more == more;
    } else {
      WalkAllSplits(fs, dirs[1..], more, depth);
      assert (dirs + more)[1..] == dirs[1..] + more && (dirs + more)[0] == dirs[0];
    }
  }

  /**
   Depth first, in order: the hits of a directory in the order of its entries, then all that is found
   below its first subdirectory, then below the second, and so on, down to depth five.
   */
  lemma WalkIsPreorder(fs: Files, dir: string, depth: nat, k: nat) returns (hits: seq<nat>, subs: seq<nat>)
    requires depth <= 5 && k < |Subdirs(fs, dir, fs.list(dir))|
    ensures var entries := fs.list(dir);
            var found, dirs := Hits(fs, dir, entries), Subdirs(fs, dir, entries);
            && InOrder(dir, entries, found, hits) && InOrder(dir, entries, dirs, subs)
            && Walk(fs, dir, depth) ==
               found + (WalkAll(fs, dirs[..k], depth + 1) +
                        (Walk(fs, dirs[k], depth + 1) + WalkAll(fs, dirs[k + 1..], depth + 1)))
  {
    var entries := fs.list(dir);
    var dirs := Subdirs(fs, dir, entries);
    hide Subdirs, Hits;
    hits := HitsInOrder(fs, dir, entries);
    subs := SubdirsInOrder(fs, dir, entries);
    WalkAllSplits(fs, dirs[..k], dirs[k..], depth + 1);
    assert dirs == dirs[..k] + dirs[k..];
    assert dirs[k..][0] == dirs[k] && dirs[k..][1..] == dirs[k + 1..];
  }

  /** Once every file has been redacted, the auditor finds nothing. */
  lemma RedactedTreeIsClean(fs: Files, dir: string)
    requires forall path :: fs.read(path).Some? ==> exists t :: fs.read(path).value == Redact.Redacted(t)
    ensures Walk(fs, dir, 0) == []
  {
    WalkReportsKeys(fs, dir, 0);
    if Walk(fs, dir, 0) != [] {
      var path := Walk(fs, dir, 0)[0];
      assert HoldsKey(fs, path);
      var t :| fs.read(path).value == Redact.Redacted(t);
      Redact.LeavesNoKey(t);
    }
  }
}
