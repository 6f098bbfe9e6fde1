/**
 Rolling back to a backup (crates/secureops-harden/src/lib.rs, `rollback` and `list_backups`).
 */
module Rollback {
  import opened Basics
  import opened BackupNames
  import opened Harden

  datatype RollbackResult = Restored | NoBackups | DirNotFound | NoConfigBackup | SomeFailed(failed: seq<string>)

  // ---------- the newest backup ----------

  predicate LexLe(a: string, b: string) {
    if a == "" then true
    else if b == "" then false
    else if a[0] != b[0] then a[0] < b[0]
    else LexLe(a[1..], b[1..])
  }

  predicate IsNewest(names: set<string>, n: string) {
    n in names && forall m | m in names :: LexLe(m, n)
  }

  lemma {:induction false} LexTotal(a: string, b: string)
    ensures LexLe(a, b) || LexLe(b, a)
  {
    if a != "" && b != "" && a[0] == b[0] {
      LexTotal(a[1..], b[1..]);
    }
  }

  lemma {:induction false} LexTransitive(a: string, b: string, c: string)
    requires LexLe(a, b) && LexLe(b, c)
    ensures LexLe(a, c)
    decreases |a|
  {
    if a != "" && a[0] == b[0] == c[0] {
      LexTransitive(a[1..], b[1..], c[1..]);
    }
  }

  /** Dictionary order: a common beginning, then the end of `a` or a smaller character in it. */
  ghost predicate ComesFirst(a: string, b: string) {
    exists k: nat | k <= |a| && k <= |b| && a[..k] == b[..k] :: IsSmallerFrom(a, b, k)
  }

  ghost predicate IsSmallerFrom(a: string, b: string, k: nat)
    requires k <= |a| && k <= |b|
  {
    k == |a| || (k < |b| && a[k] < b[k])
  }

  lemma {:induction false} LexIsDictionaryOrder(a: string, b: string)
    ensures LexLe(a, b) <==> ComesFirst(a, b)
  {
    if a == "" {
      assert a[..0] == b[..0] && IsSmallerFrom(a, b, 0);
    } else if b == "" {
    } else if a[0] != b[0] {
      assert forall k: nat | 0 < k <= |a| && k <= |b| :: a[..k][0] != b[..k][0];
      if a[0] < b[0] {
        assert a[..0] == b[..0] && IsSmallerFrom(a, b, 0);
      }
    } else {
      LexIsDictionaryOrder(a[1..], b[1..]);
      if ComesFirst(a[1..], b[1..]) {
        var k: nat :| k <= |a[1..]| && k <= |b[1..]| && a[1..][..k] == b[1..][..k] && IsSmallerFrom(a[1..], b[1..], k);
        assert a[..k + 1] == [a[0]] + a[1..][..k] && b[..k + 1] == [b[0]] + b[1..][..k];
        assert IsSmallerFrom(a, b, k + 1);
      }
      if ComesFirst(a, b) {
        var k: nat :| k <= |a| && k <= |b| && a[..k] == b[..k] && IsSmallerFrom(a, b, k);
        assert k > 0;
        assert a[1..][..k - 1] == a[..k][1..] && b[1..][..k - 1] == b[..k][1..];
        assert IsSmallerFrom(a[1..], b[1..], k - 1);
      }
    }
  }

  lemma NewestIsLast(names: set<string>, n: string)
    requires IsNewest(names, n)
    ensures n in names && forall m | m in names :: ComesFirst(m, n)
  {
    hide LexLe, ComesFirst;
    forall m | m in names ensures ComesFirst(m, n) {
      LexIsDictionaryOrder(m, n);
    }
  }

  /** Sorting the names and turning the list around puts a newest one first. */
  lemma {:induction false} NewestExists(names: set<string>)
    requires names != {}
    ensures exists n :: IsNewest(names, n)
    decreases |names|
  {
    var a :| a in names;
    LexTotal(a, a);
    var rest := names - {a};
    if rest == {} {
      assert forall m | m in names :: m == a || m in rest;
      assert IsNewest(names, a);
    } else {
      NewestExists(rest);
      var b :| IsNewest(rest, b);
      LexTotal(a, b);
      var n := if LexLe(a, b) then b else a;
      forall m | m in names ensures LexLe(m, n) {
        if m != a {
          assert m in rest;
          if n == a {
            LexTransitive(m, b, a);
          }
        }
      }
      assert IsNewest(names, n);
    }
  }

  // ---------- what rollback does ----------

  /** The file `n` of the backup is restored to `p`, possibly among other places. */
  ghost predicate IsSource(before: FileMap, dir: string, n: string, p: Path) {
    n in Listing(before, BackupDir(dir)) && exists item :: item in Decoded(n) && PathOf(item) == p
  }

  /** `p` holds what one of these files of the backup holds that are restored to it. */
  ghost predicate HoldsSource(before: FileMap, files: FileMap, dir: string, names: set<string>, p: Path) {
    p in files && exists n | n in names :: IsSource(before, dir, n, p) && Slot(dir, n) in before && files[p] == before[Slot(dir, n)]
  }

  ghost predicate BackupKept(before: FileMap, files: FileMap, dir: string) {
    forall n :: Same(before, files, Slot(dir, n))
  }

  /**
   `p` holds what one of the files `tried` holds that are restored to it, or it is as before; and
   then every file that is restored to it is still among `todo`.
   */
  ghost predicate PathRestored(before: FileMap, files: FileMap, dir: string, todo: set<string>, tried: set<string>, p: Path) {
    || HoldsSource(before, files, dir, tried, p)
    || (Same(before, files, p) && forall n | IsSource(before, dir, n, p) :: n in todo)
  }

  /**
   The files `tried` of the backup have been dealt with, and all of them have been restored but
   those among `todo`. Several may be restored to one place; then it holds what one of them holds.
   */
  ghost predicate Restoring(before: FileMap, files: FileMap, dir: string, todo: set<string>, tried: set<string>) {
    BackupKept(before, files, dir) && forall p | p != CONFIG :: PathRestored(before, files, dir, todo, tried, p)
  }

  ghost predicate ConfigFromBackup(before: FileMap, files: FileMap, dir: string) {
    CONFIG in files && exists n | n in {ORIGINAL, "openclaw.json"} ::
      Slot(dir, n) in before && files[CONFIG] == before[Slot(dir, n)]
  }

  /** If the backup has the config as it was before any module ran, then it is that one. */
  ghost predicate PrefersOriginal(before: FileMap, files: FileMap, dir: string) {
    Slot(dir, ORIGINAL) in before ==> CONFIG in files && files[CONFIG] == before[Slot(dir, ORIGINAL)]
  }

  /** Everything in the backup is back in its place. */
  ghost predicate RolledBack(before: FileMap, after: FileMap, dir: string) {
    Restoring(before, after, dir, {}, Listing(before, BackupDir(dir))) && ConfigFromBackup(before, after, dir)
  }

  /** The contents after one file was restored to each of `items`. */
  ghost function Placed(files: FileMap, content: string, items: seq<Item>): FileMap {
    if items == [] then files else Placed(files, content, items[..|items| - 1])[PathOf(items[|items| - 1]) := content]
  }

  lemma {:induction false} PlacedAt(files: FileMap, content: string, items: seq<Item>, p: Path)
    ensures (exists item :: item in items && PathOf(item) == p) ==>
              p in Placed(files, content, items) && Placed(files, content, items)[p] == content
    ensures (forall item | item in items :: PathOf(item) != p) ==> Same(files, Placed(files, content, items), p)
  {
    if items == [] {
    } else {
      var init, last := items[..|items| - 1], items[|items| - 1];
      PlacedAt(files, content, init, p);
      assert items == init + [last];
    }
  }

  lemma SlotNotPlaced(files: FileMap, content: string, items: seq<Item>, dir: string, n: string)
    ensures Same(files, Placed(files, content, items), Slot(dir, n))
  {
  }

  lemma ListedSlot(files: FileMap, dir: string, n: string)
    requires Slot(dir, n) in files
    ensures n in Listing(files, BackupDir(dir))
  {
  }

  /** The contents after a file of the backup was restored to some of the places its name stands for. */
  ghost function After(files: FileMap, dir: string, n: string, placed: seq<Item>): FileMap {
    if Slot(dir, n) in files then Placed(files, files[Slot(dir, n)], placed) else files
  }

  /** Restoring one more file of the backup, or failing halfway. */
  lemma RestoreOneMore(before: FileMap, files: FileMap, dir: string, todo: set<string>, tried: set<string>, n: string,
                       placed: seq<Item>)
    requires Restoring(before, files, dir, todo, tried) && n in Listing(before, BackupDir(dir))
    requires forall item | item in placed :: item in Decoded(n)
    ensures Restoring(before, After(files, dir, n, placed), dir, todo, tried + {n})
    ensures placed == Decoded(n) && (placed == [] || Slot(dir, n) in files) ==>
              Restoring(before, After(files, dir, n, placed), dir, todo - {n}, tried + {n})
  {
    hide BackupKept, PathRestored, Decoded, Slot, Placed, After;
    var after := After(files, dir, n, placed);
    RestoreKeepsSlots(before, files, dir, n, placed);
    SlotIsKept(before, files, dir, n);
    forall p | p != CONFIG
      ensures PathRestored(before, after, dir, todo, tried + {n}, p)
      ensures placed == Decoded(n) && (placed == [] || Slot(dir, n) in files) ==>
                PathRestored(before, after, dir, todo - {n}, tried + {n}, p)
    {
      RestoreAtPath(before, files, dir, todo, tried, n, placed, p);
    }
  }

  lemma RestoreKeepsSlots(before: FileMap, files: FileMap, dir: string, n: string, placed: seq<Item>)
    requires BackupKept(before, files, dir)
    ensures BackupKept(before, After(files, dir, n, placed), dir)
  {
    if Slot(dir, n) in files {
      forall m ensures Same(before, After(files, dir, n, placed), Slot(dir, m)) {
        SlotNotPlaced(files, files[Slot(dir, n)], placed, dir, m);
        assert Same(before, files, Slot(dir, m));
      }
    }
  }

  lemma SlotIsKept(before: FileMap, files: FileMap, dir: string, n: string)
    requires BackupKept(before, files, dir)
    ensures Same(before, files, Slot(dir, n))
  {
  }

  lemma RestoreAtPath(before: FileMap, files: FileMap, dir: string, todo: set<string>, tried: set<string>, n: string,
                      placed: seq<Item>, p: Path)
    requires PathRestored(before, files, dir, todo, tried, p)
    requires Same(before, files, Slot(dir, n)) && n in Listing(before, BackupDir(dir))
    requires forall item | item in placed :: item in Decoded(n)
    ensures PathRestored(before, After(files, dir, n, placed), dir, todo, tried + {n}, p)
    ensures placed == Decoded(n) && (placed == [] || Slot(dir, n) in files) ==>
              PathRestored(before, After(files, dir, n, placed), dir, todo - {n}, tried + {n}, p)
  {
    hide Decoded, Slot, Placed, PathOf, Listing;
    var after := After(files, dir, n, placed);
    if Slot(dir, n) in files {
      PlacedAt(files, files[Slot(dir, n)], placed, p);
    }
    if Slot(dir, n) in files && exists item :: item in placed && PathOf(item) == p {
      assert IsSource(before, dir, n, p);
      assert HoldsSource(before, after, dir, tried + {n}, p);
    } else {
      assert Same(files, after, p);
      if HoldsSource(before, files, dir, tried, p) {
        var m :| m in tried && IsSource(before, dir, m, p) && Slot(dir, m) in before && files[p] == before[Slot(dir, m)];
        assert m in tried + {n} && after[p] == before[Slot(dir, m)];
        assert HoldsSource(before, after, dir, tried + {n}, p);
      }
    }
  }

  /** Allowing for more files that were not restored. */
  lemma RestoringLess(before: FileMap, files: FileMap, dir: string, todo: set<string>, more: set<string>, tried: set<string>)
    requires Restoring(before, files, dir, todo, tried) && todo <= more
    ensures Restoring(before, files, dir, more, tried)
  {
    hide BackupKept, IsSource, HoldsSource;
    forall p | p != CONFIG ensures PathRestored(before, files, dir, more, tried, p) {
      assert PathRestored(before, files, dir, todo, tried, p);
    }
  }

  lemma RestoreStarts(before: FileMap, files: FileMap, dir: string, content: string)
    requires files == before[CONFIG := content]
    ensures Restoring(before, files, dir, Listing(before, BackupDir(dir)), {})
  {
    hide Decoded, Listing;
    forall n ensures Same(before, files, Slot(dir, n)) {
      assert |Slot(dir, n)| == 4;
    }
  }

  lemma ConfigIsNoTarget(files: FileMap, dir: string, n: string, placed: seq<Item>)
    ensures Same(files, After(files, dir, n, placed), CONFIG)
  {
    forall item | item in placed ensures PathOf(item) != CONFIG {
      ItemsLiveElsewhere(item);
    }
    if Slot(dir, n) in files {
      PlacedAt(files, files[Slot(dir, n)], placed, CONFIG);
    }
  }

  /** Restore one file of the backup to every place its name stands for. `placed` says which ones it got to. */
  method RestoreFile(disk: Disk, dir: string, n: string) returns (ok: bool, ghost placed: seq<Item>)
    modifies disk
    ensures old(disk.faults) <= disk.faults
    ensures disk.faults == {} && Slot(dir, n) in old(disk.files) ==> ok
    ensures disk.files == After(old(disk.files), dir, n, placed)
    ensures forall item | item in placed :: item in Decoded(n)
    ensures ok ==> placed == Decoded(n) && (placed == [] || Slot(dir, n) in old(disk.files))
    ensures !ok ==> Decoded(n) != []
  {
    hide Decoded, PathOf, TargetOf, Slot;
    ok, placed := true, [];
    ghost var start := disk.files;
    var items := Decoded(n);
    for k := 0 to |items|
      invariant old(disk.faults) <= disk.faults
      invariant disk.faults == {} && Slot(dir, n) in start ==> ok
      invariant disk.files == After(start, dir, n, placed)
      invariant forall item | item in placed :: item in items
      invariant ok ==> placed == items[..k] && (placed == [] || Slot(dir, n) in start)
      invariant !ok ==> items != []
    {
      if Slot(dir, n) in start {
        SlotNotPlaced(start, start[Slot(dir, n)], placed, dir, n);
        PlaceNext(start, start[Slot(dir, n)], placed, items[k]);
      }
      TakeNext(items, k);
      BackToItsPlace(items[k]);
      var r := disk.Copy(Slot(dir, n), TargetOf(items[k]));
      if r == Copied {
        placed := placed + [items[k]];
      } else {
        ok := false;
      }
    }
    assert items[..|items|] == items;
  }

  lemma TakeNext(items: seq<Item>, k: nat)
    requires k < |items|
    ensures items[..k + 1] == items[..k] + [items[k]]
  {
  }

  lemma PlaceNext(files: FileMap, content: string, placed: seq<Item>, item: Item)
    ensures Placed(files, content, placed + [item]) == Placed(files, content, placed)[PathOf(item) := content]
  {
  }

  /** The backup can be restored: it holds the config, and nothing but files. */
  ghost predicate CanRestore(files: FileMap, dir: string) {
    Slot(dir, ORIGINAL) in files && forall n | n in Listing(files, BackupDir(dir)) :: Slot(dir, n) in files
  }

  lemma BackupIsListed(files: FileMap, dir: string)
    requires Slot(dir, ORIGINAL) in files
    ensures dir in Listing(files, BACKUPS)
    ensures ORIGINAL in Listing(files, BackupDir(dir))
  {
  }

  const BACKUPS: Path := [".secureops", "backup"]

  ghost function Members(names: seq<string>): set<string> {
    set n | n in names
  }

  /** The original config first, then the copy the gateway module made. */
  method RestoreConfig(disk: Disk, dir: string) returns (ok: bool)
    modifies disk
    ensures old(disk.faults) <= disk.faults
    ensures !ok ==> disk.files == old(disk.files)
    ensures !ok && disk.faults == {} ==>
              Slot(dir, ORIGINAL) !in old(disk.files) && Slot(dir, "openclaw.json") !in old(disk.files)
    ensures ok ==> ConfigFromBackup(old(disk.files), disk.files, dir)
    ensures ok ==> disk.files == old(disk.files)[CONFIG := disk.files[CONFIG]]
    ensures ok && disk.faults == {} ==> PrefersOriginal(old(disk.files), disk.files, dir)
  {
    hide Slot;
    var c := disk.Copy(Slot(dir, ORIGINAL), CONFIG);
    if c != Copied {
      c := disk.Copy(Slot(dir, "openclaw.json"), CONFIG);
    }
    ok := c == Copied;
  }

  /** The files of the backup restored one after the other. */
  ghost function Replay(files: FileMap, dir: string, order: seq<string>): FileMap {
    if order == [] then files
    else
      var n := order[|order| - 1];
      After(Replay(files, dir, order[..|order| - 1]), dir, n, Decoded(n))
  }

  /** What a rollback to this backup leaves if its directory is read in this order and nothing fails. */
  ghost function Outcome(before: FileMap, dir: string, order: seq<string>): FileMap
    requires Slot(dir, ORIGINAL) in before
  {
    Replay(before[CONFIG := before[Slot(dir, ORIGINAL)]], dir, order)
  }

  lemma ReplayNext(files: FileMap, dir: string, order: seq<string>, n: string)
    ensures Replay(files, dir, order + [n]) == After(Replay(files, dir, order), dir, n, Decoded(n))
  {
    assert (order + [n])[..|order|] == order;
  }

  /**
   Restore every other file that is listed, in the order `tried` they are listed; return those that
   could not be restored. Files that are not listed are not noticed.
   */
  method RestoreFiles(disk: Disk, dir: string, ghost before: FileMap) returns (failed: seq<string>, ghost tried: seq<string>)
    requires CONFIG in disk.files && disk.files == before[CONFIG := disk.files[CONFIG]]
    modifies disk
    ensures old(disk.faults) <= disk.faults
    ensures Same(old(disk.files), disk.files, CONFIG)
    ensures Members(tried) <= Listing(before, BackupDir(dir))
    ensures Members(tried) != Listing(before, BackupDir(dir)) ==> BackupDir(dir) in disk.faults
    ensures Restoring(before, disk.files, dir, Unrestored(before, dir, tried, failed), Members(tried))
    ensures failed == [] ==> disk.files == Replay(old(disk.files), dir, tried)
    ensures disk.faults == {} && CanRestore(before, dir) ==> failed == []
    ensures forall n | n in failed :: n in tried && Decoded(n) != []
  {
    hide Restoring, Decoded, After, PathOf, Slot, Listing, Replay;
    ghost var all, config, start := Listing(before, BackupDir(dir)), disk.files[CONFIG], disk.files;
    ghost var left := all;
    RestoreStarts(before, disk.files, dir, config);
    ConfigKeepsListing(before, dir, config);
    NothingReplayed(start, dir);
    var names := disk.List(BackupDir(dir));
    ghost var unread := all - names;
    failed, tried := [], [];
    assert Members(tried) == {};
    while names != {}
      invariant old(disk.faults) <= disk.faults
      invariant names <= all && Members(tried) == all - names - unread
      invariant unread <= all && names * unread == {}
      invariant unread != {} ==> BackupDir(dir) in disk.faults
      invariant left <= names + unread + Members(failed)
      invariant Restoring(before, disk.files, dir, left, Members(tried))
      invariant failed == [] ==> disk.files == Replay(start, dir, tried)
      invariant CONFIG in disk.files && disk.files[CONFIG] == config
      invariant disk.faults == {} && CanRestore(before, dir) ==> failed == []
      invariant forall n | n in failed :: n in tried && Decoded(n) != []
      decreases names
    {
      var n :| n in names;
      ghost var files := disk.files;
      SlotStays(before, files, dir, left, Members(tried), n);
      var ok, placed := RestoreFile(disk, dir, n);
      RestoreOneMore(before, files, dir, left, Members(tried), n, placed);
      ConfigIsNoTarget(files, dir, n, placed);
      ReplayNext(start, dir, tried, n);
      MembersNext(tried, n);
      MembersNext(failed, n);
      tried := tried + [n];
      if ok {
        left := left - {n};
      } else {
        failed := failed + [n];
      }
      names := names - {n};
    }
    RestoringLess(before, disk.files, dir, left, Unrestored(before, dir, tried, failed), Members(tried));
  }

  /** The files of the backup that were not seen, and those that failed. */
  ghost function Unrestored(before: FileMap, dir: string, tried: seq<string>, failed: seq<string>): set<string> {
    Listing(before, BackupDir(dir)) - Members(tried) + Members(failed)
  }

  lemma MembersNext(names: seq<string>, n: string)
    ensures Members(names + [n]) == Members(names) + {n}
  {
  }

  lemma NothingReplayed(files: FileMap, dir: string)
    ensures Replay(files, dir, []) == files
  {
  }

  lemma SlotStays(before: FileMap, files: FileMap, dir: string, todo: set<string>, tried: set<string>, n: string)
    requires Restoring(before, files, dir, todo, tried)
    ensures Same(before, files, Slot(dir, n))
  {
    SlotIsKept(before, files, dir, n);
  }

  /**
   Restore the backup of that name, or the newest one. A file that can not be restored is reported
   and does not keep the others from being restored. What is not noticed is a backup directory that
   can not be read to its end: `tried` are the files that were read, and the others are left as they
   were.
   */
  method RollBack(disk: Disk, timestamp: Option<string>)
    returns (r: RollbackResult, dir: string, ghost tried: seq<string>)
    modifies disk
    ensures Listing(old(disk.files), BACKUPS) == {} ==> r == NoBackups
    ensures r == NoBackups ==> Listing(old(disk.files), BACKUPS) == {} || BACKUPS in disk.faults
    ensures r != NoBackups && timestamp.Some? ==> dir == timestamp.value
    ensures r != NoBackups && timestamp.None? && BACKUPS !in disk.faults ==>
              dir in Listing(old(disk.files), BACKUPS) && forall m | m in Listing(old(disk.files), BACKUPS) :: ComesFirst(m, dir)
    ensures r == DirNotFound ==> Listing(old(disk.files), BackupDir(dir)) == {}
    ensures r == NoConfigBackup && disk.faults == {} ==>
              Slot(dir, ORIGINAL) !in old(disk.files) && Slot(dir, "openclaw.json") !in old(disk.files)
    ensures r in {NoBackups, DirNotFound, NoConfigBackup} ==> disk.files == old(disk.files)
    ensures r == Restored || r.SomeFailed? ==>
              && ConfigFromBackup(old(disk.files), disk.files, dir)
              && Members(tried) <= Listing(old(disk.files), BackupDir(dir))
              && (Members(tried) != Listing(old(disk.files), BackupDir(dir)) ==> BackupDir(dir) in disk.faults)
              && Restoring(old(disk.files), disk.files, dir,
                           Unrestored(old(disk.files), dir, tried, if r.SomeFailed? then r.failed else []), Members(tried))
    ensures r == Restored ==>
              (RolledBack(old(disk.files), disk.files, dir) <==>
               UnreadInPlace(old(disk.files), dir, Unrestored(old(disk.files), dir, tried, [])))
    ensures r == Restored && BackupDir(dir) !in disk.faults ==> RolledBack(old(disk.files), disk.files, dir)
    ensures r.SomeFailed? ==> r.failed != [] && forall n | n in r.failed :: n in tried && Decoded(n) != []
    ensures r == Restored && disk.faults == {} ==> PrefersOriginal(old(disk.files), disk.files, dir)
    ensures r == Restored && disk.faults == {} && Slot(dir, ORIGINAL) in old(disk.files) ==>
              disk.files == Outcome(old(disk.files), dir, tried)
    ensures disk.faults == {} && r != NoBackups && CanRestore(old(disk.files), dir) ==> r == Restored
  {
    hide Restoring, Decoded, IsNewest, PathOf, Slot, Listing, ConfigFromBackup, Members, Unrestored, Replay, RolledBack,
      UnreadInPlace, ComesFirst;
    dir, tried := "", [];
    var backups := disk.List(BACKUPS);
    if backups == {} {
      return NoBackups, dir, tried;
    }
    if timestamp.Some? {
      dir := timestamp.value;
    } else {
      NewestExists(backups);
      dir :| IsNewest(backups, dir);
      NewestIsLast(backups, dir);
    }
    ghost var before := disk.files;
    if Slot(dir, ORIGINAL) in before {
      BackupIsListed(before, dir);
    }
    if Listing(disk.files, BackupDir(dir)) == {} {
      return DirNotFound, dir, tried;
    }
    var ok := RestoreConfig(disk, dir);
    if !ok {
      return NoConfigBackup, dir, tried;
    }
    ghost var mid := disk.files;
    ConfigIsThere(before, mid, dir);
    var failed, order := RestoreFiles(disk, dir, before);
    tried := order;
    ConfigStays(before, mid, disk.files, dir);
    if failed == [] {
      SuccessSoFar(before, disk.files, dir, tried);
    }
    r := if failed == [] then Restored else SomeFailed(failed);
  }

  lemma SuccessSoFar(before: FileMap, files: FileMap, dir: string, tried: seq<string>)
    requires Members(tried) <= Listing(before, BackupDir(dir)) && ConfigFromBackup(before, files, dir)
    requires Restoring(before, files, dir, Unrestored(before, dir, tried, []), Members(tried))
    ensures RolledBack(before, files, dir) <==> UnreadInPlace(before, dir, Unrestored(before, dir, tried, []))
    ensures Members(tried) == Listing(before, BackupDir(dir)) ==> RolledBack(before, files, dir)
  {
    hide Restoring, UnreadInPlace, ConfigFromBackup, Listing;
    var all, unread := Listing(before, BackupDir(dir)), Unrestored(before, dir, tried, []);
    assert Members([]) == {};
    assert unread == all - Members(tried) && all - unread == Members(tried);
    SuccessIsRollbackIff(before, files, dir, unread);
    if Members(tried) == all {
      assert unread == {};
    }
  }

  lemma ConfigIsThere(before: FileMap, files: FileMap, dir: string)
    requires ConfigFromBackup(before, files, dir)
    ensures CONFIG in files
  {
  }

  lemma ConfigStays(before: FileMap, mid: FileMap, files: FileMap, dir: string)
    requires ConfigFromBackup(before, mid, dir) && Same(mid, files, CONFIG)
    ensures ConfigFromBackup(before, files, dir)
    ensures PrefersOriginal(before, mid, dir) ==> PrefersOriginal(before, files, dir)
  {
  }

  /** Restoring the config adds nothing to the backup. */
  lemma ConfigKeepsListing(files: FileMap, dir: string, content: string)
    ensures Listing(files[CONFIG := content], BackupDir(dir)) == Listing(files, BackupDir(dir))
  {
  }

  // ---------- a directory that was not read to its end ----------

  /** Where all files that are restored to a place were left unread, it already held what one of them holds. */
  ghost predicate UnreadInPlace(before: FileMap, dir: string, unread: set<string>) {
    forall p | p != CONFIG && (exists n :: IsSource(before, dir, n, p)) && (forall n | IsSource(before, dir, n, p) :: n in unread) ::
      HoldsSource(before, before, dir, Listing(before, BackupDir(dir)), p)
  }

  /** A reported success is a rollback if and only if that is so, whatever was left unread. */
  lemma SuccessIsRollbackIff(before: FileMap, files: FileMap, dir: string, unread: set<string>)
    requires unread <= Listing(before, BackupDir(dir)) && ConfigFromBackup(before, files, dir)
    requires Restoring(before, files, dir, unread, Listing(before, BackupDir(dir)) - unread)
    ensures RolledBack(before, files, dir) <==> UnreadInPlace(before, dir, unread)
  {
    hide Decoded, BackupKept, Listing, ConfigFromBackup, PathOf, Slot;
    var all := Listing(before, BackupDir(dir));
    forall p | p != CONFIG
      ensures PathRestored(before, files, dir, {}, all, p) <==>
              ((exists n :: IsSource(before, dir, n, p)) && (forall n | IsSource(before, dir, n, p) :: n in unread) ==>
                 HoldsSource(before, before, dir, all, p))
    {
      AtPathIff(before, files, dir, unread, p);
    }
  }

  lemma AtPathIff(before: FileMap, files: FileMap, dir: string, unread: set<string>, p: Path)
    requires unread <= Listing(before, BackupDir(dir))
    requires PathRestored(before, files, dir, unread, Listing(before, BackupDir(dir)) - unread, p)
    ensures PathRestored(before, files, dir, {}, Listing(before, BackupDir(dir)), p) <==>
            ((exists n :: IsSource(before, dir, n, p)) && (forall n | IsSource(before, dir, n, p) :: n in unread) ==>
               HoldsSource(before, before, dir, Listing(before, BackupDir(dir)), p))
  {
    hide Decoded, Listing, PathOf, Slot;
    var all := Listing(before, BackupDir(dir));
    if HoldsSource(before, files, dir, all - unread, p) {
      var n :| n in all - unread && IsSource(before, dir, n, p) && Slot(dir, n) in before && files[p] == before[Slot(dir, n)];
      assert n in all;
      assert HoldsSource(before, files, dir, all, p);
    }
  }

  /** A rollback that can not list its backup reports success and leaves, for example, `.env` as it is. */
  lemma UnreadBackupIsNotRestored(before: FileMap, dir: string)
    requires Slot(dir, ORIGINAL) in before && Slot(dir, ".env") in before
    requires [".env"] !in before || before[[".env"]] != before[Slot(dir, ".env")]
    ensures var files := before[CONFIG := before[Slot(dir, ORIGINAL)]];
            && Restoring(before, files, dir, Listing(before, BackupDir(dir)), {})
            && !RolledBack(before, files, dir)
  {
    hide Decoded, Slot, Listing;
    var files := before[CONFIG := before[Slot(dir, ORIGINAL)]];
    RestoreStarts(before, files, dir, before[Slot(dir, ORIGINAL)]);
    ListedSlot(before, dir, ".env");
    EnvDecodes();
    assert PathOf(Env) == [".env"] && IsSource(before, dir, ".env", [".env"]);
    forall n | IsSource(before, dir, n, [".env"]) ensures n == ".env" {
      var item :| item in Decoded(n) && PathOf(item) == [".env"];
      OnlyEnv(n, item);
    }
    assert Same(before, files, [".env"]);
    assert !PathRestored(before, files, dir, {}, Listing(before, BackupDir(dir)), [".env"]);
  }

  lemma OnlyEnv(n: string, item: Item)
    requires item in Decoded(n) && PathOf(item) == [".env"]
    ensures n == ".env"
  {
    hide MemoryDecoded;
    MemoryIsMemory(n, 0);
  }

  lemma {:induction false} MemoryIsMemory(n: string, k: nat)
    requires k <= |MEMORY_FILES|
    ensures forall item | item in MemoryDecoded(n, k) :: item.Memory?
    decreases |MEMORY_FILES| - k
  {
    if k < |MEMORY_FILES| {
      MemoryIsMemory(n, k + 1);
    }
  }

  // ---------- all orders ----------

  lemma {:induction false} ReplayRestores(before: FileMap, files: FileMap, dir: string, order: seq<string>)
    requires Restoring(before, files, dir, Listing(before, BackupDir(dir)), {}) && CanRestore(before, dir)
    requires Members(order) <= Listing(before, BackupDir(dir))
    ensures Restoring(before, Replay(files, dir, order), dir, Listing(before, BackupDir(dir)) - Members(order), Members(order))
    ensures Same(files, Replay(files, dir, order), CONFIG)
  {
    hide Restoring, Decoded, After, Slot, Listing;
    var all := Listing(before, BackupDir(dir));
    if order == [] {
      assert Members(order) == {};
      assert all - {} == all;
    } else {
      var init, n := order[..|order| - 1], order[|order| - 1];
      assert order == init + [n];
      MembersNext(init, n);
      ReplayRestores(before, files, dir, init);
      var mid := Replay(files, dir, init);
      assert n in Members(order);
      SlotStays(before, mid, dir, all - Members(init), Members(init), n);
      RestoreOneMore(before, mid, dir, all - Members(init), Members(init), n, Decoded(n));
      ConfigIsNoTarget(mid, dir, n, Decoded(n));
      assert all - Members(init) - {n} == all - Members(order);
    }
  }

  /** In whatever order the backup is read, the outcome is a rollback. */
  lemma EveryOrderRollsBack(before: FileMap, dir: string, order: seq<string>)
    requires CanRestore(before, dir) && Members(order) == Listing(before, BackupDir(dir))
    ensures RolledBack(before, Outcome(before, dir, order), dir)
  {
    hide Restoring, Listing, Members, Replay;
    var start := before[CONFIG := before[Slot(dir, ORIGINAL)]];
    RestoreStarts(before, start, dir, before[Slot(dir, ORIGINAL)]);
    ReplayRestores(before, start, dir, order);
    var all := Listing(before, BackupDir(dir));
    assert all - all == {};
    assert ORIGINAL in {ORIGINAL, "openclaw.json"};
  }

  /** The file that is read last has its way at every place it is restored to. */
  lemma LastHasItsWay(before: FileMap, dir: string, order: seq<string>, n: string, item: Item)
    requires CanRestore(before, dir) && Members(order) + {n} <= Listing(before, BackupDir(dir)) && item in Decoded(n)
    ensures Slot(dir, n) in before && PathOf(item) in Outcome(before, dir, order + [n])
    ensures Outcome(before, dir, order + [n])[PathOf(item)] == before[Slot(dir, n)]
  {
    hide Restoring, Decoded, Slot, Listing, Placed, PathOf, Replay;
    var start := before[CONFIG := before[Slot(dir, ORIGINAL)]];
    RestoreStarts(before, start, dir, before[Slot(dir, ORIGINAL)]);
    ReplayRestores(before, start, dir, order);
    ReplayNext(start, dir, order, n);
    var mid := Replay(start, dir, order);
    SlotStays(before, mid, dir, Listing(before, BackupDir(dir)) - Members(order), Members(order), n);
    assert n in Members(order) + {n};
    PlacedAt(mid, mid[Slot(dir, n)], Decoded(n), PathOf(item));
  }
}
