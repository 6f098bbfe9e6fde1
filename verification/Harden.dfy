/**
 Hardening a state directory: back up first, then rewrite
 (crates/secureops-harden/src/lib.rs and credential_hardening.rs). Files are modelled by their
 contents; any copy or write may fail. What the gateway, config, docker and network modules write
 is arbitrary.
 */
module Harden {
  import opened Basics
  import opened BackupNames
  import Patterns
  import Redact

  type FileMap = map<Path, string>

  datatype CopyResult = Copied | NotFound | Failed

  const CONFIG: Path := ["openclaw.json"]
  const GATEWAY_COPY: string := "openclaw.json"
  const CONFIG_COPY: string := "openclaw-config.json"
  const MANIFEST: string := "manifest.json"
  const DOCKER: string := "docker-compose.secureops.yml"
  const OVERRIDE: Path := [DOCKER]
  const ENV_ENC: Path := [".env.enc"]
  const KEYSTORE: Path := [".secureops", "keystore"]
  const EGRESS_RULES: Path := [".secureops", "network", "egress-rules.sh"]
  const PF_RULES: Path := [".secureops", "network", "pf-rules.conf"]
  const BLOCKLIST: Path := [".secureops", "network", "c2-blocklist.txt"]

  /** The new contents the modules come up with. */
  datatype Rewrites = Rewrites(gateway: string, config: string, docker: string, network: string, blocklist: string,
                               keystore: string, envEnc: string, manifest: string)

  /** The files, and the paths at which something has failed so far. */
  class Disk {
    var files: FileMap
    var faults: set<Path>

    constructor (files: FileMap)
      ensures this.files == files && faults == {}
    {
      this.files, faults := files, {};
    }

    method Copy(src: Path, dst: Path) returns (r: CopyResult)
      modifies this
      ensures r == Copied ==> src in old(files) && files == old(files)[dst := old(files)[src]] && faults == old(faults)
      ensures r == NotFound ==> src !in old(files) && files == old(files) && faults == old(faults)
      ensures r == Failed ==> files == old(files) && faults == old(faults) + {dst}
    {
      if src !in files {
        return NotFound;
      }
      var fails: bool := *;
      if fails {
        faults := faults + {dst};
        return Failed;
      }
      files := files[dst := files[src]];
      r := Copied;
    }

    method Write(path: Path, content: string) returns (ok: bool)
      modifies this
      ensures ok ==> files == old(files)[path := content] && faults == old(faults)
      ensures !ok ==> files == old(files) && faults == old(faults) + {path}
    {
      ok := *;
      if ok {
        files := files[path := content];
      } else {
        faults := faults + {path};
      }
    }

    method Read(path: Path) returns (r: Option<string>)
      modifies this`faults
      ensures r.Some? ==> path in files && r.value == files[path] && faults == old(faults)
      ensures r.None? ==> faults == if path in files then old(faults) + {path} else old(faults)
    {
      var fails: bool := *;
      if path in files && !fails {
        r := Some(files[path]);
      } else {
        r := None;
        if path in files {
          faults := faults + {path};
        }
      }
    }

    /** Reading a directory may fail, or stop early; either way the caller sees the names read so far. */
    method List(dir: Path) returns (names: set<string>)
      modifies this`faults
      ensures names <= Listing(files, dir)
      ensures faults == old(faults) + {dir} || (faults == old(faults) && names == Listing(files, dir))
    {
      names := Listing(files, dir);
      var fails: bool := *;
      if fails {
        var reached: set<string> := *;
        names := names * reached;
        faults := faults + {dir};
      }
    }

    method MakeDir(dir: Path) returns (ok: bool)
      modifies this`faults
      ensures ok ==> faults == old(faults)
      ensures !ok ==> faults == old(faults) + {dir}
    {
      ok := *;
      if !ok {
        faults := faults + {dir};
      }
    }
  }

  /** The names directly below a directory. */
  function Listing(files: FileMap, dir: Path): set<string> {
    set p | p in files && IsBelow(p, dir) :: p[|dir|]
  }

  /** Colons and dots of a timestamp become dashes. */
  function Sanitize(ts: string): (name: string)
    ensures |name| == |ts|
    ensures forall i | 0 <= i < |ts| && (ts[i] == ':' || ts[i] == '.') :: name[i] == '-'
    ensures forall i | 0 <= i < |ts| && ts[i] != ':' && ts[i] != '.' :: name[i] == ts[i]
  {
    seq(|ts|, i requires 0 <= i < |ts| => if ts[i] == ':' || ts[i] == '.' then '-' else ts[i])
  }

  function BackupDir(name: string): Path {
    [".secureops", "backup", name]
  }

  function Slot(name: string, file: string): Path {
    [".secureops", "backup", name, file]
  }

  // ---------- what hardening preserves ----------

  ghost predicate Same(a: FileMap, b: FileMap, p: Path) {
    (p in a <==> p in b) && (p in a ==> a[p] == b[p])
  }

  predicate IsBelow(p: Path, dir: Path) {
    |dir| < |p| && p[..|dir|] == dir
  }

  /** Nothing was in the backup directory before. */
  ghost predicate IsNew(files: FileMap, dir: string) {
    forall p | p in files :: !IsBelow(p, BackupDir(dir))
  }

  /** The backup directory holds files only, no directories. */
  ghost predicate BackupIsFlat(files: FileMap, dir: string) {
    forall p | p in files && IsBelow(p, BackupDir(dir)) :: |p| == 4
  }

  /** Every item in the backup is the original one, and memory is there only if it held a key. */
  ghost predicate BackupsAreOriginal(orig: FileMap, files: FileMap, dir: string) {
    forall item | IsItem(item) && Slot(dir, NameOf(item)) in files :: IsOriginal(orig, files, dir, item)
  }

  ghost predicate IsOriginal(orig: FileMap, files: FileMap, dir: string, item: Item)
    requires Slot(dir, NameOf(item)) in files
  {
    && PathOf(item) in orig && files[Slot(dir, NameOf(item))] == orig[PathOf(item)]
    && (item.Memory? ==> Patterns.HasKey(orig[PathOf(item)]))
  }

  /** The backup holds items and fixed names only. */
  ghost predicate BackupNamesKnown(files: FileMap, dir: string) {
    forall n | Slot(dir, n) in files :: n in FIXED || exists item :: IsItem(item) && NameOf(item) == n
  }

  /** An item is as it was, or it is a redacted memory file whose original is in the backup. */
  ghost predicate ItemIsSafe(orig: FileMap, files: FileMap, dir: string, item: Item) {
    || Same(orig, files, PathOf(item))
    || (&& item.Memory? && PathOf(item) in orig && PathOf(item) in files
        && files[PathOf(item)] == Redact.Redacted(orig[PathOf(item)])
        && Slot(dir, NameOf(item)) in files)
  }

  /** What a fixed name in the backup is a copy of, where that is to be the original. */
  function FixedSource(n: string): Option<Path> {
    if n == ORIGINAL || n == "openclaw.json" then Some(CONFIG)
    else if n == DOCKER then Some(OVERRIDE)
    else None
  }

  /** Such backups are of the config and the override as they were. */
  ghost predicate FixedAreOriginal(orig: FileMap, files: FileMap, dir: string) {
    forall n | FixedSource(n).Some? && Slot(dir, n) in files ::
      FixedSource(n).value in orig && files[Slot(dir, n)] == orig[FixedSource(n).value]
  }

  ghost predicate HasBackup(files: FileMap, dir: string, p: Path) {
    exists n | FixedSource(n) == Some(p) :: Slot(dir, n) in files
  }

  /** The config and the override are as they were, or the original is in the backup. */
  ghost predicate RewrittenAreSafe(orig: FileMap, files: FileMap, dir: string) {
    forall p | p in {CONFIG, OVERRIDE} && p in orig && !Same(orig, files, p) :: HasBackup(files, dir, p)
  }

  /** Paths outside the backup that hardening may write, memory files apart. */
  const OTHERS: set<Path> := {CONFIG, OVERRIDE, ENV_ENC, KEYSTORE, EGRESS_RULES, PF_RULES, BLOCKLIST}

  ghost predicate MayChange(dir: string, p: Path) {
    p in OTHERS || IsBelow(p, BackupDir(dir)) || exists item :: IsItem(item) && item.Memory? && PathOf(item) == p
  }

  /** Nothing else has changed. */
  ghost predicate ElsewhereSame(orig: FileMap, files: FileMap, dir: string) {
    forall p | !MayChange(dir, p) :: Same(orig, files, p)
  }

  /** No content that hardening changes is lost, and nothing changes that is not hardening's business. */
  ghost predicate Safe(orig: FileMap, files: FileMap, dir: string) {
    && BackupsAreOriginal(orig, files, dir)
    && BackupNamesKnown(files, dir)
    && (forall item | IsItem(item) :: ItemIsSafe(orig, files, dir, item))
    && FixedAreOriginal(orig, files, dir)
    && RewrittenAreSafe(orig, files, dir)
    && BackupIsFlat(files, dir)
    && ElsewhereSame(orig, files, dir)
  }

  // ---------- each step keeps it ----------

  /** Two items never share a backup name. */
  lemma NamesDiffer(i: Item, j: Item)
    requires IsItem(i) && IsItem(j) && NameOf(i) == NameOf(j)
    ensures i == j
  {
    DecodesUniquely(i);
    DecodesUniquely(j);
    if IsMisleading(i) && IsMisleading(j) {
      MemoryIsLookedFor(i.file);
      MemoryIsLookedFor(j.file);
      var k :| 0 <= k < |MEMORY_FILES| && MEMORY_FILES[k] == i.file;
      var m :| 0 <= m < |MEMORY_FILES| && MEMORY_FILES[m] == j.file;
      MemoryDecodes(i.agent, k);
      MemoryDecodes(j.agent, m);
      var d := Decoded(NameOf(i));
      assert d[|d| - 1] == i && d[|d| - 1] == j;
    }
  }

  lemma PathsDiffer(i: Item, j: Item)
    requires PathOf(i) == PathOf(j)
    ensures i == j
  {
  }

  /** Items live outside the backups, and outside everything else hardening writes. */
  lemma ItemsLiveElsewhere(item: Item)
    ensures PathOf(item)[0] in ["credentials", "agents", ".env"]
    ensures forall dir, n :: PathOf(item) != Slot(dir, n)
    ensures PathOf(item) != CONFIG && PathOf(item) != OVERRIDE && PathOf(item) != ENV_ENC
  {
  }

  lemma SafeAtFirst(orig: FileMap, dir: string)
    requires IsNew(orig, dir)
    ensures Safe(orig, orig, dir)
  {
  }

  /** Writing a file of the backup or a path outside it keeps the backup flat. */
  lemma FlatAfter(files: FileMap, dir: string, p: Path, content: string)
    requires BackupIsFlat(files, dir) && (|p| == 4 || !IsBelow(p, BackupDir(dir)))
    ensures BackupIsFlat(files[p := content], dir)
  {
  }

  lemma ElsewhereAfter(orig: FileMap, files: FileMap, dir: string, p: Path, content: string)
    requires ElsewhereSame(orig, files, dir) && MayChange(dir, p)
    ensures ElsewhereSame(orig, files[p := content], dir)
  {
  }

  /** Files are never deleted, so a backup that is there stays there. */
  lemma RewrittenAfter(orig: FileMap, files: FileMap, dir: string, p: Path, content: string)
    requires RewrittenAreSafe(orig, files, dir)
    requires p in {CONFIG, OVERRIDE} && p in orig ==> HasBackup(files, dir, p)
    ensures RewrittenAreSafe(orig, files[p := content], dir)
  {
    hide FixedSource;
    forall q | q in {CONFIG, OVERRIDE} && q in orig && !Same(orig, files[p := content], q)
      ensures HasBackup(files[p := content], dir, q)
    {
      var n :| FixedSource(n) == Some(q) && Slot(dir, n) in files;
      assert Slot(dir, n) in files[p := content];
    }
  }

  lemma SlotMayChange(dir: string, n: string)
    ensures MayChange(dir, Slot(dir, n))
  {
  }

  lemma MemoryMayChange(dir: string, item: Item)
    requires IsItem(item) && item.Memory?
    ensures MayChange(dir, PathOf(item))
  {
  }

  /** Copying an untouched item to its name in the backup. */
  lemma SafeAfterBackup(orig: FileMap, files: FileMap, dir: string, item: Item)
    requires Safe(orig, files, dir) && IsItem(item)
    requires PathOf(item) in files && Same(orig, files, PathOf(item))
    requires item.Memory? ==> Patterns.HasKey(files[PathOf(item)])
    ensures Safe(orig, files[Slot(dir, NameOf(item)) := files[PathOf(item)]], dir)
  {
    hide IsItem, NameOf, PathOf, BackupIsFlat, ElsewhereSame, FixedAreOriginal, FixedSource, RewrittenAreSafe, Patterns.HasKey;
    var slot := Slot(dir, NameOf(item));
    FlatAfter(files, dir, slot, files[PathOf(item)]);
    SlotMayChange(dir, NameOf(item));
    ElsewhereAfter(orig, files, dir, slot, files[PathOf(item)]);
    RewrittenAfter(orig, files, dir, slot, files[PathOf(item)]);
    SourcesAreFixed(NameOf(item));
    var after := files[slot := files[PathOf(item)]];
    forall other | IsItem(other) && Slot(dir, NameOf(other)) in after ensures IsOriginal(orig, after, dir, other) {
      if Slot(dir, NameOf(other)) == slot {
        assert Slot(dir, NameOf(other))[3] == slot[3];
        NamesDiffer(item, other);
      }
    }
    forall other | IsItem(other) ensures ItemIsSafe(orig, after, dir, other) {
      ItemsLiveElsewhere(other);
      assert ItemIsSafe(orig, files, dir, other);
    }
    SafeNames(files, dir, NameOf(item), files[PathOf(item)]);
    DecodesUniquely(item);
    FixedAfter(orig, files, dir, NameOf(item), files[PathOf(item)]);
  }

  lemma FixedAfter(orig: FileMap, files: FileMap, dir: string, n: string, content: string)
    requires FixedAreOriginal(orig, files, dir)
    requires FixedSource(n).Some? ==> FixedSource(n).value in orig && content == orig[FixedSource(n).value]
    ensures FixedAreOriginal(orig, files[Slot(dir, n) := content], dir)
  {
    hide FixedSource;
    forall m | Slot(dir, m) == Slot(dir, n) ensures m == n {
      assert Slot(dir, m)[3] == Slot(dir, n)[3];
    }
  }

  lemma SourcesAreFixed(n: string)
    ensures FixedSource(n).Some? ==> n in FIXED
  {
  }

  lemma OthersAreNotFixed(orig: FileMap, files: FileMap, dir: string, p: Path, content: string)
    requires FixedAreOriginal(orig, files, dir) && forall n :: p != Slot(dir, n)
    ensures FixedAreOriginal(orig, files[p := content], dir)
  {
  }

  lemma SafeNames(files: FileMap, dir: string, n: string, content: string)
    requires BackupNamesKnown(files, dir)
    requires n in FIXED || exists item :: IsItem(item) && NameOf(item) == n
    ensures BackupNamesKnown(files[Slot(dir, n) := content], dir)
  {
  }

  /** Writing a fixed name in the backup; a backup of the config or the override must be of the original. */
  lemma SafeAfterFixed(orig: FileMap, files: FileMap, dir: string, n: string, content: string)
    requires Safe(orig, files, dir) && n in FIXED
    requires FixedSource(n).Some? ==> FixedSource(n).value in orig && content == orig[FixedSource(n).value]
    ensures Safe(orig, files[Slot(dir, n) := content], dir)
  {
    hide IsItem, NameOf, PathOf, BackupIsFlat, ElsewhereSame, FixedAreOriginal, FixedSource, RewrittenAreSafe, Patterns.HasKey;
    var slot := Slot(dir, n);
    FlatAfter(files, dir, slot, content);
    SlotMayChange(dir, n);
    ElsewhereAfter(orig, files, dir, slot, content);
    RewrittenAfter(orig, files, dir, slot, content);
    var after := files[slot := content];
    forall item | IsItem(item)
      ensures ItemIsSafe(orig, after, dir, item)
      ensures Slot(dir, NameOf(item)) != slot
    {
      DecodesUniquely(item);
      assert Slot(dir, NameOf(item))[3] == NameOf(item) && slot[3] == n;
      ItemsLiveElsewhere(item);
      assert ItemIsSafe(orig, files, dir, item);
    }
    SafeNames(files, dir, n, content);
    FixedAfter(orig, files, dir, n, content);
  }

  /** Writing a path that is neither an item nor in the backup; the config and the override only once backed up. */
  lemma SafeAfterOther(orig: FileMap, files: FileMap, dir: string, p: Path, content: string)
    requires Safe(orig, files, dir)
    requires p in OTHERS
    requires p in {CONFIG, OVERRIDE} && p in orig ==> HasBackup(files, dir, p)
    ensures Safe(orig, files[p := content], dir)
  {
    hide IsItem, NameOf, PathOf, BackupIsFlat, ElsewhereSame, FixedAreOriginal, FixedSource, RewrittenAreSafe, Patterns.HasKey;
    assert |p| <= 3;
    FlatAfter(files, dir, p, content);
    ElsewhereAfter(orig, files, dir, p, content);
    RewrittenAfter(orig, files, dir, p, content);
    OthersAreNotFixed(orig, files, dir, p, content);
    forall n ensures Slot(dir, n) != p {
      assert |Slot(dir, n)| == 4;
    }
    forall item | IsItem(item) ensures ItemIsSafe(orig, files[p := content], dir, item) {
      ItemsLiveElsewhere(item);
      assert p[0] in ["openclaw.json", "docker-compose.secureops.yml", ".env.enc", ".secureops"];
      assert ItemIsSafe(orig, files, dir, item);
    }
  }

  lemma ItemNotBelow(item: Item, dir: string)
    ensures !IsBelow(PathOf(item), BackupDir(dir))
  {
    ItemsLiveElsewhere(item);
    assert BackupDir(dir)[0] == ".secureops";
  }

  /** Redacting a memory file whose backup is in place. */
  lemma SafeAfterRedact(orig: FileMap, files: FileMap, dir: string, item: Item)
    requires Safe(orig, files, dir) && IsItem(item) && item.Memory?
    requires PathOf(item) in files && Same(orig, files, PathOf(item)) && Slot(dir, NameOf(item)) in files
    ensures Safe(orig, files[PathOf(item) := Redact.Redacted(files[PathOf(item)])], dir)
  {
    hide IsItem, NameOf, PathOf, Redact.Redacted, BackupIsFlat, ElsewhereSame, FixedAreOriginal, FixedSource, RewrittenAreSafe, Patterns.HasKey;
    ItemNotBelow(item, dir);
    FlatAfter(files, dir, PathOf(item), Redact.Redacted(files[PathOf(item)]));
    MemoryMayChange(dir, item);
    ElsewhereAfter(orig, files, dir, PathOf(item), Redact.Redacted(files[PathOf(item)]));
    ItemsLiveElsewhere(item);
    RewrittenAfter(orig, files, dir, PathOf(item), Redact.Redacted(files[PathOf(item)]));
    OthersAreNotFixed(orig, files, dir, PathOf(item), Redact.Redacted(files[PathOf(item)]));
    var after := files[PathOf(item) := Redact.Redacted(files[PathOf(item)])];
    ItemsLiveElsewhere(item);
    forall other | IsItem(other) ensures ItemIsSafe(orig, after, dir, other) {
      assert ItemIsSafe(orig, files, dir, other);
      if PathOf(other) == PathOf(item) {
        PathsDiffer(other, item);
      }
    }
  }

  /** A memory file that still changes under redaction has not been redacted yet. */
  lemma StillOriginal(orig: FileMap, files: FileMap, dir: string, item: Item)
    requires Safe(orig, files, dir) && IsItem(item) && PathOf(item) in files
    requires Redact.Redacted(files[PathOf(item)]) != files[PathOf(item)]
    ensures Same(orig, files, PathOf(item))
  {
    assert ItemIsSafe(orig, files, dir, item);
    if PathOf(item) in orig {
      Redact.RedactIsIdempotent(orig[PathOf(item)]);
    }
  }

  lemma NotMemoryIsSame(orig: FileMap, files: FileMap, dir: string, item: Item)
    requires Safe(orig, files, dir) && IsItem(item) && !item.Memory?
    ensures Same(orig, files, PathOf(item))
  {
    assert ItemIsSafe(orig, files, dir, item);
  }
}
