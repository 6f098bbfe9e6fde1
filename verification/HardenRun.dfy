/**
 A run of hardening, module by module in priority order (crates/secureops-harden/src/lib.rs,
 `harden`; credential_hardening.rs, `run_fix`). Whatever fails on the way, every original that
 is changed stays recoverable.
 */
module HardenRun {
  import opened Basics
  import opened BackupNames
  import opened Harden
  import Patterns
  import Redact

  /** The memory files that hardening looks into. */
  const REDACTED_FILES: seq<string> := ["soul.md", "SOUL.md", "MEMORY.md"]

  datatype Platform = Linux | Darwin | Other

  /** The safety of a run, if its backup directory was new. */
  ghost predicate Kept(isNew: bool, orig: FileMap, files: FileMap, dir: string) {
    isNew ==> Safe(orig, files, dir)
  }

  /** Files are not deleted, and failures are not forgotten. */
  ghost predicate Grows(files: FileMap, faults: set<Path>, files': FileMap, faults': set<Path>) {
    files.Keys <= files'.Keys && faults <= faults'
  }

  /** Nothing has changed but at these paths. */
  ghost predicate OnlyAt(files: FileMap, files': FileMap, paths: set<Path>) {
    forall p | p !in paths :: Same(files, files', p)
  }

  /** What the other modules rewrite and back up has not changed. */
  ghost predicate RewrittenSame(files: FileMap, files': FileMap, dir: string) {
    && Same(files, files', CONFIG) && Same(files, files', OVERRIDE)
    && Same(files, files', Slot(dir, ORIGINAL)) && Same(files, files', Slot(dir, GATEWAY_COPY))
  }

  ghost predicate EncryptedSame(files: FileMap, files': FileMap) {
    Same(files, files', ENV_ENC) && Same(files, files', KEYSTORE)
  }

  ghost predicate Holds(files: FileMap, p: Path, content: string) {
    p in files && files[p] == content
  }

  /** If the file at `p` was rewritten, what it held is in the backup under that name. */
  ghost predicate RewrittenOnceSaved(files: FileMap, files': FileMap, dir: string, p: Path, name: string) {
    p in files && !Same(files, files', p) ==> Slot(dir, name) in files' && files'[Slot(dir, name)] == files[p]
  }

  /** If the item exists, its backup does. */
  ghost predicate Saved(orig: FileMap, files: FileMap, dir: string, item: Item) {
    PathOf(item) in orig ==> Slot(dir, NameOf(item)) in files
  }

  /** No item is changed. */
  ghost predicate ItemsSame(before: FileMap, files: FileMap) {
    forall item :: Same(before, files, PathOf(item))
  }

  /** The memory file, if there is one, holds the redacted original. */
  ghost predicate IsRedacted(orig: FileMap, files: FileMap, item: Item) {
    PathOf(item) in orig ==> PathOf(item) in files && files[PathOf(item)] == Redact.Redacted(orig[PathOf(item)])
  }

  ghost predicate AllSaved(orig: FileMap, files: FileMap, dir: string) {
    forall item | IsItem(item) && !item.Memory? :: Saved(orig, files, dir, item)
  }

  ghost predicate AllRedacted(orig: FileMap, files: FileMap) {
    forall item | IsItem(item) && item.Memory? :: IsRedacted(orig, files, item)
  }

  lemma OnlyAtBoth(a: FileMap, b: FileMap, c: FileMap, paths: set<Path>, more: set<Path>, all: set<Path>)
    requires OnlyAt(a, b, paths) && OnlyAt(b, c, more) && paths <= all && more <= all
    ensures OnlyAt(a, c, all)
  {
    forall p | p !in all ensures Same(a, c, p) {
      assert Same(a, b, p) && Same(b, c, p);
    }
  }

  lemma NothingAt(files: FileMap)
    ensures OnlyAt(files, files, {})
  {
  }

  lemma NotAt(a: FileMap, b: FileMap, paths: set<Path>, p: Path)
    requires OnlyAt(a, b, paths) && p !in paths
    ensures Same(a, b, p)
  {
  }

  /** Changes outside the items change no item. */
  lemma ItemsNotTouched(files: FileMap, files': FileMap, paths: set<Path>)
    requires OnlyAt(files, files', paths)
    requires forall p | p in paths :: p != [] && p[0] !in ["credentials", "agents", ".env"]
    ensures ItemsSame(files, files')
  {
    forall item ensures Same(files, files', PathOf(item)) {
      ItemsLiveElsewhere(item);
    }
  }

  lemma SlotsDiffer(dir: string, n: string, p: Path)
    requires |p| < 4
    ensures Slot(dir, n) != p && Slot(dir, n) != [] && Slot(dir, n)[0] == ".secureops"
  {
  }

  lemma SlotsApart(dir: string, n: string, m: string)
    ensures Slot(dir, n) == Slot(dir, m) ==> n == m
  {
    assert Slot(dir, n)[3] == n && Slot(dir, m)[3] == m;
  }

  lemma OthersApart()
    ensures CONFIG != OVERRIDE && CONFIG != ENV_ENC && OVERRIDE != ENV_ENC && KEYSTORE != ENV_ENC
    ensures forall p | p in {EGRESS_RULES, PF_RULES, BLOCKLIST} :: p != CONFIG && p != OVERRIDE && p != ENV_ENC && |p| == 3
    ensures |CONFIG| == |OVERRIDE| == |ENV_ENC| == 1 && |KEYSTORE| == 2
    ensures ORIGINAL != DOCKER && DOCKER != CONFIG_COPY && DOCKER != MANIFEST && DOCKER != GATEWAY_COPY
    ensures ORIGINAL != CONFIG_COPY && ORIGINAL != MANIFEST && ORIGINAL != GATEWAY_COPY
    ensures GATEWAY_COPY != CONFIG_COPY && GATEWAY_COPY != MANIFEST && CONFIG_COPY != MANIFEST
  {
    assert CONFIG[0] == "openclaw.json" && OVERRIDE[0] == DOCKER && ENV_ENC[0] == ".env.enc";
  }

  lemma RestIsSame(a: FileMap, dir: string)
    ensures RewrittenSame(a, a, dir) && EncryptedSame(a, a)
  {
  }

  lemma RestStaysSame(a: FileMap, b: FileMap, c: FileMap, dir: string)
    ensures RewrittenSame(a, b, dir) && RewrittenSame(b, c, dir) ==> RewrittenSame(a, c, dir)
    ensures EncryptedSame(a, b) && EncryptedSame(b, c) ==> EncryptedSame(a, c)
  {
  }

  /** Changing an item and its backup changes nothing else. */
  lemma ItemLeavesRest(a: FileMap, b: FileMap, dir: string, item: Item)
    requires IsItem(item)
    requires forall p | p != PathOf(item) && p != Slot(dir, NameOf(item)) :: Same(a, b, p)
    ensures RewrittenSame(a, b, dir) && EncryptedSame(a, b)
  {
    hide IsItem, NameOf, PathOf, Slot, FIXED, CONFIG, OVERRIDE, ENV_ENC, KEYSTORE, EGRESS_RULES, PF_RULES, BLOCKLIST, DOCKER,
      ORIGINAL, GATEWAY_COPY, CONFIG_COPY, MANIFEST;
    var name := NameOf(item);
    NamesAreNotFixed(item);
    OthersApart();
    SlotsDiffer(dir, name, CONFIG);
    SlotsDiffer(dir, name, OVERRIDE);
    SlotsDiffer(dir, name, ENV_ENC);
    SlotsDiffer(dir, name, KEYSTORE);
    SlotsApart(dir, ORIGINAL, name);
    SlotsApart(dir, GATEWAY_COPY, name);
  }

  lemma NamesAreNotFixed(item: Item)
    requires IsItem(item)
    ensures NameOf(item) != ORIGINAL && NameOf(item) != GATEWAY_COPY
    ensures PathOf(item) != CONFIG && PathOf(item) != OVERRIDE && PathOf(item) != ENV_ENC && PathOf(item) != KEYSTORE
    ensures forall dir, n :: PathOf(item) != Slot(dir, n)
  {
    hide IsItem, NameOf, PathOf;
    DecodesUniquely(item);
    ItemsLiveElsewhere(item);
    assert KEYSTORE[0] == ".secureops";
  }

  /** Copy an item to its name in the backup; a failure is ignored. */
  method BackUp(disk: Disk, dir: string, item: Item, ghost isNew: bool, ghost orig: FileMap) returns (r: CopyResult)
    requires IsItem(item) && Kept(isNew, orig, disk.files, dir)
    requires isNew ==> Same(orig, disk.files, PathOf(item))
    requires item.Memory? && PathOf(item) in disk.files ==> Patterns.HasKey(disk.files[PathOf(item)])
    modifies disk
    ensures Kept(isNew, orig, disk.files, dir)
    ensures Grows(old(disk.files), old(disk.faults), disk.files, disk.faults)
    ensures r == Copied ==> PathOf(item) in old(disk.files) && Slot(dir, NameOf(item)) in disk.files
    ensures r == Copied ==> disk.files[Slot(dir, NameOf(item))] == old(disk.files)[PathOf(item)]
    ensures EncryptedSame(old(disk.files), disk.files)
    ensures RewrittenSame(old(disk.files), disk.files, dir)
    ensures r == NotFound ==> PathOf(item) !in old(disk.files)
    ensures disk.faults == {} ==> r != Failed && Saved(old(disk.files), disk.files, dir, item)
    ensures forall p | p != Slot(dir, NameOf(item)) :: Same(old(disk.files), disk.files, p)
  {
    hide Safe, IsItem, NameOf, PathOf, Slot, Patterns.HasKey, RewrittenSame;
    ghost var before := disk.files;
    r := disk.Copy(PathOf(item), Slot(dir, NameOf(item)));
    ItemLeavesRest(before, disk.files, dir, item);
    if r == Copied && isNew {
      SafeAfterBackup(orig, before, dir, item);
    }
  }

  /** Write one of the other files; the config and the override only once their originals are backed up. */
  method WriteOther(disk: Disk, path: Path, content: string, ghost dir: string, ghost isNew: bool, ghost orig: FileMap)
    returns (ok: bool)
    requires path in OTHERS && Kept(isNew, orig, disk.files, dir)
    requires isNew && path in {CONFIG, OVERRIDE} && path in orig ==> HasBackup(disk.files, dir, path)
    modifies disk
    ensures Kept(isNew, orig, disk.files, dir)
    ensures Grows(old(disk.files), old(disk.faults), disk.files, disk.faults)
    ensures disk.faults == {} ==> ok && path in disk.files && disk.files[path] == content
    ensures OnlyAt(old(disk.files), disk.files, {path})
  {
    hide Safe;
    ghost var before := disk.files;
    ok := disk.Write(path, content);
    if ok && isNew {
      SafeAfterOther(orig, before, dir, path, content);
    }
  }

  method BackUpFixed(disk: Disk, src: Path, dir: string, name: string, ghost isNew: bool, ghost orig: FileMap)
    returns (r: CopyResult)
    requires name in FIXED && Kept(isNew, orig, disk.files, dir)
    requires isNew && FixedSource(name).Some? ==> FixedSource(name).value == src && Same(orig, disk.files, src)
    modifies disk
    ensures Kept(isNew, orig, disk.files, dir)
    ensures Grows(old(disk.files), old(disk.faults), disk.files, disk.faults)
    ensures r == Copied ==> src in old(disk.files) && Slot(dir, name) in disk.files
    ensures r == Copied ==> disk.files[Slot(dir, name)] == old(disk.files)[src]
    ensures r == NotFound ==> src !in old(disk.files)
    ensures disk.faults == {} ==> r != Failed
    ensures OnlyAt(old(disk.files), disk.files, {Slot(dir, name)})
  {
    hide Safe, FixedSource;
    ghost var before := disk.files;
    r := disk.Copy(src, Slot(dir, name));
    if r == Copied && isNew {
      SafeAfterFixed(orig, before, dir, name, before[src]);
    }
  }

  lemma BackupIsThere(files: FileMap, dir: string, n: string, p: Path)
    requires FixedSource(n) == Some(p) && Slot(dir, n) in files
    ensures HasBackup(files, dir, p)
  {
  }

  lemma BackupStays(files: FileMap, files': FileMap, dir: string, p: Path)
    requires HasBackup(files, dir, p) && files.Keys <= files'.Keys
    ensures HasBackup(files', dir, p)
  {
    var n :| FixedSource(n) == Some(p) && Slot(dir, n) in files;
    assert Slot(dir, n) in files';
  }

  /** Back up the file at `path` under `name`, then rewrite it, but only if nothing is lost by that. */
  method BackUpAndWrite(disk: Disk, path: Path, content: string, dir: string, name: string,
                        ghost isNew: bool, ghost orig: FileMap)
    requires name in FIXED && FixedSource(name) == Some(path) && path in {CONFIG, OVERRIDE}
    requires Kept(isNew, orig, disk.files, dir) && (isNew ==> Same(orig, disk.files, path))
    modifies disk
    ensures Kept(isNew, orig, disk.files, dir)
    ensures Grows(old(disk.files), old(disk.faults), disk.files, disk.faults)
    ensures OnlyAt(old(disk.files), disk.files, {path, Slot(dir, name)})
    ensures RewrittenOnceSaved(old(disk.files), disk.files, dir, path, name)
    ensures disk.faults == {} ==> path in disk.files && disk.files[path] == content
    ensures disk.faults == {} && path in old(disk.files) ==> Holds(disk.files, Slot(dir, name), old(disk.files)[path])
  {
    hide Safe, HasBackup, FixedSource, Slot, OnlyAt;
    ghost var before := disk.files;
    SlotsDiffer(dir, name, path);
    var r := BackUpFixed(disk, path, dir, name, isNew, orig);
    if r != Failed {
      if r == Copied {
        BackupIsThere(disk.files, dir, name, path);
      }
      ghost var saved := disk.files;
      var _ := WriteOther(disk, path, content, dir, isNew, orig);
      OnlyAtBoth(before, saved, disk.files, {Slot(dir, name)}, {path}, {path, Slot(dir, name)});
      NotAt(saved, disk.files, {path}, Slot(dir, name));
    } else {
      NothingAt(disk.files);
      OnlyAtBoth(before, disk.files, disk.files, {Slot(dir, name)}, {}, {path, Slot(dir, name)});
      NotAt(before, disk.files, {Slot(dir, name)}, path);
    }
  }

  // ---------- the modules ----------

  /** gateway_hardening.rs: never rewrite a config that could not be backed up. */
  method GatewayFix(disk: Disk, dir: string, rw: Rewrites, ghost isNew: bool, ghost orig: FileMap)
    requires Kept(isNew, orig, disk.files, dir) && (isNew ==> Same(orig, disk.files, CONFIG))
    modifies disk
    ensures Kept(isNew, orig, disk.files, dir)
    ensures Grows(old(disk.files), old(disk.faults), disk.files, disk.faults)
    ensures OnlyAt(old(disk.files), disk.files, {CONFIG, Slot(dir, GATEWAY_COPY)})
    ensures RewrittenOnceSaved(old(disk.files), disk.files, dir, CONFIG, GATEWAY_COPY)
    ensures disk.faults == {} ==> Holds(disk.files, CONFIG, rw.gateway)
    ensures disk.faults == {} && CONFIG in old(disk.files) ==>
              Holds(disk.files, Slot(dir, GATEWAY_COPY), old(disk.files)[CONFIG])
  {
    BackUpAndWrite(disk, CONFIG, rw.gateway, dir, GATEWAY_COPY, isNew, orig);
  }

  method BackUpCredentials(disk: Disk, dir: string, ghost isNew: bool, ghost orig: FileMap)
    requires Kept(isNew, orig, disk.files, dir) && orig.Keys <= disk.files.Keys
    modifies disk
    ensures Kept(isNew, orig, disk.files, dir)
    ensures Grows(old(disk.files), old(disk.faults), disk.files, disk.faults)
    ensures RewrittenSame(old(disk.files), disk.files, dir)
    ensures disk.faults == {} ==>
              forall file | EndsWith(file, ".json") :: Saved(orig, disk.files, dir, Credential(file))
  {
    hide Safe, PathOf, NameOf, Slot, Listing, IsItem, Patterns.HasKey;
    var names := disk.List(["credentials"]);
    CredentialsAreListed(orig, disk.files);
    while names != {}
      invariant Kept(isNew, orig, disk.files, dir) && orig.Keys <= disk.files.Keys
      invariant Grows(old(disk.files), old(disk.faults), disk.files, disk.faults)
      invariant RewrittenSame(old(disk.files), disk.files, dir)
      invariant disk.faults == {} ==>
        forall file | EndsWith(file, ".json") && file !in names :: Saved(orig, disk.files, dir, Credential(file))
    {
      var file :| file in names;
      names := names - {file};
      if EndsWith(file, ".json") {
        CredentialIsItem(file);
        if isNew {
          NotMemoryIsSame(orig, disk.files, dir, Credential(file));
        }
        var _ := BackUp(disk, dir, Credential(file), isNew, orig);
      }
    }
  }

  lemma CredentialIsItem(file: string)
    requires EndsWith(file, ".json")
    ensures IsItem(Credential(file))
  {
  }

  lemma CredentialsAreListed(orig: FileMap, files: FileMap)
    requires orig.Keys <= files.Keys
    ensures forall file | PathOf(Credential(file)) in orig :: file in Listing(files, ["credentials"])
  {
    forall file | PathOf(Credential(file)) in orig ensures file in Listing(files, ["credentials"]) {
      ListedBelow(files, ["credentials"], PathOf(Credential(file)));
    }
  }

  lemma AgentsAreListed(orig: FileMap, files: FileMap)
    requires orig.Keys <= files.Keys
    ensures forall agent | PathOf(AuthProfile(agent)) in orig :: agent in Listing(files, ["agents"])
    ensures forall agent :: IsItem(AuthProfile(agent))
  {
    forall agent | PathOf(AuthProfile(agent)) in orig ensures agent in Listing(files, ["agents"]) {
      ListedBelow(files, ["agents"], PathOf(AuthProfile(agent)));
    }
  }

  lemma ListedBelow(files: FileMap, dir: Path, p: Path)
    requires p in files && IsBelow(p, dir)
    ensures p[|dir|] in Listing(files, dir)
  {
  }

  method BackUpAuthProfiles(disk: Disk, dir: string, ghost isNew: bool, ghost orig: FileMap)
    requires Kept(isNew, orig, disk.files, dir) && orig.Keys <= disk.files.Keys
    modifies disk
    ensures Kept(isNew, orig, disk.files, dir)
    ensures Grows(old(disk.files), old(disk.faults), disk.files, disk.faults)
    ensures RewrittenSame(old(disk.files), disk.files, dir)
    ensures disk.faults == {} ==> forall agent :: Saved(orig, disk.files, dir, AuthProfile(agent))
  {
    hide Safe, PathOf, NameOf, Slot, Listing, IsItem, Patterns.HasKey;
    var names := disk.List(["agents"]);
    AgentsAreListed(orig, disk.files);
    while names != {}
      invariant Kept(isNew, orig, disk.files, dir) && orig.Keys <= disk.files.Keys
      invariant Grows(old(disk.files), old(disk.faults), disk.files, disk.faults)
      invariant RewrittenSame(old(disk.files), disk.files, dir)
      invariant disk.faults == {} ==> forall agent | agent !in names :: Saved(orig, disk.files, dir, AuthProfile(agent))
    {
      var agent :| agent in names;
      names := names - {agent};
      if PathOf(AuthProfile(agent)) in disk.files {
        if isNew {
          NotMemoryIsSame(orig, disk.files, dir, AuthProfile(agent));
        }
        var _ := BackUp(disk, dir, AuthProfile(agent), isNew, orig);
      }
    }
  }

  lemma OtherLeavesRewritten(a: FileMap, b: FileMap, dir: string, p: Path)
    requires OnlyAt(a, b, {p}) && (p == KEYSTORE || p == ENV_ENC)
    ensures RewrittenSame(a, b, dir)
  {
  }

  method EncryptEnv(disk: Disk, dir: string, rw: Rewrites, ghost isNew: bool, ghost orig: FileMap)
    requires Kept(isNew, orig, disk.files, dir) && orig.Keys <= disk.files.Keys
    modifies disk
    ensures Kept(isNew, orig, disk.files, dir)
    ensures Grows(old(disk.files), old(disk.faults), disk.files, disk.faults)
    ensures RewrittenSame(old(disk.files), disk.files, dir)
    ensures disk.faults == {} ==> Saved(orig, disk.files, dir, Env)
    ensures disk.faults == {} && PathOf(Env) in orig ==> Holds(disk.files, ENV_ENC, rw.envEnc) && KEYSTORE in disk.files
    ensures disk.faults == {} && PathOf(Env) in orig && KEYSTORE !in old(disk.files) ==>
              Holds(disk.files, KEYSTORE, rw.keystore)
  {
    hide Safe, RewrittenSame, OnlyAt, Slot;
    var content := disk.Read(PathOf(Env));
    RestIsSame(disk.files, dir);
    if content.None? {
      return;
    }
    if isNew {
      NotMemoryIsSame(orig, disk.files, dir, Env);
    }
    var _ := BackUp(disk, dir, Env, isNew, orig);
    var keystoreOk := true;
    ghost var saved := disk.files;
    if KEYSTORE !in disk.files {
      keystoreOk := WriteOther(disk, KEYSTORE, rw.keystore, dir, isNew, orig);
      OtherLeavesRewritten(saved, disk.files, dir, KEYSTORE);
      RestStaysSame(old(disk.files), saved, disk.files, dir);
    }
    if keystoreOk {
      ghost var mid := disk.files;
      var _ := WriteOther(disk, ENV_ENC, rw.envEnc, dir, isNew, orig);
      OtherLeavesRewritten(mid, disk.files, dir, ENV_ENC);
      RestStaysSame(old(disk.files), mid, disk.files, dir);
      NotAt(mid, disk.files, {ENV_ENC}, KEYSTORE);
    }
  }

  /** Redact one memory file, but only once its backup has landed. */
  method RedactFile(disk: Disk, dir: string, item: Item, ghost isNew: bool, ghost orig: FileMap) returns (ok: bool)
    requires item.Memory? && IsItem(item) && Kept(isNew, orig, disk.files, dir)
    modifies disk
    ensures Kept(isNew, orig, disk.files, dir)
    ensures Grows(old(disk.files), old(disk.faults), disk.files, disk.faults)
    ensures RewrittenSame(old(disk.files), disk.files, dir) && EncryptedSame(old(disk.files), disk.files)
    ensures forall p | p != PathOf(item) && p != Slot(dir, NameOf(item)) :: Same(old(disk.files), disk.files, p)
    ensures RewrittenOnceSaved(old(disk.files), disk.files, dir, PathOf(item), NameOf(item))
    ensures ok && PathOf(item) !in disk.faults ==> IsRedacted(old(disk.files), disk.files, item)
    ensures disk.faults == {} ==> ok
  {
    hide Safe, IsItem, NameOf, PathOf, Redact.Redacted, Patterns.HasKey;
    var content := disk.Read(PathOf(item));
    if content.None? {
      return true;
    }
    var redacted := Redact.RedactApiKeys(content.value);
    if redacted == content.value {
      return true;
    }
    if isNew {
      StillOriginal(orig, disk.files, dir, item);
    }
    ghost var start := disk.files;
    var r := BackUp(disk, dir, item, isNew, orig);
    assert Same(start, disk.files, PathOf(item)) by {
      ItemsLiveElsewhere(item);
      assert PathOf(item) != Slot(dir, NameOf(item));
    }
    if r != Copied {
      return false;
    }
    ghost var before := disk.files;
    ItemsLiveElsewhere(item);
    ok := disk.Write(PathOf(item), redacted);
    if ok && isNew {
      SafeAfterRedact(orig, before, dir, item);
    }
    forall p | p != PathOf(item) && p != Slot(dir, NameOf(item)) ensures Same(start, disk.files, p) {
      assert Same(start, before, p);
    }
    ItemLeavesRest(start, disk.files, dir, item);
  }

  /** Redacting a file that is safe leaves the redacted original, whether or not it was redacted before. */
  lemma RedactedOnceOrTwice(orig: FileMap, files: FileMap, after: FileMap, dir: string, item: Item)
    requires Safe(orig, files, dir) && IsItem(item) && IsRedacted(files, after, item)
    ensures IsRedacted(orig, after, item)
  {
    hide Redact.Redacted;
    assert ItemIsSafe(orig, files, dir, item);
    if PathOf(item) in orig {
      Redact.RedactIsIdempotent(orig[PathOf(item)]);
    }
  }

  /** The memory file holds the redacted original, unless it could not be read or written. */
  ghost predicate RedactedOrFailed(orig: FileMap, files: FileMap, faults: set<Path>, item: Item) {
    PathOf(item) in faults || IsRedacted(orig, files, item)
  }

  /** The memory files of the agents in `left` may still be to do, and those of `agent` from the `k`-th on. */
  ghost predicate RedactedBut(orig: FileMap, files: FileMap, faults: set<Path>, left: set<string>, agent: string, k: nat)
    requires k <= |REDACTED_FILES|
  {
    forall item | IsItem(item) && item.Memory? && item.agent !in left &&
                  (item.agent != agent || item.file in REDACTED_FILES[..k]) :: RedactedOrFailed(orig, files, faults, item)
  }

  lemma RedactedNext(orig: FileMap, files: FileMap, faults: set<Path>, after: FileMap, faults': set<Path>, dir: string,
                     left: set<string>, agent: string, k: nat)
    requires k < |REDACTED_FILES| && RedactedBut(orig, files, faults, left, agent, k) && faults <= faults'
    requires RedactedOrFailed(orig, after, faults', Memory(agent, REDACTED_FILES[k]))
    requires forall p | p != PathOf(Memory(agent, REDACTED_FILES[k])) &&
                        p != Slot(dir, NameOf(Memory(agent, REDACTED_FILES[k]))) :: Same(files, after, p)
    ensures RedactedBut(orig, after, faults', left, agent, k + 1)
  {
    hide PathOf, NameOf, Slot, IsItem, Redact.Redacted;
    var done := Memory(agent, REDACTED_FILES[k]);
    forall item | IsItem(item) && item.Memory? && item.agent !in left &&
                  (item.agent != agent || item.file in REDACTED_FILES[..k + 1])
      ensures RedactedOrFailed(orig, after, faults', item)
    {
      if item != done {
        ItemsLiveElsewhere(item);
        if PathOf(item) == PathOf(done) {
          PathsDiffer(item, done);
        }
        assert Same(files, after, PathOf(item));
        assert item.agent == agent ==> item.file in REDACTED_FILES[..k];
        assert RedactedOrFailed(orig, files, faults, item);
      }
    }
  }

  lemma AgentNext(orig: FileMap, files: FileMap, faults: set<Path>, left: set<string>, agent: string)
    ensures RedactedBut(orig, files, faults, left + {agent}, "", 3) ==> RedactedBut(orig, files, faults, left, agent, 0)
    ensures RedactedBut(orig, files, faults, left, agent, 3) ==> RedactedBut(orig, files, faults, left, "", 3)
  {
    hide RedactedOrFailed, IsItem;
    AllLookedInto();
  }

  /** Hardening looks into all memory files. */
  lemma AllLookedInto()
    ensures REDACTED_FILES[..3] == REDACTED_FILES && REDACTED_FILES[..0] == []
    ensures forall item | IsItem(item) && item.Memory? :: item.file in REDACTED_FILES
  {
    assert REDACTED_FILES[0] == "soul.md" && REDACTED_FILES[1] == "SOUL.md" && REDACTED_FILES[2] == "MEMORY.md";
  }

  method RedactMemory(disk: Disk, dir: string, ghost isNew: bool, ghost orig: FileMap) returns (ok: bool)
    requires Kept(isNew, orig, disk.files, dir) && orig.Keys <= disk.files.Keys
    modifies disk
    ensures Kept(isNew, orig, disk.files, dir)
    ensures Grows(old(disk.files), old(disk.faults), disk.files, disk.faults)
    ensures RewrittenSame(old(disk.files), disk.files, dir) && EncryptedSame(old(disk.files), disk.files)
    ensures isNew && ok && ["agents"] !in disk.faults ==>
              forall item | IsItem(item) && item.Memory? :: RedactedOrFailed(orig, disk.files, disk.faults, item)
    ensures isNew && disk.faults == {} ==> ok && AllRedacted(orig, disk.files)
  {
    hide Safe, RedactedBut, RedactedOrFailed, IsRedacted, IsItem, PathOf, NameOf, Slot, AllRedacted, RewrittenSame, EncryptedSame,
      RewrittenOnceSaved;
    var names := disk.List(["agents"]);
    RestIsSame(disk.files, dir);
    NothingRedactedYet(orig, disk.files, disk.faults);
    while names != {}
      invariant Kept(isNew, orig, disk.files, dir) && orig.Keys <= disk.files.Keys
      invariant Grows(old(disk.files), old(disk.faults), disk.files, disk.faults)
      invariant RewrittenSame(old(disk.files), disk.files, dir) && EncryptedSame(old(disk.files), disk.files)
      invariant isNew && ["agents"] !in disk.faults ==> RedactedBut(orig, disk.files, disk.faults, names, "", 3)
    {
      var agent :| agent in names;
      assert names - {agent} + {agent} == names;
      names := names - {agent};
      AgentNext(orig, disk.files, disk.faults, names, agent);
      for k := 0 to |REDACTED_FILES|
        invariant Kept(isNew, orig, disk.files, dir) && orig.Keys <= disk.files.Keys
        invariant Grows(old(disk.files), old(disk.faults), disk.files, disk.faults)
        invariant RewrittenSame(old(disk.files), disk.files, dir) && EncryptedSame(old(disk.files), disk.files)
        invariant isNew && ["agents"] !in disk.faults ==> RedactedBut(orig, disk.files, disk.faults, names, agent, k)
      {
        ghost var before, failed := disk.files, disk.faults;
        RedactedIsItem(agent, k);
        var done := RedactFile(disk, dir, Memory(agent, REDACTED_FILES[k]), isNew, orig);
        RestStaysSame(old(disk.files), before, disk.files, dir);
        if !done {
          return false;
        }
        if isNew && ["agents"] !in disk.faults {
          StepIsRedacted(orig, before, disk.files, disk.faults, dir, Memory(agent, REDACTED_FILES[k]));
          RedactedNext(orig, before, failed, disk.files, disk.faults, dir, names, agent, k);
        }
      }
      AgentNext(orig, disk.files, disk.faults, names, agent);
    }
    ok := true;
    RedactedAll(orig, disk.files, disk.faults);
  }

  lemma RedactedIsItem(agent: string, k: nat)
    requires k < |REDACTED_FILES|
    ensures IsItem(Memory(agent, REDACTED_FILES[k]))
  {
  }

  /** Agents that are not listed have no memory files. */
  lemma NothingRedactedYet(orig: FileMap, files: FileMap, faults: set<Path>)
    requires orig.Keys <= files.Keys
    ensures RedactedBut(orig, files, faults, Listing(files, ["agents"]), "", 3)
  {
  }

  lemma StepIsRedacted(orig: FileMap, before: FileMap, files: FileMap, faults: set<Path>, dir: string, item: Item)
    requires Safe(orig, before, dir) && IsItem(item)
    requires PathOf(item) !in faults ==> IsRedacted(before, files, item)
    ensures RedactedOrFailed(orig, files, faults, item)
  {
    hide Safe, IsRedacted, PathOf, IsItem;
    if PathOf(item) !in faults {
      RedactedOnceOrTwice(orig, before, files, dir, item);
    }
  }

  lemma RedactedAll(orig: FileMap, files: FileMap, faults: set<Path>)
    ensures RedactedBut(orig, files, faults, {}, "", 3) ==>
              forall item | IsItem(item) && item.Memory? :: RedactedOrFailed(orig, files, faults, item)
    ensures faults == {} && RedactedBut(orig, files, faults, {}, "", 3) ==> AllRedacted(orig, files)
  {
    hide IsRedacted, IsItem, PathOf;
    AllLookedInto();
    forall item | RedactedBut(orig, files, faults, {}, "", 3) && IsItem(item) && item.Memory?
      ensures RedactedOrFailed(orig, files, faults, item)
    {
    }
  }

  /** config_hardening.rs: a failed backup is ignored, the original is in the backup already. */
  method ConfigFix(disk: Disk, dir: string, rw: Rewrites, ghost isNew: bool, ghost orig: FileMap)
    requires Kept(isNew, orig, disk.files, dir)
    requires isNew && CONFIG in orig ==> HasBackup(disk.files, dir, CONFIG)
    modifies disk
    ensures Kept(isNew, orig, disk.files, dir)
    ensures Grows(old(disk.files), old(disk.faults), disk.files, disk.faults)
    ensures OnlyAt(old(disk.files), disk.files, {CONFIG, Slot(dir, CONFIG_COPY)})
    ensures disk.faults == {} ==> Holds(disk.files, CONFIG, rw.config)
    ensures disk.faults == {} && CONFIG in old(disk.files) ==>
              Holds(disk.files, Slot(dir, CONFIG_COPY), old(disk.files)[CONFIG])
  {
    hide Safe, HasBackup, Slot, OnlyAt;
    ghost var before, slot := disk.files, Slot(dir, CONFIG_COPY);
    SlotsDiffer(dir, CONFIG_COPY, CONFIG);
    var _ := BackUpFixed(disk, CONFIG, dir, CONFIG_COPY, isNew, orig);
    if isNew && CONFIG in orig {
      BackupStays(before, disk.files, dir, CONFIG);
    }
    ghost var saved := disk.files;
    var _ := WriteOther(disk, CONFIG, rw.config, dir, isNew, orig);
    OnlyAtBoth(before, saved, disk.files, {slot}, {CONFIG}, {CONFIG, slot});
    NotAt(saved, disk.files, {CONFIG}, slot);
  }

  /** docker_hardening.rs: never overwrite an override that could not be backed up. */
  method DockerFix(disk: Disk, dir: string, rw: Rewrites, ghost isNew: bool, ghost orig: FileMap)
    requires Kept(isNew, orig, disk.files, dir) && (isNew ==> Same(orig, disk.files, OVERRIDE))
    modifies disk
    ensures Kept(isNew, orig, disk.files, dir)
    ensures Grows(old(disk.files), old(disk.faults), disk.files, disk.faults)
    ensures OnlyAt(old(disk.files), disk.files, {OVERRIDE, Slot(dir, DOCKER)})
    ensures RewrittenOnceSaved(old(disk.files), disk.files, dir, OVERRIDE, DOCKER)
    ensures disk.faults == {} ==> Holds(disk.files, OVERRIDE, rw.docker)
    ensures disk.faults == {} && OVERRIDE in old(disk.files) ==>
              Holds(disk.files, Slot(dir, DOCKER), old(disk.files)[OVERRIDE])
  {
    BackUpAndWrite(disk, OVERRIDE, rw.docker, dir, DOCKER, isNew, orig);
  }

  ghost function NetworkFiles(platform: Platform, rw: Rewrites): set<Path> {
    (if platform == Linux then {EGRESS_RULES} else if platform == Darwin then {PF_RULES} else {}) +
    (if rw.blocklist == "" then {} else {BLOCKLIST})
  }

  ghost predicate NetworkDone(files: FileMap, platform: Platform, rw: Rewrites) {
    && (platform == Linux ==> Holds(files, [".secureops", "network", "egress-rules.sh"], rw.network))
    && (platform == Darwin ==> Holds(files, [".secureops", "network", "pf-rules.conf"], rw.network))
    && (rw.blocklist != "" ==> Holds(files, [".secureops", "network", "c2-blocklist.txt"], rw.blocklist))
  }

  /** network_hardening.rs: scripts for the platform, and the blocklist if there is one. */
  method NetworkFix(disk: Disk, dir: string, rw: Rewrites, platform: Platform, ghost isNew: bool, ghost orig: FileMap)
    requires Kept(isNew, orig, disk.files, dir)
    modifies disk
    ensures Kept(isNew, orig, disk.files, dir)
    ensures Grows(old(disk.files), old(disk.faults), disk.files, disk.faults)
    ensures OnlyAt(old(disk.files), disk.files, NetworkFiles(platform, rw))
    ensures disk.faults == {} ==> NetworkDone(disk.files, platform, rw)
  {
    hide Safe, OnlyAt;
    ghost var before := disk.files;
    ghost var script := if platform == Linux then {EGRESS_RULES} else if platform == Darwin then {PF_RULES} else {};
    NothingAt(before);
    if platform == Linux {
      var _ := WriteOther(disk, EGRESS_RULES, rw.network, dir, isNew, orig);
    } else if platform == Darwin {
      var _ := WriteOther(disk, PF_RULES, rw.network, dir, isNew, orig);
    }
    ghost var mid, list := disk.files, if rw.blocklist == "" then {} else {BLOCKLIST};
    NothingAt(mid);
    if rw.blocklist != "" {
      var _ := WriteOther(disk, BLOCKLIST, rw.blocklist, dir, isNew, orig);
      NotAt(mid, disk.files, {BLOCKLIST}, EGRESS_RULES);
      NotAt(mid, disk.files, {BLOCKLIST}, PF_RULES);
    }
    OnlyAtBoth(before, mid, disk.files, script, list, script + list);
  }

  /** The credential module: back up, encrypt, redact (credential_hardening.rs, `run_fix`). */
  method CredentialFix(disk: Disk, dir: string, rw: Rewrites, ghost isNew: bool, ghost orig: FileMap)
    requires Kept(isNew, orig, disk.files, dir) && orig.Keys <= disk.files.Keys
    modifies disk
    ensures Kept(isNew, orig, disk.files, dir)
    ensures Grows(old(disk.files), old(disk.faults), disk.files, disk.faults)
    ensures RewrittenSame(old(disk.files), disk.files, dir)
    ensures isNew && disk.faults == {} ==> AllSaved(orig, disk.files, dir) && AllRedacted(orig, disk.files)
    ensures disk.faults == {} && PathOf(Env) in orig ==> Holds(disk.files, ENV_ENC, rw.envEnc) && KEYSTORE in disk.files
  {
    hide Safe, AllRedacted;
    BackUpCredentials(disk, dir, isNew, orig);
    BackUpAuthProfiles(disk, dir, isNew, orig);
    EncryptEnv(disk, dir, rw, isNew, orig);
    var _ := RedactMemory(disk, dir, isNew, orig);
  }

  lemma StaysComplete(orig: FileMap, before: FileMap, files: FileMap, dir: string)
    requires AllSaved(orig, before, dir) && AllRedacted(orig, before)
    requires before.Keys <= files.Keys && ItemsSame(before, files)
    ensures AllSaved(orig, files, dir) && AllRedacted(orig, files)
  {
  }

  /** Changes outside the items keep the backups and redactions that are there. */
  lemma StaysCompleteBut(orig: FileMap, before: FileMap, files: FileMap, dir: string, paths: set<Path>)
    requires AllSaved(orig, before, dir) && AllRedacted(orig, before)
    requires before.Keys <= files.Keys && OnlyAt(before, files, paths)
    requires forall p | p in paths :: p != [] && p[0] !in ["credentials", "agents", ".env"]
    ensures AllSaved(orig, files, dir) && AllRedacted(orig, files)
  {
    hide AllSaved, AllRedacted, OnlyAt, ItemsSame;
    ItemsNotTouched(before, files, paths);
    StaysComplete(orig, before, files, dir);
  }

  ghost function FinishFiles(dir: string, platform: Platform, rw: Rewrites): set<Path> {
    {CONFIG, Slot(dir, CONFIG_COPY), OVERRIDE, Slot(dir, DOCKER), Slot(dir, MANIFEST)} +
    NetworkFiles(platform, rw)
  }

  /** What the last modules leave if nothing fails. */
  ghost predicate Finished(before: FileMap, files: FileMap, dir: string, rw: Rewrites, platform: Platform) {
    && Holds(files, CONFIG, rw.config) && Holds(files, OVERRIDE, rw.docker)
    && Holds(files, Slot(dir, MANIFEST), rw.manifest)
    && NetworkDone(files, platform, rw)
    && (CONFIG in before ==> Holds(files, Slot(dir, CONFIG_COPY), before[CONFIG]))
    && (OVERRIDE in before ==> Holds(files, Slot(dir, DOCKER), before[OVERRIDE]))
  }

  /** The modules after the credential module, with the manifest at the end. */
  method FinishRun(disk: Disk, dir: string, rw: Rewrites, platform: Platform, ghost isNew: bool, ghost orig: FileMap)
    returns (ok: bool)
    requires Kept(isNew, orig, disk.files, dir) && (isNew ==> Same(orig, disk.files, OVERRIDE))
    requires isNew && CONFIG in orig ==> HasBackup(disk.files, dir, CONFIG)
    modifies disk
    ensures Kept(isNew, orig, disk.files, dir)
    ensures Grows(old(disk.files), old(disk.faults), disk.files, disk.faults)
    ensures OnlyAt(old(disk.files), disk.files, FinishFiles(dir, platform, rw))
    ensures disk.faults == {} ==> ok && Finished(old(disk.files), disk.files, dir, rw, platform)
  {
    hide Safe, HasBackup, OnlyAt, Slot, NetworkDone, RewrittenOnceSaved;
    ghost var start := disk.files;
    ghost var config, docker, manifest := Slot(dir, CONFIG_COPY), Slot(dir, DOCKER), Slot(dir, MANIFEST);
    SlotsDiffer(dir, CONFIG_COPY, OVERRIDE);
    ConfigFix(disk, dir, rw, isNew, orig);
    ghost var one := disk.files;
    NotAt(start, one, {CONFIG, config}, OVERRIDE);
    DockerFix(disk, dir, rw, isNew, orig);
    ghost var two := disk.files;
    NetworkFix(disk, dir, rw, platform, isNew, orig);
    ghost var three := disk.files;
    ok := disk.Write(Slot(dir, MANIFEST), rw.manifest);
    if ok && isNew {
      SafeAfterFixed(orig, three, dir, MANIFEST, rw.manifest);
    }
    WriteIsAt(three, disk.files, manifest, rw.manifest);
    ghost var all := FinishFiles(dir, platform, rw);
    OnlyAtBoth(start, one, two, {CONFIG, config}, {OVERRIDE, docker}, all);
    OnlyAtBoth(start, two, three, all, NetworkFiles(platform, rw), all);
    OnlyAtBoth(start, three, disk.files, all, {manifest}, all);
    if disk.faults == {} {
      FinishIsDone(start, one, two, three, disk.files, dir, rw, platform);
    }
  }

  /** No later module touches what an earlier one has left. */
  lemma FinishIsDone(start: FileMap, one: FileMap, two: FileMap, three: FileMap, files: FileMap, dir: string, rw: Rewrites,
                     platform: Platform)
    requires Holds(one, CONFIG, rw.config) && Same(start, one, OVERRIDE)
    requires CONFIG in start ==> Holds(one, Slot(dir, CONFIG_COPY), start[CONFIG])
    requires OnlyAt(one, two, {OVERRIDE, Slot(dir, DOCKER)}) && Holds(two, OVERRIDE, rw.docker)
    requires OVERRIDE in one ==> Holds(two, Slot(dir, DOCKER), one[OVERRIDE])
    requires OnlyAt(two, three, NetworkFiles(platform, rw)) && NetworkDone(three, platform, rw)
    requires files == three[Slot(dir, MANIFEST) := rw.manifest]
    ensures Finished(start, files, dir, rw, platform)
  {
    hide Slot, NetworkDone, CONFIG, OVERRIDE, ENV_ENC, KEYSTORE, EGRESS_RULES, PF_RULES, BLOCKLIST, DOCKER,
      ORIGINAL, GATEWAY_COPY, CONFIG_COPY, MANIFEST;
    var config, docker, manifest := Slot(dir, CONFIG_COPY), Slot(dir, DOCKER), Slot(dir, MANIFEST);
    OthersApart();
    SlotsApart(dir, CONFIG_COPY, DOCKER);
    SlotsApart(dir, CONFIG_COPY, MANIFEST);
    SlotsApart(dir, DOCKER, MANIFEST);
    ShortAreNoSlots(dir);
    NotAt(one, two, {OVERRIDE, docker}, CONFIG);
    NotAt(one, two, {OVERRIDE, docker}, config);
    NotAt(two, three, NetworkFiles(platform, rw), CONFIG);
    NotAt(two, three, NetworkFiles(platform, rw), OVERRIDE);
    NotAt(two, three, NetworkFiles(platform, rw), config);
    NotAt(two, three, NetworkFiles(platform, rw), docker);
    StillNetworkDone(three, platform, rw, manifest, rw.manifest);
  }

  lemma ShortAreNoSlots(dir: string)
    ensures forall n, p: Path | |p| < 4 :: Slot(dir, n) != p
  {
  }

  lemma StillNetworkDone(files: FileMap, platform: Platform, rw: Rewrites, p: Path, content: string)
    requires NetworkDone(files, platform, rw) && p !in {EGRESS_RULES, PF_RULES, BLOCKLIST}
    ensures NetworkDone(files[p := content], platform, rw)
  {
  }

  lemma WriteIsAt(before: FileMap, files: FileMap, p: Path, content: string)
    requires files == before || files == before[p := content]
    ensures OnlyAt(before, files, {p})
  {
  }

  lemma NoItemAmong(dir: string, platform: Platform, rw: Rewrites)
    ensures forall p | p in FinishFiles(dir, platform, rw) :: p != [] && p[0] !in ["credentials", "agents", ".env"]
  {
  }

  /**
   The whole run. If the backup directory is new, nothing that is changed is lost, even when the run
   ends early: the config, the override and every item are as they were or have their original in
   the backup. A run that succeeds has the config in its backup; and if nothing failed, every
   credential, auth profile and `.env` has its backup and no memory file holds a key.
   */
  method HardenState(disk: Disk, now: string, rw: Rewrites, platform: Platform) returns (r: Option<string>)
    modifies disk
    ensures IsNew(old(disk.files), Sanitize(now)) ==> Safe(old(disk.files), disk.files, Sanitize(now))
    ensures r.Some? ==> r.value == Sanitize(now)
    ensures r.Some? && CONFIG in old(disk.files) ==> Slot(Sanitize(now), ORIGINAL) in disk.files
    ensures disk.faults == {} ==> r.Some? && Done(old(disk.files), disk.files, Sanitize(now), rw, platform)
    ensures disk.faults == {} && IsNew(old(disk.files), Sanitize(now)) ==>
              AllSaved(old(disk.files), disk.files, Sanitize(now)) && AllRedacted(old(disk.files), disk.files)
  {
    hide Safe, IsNew, Sanitize, AllSaved, AllRedacted, HasBackup, OnlyAt, Slot, Done, Finished;
    var dir := Sanitize(now);
    ghost var orig, isNew := disk.files, IsNew(disk.files, dir);
    if isNew {
      SafeAtFirst(orig, dir);
    }
    var made := disk.MakeDir(BackupDir(dir));
    if !made {
      return None;
    }
    SlotsDiffer(dir, ORIGINAL, CONFIG);
    SlotsDiffer(dir, ORIGINAL, OVERRIDE);
    SlotsDiffer(dir, GATEWAY_COPY, OVERRIDE);
    var c := BackUpFixed(disk, CONFIG, dir, ORIGINAL, isNew, orig);
    if c == Failed {
      return None;
    }
    ghost var saved := disk.files;
    NotAt(orig, saved, {Slot(dir, ORIGINAL)}, CONFIG);
    NotAt(orig, saved, {Slot(dir, ORIGINAL)}, OVERRIDE);
    GatewayFix(disk, dir, rw, isNew, orig);
    ghost var gated := disk.files;
    NotAt(saved, gated, {CONFIG, Slot(dir, GATEWAY_COPY)}, OVERRIDE);
    CredentialFix(disk, dir, rw, isNew, orig);
    ghost var safe := disk.files;
    if c == Copied {
      BackupIsThere(saved, dir, ORIGINAL, CONFIG);
      BackupStays(saved, disk.files, dir, CONFIG);
    }
    var ok := FinishRun(disk, dir, rw, platform, isNew, orig);
    r := if ok then Some(dir) else None;
    if disk.faults == {} {
      RunIsDone(orig, saved, gated, safe, disk.files, dir, rw, platform);
      if isNew {
        NoItemAmong(dir, platform, rw);
        StaysCompleteBut(orig, safe, disk.files, dir, FinishFiles(dir, platform, rw));
      }
    }
  }

  /** What a run leaves if nothing fails: every module has done its work, one after the other. */
  ghost predicate Done(orig: FileMap, files: FileMap, dir: string, rw: Rewrites, platform: Platform) {
    && Holds(files, CONFIG, rw.config) && Holds(files, OVERRIDE, rw.docker)
    && Holds(files, Slot(dir, MANIFEST), rw.manifest)
    && NetworkDone(files, platform, rw)
    && (PathOf(Env) in orig ==> Holds(files, ENV_ENC, rw.envEnc) && [".secureops", "keystore"] in files)
    && (CONFIG in orig ==> Holds(files, Slot(dir, ORIGINAL), orig[CONFIG]) && Holds(files, Slot(dir, GATEWAY_COPY), orig[CONFIG]))
    && Holds(files, Slot(dir, CONFIG_COPY), rw.gateway)
    && (OVERRIDE in orig ==> Holds(files, Slot(dir, DOCKER), orig[OVERRIDE]))
  }

  lemma RunIsDone(orig: FileMap, saved: FileMap, gated: FileMap, safe: FileMap, files: FileMap, dir: string, rw: Rewrites,
                  platform: Platform)
    requires RewrittenOver(orig, saved) && (CONFIG in orig ==> Holds(saved, Slot(dir, ORIGINAL), orig[CONFIG]))
    requires OnlyAt(saved, gated, {CONFIG, Slot(dir, GATEWAY_COPY)}) && Holds(gated, CONFIG, rw.gateway)
    requires CONFIG in saved ==> Holds(gated, Slot(dir, GATEWAY_COPY), saved[CONFIG])
    requires RewrittenSame(gated, safe, dir)
    requires PathOf(Env) in orig ==> Holds(safe, ENV_ENC, rw.envEnc) && KEYSTORE in safe
    requires OnlyAt(safe, files, FinishFiles(dir, platform, rw)) && safe.Keys <= files.Keys
    requires Finished(safe, files, dir, rw, platform)
    ensures Done(orig, files, dir, rw, platform)
  {
    hide NetworkDone, Slot, FinishFiles, OnlyAt, CONFIG, OVERRIDE, ENV_ENC, KEYSTORE, EGRESS_RULES, PF_RULES, BLOCKLIST, DOCKER,
      ORIGINAL, GATEWAY_COPY, CONFIG_COPY, MANIFEST;
    var original, gateway := Slot(dir, ORIGINAL), Slot(dir, GATEWAY_COPY);
    OthersApart();
    ShortAreNoSlots(dir);
    SlotsApart(dir, ORIGINAL, GATEWAY_COPY);
    NotAt(saved, gated, {CONFIG, gateway}, OVERRIDE);
    NotAt(saved, gated, {CONFIG, gateway}, original);
    NotFinished(dir, platform, rw);
    NotAt(safe, files, FinishFiles(dir, platform, rw), original);
    NotAt(safe, files, FinishFiles(dir, platform, rw), gateway);
    NotAt(safe, files, FinishFiles(dir, platform, rw), ENV_ENC);
    KeystoreIs();
  }

  lemma KeystoreIs()
    ensures KEYSTORE == [".secureops", "keystore"]
  {
  }

  ghost predicate RewrittenOver(orig: FileMap, saved: FileMap) {
    Same(orig, saved, CONFIG) && Same(orig, saved, OVERRIDE)
  }

  lemma NotFinished(dir: string, platform: Platform, rw: Rewrites)
    ensures Slot(dir, ORIGINAL) !in FinishFiles(dir, platform, rw)
    ensures Slot(dir, GATEWAY_COPY) !in FinishFiles(dir, platform, rw)
    ensures ENV_ENC !in FinishFiles(dir, platform, rw)
  {
    hide Slot, CONFIG, OVERRIDE, ENV_ENC, KEYSTORE, EGRESS_RULES, PF_RULES, BLOCKLIST, DOCKER, ORIGINAL, GATEWAY_COPY,
      CONFIG_COPY, MANIFEST;
    OthersApart();
    SlotIsNotFinished(dir, platform, rw, ORIGINAL);
    SlotIsNotFinished(dir, platform, rw, GATEWAY_COPY);
    SlotsDiffer(dir, CONFIG_COPY, ENV_ENC);
    SlotsDiffer(dir, DOCKER, ENV_ENC);
    SlotsDiffer(dir, MANIFEST, ENV_ENC);
  }

  lemma SlotIsNotFinished(dir: string, platform: Platform, rw: Rewrites, n: string)
    requires n != CONFIG_COPY && n != DOCKER && n != MANIFEST
    ensures Slot(dir, n) !in FinishFiles(dir, platform, rw)
  {
    hide Slot, CONFIG, OVERRIDE, ENV_ENC, KEYSTORE, EGRESS_RULES, PF_RULES, BLOCKLIST, DOCKER, ORIGINAL, GATEWAY_COPY,
      CONFIG_COPY, MANIFEST;
    OthersApart();
    SlotsDiffer(dir, n, CONFIG);
    SlotsDiffer(dir, n, OVERRIDE);
    SlotsDiffer(dir, n, EGRESS_RULES);
    SlotsDiffer(dir, n, PF_RULES);
    SlotsDiffer(dir, n, BLOCKLIST);
    SlotsApart(dir, n, CONFIG_COPY);
    SlotsApart(dir, n, DOCKER);
    SlotsApart(dir, n, MANIFEST);
  }

  /** After an undisturbed run, the auditor finds no key in any memory file. */
  lemma NoKeyIsLeft(orig: FileMap, files: FileMap, item: Item)
    requires AllRedacted(orig, files) && IsItem(item) && item.Memory? && PathOf(item) in orig
    ensures PathOf(item) in files && !Patterns.HasKey(files[PathOf(item)])
  {
    assert IsRedacted(orig, files, item);
    Redact.LeavesNoKey(orig[PathOf(item)]);
  }
}
