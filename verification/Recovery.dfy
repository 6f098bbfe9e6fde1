/**
 Hardening followed by rollback (crates/secureops-harden/src/lib.rs): what comes back, whatever
 happened to the files in between, and exactly when everything does.
 */
module Recovery {
  import opened Basics
  import opened BackupNames
  import opened Harden
  import opened HardenRun
  import opened Rollback
  import Patterns
  import Redact

  /** Wherever else the backup of an item is restored to, there was the same text before. */
  ghost predicate StraysHarmless(orig: FileMap, hardened: FileMap, dir: string) {
    forall item, second | IsItem(item) && Slot(dir, NameOf(item)) in hardened && second in Decoded(NameOf(item)) ::
      HoldsSame(orig, item, second)
  }

  ghost predicate HoldsSame(orig: FileMap, item: Item, second: Item) {
    PathOf(item) in orig && PathOf(second) in orig && orig[PathOf(second)] == orig[PathOf(item)]
  }

  ghost predicate SameBackup(a: FileMap, b: FileMap, dir: string) {
    forall n :: Same(a, b, Slot(dir, n))
  }

  lemma BackupIsSame(files: FileMap, dir: string)
    ensures SameBackup(files, files, dir)
  {
  }

  lemma FixedDecodeToNothing(n: string)
    requires n in FIXED
    ensures Decoded(n) == []
  {
    if !IsSkipped(n) {
      FixedNames(n);
      NotMemory(n);
      NotPrefixed(n, "cred-");
      NotPrefixed(n, "auth-profiles-");
    }
  }

  /** Whatever is restored to a place is what was there before hardening. */
  lemma SourceIsOriginal(orig: FileMap, hardened: FileMap, dir: string, n: string, second: Item)
    requires Safe(orig, hardened, dir) && StraysHarmless(orig, hardened, dir)
    requires Slot(dir, n) in hardened && second in Decoded(n)
    ensures PathOf(second) in orig && hardened[Slot(dir, n)] == orig[PathOf(second)]
  {
    hide IsItem, NameOf, Decoded, PathOf, Slot, ItemIsSafe, FixedAreOriginal, RewrittenAreSafe, BackupIsFlat, ElsewhereSame,
      Patterns.HasKey;
    if n in FIXED {
      FixedDecodeToNothing(n);
      assert false;
    } else {
      var item :| IsItem(item) && NameOf(item) == n;
      assert HoldsSame(orig, item, second) && IsOriginal(orig, hardened, dir, item);
    }
  }

  /** And so what a place holds after a rollback, if anything was restored to it. */
  lemma HeldIsOriginal(orig: FileMap, hardened: FileMap, edited: FileMap, restored: FileMap, dir: string,
                       names: set<string>, p: Path)
    requires Safe(orig, hardened, dir) && StraysHarmless(orig, hardened, dir) && SameBackup(hardened, edited, dir)
    requires HoldsSource(edited, restored, dir, names, p)
    ensures p in orig && restored[p] == orig[p]
  {
    hide Safe, StraysHarmless, Decoded, PathOf, Slot, Listing;
    var n :| n in names && IsSource(edited, dir, n, p) && Slot(dir, n) in edited && restored[p] == edited[Slot(dir, n)];
    var item :| item in Decoded(n) && PathOf(item) == p;
    assert Same(hardened, edited, Slot(dir, n));
    SourceIsOriginal(orig, hardened, dir, n, item);
  }

  lemma ConfigComesBack(orig: FileMap, hardened: FileMap, edited: FileMap, restored: FileMap, dir: string)
    requires Safe(orig, hardened, dir) && SameBackup(hardened, edited, dir) && ConfigFromBackup(edited, restored, dir)
    ensures CONFIG in orig && CONFIG in restored && restored[CONFIG] == orig[CONFIG]
  {
    hide BackupsAreOriginal, BackupNamesKnown, ItemIsSafe, BackupIsFlat, ElsewhereSame, RewrittenAreSafe, Slot;
    var n :| n in {ORIGINAL, "openclaw.json"} && Slot(dir, n) in edited && restored[CONFIG] == edited[Slot(dir, n)];
    assert Same(hardened, edited, Slot(dir, n)) && FixedSource(n) == Some(CONFIG);
  }

  /**
   Rollback undoes hardening. Whatever was done to the state directory since, as long as the backup
   itself was left alone: a rollback restores the config and every file in the backup, and every
   other item that was left alone is as it was before hardening too.
   */
  lemma RollbackUndoesHarden(orig: FileMap, hardened: FileMap, edited: FileMap, restored: FileMap, dir: string)
    requires Safe(orig, hardened, dir) && StraysHarmless(orig, hardened, dir) && SameBackup(hardened, edited, dir)
    requires RolledBack(edited, restored, dir)
    ensures CONFIG in orig && CONFIG in restored && restored[CONFIG] == orig[CONFIG]
    ensures forall item | IsItem(item) && Slot(dir, NameOf(item)) in hardened ::
              PathOf(item) in orig && PathOf(item) in restored && restored[PathOf(item)] == orig[PathOf(item)]
    ensures forall item | IsItem(item) && Same(hardened, edited, PathOf(item)) :: Same(orig, restored, PathOf(item))
  {
    hide IsItem, NameOf, PathOf, Slot, StraysHarmless, Safe, Restoring;
    ConfigComesBack(orig, hardened, edited, restored, dir);
    forall item | IsItem(item) && Slot(dir, NameOf(item)) in hardened
      ensures PathOf(item) in orig && PathOf(item) in restored && restored[PathOf(item)] == orig[PathOf(item)]
    {
      RestoresBackedUp(orig, hardened, edited, restored, dir, item);
    }
    forall item | IsItem(item) && Same(hardened, edited, PathOf(item)) ensures Same(orig, restored, PathOf(item)) {
      ItemsLiveElsewhere(item);
      LeavesOrRestores(orig, hardened, edited, restored, dir, PathOf(item));
      if Slot(dir, NameOf(item)) !in hardened {
        NotBackedUpIsSame(orig, hardened, dir, item);
      }
    }
  }

  lemma RestoresBackedUp(orig: FileMap, hardened: FileMap, edited: FileMap, restored: FileMap, dir: string, item: Item)
    requires Safe(orig, hardened, dir) && StraysHarmless(orig, hardened, dir) && SameBackup(hardened, edited, dir)
    requires RolledBack(edited, restored, dir)
    requires IsItem(item) && Slot(dir, NameOf(item)) in hardened
    ensures PathOf(item) in orig && PathOf(item) in restored && restored[PathOf(item)] == orig[PathOf(item)]
  {
    hide IsItem, NameOf, PathOf, Decoded, Slot, Listing, Safe, StraysHarmless, BackupKept, ConfigFromBackup;
    var n, p := NameOf(item), PathOf(item);
    assert Same(hardened, edited, Slot(dir, n));
    DecodesUniquely(item);
    ListedSlot(edited, dir, n);
    assert IsSource(edited, dir, n, p);
    ItemsLiveElsewhere(item);
    assert PathRestored(edited, restored, dir, {}, Listing(edited, BackupDir(dir)), p);
    HeldIsOriginal(orig, hardened, edited, restored, dir, Listing(edited, BackupDir(dir)), p);
  }

  lemma NotBackedUpIsSame(orig: FileMap, hardened: FileMap, dir: string, item: Item)
    requires Safe(orig, hardened, dir) && IsItem(item) && Slot(dir, NameOf(item)) !in hardened
    ensures Same(orig, hardened, PathOf(item))
  {
    assert ItemIsSafe(orig, hardened, dir, item);
  }

  /** A place is as it was before the rollback, or as it was before hardening. */
  lemma LeavesOrRestores(orig: FileMap, hardened: FileMap, edited: FileMap, restored: FileMap, dir: string, p: Path)
    requires Safe(orig, hardened, dir) && StraysHarmless(orig, hardened, dir) && SameBackup(hardened, edited, dir)
    requires RolledBack(edited, restored, dir) && p != CONFIG
    ensures Same(edited, restored, p) || Same(orig, restored, p)
  {
    hide Safe, StraysHarmless, BackupKept, ConfigFromBackup, Listing, HoldsSource;
    assert PathRestored(edited, restored, dir, {}, Listing(edited, BackupDir(dir)), p);
    if HoldsSource(edited, restored, dir, Listing(edited, BackupDir(dir)), p) {
      HeldIsOriginal(orig, hardened, edited, restored, dir, Listing(edited, BackupDir(dir)), p);
      HeldIsThere(edited, restored, dir, Listing(edited, BackupDir(dir)), p);
    }
  }

  lemma HeldIsThere(before: FileMap, files: FileMap, dir: string, names: set<string>, p: Path)
    requires HoldsSource(before, files, dir, names, p)
    ensures p in files
  {
  }

  /**
   After a run without failures, every file that hardening is about can be recovered, whatever
   happened to it since: credentials, auth profiles and `.env`, and memory files that held a key.
   */
  lemma EverythingIsRecoverable(orig: FileMap, hardened: FileMap, edited: FileMap, restored: FileMap, dir: string)
    requires Safe(orig, hardened, dir) && AllSaved(orig, hardened, dir) && AllRedacted(orig, hardened)
    requires StraysHarmless(orig, hardened, dir) && SameBackup(hardened, edited, dir) && RolledBack(edited, restored, dir)
    ensures forall item | IsItem(item) && PathOf(item) in orig && (item.Memory? ==> Patterns.HasKey(orig[PathOf(item)])) ::
              PathOf(item) in restored && restored[PathOf(item)] == orig[PathOf(item)]
  {
    hide IsItem, NameOf, PathOf, Slot, RolledBack, Safe, StraysHarmless, AllSaved, AllRedacted, Patterns.HasKey;
    forall item | IsItem(item) && PathOf(item) in orig && (item.Memory? ==> Patterns.HasKey(orig[PathOf(item)]))
      ensures PathOf(item) in restored && restored[PathOf(item)] == orig[PathOf(item)]
    {
      IsBackedUp(orig, hardened, dir, item);
      RestoresBackedUp(orig, hardened, edited, restored, dir, item);
    }
  }

  /** What is in the backup after a run without failures. */
  lemma IsBackedUp(orig: FileMap, hardened: FileMap, dir: string, item: Item)
    requires Safe(orig, hardened, dir) && AllSaved(orig, hardened, dir) && AllRedacted(orig, hardened)
    requires IsItem(item) && PathOf(item) in orig && (item.Memory? ==> Patterns.HasKey(orig[PathOf(item)]))
    ensures Slot(dir, NameOf(item)) in hardened
  {
    hide IsItem, NameOf, PathOf, Slot, BackupsAreOriginal, BackupNamesKnown, FixedAreOriginal, RewrittenAreSafe, BackupIsFlat,
      ElsewhereSame, Redact.Redacted, Patterns.HasKey;
    if item.Memory? {
      assert IsRedacted(orig, hardened, item) && ItemIsSafe(orig, hardened, dir, item);
      Redact.LeavesNoKey(orig[PathOf(item)]);
    } else {
      assert Saved(orig, hardened, dir, item);
    }
  }

  // ---------- the whole state directory ----------

  /** Where hardening leaves files behind that rollback does not take back. */
  ghost predicate IsLeftBehind(p: Path) {
    p in {OVERRIDE, ENV_ENC} || (p != [] && p[0] == ".secureops")
  }

  /** Apart from what is left behind, every file is what it was. */
  ghost predicate AllBack(orig: FileMap, restored: FileMap) {
    forall p | !IsLeftBehind(p) :: Same(orig, restored, p)
  }

  lemma ChangedIsItem(dir: string, p: Path) returns (item: Item)
    requires MayChange(dir, p) && !IsLeftBehind(p) && p != CONFIG
    ensures IsItem(item) && PathOf(item) == p
  {
    assert BackupDir(dir)[0] == ".secureops";
    item :| IsItem(item) && item.Memory? && PathOf(item) == p;
  }

  /** Straight after hardening, a rollback puts everything back. */
  lemma EverythingComesBack(orig: FileMap, hardened: FileMap, restored: FileMap, dir: string)
    requires Safe(orig, hardened, dir) && StraysHarmless(orig, hardened, dir) && RolledBack(hardened, restored, dir)
    ensures AllBack(orig, restored)
  {
    hide Safe, StraysHarmless, RolledBack, IsItem, PathOf, NameOf, Slot, MayChange, IsLeftBehind;
    BackupIsSame(hardened, dir);
    RollbackUndoesHarden(orig, hardened, hardened, restored, dir);
    forall p | !IsLeftBehind(p) ensures Same(orig, restored, p) {
      if p != CONFIG {
        LeavesOrRestores(orig, hardened, hardened, restored, dir, p);
        if MayChange(dir, p) {
          var item := ChangedIsItem(dir, p);
          assert Same(hardened, hardened, PathOf(item));
        } else {
          ElsewhereIsSame(orig, hardened, dir, p);
        }
      }
    }
  }

  lemma ElsewhereIsSame(orig: FileMap, hardened: FileMap, dir: string, p: Path)
    requires Safe(orig, hardened, dir) && !MayChange(dir, p)
    ensures Same(orig, hardened, p)
  {
  }

  lemma {:induction false} InSomeOrder(names: set<string>) returns (order: seq<string>)
    ensures Members(order) == names
  {
    if names == {} {
      order := [];
    } else {
      var n :| n in names;
      var init := InSomeOrder(names - {n});
      order := init + [n];
      MembersNext(init, n);
    }
  }

  /**
   In whatever order the backup is read, everything comes back, if and only if wherever else the
   backup of an item is restored to, there was the same text before.
   */
  lemma EverythingComesBackIff(orig: FileMap, hardened: FileMap, dir: string)
    requires Safe(orig, hardened, dir) && CanRestore(hardened, dir)
    ensures (forall order | Members(order) == Listing(hardened, BackupDir(dir)) :: AllBack(orig, Outcome(hardened, dir, order)))
            <==> StraysHarmless(orig, hardened, dir)
  {
    hide Safe, CanRestore, StraysHarmless, Listing, Members, RolledBack, AllBack, Outcome, Slot;
    HasOriginal(hardened, dir);
    if StraysHarmless(orig, hardened, dir) {
      forall order | Members(order) == Listing(hardened, BackupDir(dir)) ensures AllBack(orig, Outcome(hardened, dir, order)) {
        EveryOrderRollsBack(hardened, dir, order);
        EverythingComesBack(orig, hardened, Outcome(hardened, dir, order), dir);
      }
    } else {
      var order := OrderThatShows(orig, hardened, dir);
    }
  }

  lemma HasOriginal(files: FileMap, dir: string)
    requires CanRestore(files, dir)
    ensures Slot(dir, ORIGINAL) in files
  {
  }

  /** If a backup is restored to a place with another text, then reading it last shows there. */
  lemma OrderThatShows(orig: FileMap, hardened: FileMap, dir: string) returns (order: seq<string>)
    requires Safe(orig, hardened, dir) && CanRestore(hardened, dir) && !StraysHarmless(orig, hardened, dir)
    ensures Members(order) == Listing(hardened, BackupDir(dir)) && !AllBack(orig, Outcome(hardened, dir, order))
  {
    hide Safe, CanRestore, Listing, Members, Outcome, Slot, IsItem, NameOf, PathOf, Decoded;
    HasOriginal(hardened, dir);
    var item, second :| IsItem(item) && Slot(dir, NameOf(item)) in hardened && second in Decoded(NameOf(item)) &&
                        !HoldsSame(orig, item, second);
    var n, all := NameOf(item), Listing(hardened, BackupDir(dir));
    ListedSlot(hardened, dir, n);
    var init := InSomeOrder(all - {n});
    order := init + [n];
    MembersNext(init, n);
    assert all - {n} + {n} == all;
    StrayShows(orig, hardened, dir, init, item, second);
    ItemIsNotLeftBehind(second);
  }

  lemma ItemIsNotLeftBehind(item: Item)
    ensures !IsLeftBehind(PathOf(item))
  {
    ItemsLiveElsewhere(item);
  }

  /**
   The memory of an agent with a misleading name is restored to a second place as well. If it is read
   last, that place is as before only if it held the very same text.
   */
  lemma StrayShows(orig: FileMap, hardened: FileMap, dir: string, init: seq<string>, item: Item, second: Item)
    requires Safe(orig, hardened, dir) && CanRestore(hardened, dir)
    requires IsItem(item) && Slot(dir, NameOf(item)) in hardened && second in Decoded(NameOf(item))
    requires Slot(dir, ORIGINAL) in hardened && Members(init) <= Listing(hardened, BackupDir(dir))
    ensures var restored := Outcome(hardened, dir, init + [NameOf(item)]);
            && PathOf(item) in orig && PathOf(second) in restored && restored[PathOf(second)] == orig[PathOf(item)]
            && (Same(orig, restored, PathOf(second)) <==> HoldsSame(orig, item, second))
  {
    hide Safe, CanRestore, Listing, Members, Outcome, Slot, IsItem, NameOf, PathOf, Decoded;
    var n := NameOf(item);
    ListedSlot(hardened, dir, n);
    assert Members(init) + {n} <= Listing(hardened, BackupDir(dir));
    LastHasItsWay(hardened, dir, init, n, second);
    BackupOf(orig, hardened, dir, item);
  }

  lemma BackupOf(orig: FileMap, hardened: FileMap, dir: string, item: Item)
    requires Safe(orig, hardened, dir) && IsItem(item) && Slot(dir, NameOf(item)) in hardened
    ensures PathOf(item) in orig && hardened[Slot(dir, NameOf(item))] == orig[PathOf(item)]
    ensures item.Memory? ==> Patterns.HasKey(orig[PathOf(item)])
  {
    hide IsItem, NameOf, PathOf, Slot, Patterns.HasKey;
    assert IsOriginal(orig, hardened, dir, item);
  }

  // ---------- what a caller can check beforehand ----------

  /** The memory files that are going to be backed up do no harm at any second place. */
  ghost predicate MemoryStraysHarmless(orig: FileMap) {
    forall item, second | IsItem(item) && item.Memory? && PathOf(item) in orig && Patterns.HasKey(orig[PathOf(item)]) &&
                          second in Decoded(NameOf(item)) :: HoldsSame(orig, item, second)
  }

  lemma HarmlessBefore(orig: FileMap, hardened: FileMap, dir: string)
    requires Safe(orig, hardened, dir) && MemoryStraysHarmless(orig)
    ensures StraysHarmless(orig, hardened, dir)
  {
    hide Safe, IsItem, NameOf, PathOf, Slot, Decoded, Patterns.HasKey;
    forall item, second | IsItem(item) && Slot(dir, NameOf(item)) in hardened && second in Decoded(NameOf(item))
      ensures HoldsSame(orig, item, second)
    {
      BackupOf(orig, hardened, dir, item);
      if !item.Memory? {
        OnlyItself(item, second);
      }
    }
  }

  lemma OnlyItself(item: Item, second: Item)
    requires IsItem(item) && !IsMisleading(item) && second in Decoded(NameOf(item))
    ensures second == item
  {
    hide IsItem, NameOf, Decoded, IsMisleading;
    DecodesUniquely(item);
  }

  lemma HarmlessAfter(orig: FileMap, hardened: FileMap, dir: string)
    requires Safe(orig, hardened, dir) && AllSaved(orig, hardened, dir) && AllRedacted(orig, hardened)
    requires StraysHarmless(orig, hardened, dir)
    ensures MemoryStraysHarmless(orig)
  {
    hide Safe, IsItem, NameOf, PathOf, Slot, Decoded, AllSaved, AllRedacted, Patterns.HasKey;
    forall item, second | IsItem(item) && item.Memory? && PathOf(item) in orig && Patterns.HasKey(orig[PathOf(item)]) &&
                          second in Decoded(NameOf(item))
      ensures HoldsSame(orig, item, second)
    {
      IsBackedUp(orig, hardened, dir, item);
    }
  }

  /** After a run of hardening without failures, everything comes back in every order if and only if that holds. */
  lemma HardenIsUndoneIff(orig: FileMap, hardened: FileMap, dir: string)
    requires Safe(orig, hardened, dir) && AllSaved(orig, hardened, dir) && AllRedacted(orig, hardened)
    requires CanRestore(hardened, dir)
    ensures (forall order | Members(order) == Listing(hardened, BackupDir(dir)) :: AllBack(orig, Outcome(hardened, dir, order)))
            <==> MemoryStraysHarmless(orig)
  {
    hide Safe, AllSaved, AllRedacted, CanRestore, StraysHarmless, MemoryStraysHarmless, Listing, Members, AllBack, Outcome, Slot;
    HasOriginal(hardened, dir);
    EverythingComesBackIff(orig, hardened, dir);
    if StraysHarmless(orig, hardened, dir) {
      HarmlessAfter(orig, hardened, dir);
    }
    if MemoryStraysHarmless(orig) {
      HarmlessBefore(orig, hardened, dir);
    }
  }

  /** No agent with memory files is called `cred` or `auth-profiles`, or so up to a dash. */
  ghost predicate NoAgentMisleads(files: FileMap) {
    forall item | IsItem(item) && item.Memory? && PathOf(item) in files :: !IsMisleading(item)
  }

  /** In particular it holds if no agent has a misleading name. */
  lemma ClearNamesAreHarmless(orig: FileMap)
    requires NoAgentMisleads(orig)
    ensures MemoryStraysHarmless(orig)
  {
    hide IsItem, NameOf, PathOf, Decoded, IsMisleading, Patterns.HasKey;
    forall item, second | IsItem(item) && item.Memory? && PathOf(item) in orig && Patterns.HasKey(orig[PathOf(item)]) &&
                          second in Decoded(NameOf(item))
      ensures HoldsSame(orig, item, second)
    {
      OnlyItself(item, second);
    }
  }

  // ---------- agents with misleading names ----------

  /** Where nothing else is restored to, the memory shows in whatever order the backup is read. */
  lemma OnlySourceShows(orig: FileMap, hardened: FileMap, restored: FileMap, dir: string, item: Item, second: Item)
    requires Safe(orig, hardened, dir) && RolledBack(hardened, restored, dir)
    requires IsItem(item) && Slot(dir, NameOf(item)) in hardened && second in Decoded(NameOf(item))
    requires forall m | IsSource(hardened, dir, m, PathOf(second)) :: m == NameOf(item)
    ensures PathOf(item) in orig && PathOf(second) in restored && restored[PathOf(second)] == orig[PathOf(item)]
    ensures Same(orig, restored, PathOf(second)) <==> HoldsSame(orig, item, second)
  {
    hide Safe, IsItem, NameOf, PathOf, Slot, Decoded, BackupKept, ConfigFromBackup, Listing;
    ListedSlot(hardened, dir, NameOf(item));
    ItemsLiveElsewhere(second);
    assert IsSource(hardened, dir, NameOf(item), PathOf(second));
    assert PathRestored(hardened, restored, dir, {}, Listing(hardened, BackupDir(dir)), PathOf(second));
    BackupOf(orig, hardened, dir, item);
  }

  lemma CredentialIsFrom(n: string, file: string)
    requires Credential(file) in Decoded(n)
    ensures n == "cred-" + file
  {
    hide MemoryDecoded;
    MemoryIsMemory(n, 0);
    if StartsWith(n, "cred-") {
      assert n == n[..5] + n[5..];
    }
  }

  /**
   So the memory of an agent called `cred`, or `cred-` and anything, always ends up in the
   credentials directory too. That file is as before only if it held the very same text.
   */
  lemma MisleadingMemoryStrays(orig: FileMap, hardened: FileMap, restored: FileMap, dir: string, agent: string, k: nat)
    requires k < |MEMORY_FILES| && StartsWith(agent + "-", "cred-")
    requires Safe(orig, hardened, dir) && RolledBack(hardened, restored, dir)
    requires Slot(dir, NameOf(Memory(agent, MEMORY_FILES[k]))) in hardened
    ensures var item := Memory(agent, MEMORY_FILES[k]);
            |NameOf(item)| >= 5 &&
            var second := Credential(NameOf(item)[5..]);
            && PathOf(item) in orig && PathOf(second) in restored && restored[PathOf(second)] == orig[PathOf(item)]
            && (Same(orig, restored, PathOf(second)) <==> HoldsSame(orig, item, second))
  {
    hide Safe, RolledBack, NameOf, Slot, Decoded, Listing;
    var item := Memory(agent, MEMORY_FILES[k]);
    MisleadingDecodes(agent, k);
    MemoryIsLookedFor(MEMORY_FILES[k]);
    var second := Credential(NameOf(item)[5..]);
    CredentialIsFrom(NameOf(item), second.file);
    forall m | IsSource(hardened, dir, m, PathOf(second)) ensures m == NameOf(item) {
      var other :| other in Decoded(m) && PathOf(other) == PathOf(second);
      PathsDiffer(other, second);
      CredentialIsFrom(m, second.file);
    }
    OnlySourceShows(orig, hardened, restored, dir, item, second);
  }

  // ---------- two backups for one place ----------

  /**
   The memory of agent `auth-profiles-x` and the auth profile of agent `x-soul.md` are restored to
   one place: which of them it holds in the end is decided by the order the directory is read in.
   */
  lemma OrderDecidesClash(before: FileMap, dir: string, x: string, k: nat, init: seq<string>)
    requires k < |MEMORY_FILES| && CanRestore(before, dir) && Slot(dir, ORIGINAL) in before
    requires Members(init) <= Listing(before, BackupDir(dir))
    requires Slot(dir, NameOf(Memory("auth-profiles-" + x, MEMORY_FILES[k]))) in before
    requires Slot(dir, NameOf(AuthProfile(x + "-" + MEMORY_FILES[k]))) in before
    ensures var memory, profile := Memory("auth-profiles-" + x, MEMORY_FILES[k]), AuthProfile(x + "-" + MEMORY_FILES[k]);
            var m, n, p := NameOf(memory), NameOf(profile), PathOf(profile);
            && p in Outcome(before, dir, init + [n] + [m]) && p in Outcome(before, dir, init + [m] + [n])
            && Outcome(before, dir, init + [n] + [m])[p] == before[Slot(dir, m)]
            && Outcome(before, dir, init + [m] + [n])[p] == before[Slot(dir, n)]
  {
    hide CanRestore, Listing, Members, Outcome, Slot, NameOf, PathOf, Decoded;
    var profile := AuthProfile(x + "-" + MEMORY_FILES[k]);
    var m, n := NameOf(Memory("auth-profiles-" + x, MEMORY_FILES[k])), NameOf(profile);
    NamesClash(x, k);
    ListedSlot(before, dir, m);
    ListedSlot(before, dir, n);
    MembersNext(init, n);
    MembersNext(init, m);
    LastHasItsWay(before, dir, init + [n], m, profile);
    LastHasItsWay(before, dir, init + [m], n, profile);
  }

  // ---------- the operations themselves ----------

  /** The override that docker hardening writes is backed up but never restored. */
  lemma OverrideIsNotRestored(before: FileMap, after: FileMap, dir: string)
    requires RolledBack(before, after, dir)
    ensures Same(before, after, OVERRIDE) && Same(before, after, ENV_ENC)
  {
    hide Decoded, BackupKept, Listing, ConfigFromBackup;
    forall n, p | IsSource(before, dir, n, p) ensures p != OVERRIDE && p != ENV_ENC {
      var item :| item in Decoded(n) && PathOf(item) == p;
      ItemsLiveElsewhere(item);
    }
    assert PathRestored(before, after, dir, {}, Listing(before, BackupDir(dir)), OVERRIDE);
    assert PathRestored(before, after, dir, {}, Listing(before, BackupDir(dir)), ENV_ENC);
  }

  lemma FlatListing(files: FileMap, dir: string, n: string)
    requires BackupIsFlat(files, dir) && n in Listing(files, BackupDir(dir))
    ensures Slot(dir, n) in files
  {
    var p :| p in files && IsBelow(p, BackupDir(dir)) && p[3] == n;
    assert p == p[..3] + [p[3]];
    assert p == Slot(dir, n);
  }

  lemma HardenedCanRestore(orig: FileMap, hardened: FileMap, dir: string)
    requires Safe(orig, hardened, dir) && Slot(dir, ORIGINAL) in hardened
    ensures CanRestore(hardened, dir) && Listing(hardened, BACKUPS) != {}
  {
    hide BackupIsFlat, Slot, Listing, BackupsAreOriginal, BackupNamesKnown, ItemIsSafe, ElsewhereSame, FixedAreOriginal,
      RewrittenAreSafe;
    BackupIsListed(hardened, dir);
    forall n | n in Listing(hardened, BackupDir(dir)) ensures Slot(dir, n) in hardened {
      FlatListing(hardened, dir, n);
    }
  }

  /** Harden, then roll back to that backup, with any failures on the way. */
  method HardenThenRollBack(disk: Disk, now: string, rw: Rewrites, platform: Platform) returns (r: RollbackResult)
    modifies disk
    ensures disk.faults == {} && IsNew(old(disk.files), Sanitize(now)) && CONFIG in old(disk.files) ==> r == Restored
    ensures r == Restored && BackupDir(Sanitize(now)) !in disk.faults && IsNew(old(disk.files), Sanitize(now)) ==>
              MemoryStraysHarmless(old(disk.files)) ==> AllBack(old(disk.files), disk.files)
  {
    hide Safe, IsNew, CanRestore, Listing, Sanitize, AllBack, Restoring, ConfigFromBackup, PrefersOriginal, AllSaved,
      AllRedacted, Decoded, MemoryStraysHarmless, StraysHarmless, Members, Slot, Replay, RolledBack, UnreadInPlace;
    ghost var orig := disk.files;
    var dir := HardenState(disk, now, rw, platform);
    if dir.None? {
      return NoConfigBackup;
    }
    ghost var hardened := disk.files;
    if IsNew(orig, dir.value) && CONFIG in orig {
      HardenedCanRestore(orig, hardened, dir.value);
    }
    var result, _, _ := RollBack(disk, Some(dir.value));
    r := result;
    if r == Restored && BackupDir(dir.value) !in disk.faults && IsNew(orig, dir.value) && MemoryStraysHarmless(orig) {
      HarmlessBefore(orig, hardened, dir.value);
      EverythingComesBack(orig, hardened, disk.files, dir.value);
    }
  }
}
