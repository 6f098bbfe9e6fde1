/**
 How hardening names the files it backs up, and how rollback reads those names
 (crates/secureops-harden/src/credential_hardening.rs and lib.rs).
 */
module BackupNames {
  import opened Basics

  /** A file that rollback can restore. */
  datatype Item =
    | Credential(file: string)
    | AuthProfile(agent: string)
    | Env
    | Memory(agent: string, file: string)

  /** The components of a path below the state directory. */
  type Path = seq<string>

  /** The memory files that rollback looks for. */
  const MEMORY_FILES: seq<string> := ["soul.md", "SOUL.md", "MEMORY.md"]

  const ORIGINAL: string := "openclaw.json.original"

  /** Names in a backup directory that hold no item. */
  const FIXED: set<string> :=
    {ORIGINAL, "openclaw.json", "openclaw-config.json", "docker-compose.secureops.yml", "manifest.json"}

  /** What hardening backs up: credential files are JSON, memory files have one of three names. */
  predicate IsItem(item: Item) {
    match item
    case Credential(file) => EndsWith(file, ".json")
    case Memory(_, file) => file == "soul.md" || file == "SOUL.md" || file == "MEMORY.md"
    case _ => true
  }

  function PathOf(item: Item): Path {
    match item
    case Credential(file) => ["credentials", file]
    case AuthProfile(agent) => ["agents", agent, "agent", "auth-profiles.json"]
    case Env => [".env"]
    case Memory(agent, file) => ["agents", agent, file]
  }

  function NameOf(item: Item): string {
    match item
    case Credential(file) => "cred-" + file
    case AuthProfile(agent) => "auth-profiles-" + agent + ".json"
    case Env => ".env"
    case Memory(agent, file) => agent + "-" + file
  }

  predicate IsSkipped(name: string) {
    name == "manifest.json" || name == ORIGINAL || name == "openclaw.json" || name == "openclaw-config.json"
  }

  /** The first memory file whose suffix the name has. */
  function MemoryDecoded(name: string, k: nat): seq<Item>
    requires k <= |MEMORY_FILES|
    decreases |MEMORY_FILES| - k
  {
    if k == |MEMORY_FILES| then []
    else if EndsWith(name, "-" + MEMORY_FILES[k]) then
      [Memory(name[..|name| - |MEMORY_FILES[k]| - 1], MEMORY_FILES[k])]
    else MemoryDecoded(name, k + 1)
  }

  function CredentialDecoded(name: string): seq<Item> {
    if StartsWith(name, "cred-") then [Credential(name[5..])] else []
  }

  function AuthDecoded(name: string): seq<Item> {
    if StartsWith(name, "auth-profiles-") then
      var rest := name[14..];
      [AuthProfile(if EndsWith(rest, ".json") then rest[..|rest| - 5] else rest)]
    else []
  }

  /** Where rollback puts what it restores. */
  function TargetOf(item: Item): Path {
    match item
    case Credential(name) => ["credentials", name]
    case AuthProfile(agent) => ["agents", agent, "agent", "auth-profiles.json"]
    case Env => [".env"]
    case Memory(agent, mem) => ["agents", agent, mem]
  }

  /** That is where hardening found it. */
  lemma BackToItsPlace(item: Item)
    ensures TargetOf(item) == PathOf(item)
  {
  }

  /** Everything rollback restores from a file of this name, in order. */
  function Decoded(name: string): seq<Item> {
    if IsSkipped(name) then []
    else CredentialDecoded(name) + (if name == ".env" then [Env] else []) + AuthDecoded(name) + MemoryDecoded(name, 0)
  }

  /** Memory of an agent whose name, before the dash, reads like the start of another kind of backup. */
  predicate IsMisleading(item: Item) {
    item.Memory? && (StartsWith(item.agent + "-", "cred-") || StartsWith(item.agent + "-", "auth-profiles-"))
  }

  /** Rollback looks for all of them. */
  lemma MemoryIsLookedFor(file: string)
    ensures file in MEMORY_FILES <==> file == "soul.md" || file == "SOUL.md" || file == "MEMORY.md"
  {
    assert MEMORY_FILES[0] == "soul.md" && MEMORY_FILES[1] == "SOUL.md" && MEMORY_FILES[2] == "MEMORY.md";
  }

  // ---------- decoding undoes encoding ----------

  ghost function Last(s: string): char
    requires s != ""
  {
    s[|s| - 1]
  }

  lemma LastOfSuffix(s: string, suffix: string)
    requires suffix != "" && EndsWith(s, suffix)
    ensures s != "" && Last(s) == Last(suffix)
  {
  }

  /** Only names that end like a memory file decode to one. */
  lemma NotMemory(name: string)
    requires name != "" && Last(name) != 'd'
    ensures MemoryDecoded(name, 0) == []
  {
  }

  lemma MemoryNamesEndInD(k: nat)
    requires k < |MEMORY_FILES|
    ensures Last("-" + MEMORY_FILES[k]) == 'd' && |MEMORY_FILES[k]| >= 7
    ensures MEMORY_FILES[k][|MEMORY_FILES[k]| - 4] == ['l', 'L', 'Y'][k]
  {
  }

  lemma FourthFromEnd(s: string, suffix: string)
    requires |suffix| >= 4 && EndsWith(s, suffix)
    ensures |s| >= 4 && s[|s| - 4] == suffix[|suffix| - 4]
  {
  }

  lemma IsMemory(agent: string, k: nat)
    requires k < |MEMORY_FILES|
    ensures MemoryDecoded(agent + "-" + MEMORY_FILES[k], 0) == [Memory(agent, MEMORY_FILES[k])]
    ensures Last(agent + "-" + MEMORY_FILES[k]) == 'd'
  {
    var file := MEMORY_FILES[k];
    var name := agent + "-" + file;
    assert name == agent + ("-" + file);
    assert EndsWith(name, "-" + file);
    assert name[..|name| - |file| - 1] == agent;
    forall j: nat | j < 3 && j != k ensures !EndsWith(name, "-" + MEMORY_FILES[j]) {
      MemoryNamesEndInD(j);
      MemoryNamesEndInD(k);
      FourthFromEnd(name, "-" + file);
      if EndsWith(name, "-" + MEMORY_FILES[j]) {
        FourthFromEnd(name, "-" + MEMORY_FILES[j]);
      }
    }
    LastOfSuffix(name, "-" + file);
    MemoryNamesEndInD(k);
    assert MemoryDecoded(name, k) == [Memory(agent, file)];
  }

  lemma FixedNames(name: string)
    requires name in FIXED || IsSkipped(name)
    ensures name != "" && name[0] in ['o', 'd', 'm'] && Last(name) in ['l', 'n']
  {
  }

  lemma NotPrefixed(name: string, prefix: string)
    requires name != "" && prefix != "" && name[0] != prefix[0]
    ensures !StartsWith(name, prefix)
  {
  }

  lemma CredentialDecodes(file: string)
    requires EndsWith(file, ".json")
    ensures Decoded(NameOf(Credential(file))) == [Credential(file)] && NameOf(Credential(file)) !in FIXED
  {
    var name := NameOf(Credential(file));
    assert name[..5] == "cred-" && name[5..] == file && name[0] == 'c';
    LastOfSuffix(file, ".json");
    assert Last(name) == 'n';
    hide IsSkipped, StartsWith, EndsWith, NameOf;
    NotMemory(name);
    NotPrefixed(name, "auth-profiles-");
    if name in FIXED || IsSkipped(name) {
      FixedNames(name);
    }
  }

  lemma AuthName(agent: string)
    ensures var name := NameOf(AuthProfile(agent));
            && StartsWith(name, "auth-profiles-") && name[14..] == agent + ".json"
            && name[0] == 'a' && Last(name) == 'n'
    ensures EndsWith(agent + ".json", ".json") && (agent + ".json")[..|agent + ".json"| - 5] == agent
  {
  }

  lemma AuthProfileDecodes(agent: string)
    ensures Decoded(NameOf(AuthProfile(agent))) == [AuthProfile(agent)] && NameOf(AuthProfile(agent)) !in FIXED
  {
    var name := NameOf(AuthProfile(agent));
    hide IsSkipped, StartsWith, EndsWith, NameOf;
    AuthName(agent);
    NotMemory(name);
    NotPrefixed(name, "cred-");
    if name in FIXED || IsSkipped(name) {
      FixedNames(name);
    }
  }

  lemma EnvDecodes()
    ensures Decoded(".env") == [Env] && ".env" !in FIXED
  {
  }

  lemma MemoryDecodes(agent: string, k: nat)
    requires k < |MEMORY_FILES|
    ensures var name := NameOf(Memory(agent, MEMORY_FILES[k]));
            && name !in FIXED
            && Decoded(name) == CredentialDecoded(name) + AuthDecoded(name) + [Memory(agent, MEMORY_FILES[k])]
  {
    var name := NameOf(Memory(agent, MEMORY_FILES[k]));
    IsMemory(agent, k);
    hide IsSkipped, StartsWith, EndsWith;
    assert name != ".env" by { assert Last(".env") == 'v'; }
    if name in FIXED || IsSkipped(name) {
      FixedNames(name);
    }
    assert CredentialDecoded(name) + [] == CredentialDecoded(name);
  }

  /** Whether the name of a memory file starts like another backup is decided by the agent's name. */
  lemma AgentDecidesPrefix(agent: string, k: nat, prefix: string)
    requires k < |MEMORY_FILES| && (prefix == "cred-" || prefix == "auth-profiles-")
    ensures StartsWith(agent + "-" + MEMORY_FILES[k], prefix) <==> StartsWith(agent + "-", prefix)
  {
    var head, name, n := agent + "-", agent + "-" + MEMORY_FILES[k], |prefix|;
    if n <= |head| {
      assert name[..n] == head[..n];
    } else {
      assert name[|agent|] == '-' && name[|agent| + 1] in ['s', 'S', 'M'];
    }
  }

  /**
   Rollback restores a backed-up file to exactly the place it came from, unless it is the memory of
   an agent called `cred` or `auth-profiles`, or whose name continues one of these after a dash.
   */
  lemma DecodesUniquely(item: Item)
    requires IsItem(item)
    ensures Decoded(NameOf(item)) == [item] <==> !IsMisleading(item)
    ensures item in Decoded(NameOf(item)) && NameOf(item) !in FIXED
  {
    match item
    case Credential(file) => CredentialDecodes(file);
    case AuthProfile(agent) => AuthProfileDecodes(agent);
    case Env => EnvDecodes();
    case Memory(agent, file) =>
      MemoryIsLookedFor(file);
      var k :| 0 <= k < |MEMORY_FILES| && MEMORY_FILES[k] == file;
      MemoryDecodes(agent, k);
      AgentDecidesPrefix(agent, k, "cred-");
      AgentDecidesPrefix(agent, k, "auth-profiles-");
  }

  /** Which second place the memory of a misleading agent is sent to. */
  lemma MisleadingDecodes(agent: string, k: nat)
    requires k < |MEMORY_FILES|
    ensures var item := Memory(agent, MEMORY_FILES[k]);
            var name := NameOf(item);
            && (StartsWith(agent + "-", "cred-") ==> |name| >= 5 && Decoded(name) == [Credential(name[5..]), item])
            && (StartsWith(agent + "-", "auth-profiles-") ==> |name| >= 14 && Decoded(name) == [AuthProfile(name[14..]), item])
  {
    hide Decoded, MemoryDecoded, EndsWith;
    var name := NameOf(Memory(agent, MEMORY_FILES[k]));
    MemoryDecodes(agent, k);
    AgentDecidesPrefix(agent, k, "cred-");
    AgentDecidesPrefix(agent, k, "auth-profiles-");
    IsMemory(agent, k);
    if StartsWith(name, "auth-profiles-") {
      NotJson(name, 14);
    }
    if StartsWith(name, "cred-") {
      assert name[0] == name[..5][0] == 'c';
      NotPrefixed(name, "auth-profiles-");
    } else if StartsWith(name, "auth-profiles-") {
      assert CredentialDecoded(name) + AuthDecoded(name) == AuthDecoded(name);
    }
  }

  lemma NotJson(name: string, n: nat)
    requires n <= |name| && name != "" && Last(name) == 'd'
    ensures !EndsWith(name[n..], ".json")
  {
  }

  /** An agent called `cred` is enough to send its memory to the credentials as well. */
  lemma AgentCalledCred(k: nat)
    requires k < |MEMORY_FILES|
    ensures Decoded(NameOf(Memory("cred", MEMORY_FILES[k]))) ==
            [Credential(MEMORY_FILES[k]), Memory("cred", MEMORY_FILES[k])]
  {
    hide Decoded;
    MisleadingDecodes("cred", k);
    assert "cred" + "-" == "cred-";
    assert NameOf(Memory("cred", MEMORY_FILES[k]))[5..] == MEMORY_FILES[k];
  }

  /** And one called `auth-profiles`, to send it to an auth profile. */
  lemma AgentCalledAuthProfiles(k: nat)
    requires k < |MEMORY_FILES|
    ensures Decoded(NameOf(Memory("auth-profiles", MEMORY_FILES[k]))) ==
            [AuthProfile(MEMORY_FILES[k]), Memory("auth-profiles", MEMORY_FILES[k])]
  {
    hide Decoded;
    MisleadingDecodes("auth-profiles", k);
    assert "auth-profiles" + "-" == "auth-profiles-";
    assert NameOf(Memory("auth-profiles", MEMORY_FILES[k]))[14..] == MEMORY_FILES[k];
  }

  /** The memory of one agent and the auth profile of another: two backups, restored to one place. */
  lemma NamesClash(x: string, k: nat)
    requires k < |MEMORY_FILES|
    ensures var memory, profile := Memory("auth-profiles-" + x, MEMORY_FILES[k]), AuthProfile(x + "-" + MEMORY_FILES[k]);
            && NameOf(memory) != NameOf(profile)
            && profile in Decoded(NameOf(memory)) && profile in Decoded(NameOf(profile))
  {
    hide Decoded;
    var agent, file := "auth-profiles-" + x, MEMORY_FILES[k];
    var name := NameOf(Memory(agent, file));
    MisleadingDecodes(agent, k);
    assert (agent + "-")[..14] == "auth-profiles-";
    assert name[14..] == x + "-" + file;
    AuthProfileDecodes(x + "-" + file);
    assert NameOf(AuthProfile(x + "-" + file)) == name + ".json";
  }
}
