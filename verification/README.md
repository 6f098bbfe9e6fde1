# SecureOps: a verified model

This project models the parts of SecureOps that carry state, loops or string handling, and proves
what they promise for every input, every run or every reachable state. It covers the attack-path
graph, the session-log JSON parser, the exfiltration-chain correlator and its agent, the
hash-chained audit log, API-key redaction and the scan for keys, the HTTP rate limiter, hardening
and rollback of a state directory, percent-encoding of presigned URLs and the two host-name
extractors.

Each module is named after its file; `Basics` holds what several of them need. Where the program changes things step by step, the model is a
class or a method with loops, proved against functions and predicates; the laws are then proved of
those. `dafny verify dfyconfig.toml` checks everything.

| files | models |
|---|---|
| `Walks`, `Search`, `Graph` | `crates/secureops-graph/src/lib.rs` |
| `JsonText`, `JsonGrammar`, `JsonProofs`, `JsonRfc`, `JsonUnique`, `JsonParser`, `LogLine` | the parser in `crates/secureops-checks/src/cost_exposure.rs` |
| `Chain`, `ChainAgent` | `crates/secureops-bpf/src/chain.rs`, `crates/secureops-daemon/src/bpf_wire.rs` |
| `AuditChain`, `AuditStore`, `AuditRuns` | `crates/secureops-auditlog/src/lib.rs` |
| `Patterns`, `Redact`, `Scan` | redaction in `crates/secureops-harden`, the auditor's patterns and scan in `crates/secureops-checks` |
| `RateLimit`, `Uri` | `ratelimit.rs` and `evidence.rs` of `crates/secureops-api` |
| `BackupNames`, `Harden`, `HardenRun`, `Rollback`, `Recovery` | `crates/secureops-harden` |
| `Hostname` | `url_hostname` in `ioc.rs` and in `memory_integrity.rs` |

## What was abstracted

- A difficulty is a non-negative `f32`, given by its rank among them; addition is any function that
  never makes a cost smaller and keeps the order of its first operand. Rounding and overflow to
  infinity are therefore covered, and nothing relies on associativity.
- The heap is a multiset from which any cheapest entry may be popped, and hash maps are visited in any
  order, so the graph results hold however ties are broken.
- SHA-256, the canonical form of a payload, ed25519 and the line format of the log file are function
  parameters. Nothing assumes that the digest is free of collisions: a theorem that needs it says
  instead that the logs at hand exhibit one.
- Clocks, cancellation, failing reads, copies, writes and directory listings are parameters or
  arbitrary choices.
- The conversion of a number token to `f64` and Unicode lower-casing are function parameters.

## What the proofs found

- **Overflow hides attack paths.** An entry contributes as many attack paths as its blast radius says
  if and only if no sensitive node it reaches has only walks whose difficulty overflows to infinity
  (`Graph.PathsPerEntry`, with the smallest example in `Graph.OverflowHidesAttack`).
- **The JSON parser takes more than RFC 8259.** Its comment promises what `JSON.parse` accepts; the
  code also takes raw control characters in strings, `+` among the four bytes after `\u`, and whatever
  number syntax the conversion to `f64` takes, such as leading zeros. The exact set of accepted lines
  is `LogLine.AcceptsExactlyTexts`, and which of them are RFC 8259 texts is `LogLine.RfcIffTree`. A
  surrogate code is read as U+FFFD (`LogLine.CodeIsReadIffNoSurrogate`). Infinity counts as a cost
  although the comment says finite (`LogLine.InfinityCounts`).
- **Pruning relies on the clock.** It changes the chains if and only if a prune lies between a secret
  open and its timely connect and is more than the TTL after the open
  (`Chain.PruningIsUnobservableIff`), for which the clock must run backwards
  (`Chain.PruningNeedsTheClock`).
- **Cutting off the newest audit entries is not noticed** by verification of the log alone; any other
  deletion, repetition or reordering is (`AuditChain.RearrangingIsNoticed`).
- **A failed file write splits memory and file.** `append` has moved on by then. Restarts never show if
  and only if none comes after an entry was lost that way (`AuditRuns.RestartsNeverShowIff`), and a log
  that is written on after a loss cannot be opened any more (`AuditRuns.WritingOnIsRefused`,
  `AuditRuns.RefusedForGood`).
- **Reopening checks neither numbers nor signatures**, although its comment promises an error if the
  chain fails verification (`AuditRuns.OpensUnverified`).
- **The rate limiter keeps to its budget if and only if no window receives 2^32 hits**, after which the
  32-bit counter wraps (`RateLimit.BudgetHoldsIffNoOverrun`, `RateLimit.BurstOverruns`; a build with
  overflow checks would panic instead).
- **Names that mislead rollback.** Memory of an agent called `cred` or `auth-profiles`, or whose name
  goes on with a dash after that, is restored to a second place as well
  (`BackupNames.DecodesUniquely`). Hardening is undone in every order the backup may be read if and only
  if every such memory file with a key finds the same text at its second place
  (`Recovery.HardenIsUndoneIff`). At worst the second place is another agent's auth profile, and
  directory order decides which of the two it holds (`Recovery.OrderDecidesClash`).
- **Rollback reports success when it cannot read the backup directory** to its end. That is a full
  rollback if and only if the unread files were in place already (`Rollback.RollBack`,
  `Rollback.UnreadBackupIsNotRestored`). The docker override is backed up but never restored
  (`Recovery.OverrideIsNotRestored`).
- **The host-name extractors disagree on every closed bracketed literal** and on nothing else among
  `http://` and `https://` URLs: one drops the closing bracket (`Hostname.HostnamesAgree`).

## Model

| member | source | states |
|---|---|---|
| `Graph.SecurityGraph.constructor` | crates/secureops-graph/src/lib.rs:105-107 | A new graph is empty. |
| `Graph.SecurityGraph.AddNode` | crates/secureops-graph/src/lib.rs:110-113 | The node replaces any of its name and keeps its edges; every node keeps an edge list and every edge a known target. |
| `Graph.SecurityGraph.AddEdge` | crates/secureops-graph/src/lib.rs:117-136 | The edge becomes the last one of `from`, with its difficulty or zero if that is negative or NaN; missing ends become unknown nodes, neither exposed nor sensitive, and known nodes stay as they are. |
| `Graph.SecurityGraph.Dijkstra` | crates/secureops-graph/src/lib.rs:202-229 | Whatever the ties: a node gets a distance iff some walk to it has a finite sum, the distance is the least over all walks, the predecessors form a tree of such walks, and each reached node is expanded exactly once. |
| `Search.SearchStarts` | crates/secureops-graph/src/lib.rs:203-210 | The loop invariant holds of the source alone in the heap. |
| `Search.TopExists` | crates/secureops-graph/src/lib.rs:212 | A heap that is not empty has a cheapest entry to pop. |
| `Search.SkipKeeps` | crates/secureops-graph/src/lib.rs:213-215 | Popping an entry above its node's distance is a stale pop that changes nothing. |
| `Search.ExpandKeeps` | crates/secureops-graph/src/lib.rs:212-216 | Any other pop is of a node never expanded before, at its final distance. |
| `Search.RelaxKeeps` | crates/secureops-graph/src/lib.rs:217-225 | A relaxation never touches an expanded node or the source, so settled distances never change, even along edges of difficulty zero. |
| `Search.PassKeeps` | crates/secureops-graph/src/lib.rs:217-218 | An edge that offers nothing shorter keeps the invariant with that edge accounted for. |
| `Search.SearchEnds` | crates/secureops-graph/src/lib.rs:212-228 | With the heap empty, distances and predecessors are a tree of shortest walks. |
| `Walks.TreeIsShortest` | crates/secureops-graph/src/lib.rs:202-229 | Such a tree reaches exactly the finitely reachable nodes, each at its least cost, for every lawful addition. |
| `Walks.TreeBoundsWalks` | crates/secureops-graph/src/lib.rs:216-218 | No walk is cheaper than the distance of its end. |
| `Graph.Reconstruct` | crates/secureops-graph/src/lib.rs:232-246 | The loop ends, also with zero-difficulty cycles in the graph, and returns the path through the tree of predecessors. |
| `Walks.TreePathIsRoute` | crates/secureops-graph/src/lib.rs:232-246 | That path is a real walk from the source to the target whose summed difficulty is the reported distance. |
| `Walks.TreePathRises` | crates/secureops-graph/src/lib.rs:232-246 | It visits no node twice. |
| `Graph.SecurityGraph.BlastRadius` | crates/secureops-graph/src/lib.rs:143-160 | The count is the number of distinct sensitive nodes reachable by a walk, the start excluded. |
| `Graph.ExploreEnds` | crates/secureops-graph/src/lib.rs:148-159 | When the queue is empty, what was seen is exactly what is reachable. |
| `Graph.SecurityGraph.AttackPaths` | crates/secureops-graph/src/lib.rs:165-199 | One path per exposed entry and distinct sensitive target reachable at finite cost and nothing else, each a cheapest real route without repeats with its entry's blast radius, ordered by blast radius descending and then difficulty ascending. |
| `Graph.SortPaths` | crates/secureops-graph/src/lib.rs:191-197 | The result is ranked and a permutation of the input. |
| `Graph.PathsPerEntry` | crates/secureops-graph/src/lib.rs:165-199 | An entry contributes exactly its blast radius of paths iff every sensitive node it reaches has a walk that does not overflow. |
| `Graph.OverflowHidesAttack` | crates/secureops-graph/src/lib.rs:218 | One edge of infinite difficulty: the target counts as impact and has no attack path. |
| `JsonParser.SkipWs` | crates/secureops-checks/src/cost_exposure.rs:105-109 | The position moves past exactly the white space and stays in the buffer. |
| `JsonParser.ParseValue` | crates/secureops-checks/src/cost_exposure.rs:111-125 | From any offset the answer and the new position are what the specification reads there; success strictly advances and stays in the buffer. |
| `JsonParser.ParseObject` | crates/secureops-checks/src/cost_exposure.rs:127-163 | The same for an object: all its members in order, or failure. |
| `JsonParser.ParseMember` | crates/secureops-checks/src/cost_exposure.rs:136-146 | The same for a key, a colon and a value. |
| `JsonParser.ParseArray` | crates/secureops-checks/src/cost_exposure.rs:165-191 | The same for an array. |
| `JsonParser.ParseString` | crates/secureops-checks/src/cost_exposure.rs:193-242 | The same for a string up to its closing quote. |
| `JsonParser.ParseChar` | crates/secureops-checks/src/cost_exposure.rs:230-238 | The same for one character, decoded from a lead byte and all continuation bytes after it. |
| `JsonParser.ParseEscape` | crates/secureops-checks/src/cost_exposure.rs:203-229 | The same for an escape; a code that is no character becomes U+FFFD. |
| `JsonParser.ParseNumber` | crates/secureops-checks/src/cost_exposure.rs:265-290 | The longest run of number syntax is what is converted. |
| `JsonParser.ParseWord` | crates/secureops-checks/src/cost_exposure.rs:244-263 | `true`, `false` and `null`, or failure. |
| `JsonText.Utf8RoundTrip` | crates/secureops-checks/src/cost_exposure.rs:230-238 | Every character is read back from its UTF-8 encoding. |
| `JsonText.FromUtf8Inverts` | crates/secureops-checks/src/cost_exposure.rs:230-238 | And only encodings are accepted. |
| `JsonProofs.ReadsDoc` | crates/secureops-checks/src/cost_exposure.rs:111-290 | Completeness: the text of any syntax tree, with any white space and nesting and before any delimiter, is read as what the tree denotes, leaving what follows. |
| `JsonProofs.ReadsMembers` | crates/secureops-checks/src/cost_exposure.rs:135-162 | The same for the members of an object, after any members read before. |
| `JsonProofs.ReadsItems` | crates/secureops-checks/src/cost_exposure.rs:173-190 | The same for the items of an array. |
| `JsonProofs.DocOf` | crates/secureops-checks/src/cost_exposure.rs:111-290 | Soundness: whatever is accepted is the text of a syntax tree that denotes the value returned. |
| `JsonGrammar.PrintAppends` | crates/secureops-checks/src/cost_exposure.rs:111-290 | What follows a document changes nothing in its text. |
| `JsonRfc.RfcIsGood` | crates/secureops-checks/src/cost_exposure.rs:91-291 | Every tree of sections 2 to 7 of RFC 8259, by terminals of its own, is among the trees above, and without surrogate codes denotes the same value. |
| `JsonRfc.TerminalsAgree` | crates/secureops-checks/src/cost_exposure.rs:105-224 | White space, digits, exponent marks, signs, hexadecimal digits and their values, and escapes and their characters are exactly those of RFC 8259. |
| `JsonRfc.IsSpelled` | crates/secureops-checks/src/cost_exposure.rs:111-290 | The text of a tree, spelled as RFC 8259 spells it, is the text the parser reads. |
| `JsonUnique.DocUnique` | crates/secureops-checks/src/cost_exposure.rs:111-290 | The grammar is unambiguous: trees printed alike are the same tree, and so is what follows them, whichever numbers either of two conversions takes. |
| `JsonUnique.TokenUnique` | crates/secureops-checks/src/cost_exposure.rs:265-290 | A number token is spelled in one way only. |
| `LogLine.AcceptsExactlyTexts` | crates/secureops-checks/src/cost_exposure.rs:56-64 | A line is accepted iff it is the text of one syntax tree followed by white space. |
| `LogLine.ReadsText` | crates/secureops-checks/src/cost_exposure.rs:56-64 | It is read as what that tree denotes, so a line has one meaning. |
| `LogLine.TextIsUnique` | crates/secureops-checks/src/cost_exposure.rs:56-64 | A line is the text of one tree only. |
| `LogLine.RfcIffTree` | crates/secureops-checks/src/cost_exposure.rs:88-90 | An accepted line is an RFC 8259 text iff its one tree is an RFC 8259 tree. |
| `LogLine.ReadsRfcText` | crates/secureops-checks/src/cost_exposure.rs:91-291 | Every text by the grammar of RFC 8259 is accepted, and read as what it denotes if none of its codes is a surrogate. |
| `LogLine.UndoesPrinting` | crates/secureops-checks/src/cost_exposure.rs:111-125 | Parsing undoes printing at any offset of a buffer and before any delimiter. |
| `LogLine.AcceptsRawControl` | crates/secureops-checks/src/cost_exposure.rs:230-238 | The line of a raw control character between quotes is accepted and is no RFC 8259 text. |
| `LogLine.AcceptsLeadingZeros` | crates/secureops-checks/src/cost_exposure.rs:270-272 | So is the line `01`, if the conversion takes it. |
| `LogLine.AcceptsSignedCode` | crates/secureops-checks/src/cost_exposure.rs:221-222 | So is every string of `\u`, a plus sign and three hexadecimal digits. |
| `LogLine.CodeIsReadIffNoSurrogate` | crates/secureops-checks/src/cost_exposure.rs:221-223 | Four hexadecimal digits after `\u` are read as the character of that number iff it is no surrogate, and as U+FFFD otherwise. |
| `LogLine.InfinityCounts` | crates/secureops-checks/src/cost_exposure.rs:72-75 | In the line `{"inputTokens":1e999}` infinity counts as a cost. |
| `LogLine.LastField` | crates/secureops-checks/src/cost_exposure.rs:68-71 | The value of the last field of that name, and none iff there is no such field. |
| `LogLine.CountsLastNumber` | crates/secureops-checks/src/cost_exposure.rs:66-79 | A field counts iff the last one of its name is a number other than zero and NaN. |
| `LogLine.ParseLogLine` | crates/secureops-checks/src/cost_exposure.rs:56-86 | An entry is returned iff the line is the text of a document, with the three cost fields of what that document denotes. |
| `Chain.ChainCorrelator.constructor` | crates/secureops-bpf/src/chain.rs:90-96 | A new correlator remembers nothing. |
| `Basics.StartsWithMeans` | crates/secureops-harden/src/lib.rs:241 | A prefix is followed by some rest. |
| `Basics.EndsWithMeans` | crates/secureops-bpf/src/lib.rs:160 | A suffix comes after some front. |
| `Chain.ContainsMeans` | crates/secureops-bpf/src/lib.rs:161 | A word occurs in a path iff the path is some front, the word and some rest. |
| `Chain.SecretReadIff` | crates/secureops-bpf/src/lib.rs:155-171 | A secret read is the opening of a path that ends in `.env` or contains one of ten words. |
| `Chain.ChainCorrelator.ObserveAt` | crates/secureops-bpf/src/chain.rs:118-160 | The new map and the chain, if any, as functions of the old map and the event. |
| `Chain.ChainCorrelator.Prune` | crates/secureops-bpf/src/chain.rs:164-167 | Exactly the secret reads older than the TTL are forgotten, and no event from now on is answered differently for it. |
| `Chain.ChainCorrelator.Tracked` | crates/secureops-bpf/src/chain.rs:170-175 | After any run of events and prunes, the number of processes with a pending secret read that no prune has forgotten. |
| `Chain.RemembersAlways` | crates/secureops-bpf/src/chain.rs:118-160 | In every reachable state, what is remembered of a process is its pending secret open: its path, its time and the name from the latest execve since. |
| `Chain.EmitsExactlyChains` | crates/secureops-bpf/src/chain.rs:118-160 | Over any trace, a chain is emitted at a connect iff the same process has a secret open with no later secret open or connect and a gap within the TTL, and it is the chain of exactly those two. |
| `Chain.PruningIsUnobservableIff` | crates/secureops-bpf/src/chain.rs:118-167 | Over any run, pruning changes the emitted chains iff some prune lies between a pending secret open and its timely connect and is more than the TTL after the open. |
| `Chain.LosesOrNot` | crates/secureops-bpf/src/chain.rs:118-167 | At each event, pruning loses the chain if there is such a prune and changes nothing otherwise. |
| `Chain.PruningIsUnobservable` | crates/secureops-bpf/src/chain.rs:164-167 | It follows that with a clock that does not run backwards, pruning at any points changes no emitted chain. |
| `Chain.PruningNeedsTheClock` | crates/secureops-bpf/src/chain.rs:164-167 | For every TTL, a clock that runs back by one millisecond between a prune and a connect loses the only chain. |
| `Chain.ProcessesAreIndependent` | crates/secureops-bpf/src/chain.rs:118-160 | The chains of a process in a trace are those its own events produce alone. |
| `ChainAgent.Alerts` | crates/secureops-bpf/src/chain.rs:49-63 | One critical alert of monitor `ebpf-chain` per chain, in order. |
| `ChainAgent.RunChainAgent` | crates/secureops-daemon/src/bpf_wire.rs:33-64 | Whatever the correlator remembers, the alerts are exactly those of the chains of all events, or of those before cancellation; the circuit is tripped iff there is one and left alone otherwise, and each chain gets the action of the mode. |
| `ChainAgent.ChainsContinue` | crates/secureops-daemon/src/bpf_wire.rs:41-63 | After any run of events and prunes, those chains are what the events add to the chains of the whole run. |
| `ChainAgent.ChainsFromNothing` | crates/secureops-daemon/src/bpf_wire.rs:78 | For a new correlator they are the chains of the trace. |
| `ChainAgent.ChainsIffMadeUp` | crates/secureops-daemon/src/bpf_wire.rs:46-49 | There is a chain, and so a tripped circuit, iff some open and connect of the trace make one up. |
| `ChainAgent.CancellingCutsOff` | crates/secureops-daemon/src/bpf_wire.rs:42-44 | Cancellation only cuts the sequence of chains short. |
| `AuditChain.GenesisIsZeros` | crates/secureops-auditlog/src/lib.rs:351-354 | The genesis value is 64 zeros. |
| `AuditChain.SplitHashed` | crates/secureops-auditlog/src/lib.rs:82-88 | With previous hashes of one length, the hashed text determines previous hash and payload. |
| `AuditChain.HeadFixesLog` | crates/secureops-auditlog/src/lib.rs:414-444 | Two linked logs with the same head have the same length and the same payload, previous hash and hash everywhere, or they themselves contain a collision of the digest or, if their lengths differ, a text that hashes to the genesis value. |
| `AuditChain.EditIsNoticed` | crates/secureops-auditlog/src/lib.rs:414-444 | If an entry was changed and any hash from there on was not, the two linked logs contain a collision. |
| `AuditChain.RearrangingIsNoticed` | crates/secureops-auditlog/src/lib.rs:414-444 | Whatever is deleted, repeated or reordered in a verified log, the result verifies iff it is the log cut off at some point. |
| `AuditChain.DeletionIsNoticed` | crates/secureops-auditlog/src/lib.rs:414-444 | In particular, deleting one entry is noticed iff it is not the last. |
| `AuditStore.AuditLog.InMemory` | crates/secureops-auditlog/src/lib.rs:270-279 | A new log is empty, at the genesis value and number zero. |
| `AuditStore.AuditLog.Persisted` | crates/secureops-auditlog/src/lib.rs:334-341 | A log with a file behind it and the given state. |
| `AuditStore.AuditLog.Append` | crates/secureops-auditlog/src/lib.rs:363-399 | The new memory, file and result: memory moves on before the write, a failed signature changes nothing, a failed write is reported but leaves the entry in memory. |
| `AuditStore.AuditLog.VerifyChain` | crates/secureops-auditlog/src/lib.rs:414-444 | Intact iff every entry is numbered, linked, hashed and signed right; otherwise the first entry that fails is reported, for its chain before its signature. |
| `AuditStore.AuditLog.ExportSegment` | crates/secureops-auditlog/src/lib.rs:453-463 | An error iff the range is turned around, else the entries numbered in the range. |
| `AuditStore.SegmentIsContiguous` | crates/secureops-auditlog/src/lib.rs:453-463 | From a numbered log that is one contiguous stretch. |
| `AuditStore.SegmentIsLinked` | crates/secureops-auditlog/src/lib.rs:453-463 | From a linked log each exported entry commits to the one before it. |
| `AuditStore.Open` | crates/secureops-auditlog/src/lib.rs:286-342 | Opening succeeds iff every line that is not blank decodes and the hashes link, and resumes after the last entry. |
| `AuditStore.DecodesIff` | crates/secureops-auditlog/src/lib.rs:293-302 | The lines decode iff every line that is not blank does. |
| `AuditStore.BlankLinesAreSkipped` | crates/secureops-auditlog/src/lib.rs:295-298 | A blank line anywhere is as if it were not there. |
| `AuditRuns.DecodeLines` | crates/secureops-auditlog/src/lib.rs:293-302 | The lines written for a log decode to that log. |
| `AuditRuns.AppendKeepsOrder` | crates/secureops-auditlog/src/lib.rs:363-381 | An append to a log that verifies leaves a log that verifies, with its cursor at the end. |
| `AuditRuns.RestartsAreInvisible` | crates/secureops-auditlog/src/lib.rs:286-342 | In every run in which no restart comes after a lost entry, closing and reopening at any points gives the same entries, head and next number as never closing, and the log verifies. |
| `AuditRuns.ReopenRestoresIffNothingLost` | crates/secureops-auditlog/src/lib.rs:379-396 | After any run, restarts included, reopening gives the log back iff no signed entry was lost since it was last opened. |
| `AuditRuns.FileHoldsWritten` | crates/secureops-auditlog/src/lib.rs:379-396 | After any run, the hashes in memory link, and the file holds the lines of a log that is the one in memory if nothing was lost since it was last opened and shorter otherwise. |
| `AuditRuns.RestartsNeverShowIff` | crates/secureops-auditlog/src/lib.rs:286-399 | At no moment of a run can it be told from one that was never closed, iff no restart comes after a lost entry. |
| `AuditRuns.RestartsShowInTheEnd` | crates/secureops-auditlog/src/lib.rs:286-399 | With a signer that never fails the same holds of the end of the run alone. |
| `AuditRuns.WritingOnIsRefused` | crates/secureops-auditlog/src/lib.rs:379-396 | An entry written after a lost one leaves a file that cannot be opened, or the logs contain a collision or a text that hashes to the genesis value. |
| `AuditRuns.RefusedForGood` | crates/secureops-auditlog/src/lib.rs:293-332 | A file that is refused stays refused whatever is appended to it. |
| `AuditRuns.OpensUnverified` | crates/secureops-auditlog/src/lib.rs:312-332 | A file with one entry of any number and signature is opened, and the log verifies iff these are right. |
| `AuditRuns.EveryAppendIsRecorded` | crates/secureops-auditlog/src/lib.rs:363-399 | Across such restarts there is one entry per append, in order, with its payload and time. |
| `Redact.RedactOne` | crates/secureops-harden/src/credential_hardening.rs:50-75 | The loop computes one replacing pass, for every text and prefix. |
| `Redact.RedactApiKeys` | crates/secureops-harden/src/credential_hardening.rs:41-47 | Five passes in order; nothing the auditor looks for is left, and text without a key is unchanged. |
| `Redact.LeavesNoKey` | crates/secureops-checks/src/patterns.rs:12-23 | For every text, the output matches none of the five patterns of the auditor, which are stated apart from the redactor's list. |
| `Redact.AuditorAgrees` | crates/secureops-checks/src/patterns.rs:12-23 | The auditor's patterns match a text iff the redactor has something to replace in it. |
| `Redact.PassRemoves` | crates/secureops-harden/src/credential_hardening.rs:50-75 | A pass removes every match of its own pattern and creates none of any other. |
| `Redact.PassesRemove` | crates/secureops-harden/src/credential_hardening.rs:41-47 | Later passes never bring back a match an earlier one removed. |
| `Redact.KeepsCleanText` | crates/secureops-harden/src/credential_hardening.rs:41-47 | Text without a match is unchanged. |
| `Redact.RedactIsIdempotent` | crates/secureops-harden/src/credential_hardening.rs:41-47 | Redacting twice is redacting once. |
| `Redact.PassShowsCut` | crates/secureops-harden/src/credential_hardening.rs:50-75 | However the text is cut into keys as long as they can be and characters that start none, the pass shows the characters and a marker for each key. |
| `Redact.CutExists` | crates/secureops-harden/src/credential_hardening.rs:50-75 | Every text can be cut that way, so the statement above is about every text. |
| `Scan.ScanForApiKeys` | crates/secureops-checks/src/credentials.rs:29-67 | For every listing function, cyclic ones included, the stack loop ends and returns the list of the recursive walk bounded at depth 5, in its order. |
| `Scan.VisitDirectory` | crates/secureops-checks/src/credentials.rs:43-59 | The hits and the subdirectories of one directory, in order. |
| `Scan.ReportsExactlyReachable` | crates/secureops-checks/src/credentials.rs:29-67 | A path is reported iff at most six names lead to it through directories that are not skipped and it is a Markdown or JSON file with a key. |
| `Scan.WalkIsPreorder` | crates/secureops-checks/src/credentials.rs:41-63 | The walk is depth first and in order: the hits of a directory by its entries, then all below its first subdirectory, then below the second, and so on. |
| `Scan.WalkFinds` | crates/secureops-checks/src/credentials.rs:36-64 | Every such route is found from any directory and depth. |
| `Scan.FoundByRoute` | crates/secureops-checks/src/credentials.rs:36-64 | And whatever is found has one. |
| `Scan.RedactedTreeIsClean` | crates/secureops-checks/src/credentials.rs:45-51 | If every readable file has been redacted, the auditor reports nothing. |
| `RateLimit.RateLimiter.constructor` | crates/secureops-api/src/ratelimit.rs:38-45 | A new limiter counts nothing yet. |
| `RateLimit.RateLimiter.Allow` | crates/secureops-api/src/ratelimit.rs:72-85 | The new map after cleanup, reset and counting, and allowed iff the counter is within the budget. |
| `RateLimit.RateLimiter.Enforce` | crates/secureops-api/src/ratelimit.rs:117-140 | Paths that end in one of the two login endpoints are counted under `auth:` and the address with the auth budget, all others under `global:` and the address with the global budget. |
| `RateLimit.KeysAreSeparate` | crates/secureops-api/src/ratelimit.rs:124-129 | Requests share a counter only if they share address and class. |
| `RateLimit.DecisionsAreOwn` | crates/secureops-api/src/ratelimit.rs:72-85 | With a clock that does not run backwards, a decision depends on the key's own hit times only, so the cleanup is unobservable. |
| `RateLimit.AtMostTwiceTheBudget` | crates/secureops-api/src/ratelimit.rs:79-84 | Any stretch of one window length, both ends included, admits at most twice the budget. |
| `RateLimit.KeyGetsAtMostTwiceItsBudget` | crates/secureops-api/src/ratelimit.rs:72-85 | The same for one key among all others in a trace. |
| `RateLimit.OneWindow` | crates/secureops-api/src/ratelimit.rs:79-84 | One window admits at most the budget. |
| `RateLimit.RefusedOnlyOverBudget` | crates/secureops-api/src/ratelimit.rs:79-84 | A hit is refused only if the whole budget was admitted less than one window ago. |
| `RateLimit.AdmitsFromTheFirst` | crates/secureops-api/src/ratelimit.rs:79-84 | From the first hit of a window on, exactly the budget is admitted. |
| `RateLimit.CountIsPlace` | crates/secureops-api/src/ratelimit.rs:79-84 | The counter is the place of the hit in its window modulo 2^32. |
| `RateLimit.BudgetHoldsIffNoOverrun` | crates/secureops-api/src/ratelimit.rs:83-84 | Every window keeps to its budget iff none receives 2^32 hits. |
| `RateLimit.SlowHitsDoNotOverrun` | crates/secureops-api/src/ratelimit.rs:83-84 | Hits of which no 2^32 come within one window's length cause no wrap. |
| `RateLimit.BurstOverruns` | crates/secureops-api/src/ratelimit.rs:83-84 | 2^32 hits at one moment get one more through than any budget allows. |
| `BackupNames.DecodesUniquely` | crates/secureops-harden/src/lib.rs:230-275 | A backup name decodes to exactly the file it was made for iff that is not the memory of an agent with a misleading name, and always to that file at least. |
| `BackupNames.BackToItsPlace` | crates/secureops-harden/src/lib.rs:241-274 | Rollback puts each kind of file where hardening found it. |
| `BackupNames.MemoryIsLookedFor` | crates/secureops-harden/src/lib.rs:263 | Rollback looks for all three memory files. |
| `BackupNames.MisleadingDecodes` | crates/secureops-harden/src/lib.rs:241-262 | Which second place the memory of such an agent is restored to: a credential or an auth profile. |
| `BackupNames.AgentCalledCred` | crates/secureops-harden/src/lib.rs:241-246 | Memory of an agent called `cred` decodes to a credential too. |
| `BackupNames.AgentCalledAuthProfiles` | crates/secureops-harden/src/lib.rs:252-262 | Memory of an agent called `auth-profiles` decodes to an auth profile too. |
| `BackupNames.NamesClash` | crates/secureops-harden/src/lib.rs:252-274 | The memory of `auth-profiles-x` and the auth profile of `x-soul.md` have different backup names that decode to one place. |
| `Harden.NamesDiffer` | crates/secureops-harden/src/credential_hardening.rs:194-280 | Different files never share a backup name. |
| `Harden.Sanitize` | crates/secureops-harden/src/lib.rs:84-88 | Colons and dots become dashes and nothing else changes. |
| `Harden.SafeAfterBackup` | crates/secureops-harden/src/credential_hardening.rs:194 | Copying an untouched file to its name keeps the safety of the run: backups are originals; items, config and override are as they were or have theirs; everything else is untouched. |
| `Harden.SafeAfterRedact` | crates/secureops-harden/src/credential_hardening.rs:278-291 | So does redacting a memory file whose backup has landed. |
| `Harden.SafeAfterFixed` | crates/secureops-harden/src/lib.rs:131-164 | So does writing the config backups and the manifest. |
| `Harden.SafeAfterOther` | crates/secureops-harden/src/lib.rs:76-80 | So does rewriting the encrypted `.env` and the files below `.secureops`, and the config and the override once their originals are in the backup. |
| `HardenRun.HardenState` | crates/secureops-harden/src/lib.rs:113-170 | If the backup directory is new, then at every end of the run, early ones included, the config, the override and every other file are as they were or have their original in the backup; a run that succeeds holds the config; a run without failures leaves the config, override, encrypted `.env`, network files and manifest as the modules write them and each of the four backups of config and override, with every credential, auth profile and `.env` backed up and every memory file redacted. |
| `HardenRun.GatewayFix` | crates/secureops-harden/src/gateway_hardening.rs:169-273 | Only the config and its backup change, and the config only once what it held is in the backup. |
| `HardenRun.ConfigFix` | crates/secureops-harden/src/config_hardening.rs:79-88 | Only the config and a second backup of it change; a failed backup is passed over here, and the run stays safe because the original is in the backup already. |
| `HardenRun.DockerFix` | crates/secureops-harden/src/docker_hardening.rs:120-144 | Only the override and its backup change, and the override only once what it held is in the backup. |
| `HardenRun.NetworkFix` | crates/secureops-harden/src/network_hardening.rs:208-249 | Nothing changes but the script of the platform and, if it is not empty, the blocklist, and without failures these hold what was generated. |
| `HardenRun.FinishRun` | crates/secureops-harden/src/lib.rs:142-164 | Without failures config, override, network files and manifest hold what the modules write, the two backups what was there before, and nothing else changes; with failures the run stays safe. |
| `HardenRun.CredentialFix` | crates/secureops-harden/src/credential_hardening.rs:153-308 | The credential module keeps the run safe; without failures everything is backed up and redacted. |
| `HardenRun.BackUpCredentials` | crates/secureops-harden/src/credential_hardening.rs:184-205 | Without failures every credential JSON file has its backup. |
| `HardenRun.BackUpAuthProfiles` | crates/secureops-harden/src/credential_hardening.rs:208-235 | Without failures every auth profile has its backup. |
| `HardenRun.EncryptEnv` | crates/secureops-harden/src/credential_hardening.rs:241-264 | Without failures `.env` has its backup, its encrypted form is written and there is a keystore. |
| `HardenRun.RedactFile` | crates/secureops-harden/src/credential_hardening.rs:271-301 | In every run, only the memory file and its backup change, and the file only once what it held is in the backup. |
| `HardenRun.RedactMemory` | crates/secureops-harden/src/credential_hardening.rs:266-304 | A run that is not cut short leaves every memory file holding its redacted original, unless that file could not be read or written; without failures all do. |
| `HardenRun.AllLookedInto` | crates/secureops-harden/src/credential_hardening.rs:270 | Hardening looks into all three memory files. |
| `HardenRun.NoKeyIsLeft` | crates/secureops-harden/src/credential_hardening.rs:266-304 | Then no memory file holds anything the auditor looks for. |
| `Rollback.NewestExists` | crates/secureops-harden/src/lib.rs:173-184 | The names sorted and turned around start with a greatest one. |
| `Rollback.LexIsDictionaryOrder` | crates/secureops-harden/src/lib.rs:181-182 | The order of the names is dictionary order. |
| `Rollback.RestoreConfig` | crates/secureops-harden/src/lib.rs:208-220 | The config comes from `openclaw.json.original`, or else from `openclaw.json`, or nothing changes. |
| `Rollback.RestoreFile` | crates/secureops-harden/src/lib.rs:231-274 | One file of the backup is copied to places its name stands for and nowhere else; success means to all of them. |
| `Rollback.RestoreOneMore` | crates/secureops-harden/src/lib.rs:230-275 | Restoring one more file, or failing halfway, keeps every place as before or holding what one of the files restored to it holds, also where several are. |
| `Rollback.RestoreFiles` | crates/secureops-harden/src/lib.rs:222-275 | Every file that was read and did not fail is restored, every other place is as before, and the files are restored in the order they are read; only an unreadable directory leaves files unread. |
| `Rollback.RollBack` | crates/secureops-harden/src/lib.rs:189-284 | The named backup is taken or the last in dictionary order, when each error is returned, that errors before the config change nothing, that a reported failure leaves all other files restored, and that a reported success is a full rollback iff wherever all files restored to a place were left unread it already held what one of them holds. |
| `Rollback.SuccessIsRollbackIff` | crates/secureops-harden/src/lib.rs:226-230 | That condition, for any set of files left unread. |
| `Rollback.UnreadBackupIsNotRestored` | crates/secureops-harden/src/lib.rs:226-229 | With a directory that cannot be read, success is reported and a changed `.env` stays as it is. |
| `Rollback.EveryOrderRollsBack` | crates/secureops-harden/src/lib.rs:230-275 | In whatever order the directory is read, everything in the backup comes back. |
| `Rollback.LastHasItsWay` | crates/secureops-harden/src/lib.rs:230-275 | The file that is read last has its way at every place it is restored to. |
| `Recovery.RollbackUndoesHarden` | crates/secureops-harden/src/lib.rs:113-284 | Whatever was done since outside the backup, a rollback brings back the config and every backed-up file as they were before hardening, if files restored to a second place find the same text there. |
| `Recovery.EverythingComesBack` | crates/secureops-harden/src/lib.rs:113-284 | Straight after hardening, every path is then as before but the override, the encrypted `.env` and what is below `.secureops`. |
| `Recovery.EverythingComesBackIff` | crates/secureops-harden/src/lib.rs:113-284 | That happens in every order the backup is read iff each file restored to a second place finds the same text there. |
| `Recovery.HardenIsUndoneIff` | crates/secureops-harden/src/lib.rs:113-284 | After a run without failures, iff this holds before hardening of every memory file with a key. |
| `Recovery.ClearNamesAreHarmless` | crates/secureops-harden/src/lib.rs:241-274 | So it does if no agent has a misleading name. |
| `Recovery.EverythingIsRecoverable` | crates/secureops-harden/src/credential_hardening.rs:184-304 | After a run without failures that covers every credential, auth profile, `.env` and memory file that held a key. |
| `Recovery.HardenThenRollBack` | crates/secureops-harden/src/lib.rs:113-284 | The two operations in turn, with any failures: rollback succeeds if nothing failed and a config exists, and success restores the whole state directory if the backup directory was new and readable and memory files with a key do no harm at a second place. |
| `Recovery.MisleadingMemoryStrays` | crates/secureops-harden/src/lib.rs:241-246 | Memory of an agent called `cred` or `cred-` and anything ends up in the credentials directory in every order, so that file is as before iff it held the same text. |
| `Recovery.StrayShows` | crates/secureops-harden/src/lib.rs:241-274 | Memory of any agent with a misleading name, read last, ends up at its second place, so that file is as before iff it held the same text. |
| `Recovery.OnlySourceShows` | crates/secureops-harden/src/lib.rs:241-274 | The same in every order where nothing else is restored to that place. |
| `Recovery.OrderDecidesClash` | crates/secureops-harden/src/lib.rs:252-274 | Where another agent's auth profile is restored to the same place, the order the directory is read in decides which of the two it holds. |
| `Recovery.OverrideIsNotRestored` | crates/secureops-harden/src/lib.rs:230-275 | Rollback leaves the docker override and the encrypted `.env` as they are. |
| `Uri.UriEncode` | crates/secureops-api/src/evidence.rs:27-39 | In both modes the output decodes to the input. |
| `Uri.BytesAreSpelled` | crates/secureops-api/src/evidence.rs:29-37 | Unreserved characters (section 2.3 of RFC 3986) and, in path mode, the slash stand for themselves; every other byte is a percent sign and two upper-case hexadecimal digits. |
| `Uri.DecodeUndoesEncode` | crates/secureops-api/src/evidence.rs:27-39 | Decoding, which takes only unreserved characters (section 2.3 of RFC 3986), upper-case escapes (section 2.1) and in path mode slashes, undoes encoding. |
| `Uri.EncodeUndoesDecode` | crates/secureops-api/src/evidence.rs:27-39 | Encoding undoes decoding, so every byte string has one spelling. |
| `Uri.QuerySplitsBack` | crates/secureops-api/src/evidence.rs:86-99 | The canonical query splits back into its keys and values. |
| `Hostname.HostPortsAgree` | crates/secureops-checks/src/ioc.rs:66-76 | Finding a delimiter and splitting at it, then dropping user information, give the same host and port. |
| `Hostname.SchemeIsFirst` | crates/secureops-checks/src/ioc.rs:45-64 | In an http or https URL the first `://` is the one after the scheme, and the scheme is accepted. |
| `Hostname.HostsAgree` | crates/secureops-checks/src/ioc.rs:78-90 | The hosts are the same unless the host is a closed bracket, and then differ by the bracket. |
| `Hostname.HostnamesAgree` | crates/secureops-checks/src/memory_integrity.rs:50-86 | The two functions agree on every http or https URL whose host is not a closed bracketed literal and on no other. |
| `Hostname.ExtractsHost` | crates/secureops-checks/src/memory_integrity.rs:50-86 | Whatever user, port and path surround it, both return the lower-cased host. |
| `Hostname.IocExtractsHost` | crates/secureops-checks/src/ioc.rs:44-96 | After any scheme (section 3.1 of RFC 3986) the first function returns the lower-cased host. |
| `Hostname.IocNeedsScheme` | crates/secureops-checks/src/ioc.rs:45-64 | And it returns one only after a scheme. |

## Left out

- Graph.SortPaths: insertion stands in for the library's sort; that paths of equal rank keep their order is not stated, since their order before sorting is that of a hash map.
- Rollback.RollBack: a backup directory exists if it holds a file, because directories are not modelled; for an empty one the program reports a missing config instead. A file that fails at two places is listed once.
- Rollback.NewestExists: `list_backups` is modelled by the one name that rollback takes from it.
- AuditStore.AuditLog.Append: a write either reaches the file as a whole line or not at all; sequence numbers do not overflow 64 bits.
- AuditStore.Open: a file that does not exist is a file without lines; a read error in the middle is not modelled.
- ChainAgent.RunChainAgent: the text of alerts and log lines, and a circuit channel without receivers, are not modelled.
- RateLimit.RateLimiter.Enforce: reading the client address from proxy headers, the metric and the HTTP response are not modelled; clock differences do not overflow 64 bits.
- LogLine.ReadsRfcText: a surrogate pair, which section 7 of RFC 8259 reads as one character, is read as two replacement characters, as the program does.
- JsonParser.ParseValue: stack depth under deep nesting is not modelled.
- Uri.QuerySplitsBack: the parameters of a presigned URL are any list rather than the five fixed ones in sorted order; the signature is not modelled.
- Scan.ScanForApiKeys: agreement with the TypeScript version of the scan, which a comment claims, is not stated.
- HardenRun.HardenState: what the gateway, config, docker and network modules write is arbitrary text; lists of applied and skipped actions are not modelled. A failed copy or write leaves its target as it was, and file names are single path components.
- File permissions, ownership and directories themselves.
- SHA-256, ed25519, AES-GCM, key derivation and HMAC, and anchoring the audit log.
- HTTP routes, authentication, Cedar policies, Redis, Postgres, Neo4j, WebSockets, LLM providers, eBPF loading and the command line: plumbing around libraries.
- Scoring, compliance, metrics, baselines, seccomp profiles, the other audit checks and configuration types: flat computations that would only add easy members.
- The web dashboard.
