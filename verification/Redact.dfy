/**
 Replacing API keys in agent memory files (crates/secureops-harden/src/credential_hardening.rs),
 against the patterns the auditor looks for (crates/secureops-checks/src/patterns.rs).
 */
module Redact {
  import opened Basics
  import Patterns

  const PREFIXES: seq<string> := ["sk-ant-", "sk-proj-", "sk-", "xoxb-", "xoxp-"]

  const REDACTED: string := "[REDACTED_BY_SECUREOPS]"

  /** `[a-zA-Z0-9_-]` */
  predicate IsTokenChar(c: char) {
    'a' <= c <= 'z' || 'A' <= c <= 'Z' || '0' <= c <= '9' || c == '_' || c == '-'
  }

  ghost predicate AllTokens(s: string) {
    forall i | 0 <= i < |s| :: IsTokenChar(s[i])
  }

  // ---------- what the redactor takes for a key ----------

  /** The prefix and at least twenty token characters are at position `i`. */
  predicate MatchesAt(s: string, prefix: string, i: nat) {
    && i + |prefix| + 20 <= |s|
    && s[i..i + |prefix|] == prefix
    && forall k | i + |prefix| <= k < i + |prefix| + 20 :: IsTokenChar(s[k])
  }

  predicate Matches(s: string, prefix: string) {
    exists i | 0 <= i <= |s| :: MatchesAt(s, prefix, i)
  }

  /** There is something to replace. */
  predicate HasOwnKey(s: string) {
    exists k | 0 <= k < |PREFIXES| :: Matches(s, PREFIXES[k])
  }

  // ---------- one pass ----------

  function RunEnd(s: string, i: nat): (j: nat)
    requires i <= |s|
    ensures i <= j <= |s| && (j < |s| ==> !IsTokenChar(s[j]))
    ensures forall k | i <= k < j :: IsTokenChar(s[k])
    decreases |s| - i
  {
    if i < |s| && IsTokenChar(s[i]) then RunEnd(s, i + 1) else i
  }

  /** What one pass makes of the text from `i` on. */
  function RedactFrom(s: string, prefix: string, i: nat): string
    requires i <= |s|
    decreases |s| - i
  {
    if i == |s| then ""
    else if OccursAt(s, prefix, i) && RunEnd(s, i + |prefix|) - (i + |prefix|) >= 20 then
      REDACTED + RedactFrom(s, prefix, RunEnd(s, i + |prefix|))
    else [s[i]] + RedactFrom(s, prefix, i + 1)
  }

  /** The inner loop of a pass: count token characters. */
  method SkipRun(input: string, runStart: nat) returns (j: nat)
    requires runStart <= |input|
    ensures j == RunEnd(input, runStart)
  {
    j := runStart;
    while j < |input| && IsTokenChar(input[j])
      invariant runStart <= j <= |input|
      invariant RunEnd(input, j) == RunEnd(input, runStart)
    {
      j := j + 1;
    }
  }

  method RedactOne(input: string, prefix: string) returns (out: string)
    ensures out == RedactFrom(input, prefix, 0)
  {
    hide RunEnd, RedactFrom;
    RedactEnds(input, prefix);
    out := "";
    var i := 0;
    while i < |input|
      invariant i <= |input|
      invariant out + RedactFrom(input, prefix, i) == RedactFrom(input, prefix, 0)
      decreases |input| - i
    {
      RedactUnfolds(input, prefix, i);
      if OccursAt(input, prefix, i) {
        var runStart := i + |prefix|;
        var j := SkipRun(input, runStart);
        if j - runStart >= 20 {
          Push(out, REDACTED, RedactFrom(input, prefix, j));
          out := out + REDACTED;
          i := j;
          continue;
        }
      }
      Push(out, [input[i]], RedactFrom(input, prefix, i + 1));
      out := out + [input[i]];
      i := i + 1;
    }
  }

  lemma RedactEnds(s: string, prefix: string)
    ensures RedactFrom(s, prefix, |s|) == ""
  {
  }

  lemma RedactUnfolds(s: string, prefix: string, i: nat)
    requires i < |s|
    ensures RedactFrom(s, prefix, i) ==
            if OccursAt(s, prefix, i) && RunEnd(s, i + |prefix|) - (i + |prefix|) >= 20
            then REDACTED + RedactFrom(s, prefix, RunEnd(s, i + |prefix|))
            else [s[i]] + RedactFrom(s, prefix, i + 1)
  {
  }

  /** Either the next character is copied, or the output goes on with the marker. */
  lemma CopiedOrMarked(s: string, prefix: string, i: nat)
    requires i < |s|
    ensures var out := RedactFrom(s, prefix, i);
            && (out == [s[i]] + RedactFrom(s, prefix, i + 1) || (out != "" && out[0] == '['))
            && (MatchesAt(s, prefix, i) ==> out != "" && out[0] == '[')
  {
  }

  lemma Push(out: string, piece: string, rest: string)
    ensures (out + piece) + rest == out + (piece + rest)
  {
  }

  // ---------- all passes ----------

  function RedactUpTo(s: string, n: nat): string
    requires n <= |PREFIXES|
  {
    if n == 0 then s else RedactFrom(RedactUpTo(s, n - 1), PREFIXES[n - 1], 0)
  }

  function Redacted(s: string): string {
    RedactUpTo(s, |PREFIXES|)
  }

  method RedactApiKeys(content: string) returns (redacted: string)
    ensures redacted == Redacted(content)
    ensures !Patterns.HasKey(redacted)
    ensures !Patterns.HasKey(content) ==> redacted == content
  {
    redacted := content;
    for n := 0 to |PREFIXES|
      invariant redacted == RedactUpTo(content, n)
    {
      redacted := RedactOne(redacted, PREFIXES[n]);
    }
    LeavesNoKey(content);
    KeepsCleanText(content);
  }

  // ---------- no pass creates a match, and each removes its own ----------

  /** Token characters at the front of the output were copied from the same place of the input. */
  lemma {:induction false} TokensAreCopied(s: string, prefix: string, i: nat, n: nat)
    requires i <= |s| && n <= |RedactFrom(s, prefix, i)|
    requires AllTokens(RedactFrom(s, prefix, i)[..n])
    ensures i + n <= |s| && RedactFrom(s, prefix, i)[..n] == s[i..i + n]
    decreases n
  {
    hide RedactFrom;
    RedactEnds(s, prefix);
    if n == 0 {
    } else {
      var out := RedactFrom(s, prefix, i);
      CopiedOrMarked(s, prefix, i);
      assert IsTokenChar(out[..n][0]);
      var rest := RedactFrom(s, prefix, i + 1);
      assert out[..n] == [s[i]] + rest[..n - 1];
      TokensAfterFirst(s[i], rest[..n - 1]);
      TokensAreCopied(s, prefix, i + 1, n - 1);
    }
  }

  lemma TokensAfterFirst(c: char, s: string)
    requires AllTokens([c] + s)
    ensures AllTokens(s)
  {
    assert forall k | 0 <= k < |s| :: s[k] == ([c] + s)[k + 1];
  }

  lemma MatchIsTokens(s: string, q: string, m: nat)
    requires AllTokens(q) && MatchesAt(s, q, m)
    ensures AllTokens(s[m..m + |q| + 20])
  {
    forall k | m <= k < m + |q| + 20 ensures IsTokenChar(s[k]) {
      if k < m + |q| {
        assert s[m..m + |q|][k - m] == q[k - m];
      }
    }
  }

  /** A match at the front of the output was a match in the input, and not of the pass's own prefix. */
  lemma FrontMatchIsOld(s: string, prefix: string, i: nat, q: string)
    requires i <= |s| && AllTokens(q)
    requires MatchesAt(RedactFrom(s, prefix, i), q, 0)
    ensures MatchesAt(s, q, i) && q != prefix
  {
    hide RedactFrom;
    var out, n := RedactFrom(s, prefix, i), |q| + 20;
    MatchIsTokens(out, q, 0);
    assert out[0..n] == out[..n];
    TokensAreCopied(s, prefix, i, n);
    MatchIsCopied(s, out, q, i);
    assert IsTokenChar(out[..n][0]);
    if q == prefix {
      CopiedOrMarked(s, prefix, i);
    }
  }

  lemma MatchIsCopied(s: string, out: string, q: string, i: nat)
    requires MatchesAt(out, q, 0) && i + |q| + 20 <= |s| && out[..|q| + 20] == s[i..i + |q| + 20]
    ensures MatchesAt(s, q, i)
  {
  }

  lemma MatchMoves(front: string, back: string, q: string, m: nat)
    requires |front| <= m
    ensures MatchesAt(front + back, q, m) ==> MatchesAt(back, q, m - |front|)
  {
    var s := front + back;
    if MatchesAt(s, q, m) {
      assert s[m..m + |q|] == back[m - |front|..m - |front| + |q|];
      forall k | m - |front| + |q| <= k < m - |front| + |q| + 20 ensures IsTokenChar(back[k]) {
        assert back[k] == s[k + |front|];
      }
    }
  }

  lemma {:induction false} MatchIsOld(s: string, prefix: string, i: nat, q: string, m: nat)
    requires i <= |s| && AllTokens(q) && |q| >= 3
    requires MatchesAt(RedactFrom(s, prefix, i), q, m)
    ensures q != prefix && exists k | i <= k <= |s| :: MatchesAt(s, q, k)
    decreases |s| - i
  {
    hide MatchesAt;
    var out := RedactFrom(s, prefix, i);
    MatchNeedsRoom(out, q, m);
    if m == 0 {
      FrontMatchIsOld(s, prefix, i, q);
    } else if OccursAt(s, prefix, i) && RunEnd(s, i + |prefix|) - (i + |prefix|) >= 20 {
      var j := RunEnd(s, i + |prefix|);
      NoMatchInMarker(RedactFrom(s, prefix, j), q, m);
      MatchMoves(REDACTED, RedactFrom(s, prefix, j), q, m);
      MatchIsOld(s, prefix, j, q, m - |REDACTED|);
    } else {
      MatchMoves([s[i]], RedactFrom(s, prefix, i + 1), q, m);
      MatchIsOld(s, prefix, i + 1, q, m - 1);
    }
  }

  lemma MatchNeedsRoom(s: string, q: string, m: nat)
    requires MatchesAt(s, q, m)
    ensures m + |q| + 20 <= |s|
  {
  }

  /** A match is too long to fit between the brackets of the marker. */
  lemma NoMatchInMarker(back: string, q: string, m: nat)
    requires AllTokens(q) && |q| >= 3 && MatchesAt(REDACTED + back, q, m)
    ensures m >= |REDACTED|
  {
    var s := REDACTED + back;
    assert s[22] == ']' && |REDACTED| == 23;
    MatchIsTokens(s, q, m);
    assert forall k | m <= k < m + |q| + 20 :: s[k] == s[m..m + |q| + 20][k - m];
  }

  lemma PrefixesAreTokens(k: nat)
    requires k < |PREFIXES|
    ensures AllTokens(PREFIXES[k]) && |PREFIXES[k]| >= 3
  {
  }

  /** A pass removes every match of its own prefix and creates none of any other. */
  lemma PassRemoves(s: string, prefix: string, q: string)
    requires AllTokens(q) && |q| >= 3
    ensures Matches(RedactFrom(s, prefix, 0), q) ==> Matches(s, q) && q != prefix
  {
    var out := RedactFrom(s, prefix, 0);
    if Matches(out, q) {
      var m :| 0 <= m <= |out| && MatchesAt(out, q, m);
      MatchIsOld(s, prefix, 0, q, m);
    }
  }

  lemma {:induction false} PassesRemove(s: string, n: nat, k: nat)
    requires k < |PREFIXES| && n <= |PREFIXES|
    ensures k < n ==> !Matches(RedactUpTo(s, n), PREFIXES[k])
    ensures Matches(RedactUpTo(s, n), PREFIXES[k]) ==> Matches(s, PREFIXES[k])
  {
    hide Matches, RedactFrom;
    if n == 0 {
    } else {
      PassesRemove(s, n - 1, k);
      PrefixesAreTokens(k);
      PrefixesAreTokens(n - 1);
      PassRemoves(RedactUpTo(s, n - 1), PREFIXES[n - 1], PREFIXES[k]);
    }
  }

  // ---------- the auditor's patterns are the redactor's ----------

  lemma SameClass(c: char)
    ensures IsTokenChar(c) <==> InRanges(c, Patterns.TOKEN_CLASS)
  {
    var r := Patterns.TOKEN_CLASS;
    assert r[0] == ('a', 'z') && r[1] == ('A', 'Z') && r[2] == ('0', '9') && r[3] == ('_', '_') && r[4] == ('-', '-');
  }

  lemma SameMatch(s: string, literal: string, i: nat)
    ensures MatchesAt(s, literal, i) <==> Patterns.IsMatchAt(s, literal, i)
  {
    hide IsTokenChar, InRanges;
    forall c ensures IsTokenChar(c) <==> InRanges(c, Patterns.TOKEN_CLASS) {
      SameClass(c);
    }
  }

  lemma SamePrefixes()
    ensures PREFIXES == Patterns.API_KEY_PATTERNS
  {
  }

  /** The two tables, written apart, say the same: the auditor finds a key where there is one to replace. */
  lemma AuditorAgrees(s: string)
    ensures Patterns.HasKey(s) <==> HasOwnKey(s)
  {
    hide MatchesAt, Patterns.IsMatchAt, PREFIXES, Patterns.API_KEY_PATTERNS;
    SamePrefixes();
    forall literal, i: nat ensures MatchesAt(s, literal, i) <==> Patterns.IsMatchAt(s, literal, i) {
      SameMatch(s, literal, i);
    }
    if Patterns.HasKey(s) {
      var k, i :| 0 <= k < |Patterns.API_KEY_PATTERNS| && 0 <= i <= |s| &&
                  Patterns.IsMatchAt(s, Patterns.API_KEY_PATTERNS[k], i);
      assert MatchesAt(s, PREFIXES[k], i);
    }
    if HasOwnKey(s) {
      var k :| 0 <= k < |PREFIXES| && Matches(s, PREFIXES[k]);
      var i :| 0 <= i <= |s| && MatchesAt(s, PREFIXES[k], i);
      assert Patterns.IsMatchAt(s, Patterns.API_KEY_PATTERNS[k], i);
    }
  }

  lemma LeavesNothing(s: string)
    ensures !HasOwnKey(Redacted(s))
  {
    forall k | 0 <= k < |PREFIXES| ensures !Matches(Redacted(s), PREFIXES[k]) {
      PassesRemove(s, |PREFIXES|, k);
    }
  }

  /** Whatever the text, nothing the auditor looks for is left. */
  lemma LeavesNoKey(s: string)
    ensures !Patterns.HasKey(Redacted(s))
  {
    LeavesNothing(s);
    AuditorAgrees(Redacted(s));
  }

  // ---------- what is no key stays ----------

  lemma {:induction false} PassKeeps(s: string, prefix: string, i: nat)
    requires i <= |s| && !Matches(s, prefix)
    ensures RedactFrom(s, prefix, i) == s[i..]
    decreases |s| - i
  {
    if i < |s| {
      PassKeeps(s, prefix, i + 1);
      assert s[i..] == [s[i]] + s[i + 1..];
      assert !MatchesAt(s, prefix, i);
    }
  }

  lemma NoMatchWithoutKey(s: string, k: nat)
    requires k < |PREFIXES| && !HasOwnKey(s)
    ensures !Matches(s, PREFIXES[k])
  {
  }

  lemma {:induction false} PassesKeep(s: string, n: nat)
    requires n <= |PREFIXES| && !HasOwnKey(s)
    ensures RedactUpTo(s, n) == s
  {
    hide Matches, RedactFrom, HasOwnKey;
    if n == 0 {
    } else {
      PassesKeep(s, n - 1);
      PrefixesAreTokens(n - 1);
      NoMatchWithoutKey(s, n - 1);
      PassKeeps(s, PREFIXES[n - 1], 0);
      assert s[0..] == s;
    }
  }

  /** Text in which the auditor finds no key is unchanged. */
  lemma KeepsCleanText(s: string)
    ensures !Patterns.HasKey(s) ==> Redacted(s) == s
  {
    AuditorAgrees(s);
    if !HasOwnKey(s) {
      PassesKeep(s, |PREFIXES|);
    }
  }

  /** Redacting twice is redacting once. */
  lemma RedactIsIdempotent(s: string)
    ensures Redacted(Redacted(s)) == Redacted(s)
  {
    LeavesNoKey(s);
    KeepsCleanText(Redacted(s));
  }

  // ---------- exactly the keys are replaced ----------

  /** A text cut into single characters that stay and keys that are replaced. */
  datatype Piece = Kept(c: char) | Key(run: string)

  ghost function Source(prefix: string, cut: seq<Piece>): string {
    if cut == [] then "" else (if cut[0].Kept? then [cut[0].c] else prefix + cut[0].run) + Source(prefix, cut[1..])
  }

  ghost function Shown(cut: seq<Piece>): string {
    if cut == [] then "" else (if cut[0].Kept? then [cut[0].c] else "[REDACTED_BY_SECUREOPS]") + Shown(cut[1..])
  }

  ghost predicate StartsWithToken(s: string) {
    s != "" && IsTokenChar(s[0])
  }

  /** Keys are as long as they can be, and what stays does not start one. */
  ghost predicate IsCut(prefix: string, cut: seq<Piece>) {
    cut == [] ||
    (&& IsCut(prefix, cut[1..])
     && (cut[0].Kept? ==> !MatchesAt(Source(prefix, cut), prefix, 0))
     && (cut[0].Key? ==> |cut[0].run| >= 20 && AllTokens(cut[0].run) && !StartsWithToken(Source(prefix, cut[1..]))))
  }

  lemma {:induction false} RunEndsHere(s: string, run: string, rest: string, i: nat)
    requires i + |run| <= |s| && s[i..] == run + rest && AllTokens(run) && !StartsWithToken(rest)
    ensures RunEnd(s, i) == i + |run|
    decreases |run|
  {
    if run == "" {
      assert i < |s| ==> s[i] == s[i..][0];
    } else {
      assert s[i] == s[i..][0] == run[0];
      assert s[i + 1..] == run[1..] + rest;
      RunEndsHere(s, run[1..], rest, i + 1);
    }
  }

  lemma MatchShifts(s: string, prefix: string, i: nat)
    requires i <= |s|
    ensures MatchesAt(s[i..], prefix, 0) <==> MatchesAt(s, prefix, i)
  {
  }

  lemma MatchIsRun(s: string, prefix: string, i: nat)
    requires i <= |s|
    ensures MatchesAt(s, prefix, i) <==>
            OccursAt(s, prefix, i) && RunEnd(s, i + |prefix|) - (i + |prefix|) >= 20
  {
  }

  /** A pass shows exactly what a cut of the text shows. */
  lemma {:induction false} PassShowsCut(s: string, prefix: string, i: nat, cut: seq<Piece>)
    requires i <= |s| && IsCut(prefix, cut) && s[i..] == Source(prefix, cut)
    ensures RedactFrom(s, prefix, i) == Shown(cut)
    decreases |cut|
  {
    hide *;
    if cut == [] {
      NothingCut(prefix);
      RedactEnds(s, prefix);
    } else {
      var rest := Source(prefix, cut[1..]);
      CutUnfolds(prefix, cut);
      if cut[0].Kept? {
        MatchShifts(s, prefix, i);
        OneCharAhead(s, i, cut[0].c, rest);
        StepsOver(s, prefix, i);
        PassShowsCut(s, prefix, i + 1, cut[1..]);
      } else {
        KeyIsFound(s, prefix, i, cut[0].run, rest);
        RedactUnfolds(s, prefix, i);
        PassShowsCut(s, prefix, i + |prefix| + |cut[0].run|, cut[1..]);
      }
    }
  }

  lemma NothingCut(prefix: string)
    ensures Source(prefix, []) == "" && Shown([]) == ""
  {
  }

  lemma CutUnfolds(prefix: string, cut: seq<Piece>)
    requires cut != [] && IsCut(prefix, cut)
    ensures IsCut(prefix, cut[1..])
    ensures cut[0].Kept? ==>
              && Source(prefix, cut) == [cut[0].c] + Source(prefix, cut[1..])
              && Shown(cut) == [cut[0].c] + Shown(cut[1..]) && !MatchesAt(Source(prefix, cut), prefix, 0)
    ensures cut[0].Key? ==>
              && Source(prefix, cut) == prefix + cut[0].run + Source(prefix, cut[1..])
              && Shown(cut) == REDACTED + Shown(cut[1..])
              && |cut[0].run| >= 20 && AllTokens(cut[0].run) && !StartsWithToken(Source(prefix, cut[1..]))
  {
    hide MatchesAt, AllTokens, StartsWithToken;
  }

  lemma StepsOver(s: string, prefix: string, i: nat)
    requires i < |s| && !MatchesAt(s, prefix, i)
    ensures RedactFrom(s, prefix, i) == [s[i]] + RedactFrom(s, prefix, i + 1)
  {
    hide MatchesAt, RunEnd, OccursAt, RedactFrom;
    MatchIsRun(s, prefix, i);
    RedactUnfolds(s, prefix, i);
  }

  lemma OneCharAhead(s: string, i: nat, c: char, rest: string)
    requires i <= |s| && s[i..] == [c] + rest
    ensures i < |s| && s[i] == c && s[i + 1..] == rest
  {
  }

  lemma KeyIsFound(s: string, prefix: string, i: nat, run: string, rest: string)
    requires i <= |s| && s[i..] == prefix + run + rest && AllTokens(run) && !StartsWithToken(rest)
    ensures OccursAt(s, prefix, i) && RunEnd(s, i + |prefix|) == i + |prefix| + |run|
    ensures i + |prefix| + |run| <= |s| && s[i + |prefix| + |run|..] == rest
  {
    var t := s[i..];
    assert s[i..i + |prefix|] == t[..|prefix|] == prefix;
    assert s[i + |prefix|..] == t[|prefix|..] == run + rest;
    RunEndsHere(s, run, rest, i + |prefix|);
    assert s[i + |prefix| + |run|..] == s[i + |prefix|..][|run|..] == rest;
  }

  lemma KeySplitsOff(s: string, prefix: string, i: nat, j: nat)
    requires i + |prefix| <= j <= |s| && OccursAt(s, prefix, i)
    ensures s[i..] == prefix + s[i + |prefix|..j] + s[j..]
  {
  }

  lemma CharSplitsOff(s: string, i: nat)
    requires i < |s|
    ensures s[i..] == [s[i]] + s[i + 1..]
  {
  }

  /** Every text has a cut. */
  lemma {:induction false} CutExists(s: string, prefix: string, i: nat) returns (cut: seq<Piece>)
    requires i <= |s|
    ensures IsCut(prefix, cut) && s[i..] == Source(prefix, cut)
    decreases |s| - i
  {
    hide MatchesAt, RunEnd, OccursAt;
    MatchIsRun(s, prefix, i);
    MatchShifts(s, prefix, i);
    if i == |s| {
      cut := [];
    } else if MatchesAt(s, prefix, i) {
      PrefixHasRoom(s, prefix, i);
      var j := RunEnd(s, i + |prefix|);
      var more := CutExists(s, prefix, j);
      cut := [Key(s[i + |prefix|..j])] + more;
      assert cut[1..] == more;
      KeySplitsOff(s, prefix, i, j);
    } else {
      var more := CutExists(s, prefix, i + 1);
      cut := [Kept(s[i])] + more;
      assert cut[1..] == more;
      CharSplitsOff(s, i);
    }
  }

  lemma PrefixHasRoom(s: string, prefix: string, i: nat)
    requires OccursAt(s, prefix, i)
    ensures i + |prefix| <= |s|
  {
  }
}
