/** The patterns by which the auditor finds API keys (crates/secureops-checks/src/patterns.rs). */
module Patterns {
  import opened Basics

  /** `[a-zA-Z0-9_-]` */
  const TOKEN_CLASS: seq<(char, char)> := [('a', 'z'), ('A', 'Z'), ('0', '9'), ('_', '_'), ('-', '-')]

  /** What each pattern starts with; at least twenty characters of the class follow. */
  const API_KEY_PATTERNS: seq<string> := ["sk-ant-", "sk-proj-", "sk-", "xoxb-", "xoxp-"]

  /** The pattern `<literal>[a-zA-Z0-9_-]{20,}` matches at position `i`. */
  predicate IsMatchAt(s: string, literal: string, i: nat) {
    && OccursAt(s, literal, i)
    && i + |literal| + 20 <= |s|
    && forall k | i + |literal| <= k < i + |literal| + 20 :: InRanges(s[k], TOKEN_CLASS)
  }

  /** Some pattern matches somewhere. */
  predicate HasKey(s: string) {
    exists k, i | 0 <= k < |API_KEY_PATTERNS| && 0 <= i <= |s| :: IsMatchAt(s, API_KEY_PATTERNS[k], i)
  }
}
