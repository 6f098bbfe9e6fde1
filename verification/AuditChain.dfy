/**
 The entries of the hash-chained, signed audit log, and what a chain of hashes proves about them
 (crates/secureops-auditlog/src/lib.rs). SHA-256, the canonical form of a payload, the signing
 backend and the line format of the file are parameters.
 */
module AuditChain {
  import opened Basics

  /** An event payload. */
  type Payload(==, !new)

  datatype LogEntry =
    LogEntry(index: nat, timestamp: string, prevHash: string, payload: Payload, hash: string, signature: string)

  /** `digest` is hexadecimal SHA-256; `canonical` is the serialized payload. */
  datatype Hasher = Hasher(digest: string -> string, canonical: Payload -> string)

  /** Signing and verifying may fail in the backend. */
  datatype Signer = Signer(sign: string -> Option<string>, verify: (string, string) -> Option<bool>)

  /** One entry per line of the file; blank lines are skipped after trimming. */
  datatype LineFormat =
    LineFormat(encode: LogEntry -> string, trim: string -> string, decode: string -> Option<LogEntry>)

  function Repeat(c: char, n: nat): (s: string)
    ensures |s| == n && forall i | 0 <= i < n :: s[i] == c
  {
    if n == 0 then "" else Repeat(c, n - 1) + [c]
  }

  const GENESIS: string := Repeat('0', 64)

  /** The genesis value: 32 zero bytes in hexadecimal. */
  lemma GenesisIsZeros()
    ensures |GENESIS| == 64 && forall i | 0 <= i < 64 :: GENESIS[i] == '0'
  {
  }

  /** Digests are 64 characters long, like the genesis value. */
  ghost predicate FixedLength(h: Hasher) {
    forall x :: |h.digest(x)| == 64
  }

  ghost predicate CanonicalIsFaithful(h: Hasher) {
    forall p, q :: h.canonical(p) == h.canonical(q) ==> p == q
  }

  ghost predicate Agree(s: Signer) {
    forall x :: s.sign(x).Some? ==> s.verify(x, s.sign(x).value) == Some(true)
  }

  ghost predicate ReadsBack(f: LineFormat) {
    forall e :: f.trim(f.encode(e)) != "" && f.decode(f.trim(f.encode(e))) == Some(e)
  }

  function Hashed(h: Hasher, e: LogEntry): string {
    e.prevHash + h.canonical(e.payload)
  }

  function ChainHash(h: Hasher, prevHash: string, payload: Payload): string {
    h.digest(prevHash + h.canonical(payload))
  }

  predicate RecomputeHashMatches(h: Hasher, e: LogEntry) {
    ChainHash(h, e.prevHash, e.payload) == e.hash
  }

  /** The hash of the last entry, or the genesis value. */
  function Head(entries: seq<LogEntry>): string {
    if entries == [] then GENESIS else entries[|entries| - 1].hash
  }

  /** Every entry commits to the one before it. */
  ghost predicate Linked(h: Hasher, entries: seq<LogEntry>) {
    forall i | 0 <= i < |entries| :: entries[i].prevHash == Head(entries[..i]) && RecomputeHashMatches(h, entries[i])
  }

  ghost predicate Numbered(entries: seq<LogEntry>) {
    forall i | 0 <= i < |entries| :: entries[i].index == i
  }

  ghost predicate Signed(s: Signer, entries: seq<LogEntry>) {
    forall i | 0 <= i < |entries| :: s.verify(entries[i].hash, entries[i].signature) == Some(true)
  }

  ghost predicate Verified(h: Hasher, s: Signer, entries: seq<LogEntry>) {
    Linked(h, entries) && Numbered(entries) && Signed(s, entries)
  }

  // ---------- the head fixes the log ----------

  ghost predicate SameChain(a: seq<LogEntry>, b: seq<LogEntry>) {
    && |a| == |b|
    && forall i | 0 <= i < |a| ::
         a[i].prevHash == b[i].prevHash && a[i].payload == b[i].payload && a[i].hash == b[i].hash
  }

  /** Two different texts, one hashed in each log, with the same digest. */
  ghost predicate Collision(h: Hasher, a: seq<LogEntry>, b: seq<LogEntry>) {
    exists i, j | 0 <= i < |a| && 0 <= j < |b| ::
      Hashed(h, a[i]) != Hashed(h, b[j]) && h.digest(Hashed(h, a[i])) == h.digest(Hashed(h, b[j]))
  }

  /** A text hashed in the log whose digest is the genesis value. */
  ghost predicate HitsGenesis(h: Hasher, a: seq<LogEntry>) {
    exists i | 0 <= i < |a| :: h.digest(Hashed(h, a[i])) == GENESIS
  }

  lemma LinkedPrefix(h: Hasher, a: seq<LogEntry>)
    requires Linked(h, a) && a != []
    ensures Linked(h, a[..|a| - 1]) && Head(a[..|a| - 1]) == a[|a| - 1].prevHash
    ensures h.digest(Hashed(h, a[|a| - 1])) == Head(a)
  {
  }

  lemma {:induction false} PrevHashLength(h: Hasher, a: seq<LogEntry>)
    requires FixedLength(h) && Linked(h, a)
    ensures |Head(a)| == 64
  {
  }

  /** The fixed length of the previous hash makes the hashed text unambiguous. */
  lemma SplitHashed(h: Hasher, d: LogEntry, e: LogEntry)
    requires |d.prevHash| == |e.prevHash| && Hashed(h, d) == Hashed(h, e) && CanonicalIsFaithful(h)
    ensures d.prevHash == e.prevHash && d.payload == e.payload
  {
    assert Hashed(h, d)[..|d.prevHash|] == d.prevHash && Hashed(h, e)[..|e.prevHash|] == e.prevHash;
    assert Hashed(h, d)[|d.prevHash|..] == h.canonical(d.payload);
    assert Hashed(h, e)[|e.prevHash|..] == h.canonical(e.payload);
  }

  /**
   Two linked logs with the same head are the same chain, or the logs themselves exhibit a
   collision of the digest or a text that hashes to the genesis value.
   */
  lemma {:induction false} HeadFixesLog(h: Hasher, a: seq<LogEntry>, b: seq<LogEntry>)
    requires FixedLength(h) && CanonicalIsFaithful(h)
    requires Linked(h, a) && Linked(h, b) && Head(a) == Head(b)
    ensures SameChain(a, b) || Collision(h, a, b) || HitsGenesis(h, a) || HitsGenesis(h, b)
    ensures |a| == |b| ==> SameChain(a, b) || Collision(h, a, b)
    decreases |a|, 1
  {
    hide Repeat, Linked, Collision, FixedLength, CanonicalIsFaithful;
    if a == [] && b == [] {
    } else if a == [] {
      LinkedPrefix(h, b);
      assert h.digest(Hashed(h, b[|b| - 1])) == GENESIS;
    } else if b == [] {
      LinkedPrefix(h, a);
      assert h.digest(Hashed(h, a[|a| - 1])) == GENESIS;
    } else {
      LinkedPrefix(h, a);
      LinkedPrefix(h, b);
      HeadFixesStep(h, a, b);
    }
  }

  lemma {:induction false} HeadFixesStep(h: Hasher, a: seq<LogEntry>, b: seq<LogEntry>)
    requires FixedLength(h) && CanonicalIsFaithful(h) && a != [] && b != []
    requires Linked(h, a[..|a| - 1]) && Linked(h, b[..|b| - 1]) && Head(a) == Head(b)
    requires Head(a[..|a| - 1]) == a[|a| - 1].prevHash && Head(b[..|b| - 1]) == b[|b| - 1].prevHash
    requires h.digest(Hashed(h, a[|a| - 1])) == Head(a) && h.digest(Hashed(h, b[|b| - 1])) == Head(b)
    requires a[|a| - 1].hash == b[|b| - 1].hash
    ensures SameChain(a, b) || Collision(h, a, b) || HitsGenesis(h, a) || HitsGenesis(h, b)
    ensures |a| == |b| ==> SameChain(a, b) || Collision(h, a, b)
    decreases |a|, 0
  {
    hide Repeat, Linked, Head, FixedLength, CanonicalIsFaithful, HitsGenesis, Collision, SameChain, Hashed;
    var inA, inB, d, e := a[..|a| - 1], b[..|b| - 1], a[|a| - 1], b[|b| - 1];
    if Hashed(h, d) == Hashed(h, e) {
      PrevHashLength(h, inA);
      PrevHashLength(h, inB);
      SplitHashed(h, d, e);
      HeadFixesLog(h, inA, inB);
      SubLogs(h, a, b);
      if SameChain(inA, inB) {
        SameExtended(a, b);
      }
    } else {
      LastCollide(h, a, b);
    }
  }

  lemma SameExtended(a: seq<LogEntry>, b: seq<LogEntry>)
    requires a != [] && b != [] && SameChain(a[..|a| - 1], b[..|b| - 1])
    requires var d, e := a[|a| - 1], b[|b| - 1];
             d.prevHash == e.prevHash && d.payload == e.payload && d.hash == e.hash
    ensures SameChain(a, b)
  {
  }

  lemma LastCollide(h: Hasher, a: seq<LogEntry>, b: seq<LogEntry>)
    requires a != [] && b != []
    requires var x, y := Hashed(h, a[|a| - 1]), Hashed(h, b[|b| - 1]); x != y && h.digest(x) == h.digest(y)
    ensures Collision(h, a, b)
  {
  }

  lemma SubLogs(h: Hasher, a: seq<LogEntry>, b: seq<LogEntry>)
    requires a != [] && b != []
    ensures Collision(h, a[..|a| - 1], b[..|b| - 1]) ==> Collision(h, a, b)
    ensures HitsGenesis(h, a[..|a| - 1]) ==> HitsGenesis(h, a)
    ensures HitsGenesis(h, b[..|b| - 1]) ==> HitsGenesis(h, b)
  {
  }

  lemma {:induction false} LinkedUpTo(h: Hasher, a: seq<LogEntry>, n: nat)
    requires Linked(h, a) && n <= |a|
    ensures Linked(h, a[..n])
    decreases |a| - n
  {
    hide Linked;
    if n == |a| {
      assert a[..n] == a;
    } else {
      LinkedUpTo(h, a, n + 1);
      LinkedPrefix(h, a[..n + 1]);
      assert a[..n + 1][..n] == a[..n];
    }
  }

  /** An edit is noticed: a changed payload under an unchanged later hash exhibits a collision. */
  lemma EditIsNoticed(h: Hasher, a: seq<LogEntry>, b: seq<LogEntry>, k: nat, j: nat)
    requires FixedLength(h) && CanonicalIsFaithful(h) && Linked(h, a) && Linked(h, b)
    requires k <= j < |a| && j < |b| && a[j].hash == b[j].hash
    requires a[k].payload != b[k].payload || a[k].prevHash != b[k].prevHash || a[k].hash != b[k].hash
    ensures Collision(h, a, b)
  {
    hide Linked, FixedLength, CanonicalIsFaithful, Collision;
    LinkedUpTo(h, a, j + 1);
    LinkedUpTo(h, b, j + 1);
    HeadFixesLog(h, a[..j + 1], b[..j + 1]);
    assert a[..j + 1][k] == a[k] && b[..j + 1][k] == b[k];
    CollisionGrows(h, a, b, j + 1);
  }

  lemma CollisionGrows(h: Hasher, a: seq<LogEntry>, b: seq<LogEntry>, n: nat)
    requires n <= |a| && n <= |b|
    ensures Collision(h, a[..n], b[..n]) ==> Collision(h, a, b)
  {
  }

  ghost predicate MadeOf(b: seq<LogEntry>, a: seq<LogEntry>) {
    forall i | 0 <= i < |b| :: b[i] in a
  }

  /**
   Whatever is deleted, repeated or reordered in a verified log, the result verifies if and only if
   it is the log cut off at some point.
   */
  lemma RearrangingIsNoticed(h: Hasher, s: Signer, a: seq<LogEntry>, b: seq<LogEntry>)
    requires Verified(h, s, a) && MadeOf(b, a)
    ensures Verified(h, s, b) <==> b <= a
  {
    hide Linked, Signed;
    if Numbered(b) {
      NumberedIsPrefix(a, b);
    }
    if b <= a {
      assert a[..|b|] == b;
      LinkedUpTo(h, a, |b|);
      SignedUpTo(s, a, |b|);
    }
  }

  lemma NumberedIsPrefix(a: seq<LogEntry>, b: seq<LogEntry>)
    requires Numbered(a) && Numbered(b) && MadeOf(b, a)
    ensures b <= a
  {
    forall i | 0 <= i < |b| ensures i < |a| && b[i] == a[i] {
      assert b[i] in a;
      var j :| 0 <= j < |a| && a[j] == b[i];
    }
    if b != [] {
      var last := b[|b| - 1];
      assert |b| - 1 < |a|;
    }
  }

  lemma SignedUpTo(s: Signer, a: seq<LogEntry>, n: nat)
    requires Signed(s, a) && n <= |a|
    ensures Signed(s, a[..n])
  {
  }

  /** Deleting one entry is noticed, unless it is the last one. */
  lemma DeletionIsNoticed(h: Hasher, s: Signer, entries: seq<LogEntry>, k: nat)
    requires Verified(h, s, entries) && k < |entries|
    ensures Verified(h, s, entries[..k] + entries[k + 1..]) <==> k == |entries| - 1
  {
    hide Verified;
    var cut := entries[..k] + entries[k + 1..];
    RearrangingIsNoticed(h, s, entries, cut);
    if k < |entries| - 1 {
      NotAPrefix(h, s, entries, k);
    }
  }

  lemma NotAPrefix(h: Hasher, s: Signer, entries: seq<LogEntry>, k: nat)
    requires Verified(h, s, entries) && k + 1 < |entries|
    ensures !(entries[..k] + entries[k + 1..] <= entries)
  {
    hide Linked, Signed;
    assert (entries[..k] + entries[k + 1..])[k] == entries[k + 1];
  }
}
