/**
 Two separately written extractions of a URL's host name
 (crates/secureops-checks/src/ioc.rs and memory_integrity.rs), and when they agree.
 */
module Hostname {
  import opened Basics

  /** The position of the first character that is one of `cs`. */
  function Find(s: string, cs: string): (r: Option<nat>)
    ensures r.Some? ==> r.value < |s| && s[r.value] in cs && forall i | 0 <= i < r.value :: s[i] !in cs
    ensures r.None? ==> forall i | 0 <= i < |s| :: s[i] !in cs
  {
    if s == "" then None
    else if s[0] in cs then Some(0)
    else
      match Find(s[1..], cs)
      case Some(i) => Some(i + 1)
      case None => None
  }

  /** The position of the last `c`. */
  function FindLast(s: string, c: char): (r: Option<nat>)
    ensures r.Some? ==> r.value < |s| && s[r.value] == c && forall i | r.value < i < |s| :: s[i] != c
    ensures r.None? ==> forall i | 0 <= i < |s| :: s[i] != c
  {
    if s == "" then None
    else if s[|s| - 1] == c then Some(|s| - 1)
    else FindLast(s[..|s| - 1], c)
  }

  /** The position of the first occurrence of `word` at or after `i`. */
  function FindWord(s: string, word: string, i: nat): (r: Option<nat>)
    requires i <= |s|
    ensures r.Some? ==> i <= r.value && OccursAt(s, word, r.value) && forall k | i <= k < r.value :: !OccursAt(s, word, k)
    ensures r.None? ==> forall k | i <= k <= |s| :: !OccursAt(s, word, k)
    decreases |s| - i
  {
    if OccursAt(s, word, i) then Some(i)
    else if i == |s| then None
    else FindWord(s, word, i + 1)
  }

  /** The first piece of a string split at any of `cs`. */
  function FirstPiece(s: string, cs: string): string {
    if s == "" || s[0] in cs then "" else [s[0]] + FirstPiece(s[1..], cs)
  }

  predicate IsAlpha(c: char) { 'a' <= c <= 'z' || 'A' <= c <= 'Z' }

  predicate IsSchemeChar(c: char) { IsAlpha(c) || '0' <= c <= '9' || c == '+' || c == '-' || c == '.' }

  predicate IsScheme(s: string) {
    s != "" && IsAlpha(s[0]) && forall i | 0 <= i < |s| :: IsSchemeChar(s[i])
  }

  function StripPrefix(s: string, prefix: string): Option<string> {
    if prefix <= s then Some(s[|prefix|..]) else None
  }

  /** Whatever follows the last `@`. */
  function WithoutUserinfo(authority: string): string {
    match FindLast(authority, '@')
    case Some(i) => authority[i + 1..]
    case None => authority
  }

  // ---------- ioc.rs ----------

  function IocHostPort(afterScheme: string): string {
    var end := match Find(afterScheme, "/?#") case Some(i) => i case None => |afterScheme|;
    WithoutUserinfo(afterScheme[..end])
  }

  function IocHost(hostPort: string): string {
    match StripPrefix(hostPort, "[")
    case Some(stripped) =>
      (match Find(stripped, "]")
       case Some(close) => hostPort[..close + 1]
       case None => hostPort)
    case None =>
      (match Find(hostPort, ":")
       case Some(colon) => hostPort[..colon]
       case None => hostPort)
  }

  /** Any scheme will do. `lower` is Unicode lower-casing. */
  function IocHostname(lower: string -> string, source: string): Option<string> {
    match FindWord(source, "://", 0)
    case None => None
    case Some(at) =>
      if !IsScheme(source[..at]) then None
      else
        var host := IocHost(IocHostPort(source[at + 3..]));
        if host == "" then None else Some(lower(host))
  }

  // ---------- memory_integrity.rs ----------

  function MemoryHostPort(afterScheme: string): string {
    WithoutUserinfo(FirstPiece(afterScheme, "/?#"))
  }

  function MemoryHost(hostPort: string): string {
    if hostPort != "" && hostPort[0] == '[' then
      match Find(hostPort, "]")
      case Some(end) => hostPort[..end + 1]
      case None => hostPort
    else
      match Find(hostPort, ":")
      case Some(i) => hostPort[..i]
      case None => hostPort
  }

  /** What follows `https://` or `http://`. */
  function AfterHttp(url: string): Option<string> {
    match StripPrefix(url, "https://")
    case Some(s) => Some(s)
    case None => StripPrefix(url, "http://")
  }

  function MemoryHostname(lower: string -> string, url: string): Option<string> {
    match AfterHttp(url)
    case None => None
    case Some(afterScheme) =>
      var host := MemoryHost(MemoryHostPort(afterScheme));
      if host == "" then None else Some(lower(host))
  }

  // ---------- when they agree ----------

  lemma {:induction false} FirstPieceIsUpToFind(s: string, cs: string)
    ensures FirstPiece(s, cs) == match Find(s, cs) case Some(i) => s[..i] case None => s
  {
    if s != "" && s[0] !in cs {
      FirstPieceIsUpToFind(s[1..], cs);
      assert s == [s[0]] + s[1..];
      match Find(s[1..], cs) {
        case Some(i) => assert s[..i + 1] == [s[0]] + s[1..][..i];
        case None =>
      }
    }
  }

  lemma HostPortsAgree(afterScheme: string)
    ensures IocHostPort(afterScheme) == MemoryHostPort(afterScheme)
  {
    FirstPieceIsUpToFind(afterScheme, "/?#");
    assert afterScheme[..|afterScheme|] == afterScheme;
  }

  lemma OccursFromStart(s: string, word: string, i: nat)
    requires word != ""
    ensures OccursAt(s, word, i) ==> s[i] == word[0]
  {
  }

  /** The first `://` of an http or https URL is the one after its scheme, which is well-formed. */
  lemma SchemeIsFirst(url: string)
    requires AfterHttp(url).Some?
    ensures var at := FindWord(url, "://", 0);
            at.Some? && IsScheme(url[..at.value]) && url[at.value + 3..] == AfterHttp(url).value
  {
    var n := if "https://" <= url then 5 else 4;
    var scheme := if n == 5 then "https" else "http";
    SchemeOf(url, n, scheme);
    hide FindWord;
    forall k | 0 <= k < n ensures !OccursAt(url, "://", k) {
      assert url[k] == url[..n][k] == scheme[k] != ':';
      OccursFromStart(url, "://", k);
    }
    WordIsFirst(url, "://", n);
  }

  lemma SchemeOf(url: string, n: nat, scheme: string)
    requires (n == 5 && scheme == "https" && "https://" <= url) || (n == 4 && scheme == "http" && "http://" <= url)
    ensures url[..n] == scheme && OccursAt(url, "://", n) && IsScheme(url[..n])
  {
  }

  lemma WordIsFirst(s: string, word: string, n: nat)
    requires OccursAt(s, word, n) && forall k | 0 <= k < n :: !OccursAt(s, word, k)
    ensures FindWord(s, word, 0) == Some(n)
  {
  }

  /** A bracketed IPv6 literal that is closed (section 3.2.2 of RFC 3986). */
  predicate IsClosedBracket(hostPort: string) {
    hostPort != "" && hostPort[0] == '[' && exists i | 0 <= i < |hostPort| :: hostPort[i] == ']'
  }

  /** Hosts differ exactly for closed brackets, and then by the bracket. */
  lemma HostsAgree(hostPort: string)
    ensures !IsClosedBracket(hostPort) ==> IocHost(hostPort) == MemoryHost(hostPort)
    ensures IsClosedBracket(hostPort) ==>
              IocHost(hostPort) != "" && MemoryHost(hostPort) == IocHost(hostPort) + "]"
  {
  }

  /** Lower-casing does not swallow a bracket. */
  ghost predicate KeepsBracket(lower: string -> string) {
    forall s :: lower(s + "]") != lower(s)
  }

  /**
   On http and https URLs the two functions agree unless the host is a closed bracketed literal, and
   then they never do.
   */
  lemma HostnamesAgree(lower: string -> string, url: string)
    requires AfterHttp(url).Some?
    ensures !IsClosedBracket(MemoryHostPort(AfterHttp(url).value)) ==>
              IocHostname(lower, url) == MemoryHostname(lower, url)
    ensures KeepsBracket(lower) && IsClosedBracket(MemoryHostPort(AfterHttp(url).value)) ==>
              IocHostname(lower, url) != MemoryHostname(lower, url)
  {
    var after := AfterHttp(url).value;
    SchemeIsFirst(url);
    HostPortsAgree(after);
    HostsAgree(MemoryHostPort(after));
    hide FindWord, AfterHttp, IocHost, MemoryHost, IocHostPort, MemoryHostPort, IsScheme, IsClosedBracket;
  }

  // ---------- what they extract ----------

  ghost predicate LacksAny(s: string, cs: string) {
    forall i | 0 <= i < |s| :: s[i] !in cs
  }

  ghost function UserPart(user: Option<string>): string {
    if user.Some? then user.value + "@" else ""
  }

  ghost function PortPart(port: Option<string>): string {
    if port.Some? then ":" + port.value else ""
  }

  lemma {:induction false} FirstPieceStops(head: string, tail: string, cs: string)
    requires LacksAny(head, cs) && (tail == "" || tail[0] in cs)
    ensures FirstPiece(head + tail, cs) == head
  {
    if head == "" {
      assert head + tail == tail;
    } else {
      FirstPieceStops(head[1..], tail, cs);
      assert (head + tail)[1..] == head[1..] + tail && (head + tail)[0] == head[0];
      assert head == [head[0]] + head[1..];
    }
  }

  lemma LastIsThere(s: string, c: char, i: nat)
    requires i < |s| && s[i] == c && forall k | i < k < |s| :: s[k] != c
    ensures FindLast(s, c) == Some(i)
  {
  }

  lemma UserinfoGoes(user: Option<string>, rest: string)
    requires LacksAny(rest, "@")
    ensures WithoutUserinfo(UserPart(user) + rest) == rest
  {
    hide FindLast;
    var s := UserPart(user) + rest;
    if user.Some? {
      var n := |user.value|;
      assert forall k | n < k < |s| :: s[k] == rest[k - n - 1];
      LastIsThere(s, '@', n);
      assert s[n + 1..] == rest;
    } else {
      assert s == rest;
    }
  }

  lemma PortGoes(host: string, port: Option<string>)
    requires host != "" && LacksAny(host, ":[")
    ensures MemoryHost(host + PortPart(port)) == host && !IsClosedBracket(host + PortPart(port))
  {
    var s := host + PortPart(port);
    assert s[0] == host[0];
    assert forall i | 0 <= i < |host| :: s[i] == host[i];
    if port.Some? {
      assert s[|host|] == ':';
      assert Find(s, ":") == Some(|host|);
      assert s[..|host|] == host;
    } else {
      assert s == host;
      assert Find(s, ":").None?;
    }
  }

  /** Whatever user, port and path surround it, both functions return the lower-cased host. */
  lemma ExtractsHost(lower: string -> string, secure: bool, user: Option<string>, host: string, port: Option<string>,
                     tail: string)
    requires host != "" && LacksAny(host, "/?#@:[")
    requires (user.Some? ==> LacksAny(user.value, "/?#")) && (port.Some? ==> LacksAny(port.value, "/?#@"))
    requires tail == "" || tail[0] in "/?#"
    ensures var url := (if secure then "https://" else "http://") + (UserPart(user) + (host + PortPart(port)) + tail);
            MemoryHostname(lower, url) == Some(lower(host)) && IocHostname(lower, url) == Some(lower(host))
  {
    var hostPort := host + PortPart(port);
    var authority := UserPart(user) + hostPort;
    var after := authority + tail;
    var url := (if secure then "https://" else "http://") + after;
    AfterIsThat(secure, after);
    FirstPieceStops(authority, tail, "/?#");
    UserinfoGoes(user, hostPort);
    PortGoes(host, port);
    hide AfterHttp, MemoryHost, WithoutUserinfo, FirstPiece, IsClosedBracket, IocHostname;
    HostnamesAgree(lower, url);
  }

  // ---------- any scheme ----------

  const ALPHA: seq<(char, char)> := [('a', 'z'), ('A', 'Z')]

  const SCHEME_CHARS: seq<(char, char)> := [('a', 'z'), ('A', 'Z'), ('0', '9'), ('+', '+'), ('-', '-'), ('.', '.')]

  /** Section 3.1 of RFC 3986. */
  ghost predicate IsRfcScheme(s: string) {
    s != "" && InRanges(s[0], ALPHA) && forall i | 0 <= i < |s| :: InRanges(s[i], SCHEME_CHARS)
  }

  lemma SchemeCharIff(c: char)
    ensures IsAlpha(c) <==> InRanges(c, ALPHA)
    ensures IsSchemeChar(c) <==> InRanges(c, SCHEME_CHARS)
  {
    var a, r := ALPHA, SCHEME_CHARS;
    assert a[0] == ('a', 'z') && a[1] == ('A', 'Z');
    assert r[0] == ('a', 'z') && r[1] == ('A', 'Z') && r[2] == ('0', '9');
    assert r[3] == ('+', '+') && r[4] == ('-', '-') && r[5] == ('.', '.');
  }

  lemma SchemeIff(s: string)
    ensures IsScheme(s) <==> IsRfcScheme(s)
  {
    hide InRanges, IsAlpha, IsSchemeChar;
    forall c ensures (IsAlpha(c) <==> InRanges(c, ALPHA)) && (IsSchemeChar(c) <==> InRanges(c, SCHEME_CHARS)) {
      SchemeCharIff(c);
    }
  }

  /** The first function finds a host only after a scheme. */
  lemma IocNeedsScheme(lower: string -> string, source: string)
    requires IocHostname(lower, source).Some?
    ensures exists scheme, after :: IsRfcScheme(scheme) && source == scheme + "://" + after
  {
    hide IsScheme, IsRfcScheme, IocHost, IocHostPort;
    var at := FindWord(source, "://", 0).value;
    SchemeIff(source[..at]);
    assert source == source[..at] + "://" + source[at + 3..];
  }

  /** And after any scheme, whatever user, port and path surround it, it returns the lower-cased host. */
  lemma IocExtractsHost(lower: string -> string, scheme: string, user: Option<string>, host: string, port: Option<string>,
                        tail: string)
    requires IsRfcScheme(scheme)
    requires host != "" && LacksAny(host, "/?#@:[")
    requires (user.Some? ==> LacksAny(user.value, "/?#")) && (port.Some? ==> LacksAny(port.value, "/?#@"))
    requires tail == "" || tail[0] in "/?#"
    ensures IocHostname(lower, scheme + "://" + (UserPart(user) + (host + PortPart(port)) + tail)) == Some(lower(host))
  {
    hide FindWord, IocHost, IocHostPort, IsScheme, IsRfcScheme, UserPart, PortPart, LacksAny;
    var after := UserPart(user) + (host + PortPart(port)) + tail;
    AfterScheme(scheme, after);
    HostPortIs(user, host + PortPart(port), tail, host, port);
    IocHostIs(host, port);
  }

  lemma HostPortIs(user: Option<string>, hostPort: string, tail: string, host: string, port: Option<string>)
    requires hostPort == host + PortPart(port) && LacksAny(host, "/?#@:[")
    requires (user.Some? ==> LacksAny(user.value, "/?#")) && (port.Some? ==> LacksAny(port.value, "/?#@"))
    requires tail == "" || tail[0] in "/?#"
    ensures IocHostPort(UserPart(user) + hostPort + tail) == hostPort
  {
    hide FirstPiece, WithoutUserinfo, IocHostPort;
    HostPortsAgree(UserPart(user) + hostPort + tail);
    FirstPieceStops(UserPart(user) + hostPort, tail, "/?#");
    UserinfoGoes(user, hostPort);
  }

  lemma IocHostIs(host: string, port: Option<string>)
    requires host != "" && LacksAny(host, "/?#@:[")
    ensures IocHost(host + PortPart(port)) == host
  {
    hide IocHost, MemoryHost, IsClosedBracket;
    PortGoes(host, port);
    HostsAgree(host + PortPart(port));
  }

  lemma AfterScheme(scheme: string, after: string)
    requires IsRfcScheme(scheme)
    ensures var source := scheme + "://" + after;
            && FindWord(source, "://", 0) == Some(|scheme|) && IsScheme(source[..|scheme|])
            && source[|scheme| + 3..] == after
  {
    var source := scheme + "://" + after;
    SchemeIff(scheme);
    hide FindWord, IsRfcScheme;
    assert source[..|scheme|] == scheme && source[|scheme|..|scheme| + 3] == "://" && source[|scheme| + 3..] == after;
    forall k | 0 <= k < |scheme| ensures !OccursAt(source, "://", k) {
      assert source[k] == scheme[k] && IsSchemeChar(scheme[k]);
      OccursFromStart(source, "://", k);
    }
    WordIsFirst(source, "://", |scheme|);
  }

  lemma AfterIsThat(secure: bool, after: string)
    ensures AfterHttp((if secure then "https://" else "http://") + after) == Some(after)
  {
    var url := (if secure then "https://" else "http://") + after;
    if secure {
      assert url[8..] == after;
    } else {
      assert url[7..] == after && url[4] == ':';
      assert !("https://" <= url);
    }
  }
}
