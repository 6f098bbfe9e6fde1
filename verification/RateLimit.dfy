/**
 The fixed-window rate limiter of the HTTP API (crates/secureops-api/src/ratelimit.rs). The clock
 is a parameter; counters are 32 bits wide and wrap.
 */
module RateLimit {
  import opened Basics

  const WRAP: nat := 0x1_0000_0000
  const CLEANUP_THRESHOLD: nat := 100_000

  datatype Window = Window(start: int, count: nat)

  type Windows = map<string, Window>

  /** A request counted under `key` with the given budget. */
  datatype Hit = Hit(key: string, limit: nat, at: int)

  // ---------- one hit ----------

  /** The window a hit at `now` falls into, with the hit counted. */
  function Next(width: int, w: Option<Window>, now: int): Window {
    var cur := if w.None? || now - w.value.start >= width then Window(now, 0) else w.value;
    Window(cur.start, (cur.count + 1) % WRAP)
  }

  function Lookup(windows: Windows, key: string): Option<Window> {
    if key in windows then Some(windows[key]) else None
  }

  function Cleaned(width: int, windows: Windows, now: int): Windows {
    if |windows| > CLEANUP_THRESHOLD then map k | k in windows && now - windows[k].start < width :: windows[k]
    else windows
  }

  function WindowsNext(width: int, windows: Windows, hit: Hit): Windows {
    var kept := Cleaned(width, windows, hit.at);
    kept[hit.key := Next(width, Lookup(kept, hit.key), hit.at)]
  }

  class RateLimiter {
    const windowSecs: int
    const globalLimit: nat
    const authLimit: nat
    var windows: Windows

    constructor (windowSecs: int, globalLimit: nat, authLimit: nat)
      ensures this.windowSecs == windowSecs && this.globalLimit == globalLimit && this.authLimit == authLimit
      ensures windows == map[]
    {
      this.windowSecs, this.globalLimit, this.authLimit, windows := windowSecs, globalLimit, authLimit, map[];
    }

    method Allow(key: string, limit: nat, now: int) returns (ok: bool)
      modifies this`windows
      ensures windows == WindowsNext(windowSecs, old(windows), Hit(key, limit, now))
      ensures ok <==> windows[key].count <= limit
    {
      if |windows| > CLEANUP_THRESHOLD {
        windows := map k | k in windows && now - windows[k].start < windowSecs :: windows[k];
      }
      if key !in windows {
        windows := windows[key := Window(now, 0)];
      }
      if now - windows[key].start >= windowSecs {
        windows := windows[key := Window(now, 0)];
      }
      windows := windows[key := Window(windows[key].start, (windows[key].count + 1) % WRAP)];
      ok := windows[key].count <= limit;
    }

    /** The budget and the counter a request falls under. */
    method Enforce(path: string, ip: string, now: int) returns (ok: bool)
      modifies this`windows
      ensures var auth := EndsWith(path, "/license/activate") || EndsWith(path, "/auth/oidc/callback");
              var key, limit := if auth then "auth:" + ip else "global:" + ip, if auth then authLimit else globalLimit;
              && windows == WindowsNext(windowSecs, old(windows), Hit(key, limit, now))
              && (ok <==> windows[key].count <= limit)
    {
      var limit, class_ := globalLimit, "global";
      if IsAuthPath(path) {
        limit, class_ := authLimit, "auth";
      }
      assert "auth" + ":" == "auth:" && "global" + ":" == "global:";
      ok := Allow(class_ + ":" + ip, limit, now);
    }
  }

  // ---------- keys ----------

  predicate IsAuthPath(path: string) {
    EndsWith(path, "/license/activate") || EndsWith(path, "/auth/oidc/callback")
  }

  function KeyOf(path: string, ip: string): string {
    if IsAuthPath(path) then "auth:" + ip else "global:" + ip
  }

  /** Two requests share a counter only if they share address and budget. */
  lemma KeysAreSeparate(path: string, ip: string, path': string, ip': string)
    requires KeyOf(path, ip) == KeyOf(path', ip')
    ensures ip == ip' && (IsAuthPath(path) <==> IsAuthPath(path'))
  {
    hide IsAuthPath;
    var key := KeyOf(path, ip);
    assert key[0] == (if IsAuthPath(path) then 'a' else 'g') == (if IsAuthPath(path') then 'a' else 'g');
    var n := if IsAuthPath(path) then 5 else 7;
    assert key[n..] == ip && key[n..] == ip';
  }

  // ---------- each key on its own ----------

  function After(width: int, times: seq<int>): Option<Window> {
    if times == [] then None
    else Some(Next(width, After(width, times[..|times| - 1]), times[|times| - 1]))
  }

  function WindowsAfter(width: int, trace: seq<Hit>): Windows {
    if trace == [] then map[] else WindowsNext(width, WindowsAfter(width, trace[..|trace| - 1]), trace[|trace| - 1])
  }

  /** Whether hit `i` of a trace is allowed. */
  predicate IsAllowed(width: int, trace: seq<Hit>, i: nat)
    requires i < |trace|
  {
    WindowsNext(width, WindowsAfter(width, trace[..i]), trace[i])[trace[i].key].count <= trace[i].limit
  }

  function TimesOf(trace: seq<Hit>, key: string): seq<int> {
    if trace == [] then []
    else
      var last := trace[|trace| - 1];
      if last.key == key then TimesOf(trace[..|trace| - 1], key) + [last.at] else TimesOf(trace[..|trace| - 1], key)
  }

  ghost predicate ClockRuns(trace: seq<Hit>) {
    forall i, j | 0 <= i < j < |trace| :: trace[i].at <= trace[j].at
  }

  /** The shared map knows what the key's own history says, or forgot a window that is over. */
  ghost predicate Tracks(width: int, shared: Option<Window>, own: Option<Window>, now: int) {
    shared == own || (shared.None? && own.Some? && now - own.value.start >= width)
  }

  lemma TracksNext(width: int, windows: Windows, own: Option<Window>, hit: Hit, key: string)
    requires Tracks(width, Lookup(windows, key), own, hit.at)
    ensures Tracks(width, Lookup(Cleaned(width, windows, hit.at), key), own, hit.at)
    ensures hit.key == key ==> Lookup(WindowsNext(width, windows, hit), key) == Some(Next(width, own, hit.at))
    ensures hit.key != key ==> Tracks(width, Lookup(WindowsNext(width, windows, hit), key), own, hit.at)
  {
  }

  lemma {:induction false} TracksAlways(width: int, trace: seq<Hit>, key: string, now: int)
    requires ClockRuns(trace) && forall i | 0 <= i < |trace| :: trace[i].at <= now
    ensures Tracks(width, Lookup(WindowsAfter(width, trace), key), After(width, TimesOf(trace, key)), now)
  {
    if trace == [] {
    } else {
      var init, last := trace[..|trace| - 1], trace[|trace| - 1];
      TracksAlways(width, init, key, last.at);
      TracksNext(width, WindowsAfter(width, init), After(width, TimesOf(init, key)), last, key);
      var times := TimesOf(init, key);
      assert (times + [last.at])[..|times|] == times;
    }
  }

  /** Whatever other keys do and whenever the map is cleaned up, a decision depends on the key's own hits. */
  lemma DecisionsAreOwn(width: int, trace: seq<Hit>, i: nat)
    requires i < |trace| && ClockRuns(trace)
    ensures IsAllowed(width, trace, i) <==>
            Next(width, After(width, TimesOf(trace[..i], trace[i].key)), trace[i].at).count <= trace[i].limit
  {
    var own := After(width, TimesOf(trace[..i], trace[i].key));
    TracksAlways(width, trace[..i], trace[i].key, trace[i].at);
    TracksNext(width, WindowsAfter(width, trace[..i]), own, trace[i], trace[i].key);
  }

  // ---------- how much gets through ----------

  /** The window hit `i` was counted in, and its place in it. */
  function At(width: int, times: seq<int>, i: nat): Window
    requires i < |times|
  {
    Next(width, After(width, times[..i]), times[i])
  }

  /** How many of the hits `lo` to `hi` were within the budget. */
  function Admitted(width: int, times: seq<int>, limit: nat, lo: nat, hi: nat): nat
    requires lo <= hi <= |times|
    decreases hi - lo
  {
    if lo == hi then 0
    else (if At(width, times, lo).count <= limit then 1 else 0) + Admitted(width, times, limit, lo + 1, hi)
  }

  ghost predicate Sorted(times: seq<int>) {
    forall i, j | 0 <= i < j < |times| :: times[i] <= times[j]
  }

  lemma AtNext(width: int, times: seq<int>, i: nat)
    requires i + 1 < |times|
    ensures At(width, times, i + 1) == Next(width, Some(At(width, times, i)), times[i + 1])
  {
    assert times[..i + 1][..i] == times[..i];
  }

  /** Whether hit `i` opens a new window. */
  predicate Opens(width: int, times: seq<int>, i: nat)
    requires i < |times|
  {
    i == 0 || times[i] - At(width, times, i - 1).start >= width
  }

  /** How many hits fell into the window of hit `i` up to then, counted without a bound. */
  function Place(width: int, times: seq<int>, i: nat): nat
    requires i < |times|
  {
    if Opens(width, times, i) then 1 else Place(width, times, i - 1) + 1
  }

  /** No window receives as many hits as make the counter wrap. */
  ghost predicate NoOverrun(width: int, times: seq<int>) {
    forall i | 0 <= i < |times| :: Place(width, times, i) < WRAP
  }

  lemma ModNext(n: nat)
    ensures (n % WRAP + 1) % WRAP == (n + 1) % WRAP
  {
  }

  /** The counter is the place of the hit in its window, modulo the width of the counter. */
  lemma {:induction false} CountIsPlace(width: int, times: seq<int>, i: nat)
    requires i < |times| && width > 0
    ensures At(width, times, i).count == Place(width, times, i) % 0x1_0000_0000
    ensures 1 <= Place(width, times, i) <= i + 1
    ensures times[i] - At(width, times, i).start < width
    ensures Opens(width, times, i) ==> At(width, times, i).start == times[i]
    ensures !Opens(width, times, i) ==> At(width, times, i).start == At(width, times, i - 1).start
  {
    if i == 0 {
    } else {
      CountIsPlace(width, times, i - 1);
      AtNext(width, times, i - 1);
      ModNext(Place(width, times, i - 1));
    }
  }

  lemma CountIsExact(width: int, times: seq<int>, i: nat)
    requires i < |times| && width > 0 && NoOverrun(width, times)
    ensures 1 <= At(width, times, i).count == Place(width, times, i)
  {
    hide At, Place;
    CountIsPlace(width, times, i);
  }

  lemma {:induction false} StartNotAfter(width: int, times: seq<int>, i: nat)
    requires i < |times| && Sorted(times)
    ensures At(width, times, i).start <= times[i]
  {
    if i == 0 {
    } else {
      StartNotAfter(width, times, i - 1);
      AtNext(width, times, i - 1);
    }
  }

  ghost predicate SameWindow(width: int, times: seq<int>, lo: nat, hi: nat)
    requires lo < hi <= |times|
  {
    forall i | lo <= i < hi :: At(width, times, i).start == At(width, times, lo).start
  }

  /** Within one window at most the budget gets through. */
  lemma {:induction false} OneWindow(width: int, times: seq<int>, limit: nat, lo: nat, hi: nat)
    requires lo < hi <= |times| && width > 0 && NoOverrun(width, times)
    requires SameWindow(width, times, lo, hi)
    ensures Admitted(width, times, limit, lo, hi) <= limit
    ensures At(width, times, lo).count <= limit ==>
              Admitted(width, times, limit, lo, hi) + At(width, times, lo).count <= limit + 1
    ensures At(width, times, lo).count > limit ==> Admitted(width, times, limit, lo, hi) == 0
    decreases hi - lo
  {
    hide At, SameWindow, NoOverrun, Place;
    CountIsExact(width, times, lo);
    if lo + 1 < hi {
      SameWindowRest(width, times, lo, hi);
      OneWindow(width, times, limit, lo + 1, hi);
    }
  }

  lemma SameWindowRest(width: int, times: seq<int>, lo: nat, hi: nat)
    requires lo + 1 < hi <= |times| && width > 0 && NoOverrun(width, times)
    requires SameWindow(width, times, lo, hi)
    ensures SameWindow(width, times, lo + 1, hi)
    ensures At(width, times, lo + 1).count > At(width, times, lo).count
  {
    hide At, NoOverrun;
    assert At(width, times, lo + 1).start == At(width, times, lo).start;
    CountsUp(width, times, lo);
  }

  /** A hit in the window of the hit before is counted after it. */
  lemma CountsUp(width: int, times: seq<int>, i: nat)
    requires i + 1 < |times| && width > 0 && NoOverrun(width, times)
    requires At(width, times, i + 1).start == At(width, times, i).start
    ensures At(width, times, i + 1).count > At(width, times, i).count
  {
    hide At, NoOverrun;
    CountIsExact(width, times, i);
    CountIsExact(width, times, i + 1);
    CountIsPlace(width, times, i);
    CountIsPlace(width, times, i + 1);
  }

  /** Hits at most a window apart fall into at most two windows. */
  lemma {:induction false} TwoWindows(width: int, times: seq<int>, lo: nat, hi: nat) returns (mid: nat)
    requires lo < hi <= |times| && width > 0 && Sorted(times) && times[hi - 1] - times[lo] <= width
    ensures lo < mid <= hi && SameWindow(width, times, lo, mid)
    ensures mid < hi ==> SameWindow(width, times, mid, hi) && At(width, times, mid).start > times[lo]
    decreases hi - lo
  {
    if lo + 1 == hi {
      mid := hi;
    } else {
      mid := TwoWindows(width, times, lo, hi - 1);
      hide At;
      CountIsPlace(width, times, lo);
      StartStaysOrMoves(width, times, hi - 2, times[lo]);
      if mid == hi - 1 && At(width, times, hi - 1).start == At(width, times, lo).start {
        mid := hi;
      }
    }
  }

  /** A hit stays in the window of the hit before, or opens a new one at its own time. */
  lemma StartStaysOrMoves(width: int, times: seq<int>, i: nat, from: int)
    requires i + 1 < |times| && Sorted(times) && times[i + 1] <= from + width
    ensures var before, now := At(width, times, i).start, At(width, times, i + 1).start;
            (now == before || now >= before + width) && (before > from ==> now == before)
  {
    AtNext(width, times, i);
  }

  /** In any stretch of one window's length, at most twice the budget gets through. */
  lemma AtMostTwiceTheBudget(width: int, times: seq<int>, limit: nat, lo: nat, hi: nat)
    requires width > 0 && Sorted(times) && NoOverrun(width, times)
    requires lo < hi <= |times| && times[hi - 1] - times[lo] <= width
    ensures Admitted(width, times, limit, lo, hi) <= 2 * limit
  {
    var mid := TwoWindows(width, times, lo, hi);
    OneWindow(width, times, limit, lo, mid);
    AdmittedSplits(width, times, limit, lo, mid, hi);
    if mid < hi {
      OneWindow(width, times, limit, mid, hi);
    }
  }

  lemma {:induction false} AdmittedSplits(width: int, times: seq<int>, limit: nat, lo: nat, mid: nat, hi: nat)
    requires lo <= mid <= hi <= |times|
    ensures Admitted(width, times, limit, lo, hi) ==
            Admitted(width, times, limit, lo, mid) + Admitted(width, times, limit, mid, hi)
    decreases mid - lo
  {
    if lo < mid {
      AdmittedSplits(width, times, limit, lo + 1, mid, hi);
    }
  }

  /** Going back within a window, every hit has the place before. */
  lemma {:induction false} PlacesBefore(width: int, times: seq<int>, i: nat, back: nat)
    requires i < |times| && width > 0 && back < Place(width, times, i)
    ensures back <= i && At(width, times, i - back).start == At(width, times, i).start
    ensures Place(width, times, i - back) == Place(width, times, i) - back
    ensures At(width, times, i - back).count == (Place(width, times, i) - back) % WRAP
    decreases back
  {
    hide At;
    CountIsPlace(width, times, i);
    if back == 0 {
    } else {
      PlacesBefore(width, times, i, back - 1);
      CountIsPlace(width, times, i - (back - 1));
      CountIsPlace(width, times, i - back);
    }
  }

  /** From the first hit of a window on, hits are admitted until the budget is used up. */
  lemma {:induction false} AdmitsFromTheFirst(width: int, times: seq<int>, limit: nat, i: nat, n: nat)
    requires i < |times| && width > 0 && n <= Place(width, times, i) && n < WRAP
    ensures var first := i + 1 - Place(width, times, i);
            0 <= first && Admitted(width, times, limit, first, first + n) == if n <= limit then n else limit
    decreases n
  {
    hide At, Place;
    CountIsPlace(width, times, i);
    var first := i + 1 - Place(width, times, i);
    if n == 0 {
    } else {
      AdmitsFromTheFirst(width, times, limit, i, n - 1);
      PlacesBefore(width, times, i, Place(width, times, i) - n);
      AdmittedSplits(width, times, limit, first, first + n - 1, first + n);
    }
  }

  /** A hit is refused only if the whole budget was admitted less than one window ago. */
  lemma RefusedOnlyOverBudget(width: int, times: seq<int>, limit: nat, i: nat)
    requires i < |times| && width > 0 && Sorted(times) && NoOverrun(width, times) && At(width, times, i).count > limit
    ensures var first := i + 1 - At(width, times, i).count;
            0 <= first <= i && times[i] - times[first] < width && Admitted(width, times, limit, first, i) == limit
  {
    hide At;
    CountIsPlace(width, times, i);
    var c := Place(width, times, i);
    PlacesBefore(width, times, i, c - 1);
    StartNotAfter(width, times, i + 1 - c);
    AdmitsFromTheFirst(width, times, limit, i, c - 1);
  }

  // ---------- the width of the counter ----------

  /** Every window lets at most the budget through. */
  ghost predicate KeepsBudget(width: int, times: seq<int>, limit: nat) {
    forall lo, hi | 0 <= lo < hi <= |times| && SameWindow(width, times, lo, hi) ::
      Admitted(width, times, limit, lo, hi) <= limit
  }

  /** The hits of a window up to its `n`-th. */
  lemma WindowUpTo(width: int, times: seq<int>, i: nat, n: nat)
    requires i < |times| && width > 0 && n == Place(width, times, i)
    ensures 1 <= n <= i + 1 && SameWindow(width, times, i + 1 - n, i + 1)
  {
    hide At;
    CountIsPlace(width, times, i);
    forall k | i + 1 - n <= k < i + 1 ensures At(width, times, k).start == At(width, times, i).start {
      PlacesBefore(width, times, i, i - k);
    }
  }

  /** A window that receives enough hits to wrap the counter lets one more than the budget through. */
  lemma OverrunBreaksBudget(width: int, times: seq<int>, limit: nat, i: nat)
    requires i < |times| && width > 0 && limit < WRAP && Place(width, times, i) >= WRAP
    ensures !KeepsBudget(width, times, limit)
  {
    hide At, SameWindow;
    var back := Place(width, times, i) - WRAP;
    PlacesBefore(width, times, i, back);
    var last := i - back;
    var first := last + 1 - WRAP;
    WindowUpTo(width, times, last, WRAP);
    AdmitsFromTheFirst(width, times, limit, last, WRAP - 1);
    AdmittedSplits(width, times, limit, first, last, last + 1);
    assert Admitted(width, times, limit, first, last + 1) == limit + 1;
  }

  /** Every window keeps to its budget if and only if none receives 2^32 hits. */
  lemma BudgetHoldsIffNoOverrun(width: int, times: seq<int>, limit: nat)
    requires width > 0 && limit < WRAP
    ensures KeepsBudget(width, times, limit) <==> NoOverrun(width, times)
  {
    if NoOverrun(width, times) {
      forall lo, hi | 0 <= lo < hi <= |times| && SameWindow(width, times, lo, hi)
        ensures Admitted(width, times, limit, lo, hi) <= limit
      {
        OneWindow(width, times, limit, lo, hi);
      }
    } else {
      var i :| 0 <= i < |times| && Place(width, times, i) >= WRAP;
      OverrunBreaksBudget(width, times, limit, i);
    }
  }

  /** Hits that never come 2^32 to a window's length do not wrap the counter. */
  lemma SlowHitsDoNotOverrun(width: int, times: seq<int>)
    requires width > 0 && Sorted(times)
    requires forall i, j | 0 <= i < j < |times| && j - i == WRAP - 1 :: times[j] - times[i] >= width
    ensures NoOverrun(width, times)
  {
    hide At, Place;
    forall i | 0 <= i < |times| ensures Place(width, times, i) < WRAP {
      if Place(width, times, i) >= WRAP {
        CountIsPlace(width, times, i);
        PlacesBefore(width, times, i, WRAP - 1);
        StartNotAfter(width, times, i + 1 - WRAP);
      }
    }
  }

  lemma {:induction false} BurstPlaces(width: int, times: seq<int>, i: nat)
    requires width > 0 && i < |times| && forall k | 0 <= k < |times| :: times[k] == times[0]
    ensures Place(width, times, i) == i + 1 && At(width, times, i).start == times[0]
  {
    hide At;
    CountIsPlace(width, times, i);
    if i == 0 {
    } else {
      BurstPlaces(width, times, i - 1);
    }
  }

  /** 2^32 hits at one moment get one more through than any budget allows. */
  lemma BurstOverruns(width: int, at: int, limit: nat)
    requires width > 0 && limit < WRAP
    ensures var times := seq(WRAP, _ => at); !NoOverrun(width, times) && !KeepsBudget(width, times, limit)
  {
    hide At, Place, KeepsBudget;
    var times := seq(WRAP, _ => at);
    BurstPlaces(width, times, WRAP - 1);
    OverrunBreaksBudget(width, times, limit, WRAP - 1);
  }

  // ---------- a key among others ----------

  /** How many hits of `key` among the hits `lo` to `hi` of a trace are allowed. */
  ghost function AllowedFor(width: int, trace: seq<Hit>, key: string, lo: nat, hi: nat): nat
    requires lo <= hi <= |trace|
    decreases hi - lo
  {
    if lo == hi then 0
    else (if trace[lo].key == key && IsAllowed(width, trace, lo) then 1 else 0) +
         AllowedFor(width, trace, key, lo + 1, hi)
  }

  ghost function Before(trace: seq<Hit>, key: string, i: nat): nat
    requires i <= |trace|
  {
    |TimesOf(trace[..i], key)|
  }

  lemma TimesStep(trace: seq<Hit>, key: string, i: nat)
    requires i < |trace|
    ensures TimesOf(trace[..i + 1], key) ==
            if trace[i].key == key then TimesOf(trace[..i], key) + [trace[i].at] else TimesOf(trace[..i], key)
  {
    assert trace[..i + 1][..i] == trace[..i];
  }

  lemma {:induction false} TimesArePrefix(trace: seq<Hit>, key: string, i: nat)
    requires i <= |trace|
    ensures TimesOf(trace[..i], key) <= TimesOf(trace, key)
    decreases |trace| - i
  {
    if i == |trace| {
      assert trace[..i] == trace;
    } else {
      TimesStep(trace, key, i);
      TimesArePrefix(trace, key, i + 1);
    }
  }

  /** The times of a key's hits between `lo` and `i` lie between theirs. */
  lemma {:induction false} TimesWithin(trace: seq<Hit>, key: string, lo: nat, i: nat)
    requires lo <= i <= |trace| && ClockRuns(trace)
    ensures Before(trace, key, lo) <= Before(trace, key, i)
    ensures forall k | Before(trace, key, lo) <= k < Before(trace, key, i) ::
              trace[lo].at <= TimesOf(trace[..i], key)[k] <= trace[i - 1].at
    decreases i - lo
  {
    if lo < i {
      TimesStep(trace, key, i - 1);
      TimesWithin(trace, key, lo, i - 1);
    }
  }

  lemma {:induction false} TimesAreSorted(trace: seq<Hit>, key: string)
    requires ClockRuns(trace)
    ensures Sorted(TimesOf(trace, key))
  {
    if trace == [] {
    } else {
      var init := trace[..|trace| - 1];
      TimesAreSorted(init, key);
      TimesWithin(init, key, 0, |init|);
      assert init[..|init|] == init && init[..0] == [];
    }
  }

  lemma {:induction false} AllowedAreAdmitted(width: int, trace: seq<Hit>, key: string, limit: nat, lo: nat, hi: nat)
    requires lo <= hi <= |trace| && ClockRuns(trace)
    requires forall i | lo <= i < hi :: trace[i].key == key ==> trace[i].limit == limit
    ensures Before(trace, key, lo) <= Before(trace, key, hi) <= |TimesOf(trace, key)|
    ensures AllowedFor(width, trace, key, lo, hi) ==
            Admitted(width, TimesOf(trace, key), limit, Before(trace, key, lo), Before(trace, key, hi))
    decreases hi - lo
  {
    hide IsAllowed, At;
    TimesArePrefix(trace, key, hi);
    if lo < hi {
      AllowedAreAdmitted(width, trace, key, limit, lo + 1, hi);
      TimesStep(trace, key, lo);
      if trace[lo].key == key {
        OwnPlace(width, trace, key, lo);
        DecisionsAreOwn(width, trace, lo);
      }
    }
  }

  lemma OwnPlace(width: int, trace: seq<Hit>, key: string, i: nat)
    requires i < |trace| && trace[i].key == key
    ensures Before(trace, key, i) < |TimesOf(trace, key)|
    ensures At(width, TimesOf(trace, key), Before(trace, key, i)) ==
            Next(width, After(width, TimesOf(trace[..i], key)), trace[i].at)
  {
    TimesStep(trace, key, i);
    TimesArePrefix(trace, key, i + 1);
    var own, all := TimesOf(trace[..i], key), TimesOf(trace, key);
    assert all[..|own|] == own && all[|own|] == (own + [trace[i].at])[|own|];
  }

  /**
   In a trace of many keys, whatever the cleanup does, one window's length of time lets at
   most twice its budget through for any key.
   */
  lemma KeyGetsAtMostTwiceItsBudget(width: int, trace: seq<Hit>, key: string, limit: nat, lo: nat, hi: nat)
    requires width > 0 && ClockRuns(trace) && lo < hi <= |trace|
    requires NoOverrun(width, TimesOf(trace, key))
    requires trace[hi - 1].at - trace[lo].at <= width
    requires forall i | lo <= i < hi :: trace[i].key == key ==> trace[i].limit == limit
    ensures AllowedFor(width, trace, key, lo, hi) <= 2 * limit
  {
    hide AllowedFor, Admitted, At;
    AllowedAreAdmitted(width, trace, key, limit, lo, hi);
    TimesWithin(trace, key, lo, hi);
    TimesArePrefix(trace, key, hi);
    TimesAreSorted(trace, key);
    var n, m := Before(trace, key, lo), Before(trace, key, hi);
    if n < m {
      var all, some := TimesOf(trace, key), TimesOf(trace[..hi], key);
      assert all[n] == some[n] && all[m - 1] == some[m - 1];
      AtMostTwiceTheBudget(width, all, limit, n, m);
    } else {
      NoneAdmitted(width, TimesOf(trace, key), limit, n);
    }
  }

  lemma NoneAdmitted(width: int, times: seq<int>, limit: nat, n: nat)
    requires n <= |times|
    ensures Admitted(width, times, limit, n, n) == 0
  {
  }
}
