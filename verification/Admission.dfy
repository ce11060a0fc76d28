/** Sliding-window admission of `usage/admission.py`: the Redis script and the in-process fallback, one atomic step
    each. A store's clock never goes backwards, and a key keeps one limit and window. */
module Admission {
  import opened Sorting

  datatype Key = Key(text: string)
  datatype Policy = Policy(limit: int, window: real)

  // ---- admission logs --------------------------------------------------------

  /** All admissions of one key so far, oldest first. */
  ghost predicate History(log: seq<real>, p: Policy, clock: real) {
    && (forall i, j :: 0 <= i < j < |log| ==> log[i] <= log[j])
    && (forall i :: 0 <= i < |log| ==> log[i] <= clock)
    && Spaced(log, p)
    && (p.limit <= 0 ==> log == [])
  }

  /** `limit` admissions apart means at least one window apart. */
  ghost predicate Spaced(log: seq<real>, p: Policy) {
    forall i, j :: 0 <= i < j < |log| && j - i >= p.limit ==> log[j] - log[i] >= p.window
  }

  function CountIn(log: seq<real>, from: real, to: real, n: nat): nat
    requires n <= |log|
  {
    if n == 0 then 0 else CountIn(log, from, to, n - 1) + if from <= log[n - 1] < to then 1 else 0
  }

  lemma {:induction false} CountWithin(log: seq<real>, from: real, to: real, first: nat, most: nat, n: nat)
    requires n <= |log|
    requires forall j :: 0 <= j < first && j < |log| ==> log[j] < from
    requires forall j :: first + most <= j < |log| ==> log[j] >= to
    ensures CountIn(log, from, to, n) <= if n <= first then 0 else if n - first < most then n - first else most
  {
    if n > 0 { CountWithin(log, from, to, first, most, n - 1); }
  }

  function FirstFrom(log: seq<real>, from: real, n: nat): (i: nat)
    requires n <= |log|
    ensures i <= n && forall j :: 0 <= j < i ==> log[j] < from
    ensures i < n ==> log[i] >= from
  {
    if n == 0 then 0
    else
      var i := FirstFrom(log, from, n - 1);
      if i < n - 1 || log[n - 1] >= from then i else n
  }

  /** Every half-open interval of one window length holds at most `limit` admissions. */
  lemma WindowSafety(log: seq<real>, p: Policy, clock: real, from: real)
    requires History(log, p, clock)
    ensures CountIn(log, from, from + p.window, |log|) <= if p.limit <= 0 then 0 else p.limit
  {
    if p.limit > 0 {
      var first := FirstFrom(log, from, |log|);
      CountWithin(log, from, from + p.window, first, p.limit, |log|);
    }
  }

  /** How many admissions are still live: newer than one window ago. */
  function LiveCount(log: seq<real>, p: Policy, now: real, n: nat): nat
    requires n <= |log|
  {
    if n == 0 then 0 else LiveCount(log, p, now, n - 1) + if log[n - 1] > now - p.window then 1 else 0
  }

  function Live(log: seq<real>, p: Policy, now: real): nat { LiveCount(log, p, now, |log|) }

  /** The admissions among the first `n` with a time from `from` on and before `to`. */
  ghost function Inside(log: seq<real>, from: real, to: real, n: nat): set<nat>
    requires n <= |log|
  {
    set i: nat | i < n && from <= log[i] < to
  }

  lemma InsideStep(log: seq<real>, from: real, to: real, n: nat)
    requires 0 < n <= |log|
    ensures Inside(log, from, to, n) == Inside(log, from, to, n - 1) + if from <= log[n - 1] < to then {n - 1} else {}
    ensures n - 1 !in Inside(log, from, to, n - 1)
  {
  }

  lemma {:induction false} InsideCount(log: seq<real>, from: real, to: real, n: nat)
    requires n <= |log|
    ensures CountIn(log, from, to, n) == |Inside(log, from, to, n)|
  {
    if n > 0 {
      InsideCount(log, from, to, n - 1);
      InsideStep(log, from, to, n);
      hide Inside;
    }
  }

  /** Counted are the admissions of a half-open interval. */
  lemma CountMeans(log: seq<real>, from: real, to: real)
    ensures CountIn(log, from, to, |log|) == |set i: nat | i < |log| && from <= log[i] < to|
  {
    InsideCount(log, from, to, |log|);
    assert Inside(log, from, to, |log|) == set i: nat | i < |log| && from <= log[i] < to;
    hide CountIn;
  }

  /** The admissions among the first `n` that are less than one window old. */
  ghost function Young(log: seq<real>, p: Policy, now: real, n: nat): set<nat>
    requires n <= |log|
  {
    set i: nat | i < n && now - log[i] < p.window
  }

  lemma YoungStep(log: seq<real>, p: Policy, now: real, n: nat)
    requires 0 < n <= |log|
    ensures Young(log, p, now, n) == Young(log, p, now, n - 1) + if now - log[n - 1] < p.window then {n - 1} else {}
    ensures n - 1 !in Young(log, p, now, n - 1)
  {
  }

  lemma {:induction false} YoungCount(log: seq<real>, p: Policy, now: real, n: nat)
    requires n <= |log|
    ensures LiveCount(log, p, now, n) == |Young(log, p, now, n)|
  {
    if n > 0 {
      YoungCount(log, p, now, n - 1);
      YoungStep(log, p, now, n);
      hide Young;
    }
  }

  /** Live are the admissions less than one window old. */
  lemma LiveMeans(log: seq<real>, p: Policy, now: real)
    ensures Live(log, p, now) == |set i: nat | i < |log| && now - log[i] < p.window|
  {
    YoungCount(log, p, now, |log|);
    assert Young(log, p, now, |log|) == set i: nat | i < |log| && now - log[i] < p.window;
    hide LiveCount;
  }

  // ---- what a store remembers of a log ------------------------------------------

  /** `kept` is the end of the log; everything it dropped is at or before `bound`. */
  ghost predicate Remembers(kept: seq<real>, log: seq<real>, bound: real) {
    && |kept| <= |log| && kept == log[|log| - |kept|..]
    && AllBy(log, |log| - |kept|, bound)
  }

  ghost predicate AllBy(log: seq<real>, n: nat, bound: real)
    requires n <= |log|
  {
    forall i :: 0 <= i < n ==> log[i] <= bound
  }

  ghost predicate AllAfter(log: seq<real>, bound: real) { forall i :: 0 <= i < |log| ==> log[i] > bound }

  /** The index of the first entry after `bound`, looking from `from` on. */
  function Stale(kept: seq<real>, bound: real, from: nat): (k: nat)
    requires from <= |kept|
    ensures from <= k <= |kept|
    ensures forall i :: from <= i < k ==> kept[i] <= bound
    ensures k < |kept| ==> kept[k] > bound
    decreases |kept| - from
  {
    if from < |kept| && kept[from] <= bound then Stale(kept, bound, from + 1) else from
  }

  /** Drop the entries at or before `bound` from the front. */
  function Pruned(kept: seq<real>, bound: real): seq<real> { kept[Stale(kept, bound, 0)..] }

  /** Pruning to a later bound forgets only admissions that are no longer live. */
  lemma PrunedRemembers(kept: seq<real>, log: seq<real>, earlier: real, bound: real)
    requires Remembers(kept, log, earlier) && earlier <= bound
    ensures Remembers(Pruned(kept, bound), log, bound)
  {
    var c, d := Stale(kept, bound, 0), |log| - |kept|;
    hide Stale;
    assert kept[c..] == log[d + c..];
    forall i | 0 <= i < d + c ensures log[i] <= bound {
      if i >= d { assert kept[i - d] == log[i]; }
    }
  }

  lemma PrunedAfter(kept: seq<real>, bound: real)
    requires forall i, j :: 0 <= i < j < |kept| ==> kept[i] <= kept[j]
    ensures AllAfter(Pruned(kept, bound), bound)
  {
    var c := Stale(kept, bound, 0);
    forall i | 0 <= i < |kept| - c ensures kept[c..][i] > bound {
      assert kept[c..][i] == kept[c + i] && kept[c] <= kept[c + i];
    }
  }

  lemma {:induction false} LiveSuffix(log: seq<real>, p: Policy, now: real, k: nat, n: nat)
    requires k <= |log| && n <= |log| && AllBy(log, k, now - p.window)
    requires AllAfter(log[k..], now - p.window)
    ensures LiveCount(log, p, now, n) == if n <= k then 0 else n - k
  {
    if n > 0 {
      LiveSuffix(log, p, now, k, n - 1);
      if n > k { assert log[n - 1] == log[k..][n - 1 - k]; }
    }
  }

  lemma KeptSorted(kept: seq<real>, log: seq<real>, p: Policy, clock: real, bound: real)
    requires History(log, p, clock) && Remembers(kept, log, bound)
    ensures forall i, j :: 0 <= i < j < |kept| ==> kept[i] <= kept[j]
    ensures kept != [] ==> log != [] && kept[0] == log[|log| - |kept|] && log[|log| - 1] <= clock
  {
    forall i, j | 0 <= i < j < |kept| ensures kept[i] <= kept[j] {
      assert kept[i] == log[|log| - |kept| + i] && kept[j] == log[|log| - |kept| + j];
    }
  }

  /** What is live fits the limit: a longer stretch would span a whole window. */
  lemma LiveFits(live: seq<real>, log: seq<real>, p: Policy, now: real)
    requires History(log, p, now) && Remembers(live, log, now - p.window) && AllAfter(live, now - p.window)
    ensures |live| <= if p.limit <= 0 then 0 else p.limit
  {
    if live != [] {
      assert live[0] == log[|log| - |live|] && log[|log| - 1] <= now;
      assert log[|log| - 1] - log[|log| - |live|] < p.window;
    }
  }

  lemma RememberedCount(live: seq<real>, log: seq<real>, p: Policy, now: real)
    requires Remembers(live, log, now - p.window) && AllAfter(live, now - p.window)
    ensures |live| == Live(log, p, now)
  {
    hide LiveCount, AllAfter, AllBy;
    LiveSuffix(log, p, now, |log| - |live|, |log|);
  }

  /** After pruning, what is kept is exactly what is live, and it is within the limit. */
  lemma PrunedIsLive(kept: seq<real>, log: seq<real>, p: Policy, clock: real, now: real, live: seq<real>)
    requires History(log, p, now) && clock <= now && Remembers(kept, log, clock - p.window)
    requires live == Pruned(kept, now - p.window)
    ensures Remembers(live, log, now - p.window) && AllAfter(live, now - p.window)
    ensures |live| == Live(log, p, now) && |live| <= (if p.limit <= 0 then 0 else p.limit)
  {
    hide *;
    PrunedRemembers(kept, log, clock - p.window, now - p.window);
    KeptSorted(kept, log, p, now, clock - p.window);
    PrunedAfter(kept, now - p.window);
    LiveFits(live, log, p, now);
    RememberedCount(live, log, p, now);
  }

  /** Admitting below the limit keeps the spacing. */
  lemma {:induction false} AdmitKeepsSpacing(live: seq<real>, log: seq<real>, p: Policy, now: real)
    requires History(log, p, now)
    requires Remembers(live, log, now - p.window) && |live| < p.limit
    ensures History(log + [now], p, now)
    ensures Remembers(live + [now], log + [now], now - p.window)
  {
    hide *;
    AdmitSpaced(live, log, p, now);
    AdmitRemembered(live, log, now - p.window, now);
  }

  lemma {:induction false} AdmitSpaced(live: seq<real>, log: seq<real>, p: Policy, now: real)
    requires History(log, p, now)
    requires Remembers(live, log, now - p.window) && |live| < p.limit
    ensures History(log + [now], p, now)
  {
    var next := log + [now];
    forall i, j | 0 <= i < j < |next| && j - i >= p.limit ensures next[j] - next[i] >= p.window {
      if j == |log| { assert log[i] <= now - p.window; }
    }
  }

  lemma {:induction false} AdmitRemembered(live: seq<real>, log: seq<real>, bound: real, now: real)
    requires Remembers(live, log, bound)
    ensures Remembers(live + [now], log + [now], bound)
  {
    var next := log + [now];
    assert live + [now] == next[|next| - |live| - 1..];
  }

  // ---- waiting ---------------------------------------------------------------------

  ghost predicate EnoughAfter(log: seq<real>, p: Policy, from: real) {
    forall later :: later >= from ==> Live(log, p, later) < p.limit
  }

  lemma {:induction false} LiveFew(log: seq<real>, p: Policy, now: real, k: nat, n: nat)
    requires k <= |log| && n <= |log| && AllBy(log, k, now - p.window)
    ensures LiveCount(log, p, now, n) <= if n <= k then 0 else n - k
  {
    if n > 0 { LiveFew(log, p, now, k, n - 1); }
  }

  /** Once the oldest of a full window has aged out, fewer than `limit` are live. */
  lemma WaitSuffices(live: seq<real>, log: seq<real>, p: Policy, now: real, wait: real)
    requires Remembers(live, log, now - p.window) && p.limit > 0 && |live| == p.limit
    requires AllAfter(live, now - p.window) && wait >= live[0] + p.window - now
    ensures EnoughAfter(log, p, now + wait)
  {
    var k := |log| - |live|;
    assert live[0] == log[k];
    forall later | later >= now + wait ensures Live(log, p, later) < p.limit {
      forall i | 0 <= i < k + 1 ensures log[i] <= later - p.window { if i < k { assert log[i] <= now - p.window; } }
      LiveFew(log, p, later, k + 1, |log|);
    }
  }

  /** `at` is the moment the first of the admissions live at `now` ages out. */
  ghost predicate FreesAt(log: seq<real>, p: Policy, now: real, at: real) {
    && Live(log, p, now) > 0 && at > now
    && forall later :: now <= later ==> (Live(log, p, later) < Live(log, p, now) <==> later >= at)
  }

  /** A whole number of seconds that ends less than one second after that moment. */
  ghost predicate FreesWithin(log: seq<real>, p: Policy, now: real, wait: real) {
    && wait == wait.Floor as real
    && exists at :: FreesAt(log, p, now, at) && at < now + wait <= at + 1.0
  }

  /** It is the moment the oldest of them is a window old. */
  lemma {:induction false} OldestFrees(live: seq<real>, log: seq<real>, p: Policy, now: real)
    requires History(log, p, now) && Remembers(live, log, now - p.window) && AllAfter(live, now - p.window)
    requires live != []
    ensures FreesAt(log, p, now, live[0] + p.window)
  {
    RememberedCount(live, log, p, now);
    KeptSorted(live, log, p, now, now - p.window);
    var k := |log| - |live|;
    hide Live, History, Remembers;
    forall later | now <= later ensures Live(log, p, later) < Live(log, p, now) <==> later >= live[0] + p.window {
      if later >= live[0] + p.window {
        OneAgedOut(live, log, p, now, later);
      } else {
        AllStillLive(live, log, p, now, later);
      }
    }
  }

  lemma OneAgedOut(live: seq<real>, log: seq<real>, p: Policy, now: real, later: real)
    requires Remembers(live, log, now - p.window) && live != [] && now <= later && later >= live[0] + p.window
    ensures Live(log, p, later) < |live|
  {
    var k := |log| - |live|;
    assert live[0] == log[k];
    forall i | 0 <= i < k + 1 ensures log[i] <= later - p.window { if i < k { assert log[i] <= now - p.window; } }
    LiveFew(log, p, later, k + 1, |log|);
  }

  lemma AllStillLive(live: seq<real>, log: seq<real>, p: Policy, now: real, later: real)
    requires Remembers(live, log, now - p.window) && live != [] && now <= later < live[0] + p.window
    requires forall i, j :: 0 <= i < j < |live| ==> live[i] <= live[j]
    ensures Live(log, p, later) == |live|
  {
    forall i | 0 <= i < |live| ensures live[i] > later - p.window { assert live[0] <= live[i]; }
    forall i | 0 <= i < |log| - |live| ensures log[i] <= later - p.window {}
    LiveSuffix(log, p, later, |log| - |live|, |log|);
  }

  lemma WholeSeconds(log: seq<real>, p: Policy, now: real, at: real, wait: real)
    requires FreesAt(log, p, now, at) && wait == (at - now).Floor as real + 1.0
    ensures FreesWithin(log, p, now, wait)
  {
    hide FreesAt;
    var whole := (at - now).Floor + 1;
    assert wait == whole as real;
    assert wait.Floor == whole;
    assert at < now + wait <= at + 1.0;
  }

  function LogOf(logs: map<Key, seq<real>>, key: Key): seq<real> { if key in logs then logs[key] else [] }

  // ---- one key of a store --------------------------------------------------------------

  /** The remembered times of one key, and when the store may drop them. */
  datatype Entry = Absent | Entry(times: seq<real>, expires: real)

  /** An entry holds everything live and does not expire before it ages out; an
      absent entry means nothing is live. */
  ghost predicate EntryOk(e: Entry, log: seq<real>, p: Policy, clock: real) {
    && History(log, p, clock)
    && match e
       case Absent => AllBy(log, |log|, clock - p.window)
       case Entry(times, expires) =>
         Remembers(times, log, clock - p.window) && (log != [] ==> expires >= log[|log| - 1] + p.window)
  }

  function TimesOf(e: Entry): seq<real> { if e.Entry? then e.times else [] }

  lemma EntryAges(e: Entry, log: seq<real>, p: Policy, clock: real, now: real)
    requires EntryOk(e, log, p, clock) && clock <= now
    ensures EntryOk(e, log, p, now)
  {
  }

  /** Neither key expiry nor stale pruning forgets a live admission. */
  lemma ExpiryForgetsNothing(e: Entry, log: seq<real>, p: Policy, now: real)
    requires EntryOk(e, log, p, now) && e.Entry? && e.expires <= now
    ensures EntryOk(Absent, log, p, now)
  {
    if log != [] {
      forall i | 0 <= i < |log| ensures log[i] <= now - p.window { assert log[i] <= log[|log| - 1]; }
    }
  }

  lemma EntryTimes(e: Entry, log: seq<real>, p: Policy, now: real)
    requires EntryOk(e, log, p, now)
    ensures History(log, p, now) && Remembers(TimesOf(e), log, now - p.window)
  {
  }

  /** The entry written when a key's window is refused: its live times. */
  lemma RefusedEntry(live: seq<real>, e: Entry, log: seq<real>, p: Policy, now: real, expires: real)
    requires History(log, p, now) && Remembers(live, log, now - p.window) && EntryOk(e, log, p, now)
    requires live != [] && (expires == live[|live| - 1] + p.window || (e.Entry? && expires == e.expires))
    ensures EntryOk(Entry(live, expires), log, p, now)
  {
    if live != [] { assert live[|live| - 1] == log[|log| - 1]; }
  }

  lemma AdmittedEntry(live: seq<real>, log: seq<real>, p: Policy, now: real, expires: real)
    requires History(log, p, now) && Remembers(live, log, now - p.window) && |live| < p.limit
    requires expires >= now + p.window
    ensures EntryOk(Entry(live + [now], expires), log + [now], p, now)
  {
    AdmitKeepsSpacing(live, log, p, now);
  }

  lemma EmptyEntry(log: seq<real>, p: Policy, now: real)
    requires History(log, p, now) && Remembers([], log, now - p.window)
    ensures EntryOk(Absent, log, p, now)
  {
  }

  // ---- a store of many keys -------------------------------------------------------------

  function EntryAt(entries: map<Key, Entry>, key: Key): Entry { if key in entries then entries[key] else Absent }

  ghost predicate StoreOk(policy: Key -> Policy, entries: map<Key, Entry>, logs: map<Key, seq<real>>, clock: real) {
    forall k :: policy(k).window > 0.0 && EntryOk(EntryAt(entries, k), LogOf(logs, k), policy(k), clock)
  }

  /** A step touches one key; the others merely age. */
  lemma OneKeyStep(policy: Key -> Policy, entries: map<Key, Entry>, logs: map<Key, seq<real>>, clock: real, key: Key,
                   entries': map<Key, Entry>, logs': map<Key, seq<real>>, now: real)
    requires StoreOk(policy, entries, logs, clock) && clock <= now
    requires forall k :: k != key ==> EntryAt(entries', k) == EntryAt(entries, k) && LogOf(logs', k) == LogOf(logs, k)
    requires EntryOk(EntryAt(entries', key), LogOf(logs', key), policy(key), now)
    ensures StoreOk(policy, entries', logs', now)
  {
    hide EntryOk, EntryAt, LogOf;
    forall k ensures EntryOk(EntryAt(entries', k), LogOf(logs', k), policy(k), now) {
      EntryAges(EntryAt(entries, k), LogOf(logs, k), policy(k), clock, now);
    }
  }

  function Put(entries: map<Key, Entry>, key: Key, e: Entry): map<Key, Entry> {
    if e.Entry? then entries[key := e] else entries - {key}
  }

  lemma PutAt(entries: map<Key, Entry>, key: Key, e: Entry, logs: map<Key, seq<real>>, log: seq<real>)
    ensures EntryAt(Put(entries, key, e), key) == e
    ensures forall k :: k != key ==> EntryAt(Put(entries, key, e), k) == EntryAt(entries, k)
    ensures LogOf(logs[key := log], key) == log
    ensures forall k :: k != key ==> LogOf(logs[key := log], k) == LogOf(logs, k)
  {
  }

  lemma EntryNow(policy: Key -> Policy, entries: map<Key, Entry>, logs: map<Key, seq<real>>, clock: real, key: Key,
                 now: real)
    requires StoreOk(policy, entries, logs, clock) && clock <= now
    ensures policy(key).window > 0.0 && EntryOk(EntryAt(entries, key), LogOf(logs, key), policy(key), now)
  {
    EntryAges(EntryAt(entries, key), LogOf(logs, key), policy(key), clock, now);
  }

  lemma KeptMeansEntry(e: Entry, bound: real)
    requires Pruned(TimesOf(e), bound) != []
    ensures e.Entry?
  {
  }

  // ---- the Redis script -------------------------------------------------------------

  /** `_RATE_LUA` on one key's sorted set. `reset` is the time until the oldest live
      admission ages out. */
  lemma AdmittedLive(live: seq<real>, log: seq<real>, p: Policy, now: real)
    requires p.window > 0.0 && History(log, p, now) && |live| < p.limit
    requires Remembers(live, log, now - p.window) && AllAfter(live, now - p.window)
    ensures History(log + [now], p, now) && Remembers(live + [now], log + [now], now - p.window)
    ensures AllAfter(live + [now], now - p.window)
  {
    AdmitKeepsSpacing(live, log, p, now);
    hide History, Remembers;
  }

  method RateScript(p: Policy, stored: Entry, now: real, ghost log: seq<real>)
    returns (allowed: bool, remaining: int, reset: real, entry: Entry)
    requires p.window > 0.0 && EntryOk(stored, log, p, now)
    ensures EntryOk(entry, if allowed then log + [now] else log, p, now)
    ensures allowed == (Live(log, p, now) < p.limit)
    ensures remaining == p.limit - Live(log, p, now) - if allowed then 1 else 0
    ensures !allowed && p.limit > 0 ==> EnoughAfter(log, p, now + reset)
    ensures allowed || p.limit > 0 ==> FreesAt(if allowed then log + [now] else log, p, now, now + reset)
    ensures !allowed && p.limit <= 0 ==> reset == p.window
  {
    hide *;
    entry := stored;
    if entry.Entry? && entry.expires <= now {
      // The key has expired before the script reads it.
      ExpiryForgetsNothing(entry, log, p, now);
      entry := Absent;
    }
    EntryTimes(entry, log, p, now);
    var times := Pruned(TimesOf(entry), now - p.window);
    PrunedIsLive(TimesOf(entry), log, p, now, now, times);
    var used: int := |times|;
    allowed := used < p.limit;
    reset := p.window;
    if allowed {
      AdmittedEntry(times, log, p, now, now + p.window + 1000.0);
      AdmittedLive(times, log, p, now);
      times := times + [now];
      entry := Entry(times, now + p.window + 1000.0);
      used := used + 1;
    } else if times == [] {
      EmptyEntry(log, p, now);
      entry := Absent;
    } else {
      KeptMeansEntry(entry, now - p.window);
      RefusedEntry(times, entry, log, p, now, entry.expires);
      if p.limit > 0 { WaitSuffices(times, log, p, now, times[0] + p.window - now); }
      entry := Entry(times, entry.expires);
    }
    if times != [] {
      reset := times[0] + p.window - now;
      OldestFrees(times, if allowed then log + [now] else log, p, now);
    }
    remaining := p.limit - used;
  }

  class RedisWindows {
    const policy: Key -> Policy
    /** One sorted set of admission times per key, in milliseconds. */
    var sets: map<Key, Entry>
    ghost var logs: map<Key, seq<real>>
    ghost var clock: real

    ghost predicate Valid()
      reads this
    {
      StoreOk(policy, sets, logs, clock)
    }

    constructor (policy: Key -> Policy)
      requires forall k :: policy(k).window > 0.0
      ensures Valid() && this.policy == policy && logs == map[]
    {
      this.policy := policy;
      sets := map[];
      logs := map[];
      clock := 0.0;
    }

    /** One script call: admit below the limit, refuse only with `limit` live admissions. */
    method Rate(key: Key, now: real) returns (allowed: bool, remaining: int, reset: real)
      requires Valid() && clock <= now
      modifies this
      ensures Valid() && clock == now
      ensures allowed == (Live(LogOf(old(logs), key), policy(key), now) < policy(key).limit)
      ensures logs == if allowed then old(logs)[key := LogOf(old(logs), key) + [now]] else old(logs)
      ensures remaining == policy(key).limit - Live(LogOf(old(logs), key), policy(key), now) - if allowed then 1 else 0
      ensures !allowed && policy(key).limit > 0 ==> EnoughAfter(LogOf(logs, key), policy(key), now + reset)
      ensures allowed || policy(key).limit > 0 ==> FreesAt(LogOf(logs, key), policy(key), now, now + reset)
    {
      ghost var sets0, logs0, clock0, log := sets, logs, clock, LogOf(logs, key);
      hide EntryOk, EntryAt, LogOf, Put, LiveCount, EnoughAfter, FreesAt, StoreOk;
      EntryNow(policy, sets, logs, clock, key, now);
      var entry;
      allowed, remaining, reset, entry := RateScript(policy(key), EntryAt(sets, key), now, log);
      sets := Put(sets, key, entry);
      if allowed { logs := logs[key := log + [now]]; }
      clock := now;
      PutAt(sets0, key, entry, logs0, log + [now]);
      OneKeyStep(policy, sets0, logs0, clock0, key, sets, logs, now);
    }
  }

  // ---- the in-process fallback -----------------------------------------------------------

  const MAX_WINDOWS: nat := 50_000

  datatype Verdict = Admitted | Refused(wait: real) | Raised

  /** `max(1, int(oldest + window - now) + 1)`. */
  function RetryAfter(oldest: real, window: real, now: real): (wait: real)
    ensures wait >= 1.0 && wait >= oldest + window - now
  {
    var seconds := ((oldest + window - now).Floor + 1) as real;
    if seconds < 1.0 then 1.0 else seconds
  }

  lemma RetryWhole(log: seq<real>, p: Policy, now: real, oldest: real, wait: real)
    requires FreesAt(log, p, now, oldest + p.window) && wait == RetryAfter(oldest, p.window, now)
    ensures FreesWithin(log, p, now, wait)
  {
    assert (oldest + p.window - now).Floor >= 0;
    WholeSeconds(log, p, now, oldest + p.window, wait);
  }

  function Unexpired(entries: map<Key, Entry>, now: real): map<Key, Entry> {
    map k | k in entries && !(entries[k].Entry? && entries[k].expires <= now) :: entries[k]
  }

  /** The subject cap is reached even after the stale windows are dropped. */
  predicate CapReached(entries: map<Key, Entry>, now: real) {
    |entries| >= MAX_WINDOWS && |Unexpired(entries, now)| >= MAX_WINDOWS
  }

  /** 50,000 subjects with windows that have not expired. */
  lemma CapMeans(entries: map<Key, Entry>, now: real)
    ensures CapReached(entries, now) <==>
      |set k | k in entries && !(entries[k].Entry? && entries[k].expires <= now)| >= 50_000
  {
    var unexpired := set k | k in entries && !(entries[k].Entry? && entries[k].expires <= now);
    assert Unexpired(entries, now).Keys == unexpired;
    SubsetSize(unexpired, entries.Keys);
  }

  /** `window` on one subject's deque; `full` is the subject cap. */
  method WindowStep(p: Policy, stored: Entry, full: bool, now: real, ghost log: seq<real>)
    returns (v: Verdict, entry: Entry)
    requires p.window > 0.0 && EntryOk(stored, log, p, now)
    ensures EntryOk(entry, if v.Admitted? then log + [now] else log, p, now)
    ensures v.Raised? <==> p.limit <= 0
    ensures v.Admitted? <==> Live(log, p, now) < p.limit && !full
    ensures v.Refused? && Live(log, p, now) >= p.limit ==> v.wait >= 1.0 && EnoughAfter(log, p, now + v.wait)
    ensures v.Refused? && Live(log, p, now) >= p.limit ==> FreesWithin(log, p, now, v.wait)
    ensures v.Refused? && Live(log, p, now) < p.limit ==> v.wait == p.window
    ensures !v.Admitted? && stored.Absent? ==> entry.Absent?
    ensures v.Admitted? ==> entry.Entry?
    ensures stored.Entry? ==> entry.Entry?
  {
    hide *;
    EntryTimes(stored, log, p, now);
    var attempts := Pruned(TimesOf(stored), now - p.window);
    PrunedIsLive(TimesOf(stored), log, p, now, now, attempts);
    entry := stored;
    if stored.Entry? {
      // The stored deque itself was pruned.
      PrunedEntry(attempts, stored, log, p, now);
      entry := Entry(attempts, stored.expires);
    }
    if |attempts| >= p.limit {
      if attempts == [] { return Raised, entry; }
      var newest := attempts[|attempts| - 1];
      KeptMeansEntry(stored, now - p.window);
      RefusedEntry(attempts, stored, log, p, now, newest + p.window);
      entry := Entry(attempts, newest + p.window);
      v := Refused(RetryAfter(attempts[0], p.window, now));
      WaitSuffices(attempts, log, p, now, v.wait);
      OldestFrees(attempts, log, p, now);
      RetryWhole(log, p, now, attempts[0], v.wait);
      return;
    }
    if full { return Refused(p.window), entry; }
    AdmittedEntry(attempts, log, p, now, now + p.window);
    entry := Entry(attempts + [now], now + p.window);
    v := Admitted;
  }

  lemma PrunedEntry(live: seq<real>, e: Entry, log: seq<real>, p: Policy, now: real)
    requires Remembers(live, log, now - p.window) && EntryOk(e, log, p, now) && e.Entry?
    ensures EntryOk(Entry(live, e.expires), log, p, now)
  {
  }

  lemma PutSize(entries: map<Key, Entry>, key: Key, e: Entry)
    ensures |Put(entries, key, e)| <= |entries| + 1
    ensures key in entries || e.Absent? ==> |Put(entries, key, e)| <= |entries|
    ensures Put(entries, key, e).Keys <= entries.Keys + {key}
  {
    var after := Put(entries, key, e);
    if e.Entry? {
      assert after.Keys == entries.Keys + {key};
      if key in entries { assert after.Keys == entries.Keys; }
    } else {
      assert after.Keys == entries.Keys - {key};
    }
    SubsetSize(after.Keys, entries.Keys + {key});
    if key in entries { assert entries.Keys + {key} == entries.Keys; }
    if e.Absent? { SubsetSize(after.Keys, entries.Keys); }
  }

  /** Dropping stale windows keeps the store sound. */
  lemma UnexpiredOk(policy: Key -> Policy, entries: map<Key, Entry>, logs: map<Key, seq<real>>, clock: real, now: real)
    requires StoreOk(policy, entries, logs, clock) && clock <= now
    ensures StoreOk(policy, Unexpired(entries, now), logs, now)
    ensures |Unexpired(entries, now)| <= |entries| && Unexpired(entries, now).Keys <= entries.Keys
  {
    hide EntryOk, LogOf;
    SubsetSize(Unexpired(entries, now).Keys, entries.Keys);
    forall k ensures EntryOk(EntryAt(Unexpired(entries, now), k), LogOf(logs, k), policy(k), now) {
      EntryNow(policy, entries, logs, clock, k, now);
      if k in entries && entries[k].Entry? && entries[k].expires <= now {
        ExpiryForgetsNothing(entries[k], LogOf(logs, k), policy(k), now);
      }
    }
  }

  ghost predicate AllPresent(entries: map<Key, Entry>) { forall k :: k in entries ==> entries[k].Entry? }

  class LocalFallback {
    const policy: Key -> Policy
    /** One deque of admission times per subject, in seconds, with its expiry. */
    var windows: map<Key, Entry>
    ghost var logs: map<Key, seq<real>>
    ghost var clock: real

    ghost predicate Valid()
      reads this
    {
      StoreOk(policy, windows, logs, clock) && |windows| <= MAX_WINDOWS && AllPresent(windows)
    }

    constructor (policy: Key -> Policy)
      requires forall k :: policy(k).window > 0.0
      ensures Valid() && this.policy == policy && logs == map[] && windows == map[] && clock == 0.0
    {
      this.policy := policy;
      windows := map[];
      logs := map[];
      clock := 0.0;
    }

    /** `window`: admits exactly when fewer than `limit` admissions are live and the
        subject cap is not reached; raises exactly when the limit is not positive. */
    method Window(key: Key, now: real) returns (v: Verdict)
      requires Valid() && clock <= now
      modifies this
      ensures Valid() && clock == now
      ensures logs == if v.Admitted? then old(logs)[key := LogOf(old(logs), key) + [now]] else old(logs)
      ensures v.Raised? <==> policy(key).limit <= 0
      ensures v.Admitted? <==>
        Live(LogOf(old(logs), key), policy(key), now) < policy(key).limit && !CapReached(old(windows), now)
      ensures v.Refused? && Live(LogOf(logs, key), policy(key), now) >= policy(key).limit ==>
        v.wait >= 1.0 && EnoughAfter(LogOf(logs, key), policy(key), now + v.wait)
      ensures v.Refused? && Live(LogOf(logs, key), policy(key), now) >= policy(key).limit ==>
        FreesWithin(LogOf(logs, key), policy(key), now, v.wait)
      ensures v.Refused? && Live(LogOf(logs, key), policy(key), now) < policy(key).limit ==>
        v.wait == policy(key).window
      ensures windows.Keys <= old(windows).Keys + {key}
    {
      ghost var clock0, log := clock, LogOf(logs, key);
      hide EntryOk, LogOf, LiveCount, EnoughAfter, FreesWithin, Put, StoreOk;
      if |windows| >= MAX_WINDOWS {
        UnexpiredOk(policy, windows, logs, clock, now);
        windows := Unexpired(windows, now);
        clock0 := now;
      }
      ghost var windows0, logs0 := windows, logs;
      EntryNow(policy, windows, logs, clock0, key, now);
      var entry;
      v, entry := WindowStep(policy(key), EntryAt(windows, key), |windows| >= MAX_WINDOWS, now, log);
      PutSize(windows, key, entry);
      windows := Put(windows, key, entry);
      if v.Admitted? { logs := logs[key := log + [now]]; }
      clock := now;
      PutAt(windows0, key, entry, logs0, log + [now]);
      OneKeyStep(policy, windows0, logs0, clock0, key, windows, logs, now);
      PutPresent(windows0, key, entry);
    }
  }

  lemma PutPresent(entries: map<Key, Entry>, key: Key, e: Entry)
    requires AllPresent(entries)
    ensures AllPresent(Put(entries, key, e))
  {
  }

  // ---- a full table refuses subjects that have admissions left ------------------------------

  function Letters(n: nat): (s: string)
    ensures |s| == n
  {
    if n == 0 then "" else Letters(n - 1) + "x"
  }

  function Subject(n: nat): Key { Key(Letters(n)) }

  /** A table of `n` subjects, each admitted once, at time 0. */
  function Crowd(n: nat, window: real): map<Key, Entry> {
    if n == 0 then map[] else Crowd(n - 1, window)[Subject(n - 1) := Entry([0.0], window)]
  }

  function CrowdLogs(n: nat): map<Key, seq<real>> {
    if n == 0 then map[] else CrowdLogs(n - 1)[Subject(n - 1) := [0.0]]
  }

  lemma {:induction false} CrowdSpec(n: nat, window: real)
    ensures |Crowd(n, window)| == n && Crowd(n, window).Keys == CrowdLogs(n).Keys
    ensures forall k :: k in Crowd(n, window) ==> |k.text| < n && Crowd(n, window)[k] == Entry([0.0], window)
    ensures forall k :: k in CrowdLogs(n) ==> CrowdLogs(n)[k] == [0.0]
    ensures n > 0 ==> Subject(0) in Crowd(n, window)
  {
    if n > 0 {
      CrowdSpec(n - 1, window);
      var before := Crowd(n - 1, window);
      assert Subject(n - 1) !in before;
      assert Crowd(n, window).Keys == before.Keys + {Subject(n - 1)};
    }
  }

  lemma OnceAdmitted(p: Policy)
    requires p.limit >= 2 && p.window > 0.0
    ensures EntryOk(Entry([0.0], p.window), [0.0], p, 0.0) && EntryOk(Absent, [], p, 0.0)
    ensures Live([0.0], p, 0.0) < p.limit
  {
    assert LiveCount([0.0], p, 0.0, 0) == 0;
  }

  lemma {:induction false} CrowdOk(policy: Key -> Policy, p: Policy, n: nat)
    requires p.limit >= 2 && p.window > 0.0 && forall k :: policy(k) == p
    ensures StoreOk(policy, Crowd(n, p.window), CrowdLogs(n), 0.0)
  {
    var entries, logs := Crowd(n, p.window), CrowdLogs(n);
    CrowdSpec(n, p.window);
    OnceAdmitted(p);
    hide Crowd, CrowdLogs, EntryOk, Live;
    forall k ensures EntryOk(EntryAt(entries, k), LogOf(logs, k), policy(k), 0.0) {
      if k !in entries { assert k !in logs; }
    }
  }

  lemma {:induction false} CrowdFresh(n: nat, window: real)
    requires window > 0.0
    ensures Unexpired(Crowd(n, window), 0.0) == Crowd(n, window)
  {
    CrowdSpec(n, window);
    hide Crowd, CrowdLogs;
  }

  /** 50,000 subjects admitted once each fill a sound table. From then on a subject of
      the table is refused although it has admissions left. */
  lemma {:induction false} FullTableRefuses(policy: Key -> Policy, p: Policy)
    requires p.limit >= 2 && p.window > 0.0 && forall k :: policy(k) == p
    ensures var entries, logs := Crowd(MAX_WINDOWS, p.window), CrowdLogs(MAX_WINDOWS);
      && StoreOk(policy, entries, logs, 0.0) && |entries| == MAX_WINDOWS && AllPresent(entries)
      && Subject(0) in entries && Live(LogOf(logs, Subject(0)), p, 0.0) < p.limit
      && CapReached(entries, 0.0)
  {
    CrowdSpec(MAX_WINDOWS, p.window);
    CrowdFresh(MAX_WINDOWS, p.window);
    OnceAdmitted(p);
    CrowdOk(policy, p, MAX_WINDOWS);
    hide Crowd, CrowdLogs, EntryOk, Live, StoreOk, Unexpired;
    assert Subject(0) in CrowdLogs(MAX_WINDOWS).Keys;
  }

  lemma {:induction false} CrowdGrows(n: nat)
    ensures |CrowdLogs(n).Keys| == n && LogOf(CrowdLogs(n), Subject(n)) == []
    ensures CrowdLogs(n + 1) == CrowdLogs(n)[Subject(n) := LogOf(CrowdLogs(n), Subject(n)) + [0.0]]
    ensures CrowdLogs(n + 1).Keys == CrowdLogs(n).Keys + {Subject(n)}
  {
    CrowdSpec(n, 1.0);
    assert |Crowd(n, 1.0).Keys| == |Crowd(n, 1.0)|;
    assert |Subject(n).text| == n;
    assert Subject(n) !in Crowd(n, 1.0);
    assert [] + [0.0] == [0.0];
  }

  lemma StillThere(e: Entry, p: Policy)
    requires p.window > 0.0 && EntryOk(e, [0.0], p, 0.0)
    ensures e.Entry? && e.expires > 0.0
  {
  }

  /** Every subject admitted at time 0 is still remembered then. */
  lemma {:induction false} CrowdRemembered(policy: Key -> Policy, p: Policy, entries: map<Key, Entry>, n: nat)
    requires p.window > 0.0 && StoreOk(policy, entries, CrowdLogs(n), 0.0) && forall k :: policy(k) == p
    ensures |Unexpired(entries, 0.0)| >= n && |entries| >= n
  {
    CrowdSpec(n, 1.0);
    CrowdGrows(n);
    hide Crowd, CrowdLogs;
    forall k | k in CrowdLogs(n) ensures k in Unexpired(entries, 0.0) {
      StillThere(EntryAt(entries, k), p);
    }
    SubsetSize(CrowdLogs(n).Keys, Unexpired(entries, 0.0).Keys);
    SubsetSize(CrowdLogs(n).Keys, entries.Keys);
  }

  /** Calls from an empty table reach such a state: after 50,000 admissions of as many
      subjects the first of them is refused, although it has admissions left. */
  method FillTable(policy: Key -> Policy, p: Policy) returns (store: LocalFallback, v: Verdict)
    requires p.limit >= 2 && p.window > 0.0 && forall k :: policy(k) == p
    ensures store.Valid() && store.policy == policy && store.logs == CrowdLogs(MAX_WINDOWS)
    ensures v.Refused? && Live(LogOf(store.logs, Subject(0)), p, 0.0) < p.limit
  {
    hide *;
    store := new LocalFallback(policy);
    NobodyYet(p);
    for k := 0 to MAX_WINDOWS
      invariant fresh(store) && store.Valid() && store.policy == policy && store.clock == 0.0
      invariant store.logs == CrowdLogs(k) && store.windows.Keys <= CrowdLogs(k).Keys
    {
      CrowdGrows(k);
      NotYetFull(store.windows, CrowdLogs(k));
      v := store.Window(Subject(k), 0.0);
    }
    SoundStore(store);
    CrowdRemembered(policy, p, store.windows, MAX_WINDOWS);
    FullTable(store.windows, 0.0);
    FirstOfCrowd(p);
    v := store.Window(Subject(0), 0.0);
  }

  lemma SoundStore(store: LocalFallback)
    requires store.Valid()
    ensures StoreOk(store.policy, store.windows, store.logs, store.clock)
  {
  }

  lemma NotYetFull(entries: map<Key, Entry>, logs: map<Key, seq<real>>)
    requires entries.Keys <= logs.Keys && |logs.Keys| < MAX_WINDOWS
    ensures !CapReached(entries, 0.0)
  {
    SubsetSize(entries.Keys, logs.Keys);
  }

  lemma FullTable(entries: map<Key, Entry>, now: real)
    requires |entries| >= MAX_WINDOWS && |Unexpired(entries, now)| >= MAX_WINDOWS
    ensures CapReached(entries, now)
  {
  }

  lemma NobodyYet(p: Policy)
    requires p.limit >= 2
    ensures CrowdLogs(0) == map[] && Live([], p, 0.0) < p.limit
  {
  }

  lemma FirstOfCrowd(p: Policy)
    requires p.limit >= 2 && p.window > 0.0
    ensures Live(LogOf(CrowdLogs(MAX_WINDOWS), Subject(0)), p, 0.0) < p.limit
  {
    CrowdSpec(MAX_WINDOWS, p.window);
    OnceAdmitted(p);
    hide Crowd, CrowdLogs, Subject, Live;
    assert Subject(0) in CrowdLogs(MAX_WINDOWS).Keys;
  }

  /** Whatever the calls and their order, each key's admissions stay within its limit. */
  lemma StoreWindowSafety(policy: Key -> Policy, entries: map<Key, Entry>, logs: map<Key, seq<real>>, clock: real,
                          key: Key, from: real)
    requires StoreOk(policy, entries, logs, clock)
    ensures var log, p := LogOf(logs, key), policy(key);
      CountIn(log, from, from + p.window, |log|) <= if p.limit <= 0 then 0 else p.limit
  {
    EntryNow(policy, entries, logs, clock, key, clock);
    hide StoreOk, CountIn;
    WindowSafety(LogOf(logs, key), policy(key), clock, from);
  }

  // ---- the fallback's requests per minute --------------------------------------------------

  /** One tenant's deque, which never expires. */
  ghost predicate DequeOk(window: seq<real>, log: seq<real>, p: Policy, clock: real) {
    p.window > 0.0 && History(log, p, clock) && Remembers(window, log, clock - p.window)
  }

  /** `rate` on one deque; the reported wait suffices whenever it refuses. */
  method RateStep(p: Policy, stored: seq<real>, now: real, ghost log: seq<real>)
    returns (allowed: bool, remaining: int, reset: real, window: seq<real>)
    requires DequeOk(stored, log, p, now)
    ensures DequeOk(window, if allowed then log + [now] else log, p, now)
    ensures allowed == (Live(log, p, now) < p.limit)
    ensures remaining == p.limit - |window|
    ensures |window| == Live(log, p, now) + if allowed then 1 else 0
    ensures !allowed && p.limit > 0 ==> EnoughAfter(log, p, now + reset)
    ensures allowed || p.limit > 0 ==> FreesWithin(if allowed then log + [now] else log, p, now, reset)
    ensures !allowed && p.limit <= 0 ==> reset == p.window
  {
    hide *;
    DequeParts(stored, log, p, now);
    window := Pruned(stored, now - p.window);
    PrunedIsLive(stored, log, p, now, now, window);
    allowed := |window| < p.limit;
    if allowed {
      AdmittedLive(window, log, p, now);
      window := window + [now];
      DequeFrom(window, log + [now], p, now);
    } else {
      DequeFrom(window, log, p, now);
      if p.limit > 0 { WaitSuffices(window, log, p, now, (window[0] + p.window - now).Floor as real + 1.0); }
    }
    reset := if window != [] then (window[0] + p.window - now).Floor as real + 1.0 else p.window;
    if window != [] {
      OldestFrees(window, if allowed then log + [now] else log, p, now);
      WholeSeconds(if allowed then log + [now] else log, p, now, window[0] + p.window, reset);
    }
    remaining := p.limit - |window|;
  }

  lemma DequeParts(window: seq<real>, log: seq<real>, p: Policy, now: real)
    requires DequeOk(window, log, p, now)
    ensures p.window > 0.0 && History(log, p, now) && Remembers(window, log, now - p.window)
  {
  }

  lemma DequeFrom(window: seq<real>, log: seq<real>, p: Policy, now: real)
    requires p.window > 0.0 && History(log, p, now) && Remembers(window, log, now - p.window)
    ensures DequeOk(window, log, p, now)
  {
  }

  class TenantRates {
    const policy: Key -> Policy
    var rates: map<Key, seq<real>>
    ghost var logs: map<Key, seq<real>>
    ghost var clock: real

    ghost predicate Valid()
      reads this
    {
      forall k :: DequeOk(LogOf(rates, k), LogOf(logs, k), policy(k), clock)
    }

    constructor (policy: Key -> Policy)
      requires forall k :: policy(k).window > 0.0
      ensures Valid() && this.policy == policy && logs == map[]
    {
      this.policy := policy;
      rates := map[];
      logs := map[];
      clock := 0.0;
    }

    /** `rate`. */
    method Rate(key: Key, now: real) returns (allowed: bool, remaining: int, reset: real)
      requires Valid() && clock <= now
      modifies this
      ensures Valid() && clock == now
      ensures allowed == (Live(LogOf(old(logs), key), policy(key), now) < policy(key).limit)
      ensures logs == if allowed then old(logs)[key := LogOf(old(logs), key) + [now]] else old(logs)
      ensures !allowed && policy(key).limit > 0 ==> EnoughAfter(LogOf(logs, key), policy(key), now + reset)
      ensures allowed || policy(key).limit > 0 ==> FreesWithin(LogOf(logs, key), policy(key), now, reset)
    {
      hide DequeOk, LiveCount, EnoughAfter, FreesWithin;
      forall k ensures DequeOk(LogOf(rates, k), LogOf(logs, k), policy(k), now) {
        DequeAges(LogOf(rates, k), LogOf(logs, k), policy(k), clock, now);
      }
      ghost var log := LogOf(logs, key);
      var window;
      allowed, remaining, reset, window := RateStep(policy(key), LogOf(rates, key), now, log);
      rates := rates[key := window];
      if allowed { logs := logs[key := log + [now]]; }
      clock := now;
    }
  }

  lemma DequeAges(window: seq<real>, log: seq<real>, p: Policy, clock: real, now: real)
    requires DequeOk(window, log, p, clock) && clock <= now
    ensures DequeOk(window, log, p, now)
  {
  }

  // ---- leased concurrency slots ------------------------------------------------------------

  datatype Lease = Lease(text: string)

  function LiveLeases(leases: map<Lease, real>, now: real): set<Lease> {
    set k | k in leases && leases[k] > now
  }

  lemma LiveLeasesAre(held: map<Lease, real>, now: real)
    ensures |LiveLeases(held, now)| == |set k | k in held && held[k] > now|
  {
    assert LiveLeases(held, now) == set k | k in held && held[k] > now;
  }

  /** What is left after `ZREMRANGEBYSCORE -inf now`. */
  function Reclaimed(leases: map<Lease, real>, now: real): map<Lease, real> {
    map k | k in LiveLeases(leases, now) :: leases[k]
  }

  /** The stored leases are the held ones that can still be live, and the key
      outlives them all. */
  ghost predicate SlotsOk(leases: map<Lease, real>, held: map<Lease, real>, expires: real, clock: real, limit: int) {
    && LiveLeases(held, clock) <= leases.Keys
    && (forall k :: k in leases ==> k in held && leases[k] == held[k] && leases[k] < expires)
    && |LiveLeases(held, clock)| <= (if limit < 0 then 0 else limit)
  }

  /** Neither the key's expiry nor reclaiming drops a live lease. */
  lemma ReclaimKeepsLive(leases: map<Lease, real>, held: map<Lease, real>, expires: real, clock: real, limit: int,
                         now: real)
    requires SlotsOk(leases, held, expires, clock, limit) && clock <= now
    ensures Reclaimed(leases, now).Keys == LiveLeases(held, now)
    ensures expires <= now ==> Reclaimed(leases, now) == map[]
    ensures SlotsOk(Reclaimed(leases, now), held, expires, now, limit)
  {
    SubsetSize(LiveLeases(held, now), LiveLeases(held, clock));
  }

  ghost predicate TermsBy(leases: map<Lease, real>, bound: real) { forall k :: k in leases ==> leases[k] <= bound }

  lemma ReclaimedTerms(leases: map<Lease, real>, bound: real, now: real, later: real)
    requires TermsBy(leases, bound) && bound <= later
    ensures TermsBy(Reclaimed(leases, now), later)
  {
  }

  lemma LeaseAdded(held: map<Lease, real>, lease: Lease, until: real, now: real)
    requires lease !in held && until > now
    ensures LiveLeases(held[lease := until], now) == LiveLeases(held, now) + {lease}
    ensures |LiveLeases(held[lease := until], now)| == |LiveLeases(held, now)| + 1
  {
    var after := held[lease := until];
    assert LiveLeases(after, now) == LiveLeases(held, now) + {lease};
  }

  lemma {:induction false} LeaseTaken(leases: map<Lease, real>, held: map<Lease, real>, expires: real, limit: int,
                                      lease: Lease, ttl: real, now: real)
    requires SlotsOk(leases, held, expires, now, limit) && leases.Keys == LiveLeases(held, now)
    requires lease !in held && ttl > 0.0 && |leases.Keys| < limit
    requires TermsBy(leases, now + ttl)
    ensures TermsBy(leases[lease := now + ttl], now + ttl)
    ensures SlotsOk(leases[lease := now + ttl], held[lease := now + ttl], now + ttl + 1000.0, now, limit)
  {
    LeaseAdded(held, lease, now + ttl, now);
  }

  lemma LeaseReturned(leases: map<Lease, real>, held: map<Lease, real>, expires: real, clock: real, limit: int,
                      lease: Lease)
    requires SlotsOk(leases, held, expires, clock, limit)
    ensures SlotsOk(leases - {lease}, held - {lease}, expires, clock, limit)
    ensures forall bound :: TermsBy(leases, bound) ==> TermsBy(leases - {lease}, bound)
  {
    SubsetSize(LiveLeases(held - {lease}, clock), LiveLeases(held, clock));
  }

  /** `gr:slots:{tenant}`: lease expiries, and the expiry of the key itself. */
  class Slots {
    const limit: int
    const ttl: real
    var leases: map<Lease, real>
    var expires: real
    /** Every lease acquired and not released, with the end of its term. */
    ghost var held: map<Lease, real>
    ghost var clock: real

    ghost predicate Valid()
      reads this
    {
      && ttl > 0.0 && SlotsOk(leases, held, expires, clock, limit)
      && TermsBy(leases, clock + ttl)
    }

    constructor (limit: int, ttl: real)
      requires ttl > 0.0
      ensures Valid() && this.limit == limit && this.ttl == ttl && held == map[]
    {
      this.limit := limit;
      this.ttl := ttl;
      leases := map[];
      expires := 0.0;
      held := map[];
      clock := 0.0;
    }

    /** `_SLOT_ACQUIRE_LUA`: refused exactly when `limit` unexpired leases are held,
        so never more than `limit` are. */
    method Acquire(lease: Lease, now: real) returns (ok: bool)
      requires Valid() && clock <= now && lease !in held
      modifies this
      ensures Valid() && clock == now
      ensures ok == (|set k | k in old(held) && old(held)[k] > now| < limit)
      ensures held == if ok then old(held)[lease := now + ttl] else old(held)
    {
      LiveLeasesAre(held, now);
      hide LiveLeases, Reclaimed, SlotsOk, TermsBy;
      ReclaimKeepsLive(leases, held, expires, clock, limit, now);
      ReclaimedTerms(leases, clock + ttl, now, now + ttl);
      if expires <= now { leases := map[]; } else { leases := Reclaimed(leases, now); }
      clock := now;
      ok := |leases.Keys| < limit;
      if ok {
        LeaseTaken(leases, held, expires, limit, lease, ttl, now);
        leases := leases[lease := now + ttl];
        held := held[lease := now + ttl];
        expires := now + ttl + 1000.0;
      }
    }

    /** `zrem`. */
    method Release(lease: Lease)
      requires Valid()
      modifies this
      ensures Valid() && clock == old(clock)
      ensures held == old(held) - {lease}
    {
      LeaseReturned(leases, held, expires, clock, limit, lease);
      hide SlotsOk, TermsBy;
      leases := leases - {lease};
      held := held - {lease};
    }
  }
}
