/**
 The sliding window that every rate limiter of the repository keeps: accepted
 timestamps, pruned as they leave the window. The lemmas compare the pruned list
 with the complete log of accepted operations.
 */
module SlidingWindow {
  import opened Prelude

  /** `now.saturating_sub(ts)`. */
  function Age(ts: nat, now: nat): nat {
    if now >= ts then now - ts else 0
  }

  /** The timestamps younger than `span`. A closed window of length w has span w + 1. */
  function Prune(entries: seq<nat>, now: nat, span: nat): (kept: seq<nat>)
    ensures |kept| <= |entries|
  {
    if entries == [] then []
    else
      var last := entries[|entries| - 1];
      Prune(entries[..|entries| - 1], now, span) + (if Age(last, now) < span then [last] else [])
  }

  datatype Verdict = Verdict(allowed: bool, entries: seq<nat>)

  /** One attempt: prune, compare with the limit, record if allowed. */
  function Admit(entries: seq<nat>, now: nat, span: nat, limit: nat): Verdict {
    var kept := Prune(entries, now, span);
    if |kept| >= limit then Verdict(false, kept) else Verdict(true, kept + [now])
  }

  /** The same decision taken on a log that is never pruned. */
  function AdmitFull(log: seq<nat>, now: nat, span: nat, limit: nat): Verdict {
    if |Prune(log, now, span)| >= limit then Verdict(false, log) else Verdict(true, log + [now])
  }

  lemma PruneAppend(entries: seq<nat>, x: nat, now: nat, span: nat)
    ensures Prune(entries + [x], now, span)
         == Prune(entries, now, span) + (if Age(x, now) < span then [x] else [])
  {
    assert (entries + [x])[..|entries|] == entries;
  }

  /** Whatever is young at `t` was young at `t0`. */
  ghost predicate YoungBefore(entries: seq<nat>, t0: nat, span0: nat, t: nat, span: nat) {
    forall x <- entries :: Age(x, t) < span ==> Age(x, t0) < span0
  }

  /** Pruning early is invisible to a later pruning exactly when it drops nothing that would still be young then. */
  lemma {:induction false} PruneTwiceExactly(entries: seq<nat>, t0: nat, span0: nat, t: nat, span: nat)
    ensures |Prune(Prune(entries, t0, span0), t, span)| <= |Prune(entries, t, span)|
    ensures Prune(Prune(entries, t0, span0), t, span) == Prune(entries, t, span)
       <==> YoungBefore(entries, t0, span0, t, span)
  {
    hide Age, Prune, YoungBefore;
    if entries == [] {
      PruneNone(t0, span0, t, span);
    } else {
      var init, last := entries[..|entries| - 1], entries[|entries| - 1];
      assert entries == init + [last];
      PruneTwiceExactly(init, t0, span0, t, span);
      PruneAppend(init, last, t0, span0);
      PruneAppend(Prune(init, t0, span0), last, t, span);
      PruneAppend(init, last, t, span);
      YoungBeforeAppend(init, last, t0, span0, t, span);
      AppendEqual(Prune(Prune(init, t0, span0), t, span), Prune(init, t, span), last);
      AppendNone(Prune(init, t0, span0));
      AppendNone(Prune(Prune(init, t0, span0), t, span));
      AppendNone(Prune(init, t, span));
    }
  }

  lemma PruneNone(t0: nat, span0: nat, t: nat, span: nat)
    ensures Prune([], t0, span0) == [] == Prune([], t, span)
    ensures YoungBefore([], t0, span0, t, span)
  {
  }

  lemma YoungBeforeAppend(entries: seq<nat>, x: nat, t0: nat, span0: nat, t: nat, span: nat)
    ensures YoungBefore(entries + [x], t0, span0, t, span)
       <==> YoungBefore(entries, t0, span0, t, span) && (Age(x, t) < span ==> Age(x, t0) < span0)
  {
    hide Age;
    assert x in entries + [x] && forall y <- entries :: y in entries + [x];
  }

  lemma AppendEqual(a: seq<nat>, b: seq<nat>, x: nat)
    ensures a + [x] == b + [x] <==> a == b
  {
    assert (a + [x])[..|a|] == a && (b + [x])[..|b|] == b;
  }

  lemma AppendNone(a: seq<nat>)
    ensures a + [] == a
  {
  }

  lemma {:induction false} PruneShrinks(entries: seq<nat>, t0: nat, t: nat, span: nat)
    requires t0 <= t
    ensures |Prune(entries, t, span)| <= |Prune(entries, t0, span)|
  {
    if entries != [] {
      PruneShrinks(entries[..|entries| - 1], t0, t, span);
    }
  }

  /** The positions of the timestamps that a window of this span, ending now, still covers. */
  function Covered(entries: seq<nat>, now: nat, span: nat): set<nat> {
    set i: nat | i < |entries| && now < entries[i] + span
  }

  /** Exactly the covered timestamps are kept, and the limit is compared with their number. */
  lemma {:induction false} KeptExactly(entries: seq<nat>, now: nat, span: nat)
    requires span > 0
    ensures |Prune(entries, now, span)| == |Covered(entries, now, span)|
    ensures forall x :: x in Prune(entries, now, span) <==> x in entries && now < x + span
  {
    if entries != [] {
      var init, last := entries[..|entries| - 1], |entries| - 1;
      KeptExactly(init, now, span);
      var before, after := Covered(init, now, span), Covered(entries, now, span);
      assert entries == init + [entries[last]];
      assert after == if now < entries[last] + span then before + {last} else before;
    }
  }

  // ----- windows of many keys

  function Lookup<K>(windows: map<K, seq<nat>>, k: K): seq<nat> {
    if k in windows then windows[k] else []
  }

  /** One attempt of one key: the new windows, and whether it is allowed. */
  function AdmitKey<K(==)>(windows: map<K, seq<nat>>, who: K, now: nat, span: nat, limit: nat)
    : (map<K, seq<nat>>, bool)
  {
    var verdict := Admit(Lookup(windows, who), now, span, limit);
    (windows[who := verdict.entries], verdict.allowed)
  }

  function AdmitKeyFull<K(==)>(logs: map<K, seq<nat>>, who: K, now: nat, span: nat, limit: nat)
    : (map<K, seq<nat>>, bool)
  {
    var verdict := AdmitFull(Lookup(logs, who), now, span, limit);
    (logs[who := verdict.entries], verdict.allowed)
  }

  /** A cleanup: every window is pruned, and those that become empty are dropped. */
  function Swept<K(==)>(windows: map<K, seq<nat>>, now: nat, span: nat): map<K, seq<nat>> {
    map k | k in windows && Prune(windows[k], now, span) != [] :: Prune(windows[k], now, span)
  }

  // ----- runs

  datatype Event<K> = Attempt(who: K, at: nat) | Sweep(at: nat)

  predicate Ordered<K>(events: seq<Event<K>>) {
    forall i, j | 0 <= i < j < |events| :: events[i].at <= events[j].at
  }

  /** The decisions of the code: pruned windows, and cleanups that prune with a span of their own. */
  function PrunedRun<K(==)>(
    windows: map<K, seq<nat>>, events: seq<Event<K>>, span: nat, limit: K -> nat, sweepSpan: nat): seq<bool>
    decreases |events|
  {
    if events == [] then []
    else match events[0]
      case Attempt(who, now) =>
        var (next, allowed) := AdmitKey(windows, who, now, span, limit(who));
        [allowed] + PrunedRun(next, events[1..], span, limit, sweepSpan)
      case Sweep(now) =>
        PrunedRun(Swept(windows, now, sweepSpan), events[1..], span, limit, sweepSpan)
  }

  /** The decisions of the definition: every accepted operation is remembered, cleanups do nothing. */
  function FullRun<K(==)>(logs: map<K, seq<nat>>, events: seq<Event<K>>, span: nat, limit: K -> nat): seq<bool>
    decreases |events|
  {
    if events == [] then []
    else match events[0]
      case Attempt(who, now) =>
        var (next, allowed) := AdmitKeyFull(logs, who, now, span, limit(who));
        [allowed] + FullRun(next, events[1..], span, limit)
      case Sweep(_) =>
        FullRun(logs, events[1..], span, limit)
  }

  // ----- on which clocks the two agree

  /** The clock readings of a run, in order. */
  function Readings<K>(events: seq<Event<K>>): (clock: seq<nat>)
    ensures |clock| == |events| && forall i | 0 <= i < |events| :: clock[i] == events[i].at
  {
    seq(|events|, i requires 0 <= i < |events| => events[i].at)
  }

  /** Once the reading `x` has left the window, the clock never goes back to where it was inside. */
  ghost predicate StaysOut(x: nat, clock: seq<nat>, span: nat) {
    forall j, k | 0 <= j < k < |clock| :: Age(x, clock[k]) < span ==> Age(x, clock[j]) < span
  }

  /** The clock may go back, but never so far that an earlier reading comes back into the window. */
  ghost predicate Steady(clock: seq<nat>, span: nat) {
    forall i, j, k | 0 <= i < j < k < |clock| :: Age(clock[i], clock[k]) < span ==> Age(clock[i], clock[j]) < span
  }

  lemma OrderedIsSteady<K>(events: seq<Event<K>>, span: nat)
    requires Ordered(events)
    ensures Steady(Readings(events), span)
  {
  }

  /** No pruning at a later reading tells the two lists apart, and nothing pruned comes back. */
  ghost predicate SameList(entries: seq<nat>, log: seq<nat>, clock: seq<nat>, span: nat) {
    && (forall t <- clock :: Prune(entries, t, span) == Prune(log, t, span))
    && (forall x <- entries :: StaysOut(x, clock, span))
  }

  ghost predicate SameFrom<K(!new)>(
    windows: map<K, seq<nat>>, logs: map<K, seq<nat>>, clock: seq<nat>, span: nat)
  {
    forall k :: SameList(Lookup(windows, k), Lookup(logs, k), clock, span)
  }

  lemma {:induction false} PruneMembers(entries: seq<nat>, now: nat, span: nat)
    ensures forall x <- Prune(entries, now, span) :: x in entries
  {
    if entries != [] {
      PruneMembers(entries[..|entries| - 1], now, span);
    }
  }

  /** A pruning at the next reading, with a span no shorter, is never noticed. */
  lemma PruneKeepsSame(entries: seq<nat>, log: seq<nat>, now: nat, clock: seq<nat>, span: nat, span0: nat)
    requires SameList(entries, log, [now] + clock, span) && span <= span0
    ensures SameList(Prune(entries, now, span0), log, clock, span)
  {
    hide Age, Prune;
    var all := [now] + clock;
    PruneMembers(entries, now, span0);
    forall t <- clock ensures Prune(Prune(entries, now, span0), t, span) == Prune(log, t, span) {
      var k :| 0 <= k < |clock| && clock[k] == t;
      assert all[k + 1] == t && t in all;
      forall x <- entries ensures Age(x, t) < span ==> Age(x, now) < span0 {
        assert StaysOut(x, all, span);
        assert Age(x, all[k + 1]) < span ==> Age(x, all[0]) < span;
      }
      PruneTwiceExactly(entries, now, span0, t, span);
    }
    forall x <- Prune(entries, now, span0) ensures StaysOut(x, clock, span) {
      StaysOutTail(x, now, clock, span);
    }
  }

  lemma StaysOutTail(x: nat, now: nat, clock: seq<nat>, span: nat)
    requires StaysOut(x, [now] + clock, span)
    ensures StaysOut(x, clock, span)
  {
    hide Age;
    var all := [now] + clock;
    forall j, k | 0 <= j < k < |clock| ensures Age(x, clock[k]) < span ==> Age(x, clock[j]) < span {
      assert all[j + 1] == clock[j] && all[k + 1] == clock[k];
    }
  }

  /** An operation recorded in both lists keeps them alike. */
  lemma RecordKeepsSame(entries: seq<nat>, log: seq<nat>, x: nat, clock: seq<nat>, span: nat)
    requires SameList(entries, log, clock, span) && StaysOut(x, clock, span)
    ensures SameList(entries + [x], log + [x], clock, span)
  {
    hide StaysOut, Age, Prune;
    forall t <- clock ensures Prune(entries + [x], t, span) == Prune(log + [x], t, span) {
      PruneAppend(entries, x, t, span);
      PruneAppend(log, x, t, span);
    }
  }

  lemma AdmitKeepsSame(entries: seq<nat>, log: seq<nat>, now: nat, clock: seq<nat>, span: nat, limit: nat)
    requires SameList(entries, log, [now] + clock, span) && StaysOut(now, clock, span)
    ensures var v, full := Admit(entries, now, span, limit), AdmitFull(log, now, span, limit);
            v.allowed == full.allowed && SameList(v.entries, full.entries, clock, span)
  {
    assert now in [now] + clock;
    assert Prune(entries, now, span) == Prune(log, now, span);
    PruneKeepsSame(entries, log, now, clock, span, span);
    RecordKeepsSame(Prune(entries, now, span), log, now, clock, span);
    hide SameList, StaysOut, Prune, Age;
  }

  lemma AttemptKeepsSame<K(!new)>(
    windows: map<K, seq<nat>>, logs: map<K, seq<nat>>, who: K, now: nat, clock: seq<nat>, span: nat, limit: nat)
    requires SameFrom(windows, logs, [now] + clock, span) && StaysOut(now, clock, span)
    ensures var (windows', allowed), (logs', allowed') :=
              AdmitKey(windows, who, now, span, limit), AdmitKeyFull(logs, who, now, span, limit);
            allowed == allowed' && SameFrom(windows', logs', clock, span)
  {
    hide SameList, StaysOut, Admit, AdmitFull;
    AdmitKeepsSame(Lookup(windows, who), Lookup(logs, who), now, clock, span, limit);
    var windows', logs' := AdmitKey(windows, who, now, span, limit).0, AdmitKeyFull(logs, who, now, span, limit).0;
    forall k ensures SameList(Lookup(windows', k), Lookup(logs', k), clock, span) {
      assert SameList(Lookup(windows, k), Lookup(logs, k), [now] + clock, span);
      SameListTail(Lookup(windows, k), Lookup(logs, k), now, clock, span);
    }
  }

  lemma SameListTail(entries: seq<nat>, log: seq<nat>, now: nat, clock: seq<nat>, span: nat)
    requires SameList(entries, log, [now] + clock, span)
    ensures SameList(entries, log, clock, span)
  {
    hide Age, Prune, StaysOut;
    forall t <- clock ensures t in [now] + clock {
    }
    forall x <- entries ensures StaysOut(x, clock, span) {
      StaysOutTail(x, now, clock, span);
    }
  }

  lemma SweptKeepsSame<K(!new)>(
    windows: map<K, seq<nat>>, logs: map<K, seq<nat>>, now: nat, clock: seq<nat>, span: nat, sweepSpan: nat)
    requires SameFrom(windows, logs, [now] + clock, span) && span <= sweepSpan
    ensures SameFrom(Swept(windows, now, sweepSpan), logs, clock, span)
  {
    hide SameList;
    forall k ensures SameList(Lookup(Swept(windows, now, sweepSpan), k), Lookup(logs, k), clock, span) {
      PruneKeepsSame(Lookup(windows, k), Lookup(logs, k), now, clock, span, sweepSpan);
      assert Lookup(Swept(windows, now, sweepSpan), k) == Prune(Lookup(windows, k), now, sweepSpan);
    }
  }

  lemma SteadyTail(now: nat, clock: seq<nat>, span: nat)
    requires Steady([now] + clock, span)
    ensures StaysOut(now, clock, span) && Steady(clock, span)
  {
    hide Age;
    var all := [now] + clock;
    forall j, k | 0 <= j < k < |clock| ensures Age(now, clock[k]) < span ==> Age(now, clock[j]) < span {
      assert all[0] == now && all[j + 1] == clock[j] && all[k + 1] == clock[k];
    }
    forall i, j, k | 0 <= i < j < k < |clock|
      ensures Age(clock[i], clock[k]) < span ==> Age(clock[i], clock[j]) < span
    {
      assert all[i + 1] == clock[i] && all[j + 1] == clock[j] && all[k + 1] == clock[k];
    }
  }

  lemma {:induction false} RunsAgreeFrom<K(!new)>(
    windows: map<K, seq<nat>>, logs: map<K, seq<nat>>, events: seq<Event<K>>,
    span: nat, limit: K -> nat, sweepSpan: nat)
    requires SameFrom(windows, logs, Readings(events), span) && span <= sweepSpan
    requires Steady(Readings(events), span)
    ensures PrunedRun(windows, events, span, limit, sweepSpan) == FullRun(logs, events, span, limit)
    decreases |events|
  {
    hide SameFrom, Steady, AdmitKey, AdmitKeyFull, Swept;
    if events != [] {
      var now, rest := events[0].at, Readings(events[1..]);
      assert Readings(events) == [now] + rest;
      SteadyTail(now, rest, span);
      match events[0] {
        case Attempt(who, _) =>
          AttemptKeepsSame(windows, logs, who, now, rest, span, limit(who));
          RunsAgreeFrom(AdmitKey(windows, who, now, span, limit(who)).0,
                        AdmitKeyFull(logs, who, now, span, limit(who)).0,
                        events[1..], span, limit, sweepSpan);
        case Sweep(_) =>
          SweptKeepsSame(windows, logs, now, rest, span, sweepSpan);
          RunsAgreeFrom(Swept(windows, now, sweepSpan), logs, events[1..], span, limit, sweepSpan);
      }
    }
  }

  /**
   On a steady clock each attempt is allowed exactly when the complete log of what its key
   was allowed holds fewer than the limit in the window, cleanups or not.
   */
  lemma PrunedRunIsFullRun<K(!new)>(events: seq<Event<K>>, span: nat, limit: K -> nat, sweepSpan: nat)
    requires Steady(Readings(events), span) && span <= sweepSpan
    ensures PrunedRun(map[], events, span, limit, sweepSpan) == FullRun(map[], events, span, limit)
  {
    var none: map<K, seq<nat>> := map[];
    RunsAgreeFrom(none, none, events, span, limit, sweepSpan);
  }

  // ----- and on which they do not

  function Repeat<K>(who: K, at: nat, count: nat): (events: seq<Event<K>>)
    ensures |events| == count && forall i | 0 <= i < count :: events[i] == Attempt(who, at)
  {
    if count == 0 then [] else [Attempt(who, at)] + Repeat(who, at, count - 1)
  }

  /** The first decision and those after it. */
  lemma AttemptStep<K>(
    windows: map<K, seq<nat>>, logs: map<K, seq<nat>>, who: K, at: nat, rest: seq<Event<K>>,
    span: nat, limit: K -> nat, sweepSpan: nat)
    ensures var (windows', allowed), (logs', allowed') :=
              AdmitKey(windows, who, at, span, limit(who)), AdmitKeyFull(logs, who, at, span, limit(who));
            PrunedRun(windows, [Attempt(who, at)] + rest, span, limit, sweepSpan)
                == FullRun(logs, [Attempt(who, at)] + rest, span, limit)
            <==> allowed == allowed'
                 && PrunedRun(windows', rest, span, limit, sweepSpan) == FullRun(logs', rest, span, limit)
  {
    hide AdmitKey, AdmitKeyFull;
    var run := [Attempt(who, at)] + rest;
    var (windows', allowed) := AdmitKey(windows, who, at, span, limit(who));
    var (logs', allowed') := AdmitKeyFull(logs, who, at, span, limit(who));
    assert run[1..] == rest;
    assert PrunedRun(windows, run, span, limit, sweepSpan)
        == [allowed] + PrunedRun(windows', rest, span, limit, sweepSpan);
    assert FullRun(logs, run, span, limit) == [allowed'] + FullRun(logs', rest, span, limit);
    hide PrunedRun, FullRun;
    ConsEqual(allowed, PrunedRun(windows', rest, span, limit, sweepSpan), allowed', FullRun(logs', rest, span, limit));
  }

  /** A first attempt of the only key that both allow. */
  lemma AllowedStep<K>(
    windows: map<K, seq<nat>>, logs: map<K, seq<nat>>, who: K, at: nat, entries: seq<nat>, log: seq<nat>,
    rest: seq<Event<K>>, span: nat, limit: K -> nat, sweepSpan: nat)
    requires windows.Keys <= {who} && logs.Keys <= {who}
    requires Admit(Lookup(windows, who), at, span, limit(who)) == Verdict(true, entries)
    requires AdmitFull(Lookup(logs, who), at, span, limit(who)) == Verdict(true, log)
    ensures PrunedRun(windows, [Attempt(who, at)] + rest, span, limit, sweepSpan)
              == FullRun(logs, [Attempt(who, at)] + rest, span, limit)
       <==> PrunedRun(map[who := entries], rest, span, limit, sweepSpan)
              == FullRun(map[who := log], rest, span, limit)
  {
    hide PrunedRun, FullRun, Prune, Admit, AdmitFull;
    AttemptStep(windows, logs, who, at, rest, span, limit, sweepSpan);
    assert windows[who := entries] == map[who := entries] && logs[who := log] == map[who := log];
  }

  /** How much of a window an attempt sees, and how much the next attempt at the same reading sees. */
  lemma AttemptGrows(entries: seq<nat>, at: nat, span: nat, limit: nat)
    requires span > 0
    ensures var kept := |Prune(entries, at, span)|;
            && Admit(entries, at, span, limit).allowed == (kept < limit)
            && AdmitFull(entries, at, span, limit).allowed == (kept < limit)
            && (kept < limit ==>
                  && |Prune(Admit(entries, at, span, limit).entries, at, span)| == kept + 1
                  && |Prune(AdmitFull(entries, at, span, limit).entries, at, span)| == kept + 1)
  {
    var kept := Prune(entries, at, span);
    PruneTwiceExactly(entries, at, span, at, span);
    PruneAppend(kept, at, at, span);
    PruneAppend(entries, at, at, span);
    hide Prune;
  }

  /** The same seen through the windows of all keys. */
  lemma KeyGrows<K>(windows: map<K, seq<nat>>, logs: map<K, seq<nat>>, who: K, at: nat, span: nat, limit: nat)
    requires span > 0
    ensures var kept, full := |Prune(Lookup(windows, who), at, span)|, |Prune(Lookup(logs, who), at, span)|;
            var (windows', allowed), (logs', allowed') :=
              AdmitKey(windows, who, at, span, limit), AdmitKeyFull(logs, who, at, span, limit);
            && allowed == (kept < limit) && allowed' == (full < limit)
            && (kept < limit ==> |Prune(Lookup(windows', who), at, span)| == kept + 1)
            && (full < limit ==> |Prune(Lookup(logs', who), at, span)| == full + 1)
  {
    AttemptGrows(Lookup(windows, who), at, span, limit);
    AttemptGrows(Lookup(logs, who), at, span, limit);
    hide Admit, AdmitFull, Prune;
  }

  /** Enough further attempts bring out that the pruned window holds less than the complete one. */
  lemma {:induction false} GapShows<K>(
    windows: map<K, seq<nat>>, logs: map<K, seq<nat>>, who: K, at: nat, count: nat,
    span: nat, limit: K -> nat, sweepSpan: nat)
    requires span > 0
    requires |Prune(Lookup(windows, who), at, span)| < |Prune(Lookup(logs, who), at, span)| <= limit(who)
    requires count > limit(who) - |Prune(Lookup(logs, who), at, span)|
    ensures PrunedRun(windows, Repeat(who, at, count), span, limit, sweepSpan)
         != FullRun(logs, Repeat(who, at, count), span, limit)
    decreases count
  {
    var rest: seq<Event<K>> := Repeat(who, at, count - 1);
    assert Repeat(who, at, count) == [Attempt(who, at)] + rest;
    hide Admit, AdmitFull, AdmitKey, AdmitKeyFull, Prune, PrunedRun, FullRun, Repeat, Lookup;
    KeyGrows(windows, logs, who, at, span, limit(who));
    AttemptStep(windows, logs, who, at, rest, span, limit, sweepSpan);
    if |Prune(Lookup(logs, who), at, span)| < limit(who) {
      GapShows(AdmitKey(windows, who, at, span, limit(who)).0, AdmitKeyFull(logs, who, at, span, limit(who)).0,
               who, at, count - 1, span, limit, sweepSpan);
    }
  }

  /** A run whose events are at readings of the clock, each of which serves any number of events. */
  ghost predicate Reads<K(!new)>(events: seq<Event<K>>, clock: seq<nat>) {
    exists index: seq<nat> :: ReadsAt(events, clock, index)
  }

  ghost predicate ReadsAt<K(!new)>(events: seq<Event<K>>, clock: seq<nat>, index: seq<nat>) {
    && |index| == |events|
    && (forall n | 0 <= n < |index| :: index[n] < |clock| && events[n].at == clock[index[n]])
    && (forall m, n | 0 <= m < n < |index| :: index[m] <= index[n])
  }

  lemma SteadyReadings<K(!new)>(events: seq<Event<K>>, clock: seq<nat>, span: nat)
    requires Steady(clock, span) && Reads(events, clock)
    ensures Steady(Readings(events), span)
  {
    var index: seq<nat> :| ReadsAt(events, clock, index);
    forall i, j, k | 0 <= i < j < k < |events|
      ensures Age(events[i].at, events[k].at) < span ==> Age(events[i].at, events[j].at) < span
    {
      assert index[i] <= index[j] <= index[k];
      if index[i] < index[j] < index[k] {
        assert Age(clock[index[i]], clock[index[k]]) < span ==> Age(clock[index[i]], clock[index[j]]) < span;
      }
    }
  }

  /** One operation, forgotten at a later reading, and then attempts at a reading where it is young again. */
  function ForgetfulRun<K>(who: K, a: nat, b: nat, c: nat, count: nat): seq<Event<K>> {
    [Attempt(who, a)] + ([Attempt(who, b)] + Repeat(who, c, count))
  }

  lemma ForgetfulRunDiffers<K>(who: K, a: nat, b: nat, c: nat, span: nat, limit: K -> nat, sweepSpan: nat)
    requires limit(who) >= 2 && Age(a, b) >= span && Age(a, c) < span
    ensures PrunedRun(map[], ForgetfulRun(who, a, b, c, limit(who)), span, limit, sweepSpan)
         != FullRun(map[], ForgetfulRun(who, a, b, c, limit(who)), span, limit)
  {
    var none: map<K, seq<nat>> := map[];
    var count := limit(who);
    var tail := Repeat(who, c, count);
    ForgottenOne(a, b, c, span, count);
    hide PrunedRun, FullRun, Prune, Admit, AdmitFull, Repeat, Age;
    var once: map<K, seq<nat>> := map[who := [a]];
    AllowedStep(none, none, who, a, [a], [a], [Attempt(who, b)] + tail, span, limit, sweepSpan);
    AllowedStep(once, once, who, b, [b], [a, b], tail, span, limit, sweepSpan);
    GapShows(map[who := [b]], map[who := [a, b]], who, c, count, span, limit, sweepSpan);
  }

  lemma ForgottenOne(a: nat, b: nat, c: nat, span: nat, limit: nat)
    requires limit >= 2 && Age(a, b) >= span && Age(a, c) < span
    ensures Admit([], a, span, limit) == AdmitFull([], a, span, limit) == Verdict(true, [a])
    ensures Admit([a], b, span, limit) == Verdict(true, [b]) && AdmitFull([a], b, span, limit) == Verdict(true, [a, b])
    ensures |Prune([b], c, span)| < |Prune([a, b], c, span)| <= limit
  {
    PruneTwo(a, b, b, span);
    PruneTwo(a, b, c, span);
    PruneTwo(b, b, c, span);
    hide Prune, Age;
    assert [] + [a] == [a] && [] + [b] == [b] && [a] + [b] == [a, b];
  }

  lemma PruneTwo(x: nat, y: nat, now: nat, span: nat)
    ensures Prune([], now, span) == []
    ensures Prune([x], now, span) == if Age(x, now) < span then [x] else []
    ensures Prune([x, y], now, span) == Prune([x], now, span) + Prune([y], now, span)
  {
    PruneAppend([], x, now, span);
    PruneAppend([], y, now, span);
    PruneAppend([x], y, now, span);
    assert [] + [x] == [x] && [] + [y] == [y] && [x] + [y] == [x, y];
  }

  ghost predicate AgreesOn<K(!new)>(clock: seq<nat>, span: nat, limit: K -> nat, sweepSpan: nat) {
    forall events: seq<Event<K>> | Reads(events, clock) ::
      PrunedRun(map[], events, span, limit, sweepSpan) == FullRun(map[], events, span, limit)
  }

  /**
   Pruning is right for every run over a clock exactly when the clock is steady: when it never
   goes back from outside the window of an earlier reading to inside.
   */
  lemma SteadyExactly<K(!new)>(who: K, clock: seq<nat>, span: nat, limit: K -> nat, sweepSpan: nat)
    requires span <= sweepSpan && limit(who) >= 2
    ensures AgreesOn(clock, span, limit, sweepSpan) <==> Steady(clock, span)
  {
    if Steady(clock, span) {
      forall events: seq<Event<K>> | Reads(events, clock)
        ensures PrunedRun(map[], events, span, limit, sweepSpan) == FullRun(map[], events, span, limit)
      {
        SteadyReadings(events, clock, span);
        PrunedRunIsFullRun(events, span, limit, sweepSpan);
      }
    } else {
      var i, j, k :| 0 <= i < j < k < |clock| && Age(clock[i], clock[k]) < span <= Age(clock[i], clock[j]);
      var run := ForgetfulRun(who, clock[i], clock[j], clock[k], limit(who));
      ForgetfulRunDiffers(who, clock[i], clock[j], clock[k], span, limit, sweepSpan);
      ForgetfulRunReads(who, clock, i, j, k, limit(who));
      assert Reads(run, clock);
    }
  }

  lemma ForgetfulRunReads<K(!new)>(who: K, clock: seq<nat>, i: nat, j: nat, k: nat, count: nat)
    requires i < j < k < |clock|
    ensures Reads(ForgetfulRun(who, clock[i], clock[j], clock[k], count), clock)
  {
    var run := ForgetfulRun(who, clock[i], clock[j], clock[k], count);
    var index: seq<nat> := [i, j] + seq(count, _ => k);
    assert ReadsAt(run, clock, index);
  }

  /** Cleanups are harmless on every ordered run exactly when they prune with a span no shorter than the window. */
  lemma SweepSpanExactly<K(!new)>(who: K, span: nat, limit: K -> nat, sweepSpan: nat)
    requires limit(who) >= 1
    ensures (forall events: seq<Event<K>> | Ordered(events) ::
              PrunedRun(map[], events, span, limit, sweepSpan) == FullRun(map[], events, span, limit))
       <==> span <= sweepSpan
  {
    if span <= sweepSpan {
      forall events: seq<Event<K>> | Ordered(events)
        ensures PrunedRun(map[], events, span, limit, sweepSpan) == FullRun(map[], events, span, limit)
      {
        OrderedIsSteady(events, span);
        PrunedRunIsFullRun(events, span, limit, sweepSpan);
      }
    } else {
      SweptTooEarly(who, span, limit, sweepSpan);
    }
  }

  /** One operation, dropped by a cleanup, and then attempts at the same instant. */
  function SweptRun<K>(who: K, at: nat, count: nat): (run: seq<Event<K>>)
    ensures Ordered(run)
  {
    [Attempt(who, 0)] + ([Sweep(at)] + Repeat(who, at, count))
  }

  lemma SweptTooEarly<K(!new)>(who: K, span: nat, limit: K -> nat, sweepSpan: nat)
    requires limit(who) >= 1 && sweepSpan < span
    ensures PrunedRun(map[], SweptRun(who, sweepSpan, limit(who)), span, limit, sweepSpan)
         != FullRun(map[], SweptRun(who, sweepSpan, limit(who)), span, limit)
  {
    var none: map<K, seq<nat>> := map[];
    var count := limit(who);
    var tail := Repeat(who, sweepSpan, count);
    var once: map<K, seq<nat>> := map[who := [0]];
    ForgottenBySweep(span, sweepSpan, count);
    assert Swept(once, sweepSpan, sweepSpan) == none;
    hide PrunedRun, FullRun, Prune, Admit, AdmitFull, Swept, Repeat, Ordered;
    AllowedStep(none, none, who, 0, [0], [0], [Sweep(sweepSpan)] + tail, span, limit, sweepSpan);
    SweepStep(once, once, sweepSpan, tail, span, limit, sweepSpan);
    GapShows(none, once, who, sweepSpan, count, span, limit, sweepSpan);
  }

  lemma SweepStep<K>(
    windows: map<K, seq<nat>>, logs: map<K, seq<nat>>, at: nat, rest: seq<Event<K>>,
    span: nat, limit: K -> nat, sweepSpan: nat)
    ensures PrunedRun(windows, [Sweep(at)] + rest, span, limit, sweepSpan)
         == PrunedRun(Swept(windows, at, sweepSpan), rest, span, limit, sweepSpan)
    ensures FullRun(logs, [Sweep(at)] + rest, span, limit) == FullRun(logs, rest, span, limit)
  {
    hide Swept;
    assert ([Sweep(at)] + rest)[1..] == rest;
  }

  lemma ForgottenBySweep(span: nat, sweepSpan: nat, limit: nat)
    requires limit >= 1 && sweepSpan < span
    ensures Admit([], 0, span, limit) == AdmitFull([], 0, span, limit) == Verdict(true, [0])
    ensures Prune([0], sweepSpan, sweepSpan) == []
    ensures |Prune([], sweepSpan, span)| < |Prune([0], sweepSpan, span)| <= limit
  {
    PruneTwo(0, 0, 0, span);
    PruneTwo(0, 0, sweepSpan, span);
    PruneTwo(0, 0, sweepSpan, sweepSpan);
    hide Prune;
    assert [] + [0] == [0];
  }

  // ----- one key alone

  function AttemptTimes<K(==)>(who: K, events: seq<Event<K>>): seq<nat>
    decreases |events|
  {
    if events == [] then []
    else (if events[0].Attempt? && events[0].who == who then [events[0].at] else []) + AttemptTimes(who, events[1..])
  }

  /** Of the decisions of a run, those about `who`. */
  function DecisionsOf<K(==)>(who: K, events: seq<Event<K>>, decisions: seq<bool>): seq<bool>
    decreases |events|
  {
    if events == [] then []
    else if events[0].Sweep? || decisions == [] then DecisionsOf(who, events[1..], decisions)
    else (if events[0].who == who then [decisions[0]] else []) + DecisionsOf(who, events[1..], decisions[1..])
  }

  /** The decisions about attempts at these times, with a complete log and no one else about. */
  function Alone(log: seq<nat>, times: seq<nat>, span: nat, limit: nat): seq<bool>
    decreases |times|
  {
    if times == [] then []
    else
      var verdict := AdmitFull(log, times[0], span, limit);
      [verdict.allowed] + Alone(verdict.entries, times[1..], span, limit)
  }

  /** Each key is judged as if it were alone. */
  lemma {:induction false} FullRunIsAlone<K>(
    logs: map<K, seq<nat>>, who: K, events: seq<Event<K>>, span: nat, limit: K -> nat)
    ensures DecisionsOf(who, events, FullRun(logs, events, span, limit))
         == Alone(Lookup(logs, who), AttemptTimes(who, events), span, limit(who))
    decreases |events|
  {
    hide AdmitFull;
    if events != [] {
      var rest := events[1..];
      match events[0] {
        case Attempt(k, now) =>
          var (next, allowed) := AdmitKeyFull(logs, k, now, span, limit(k));
          FullRunIsAlone(next, who, rest, span, limit);
          assert FullRun(logs, events, span, limit) == [allowed] + FullRun(next, rest, span, limit);
          var decisions := FullRun(logs, events, span, limit);
          assert decisions[0] == allowed && decisions[1..] == FullRun(next, rest, span, limit);
          if k == who {
            var times := AttemptTimes(who, events);
            assert times == [now] + AttemptTimes(who, rest);
            assert times[0] == now && times[1..] == AttemptTimes(who, rest);
            assert Alone(Lookup(logs, who), times, span, limit(who))
                == [allowed] + Alone(Lookup(next, who), times[1..], span, limit(who));
          } else {
            assert AttemptTimes(who, events) == AttemptTimes(who, rest);
            assert Lookup(next, who) == Lookup(logs, who);
          }
        case Sweep(_) =>
          FullRunIsAlone(logs, who, rest, span, limit);
          assert AttemptTimes(who, events) == AttemptTimes(who, rest);
          assert DecisionsOf(who, events, FullRun(logs, events, span, limit))
              == DecisionsOf(who, rest, FullRun(logs, rest, span, limit));
      }
    }
  }

  /** The complete log of what a run allows one key. */
  function AllowedLog<K(==)>(log: seq<nat>, who: K, events: seq<Event<K>>, span: nat, limit: nat): seq<nat>
    decreases |events|
  {
    if events == [] then log
    else if events[0].Attempt? && events[0].who == who then
      AllowedLog(AdmitFull(log, events[0].at, span, limit).entries, who, events[1..], span, limit)
    else AllowedLog(log, who, events[1..], span, limit)
  }

  /** What the limiter is for: at no moment does a key's window hold more than the limit. */
  lemma {:induction false} WindowNeverExceeds<K>(
    log: seq<nat>, who: K, events: seq<Event<K>>, span: nat, limit: nat, t: nat)
    requires Ordered(events) && forall i | 0 <= i < |events| :: events[i].at <= t
    requires forall u | (if events == [] then t else events[0].at) <= u :: |Prune(log, u, span)| <= limit
    ensures |Prune(AllowedLog(log, who, events, span, limit), t, span)| <= limit
    decreases |events|
  {
    if events != [] {
      var now := events[0].at;
      var next :=
        if events[0].Attempt? && events[0].who == who then AdmitFull(log, now, span, limit).entries else log;
      forall u | now <= u ensures |Prune(next, u, span)| <= limit {
        if next != log {
          PruneAppend(log, now, u, span);
          PruneShrinks(log, now, u, span);
        }
      }
      WindowNeverExceeds(next, who, events[1..], span, limit, t);
    }
  }
}
