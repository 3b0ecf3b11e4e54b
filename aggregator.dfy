/** Per-application summaries: the fold of the stored sessions (and of the active
    session, if any) into one ActivitySummary per application class, and an
    independent per-key description of what each summary holds. */
module Aggregator {
  import opened Wrappers
  import opened Sessions

  /** Aggregated usage of one application. */
  datatype Summary = Summary(
    appClass: string,
    activityDetails: string,
    totalDuration: Duration,
    sessionCount: int,
    firstSeen: Time,
    lastSeen: Time)

  predicate IsActive(current: Option<Session>)
  {
    current.Some? && current.value.active
  }

  /** A stored session `s` counted into the summary `acc` of its application: its
      duration is added, the first-seen time is lowered to its start if earlier, and
      the last-seen time and details are replaced only when it ends strictly later. */
  function Accumulate(acc: Summary, s: Session): Summary
  {
    var counted := acc.(totalDuration := acc.totalDuration + s.duration,
                        sessionCount := acc.sessionCount + 1);
    var earliest := if s.startTime < counted.firstSeen then counted.(firstSeen := s.startTime)
                    else counted;
    if s.endTime > earliest.lastSeen
    then earliest.(lastSeen := s.endTime, activityDetails := s.windowTitle)
    else earliest
  }

  /** One step of the loop over stored sessions; the first session of a key seeds its
      summary with its own title, start and end. */
  function AddStored(m: map<string, Summary>, s: Session): map<string, Summary>
  {
    var seed := if s.appClass in m then m[s.appClass]
                else Summary(s.appClass, s.windowTitle, 0, 0, s.startTime, s.endTime);
    m[s.appClass := Accumulate(seed, s)]
  }

  /** The stored sessions folded in order. */
  function FoldStored(ss: seq<Session>): map<string, Summary>
  {
    if ss == [] then map[] else AddStored(FoldStored(ss[..|ss| - 1]), Last(ss))
  }

  /** The synthetic contribution of the active session `c` at time `now`. */
  function AddActive(m: map<string, Summary>, c: Session, now: Time): map<string, Summary>
  {
    var seed := if c.appClass in m then m[c.appClass]
                else Summary(c.appClass, c.windowTitle, 0, 0, c.startTime, now);
    m[c.appClass := seed.(totalDuration := seed.totalDuration + (now - c.startTime),
                          sessionCount := seed.sessionCount + 1,
                          activityDetails := c.windowTitle,
                          lastSeen := now)]
  }

  /** What GetActivitySummaries returns at time `now`. */
  function Summaries(stored: seq<Session>, current: Option<Session>, now: Time): (r: map<string, Summary>)
    ensures IsActive(current) ==>
      var c := current.value;
      c.appClass in r && r[c.appClass].lastSeen == now && r[c.appClass].activityDetails == c.windowTitle
  {
    if IsActive(current) then AddActive(FoldStored(stored), current.value, now)
    else FoldStored(stored)
  }

  // ---- Reference description of one key's summary ----

  /** The stored sessions of application `key`, in order. */
  function Matching(ss: seq<Session>, key: string): (r: seq<Session>)
    ensures forall s :: s in r <==> s in ss && s.appClass == key
    ensures |r| <= |ss|
  {
    if ss == [] then []
    else if Last(ss).appClass == key then Matching(ss[..|ss| - 1], key) + [Last(ss)]
    else Matching(ss[..|ss| - 1], key)
  }

  /** The sum of the durations of `ms`. */
  function TotalOf(ms: seq<Session>): Duration
  {
    if ms == [] then 0 else TotalOf(ms[..|ms| - 1]) + Last(ms).duration
  }

  /** The earliest start among `ms`. */
  function MinStart(ms: seq<Session>): (t: Time)
    requires ms != []
    ensures forall i :: 0 <= i < |ms| ==> t <= ms[i].startTime
    ensures exists i :: 0 <= i < |ms| && ms[i].startTime == t
  {
    if |ms| == 1 then ms[0].startTime
    else
      var t := MinStart(ms[..|ms| - 1]);
      if Last(ms).startTime < t then Last(ms).startTime else t
  }

  /** The position of the first session among `ms` with the latest end. */
  function LatestIndex(ms: seq<Session>): (k: nat)
    requires ms != []
    ensures k < |ms|
    ensures forall i :: 0 <= i < |ms| ==> ms[i].endTime <= ms[k].endTime
    ensures forall i :: 0 <= i < k ==> ms[i].endTime < ms[k].endTime
  {
    if |ms| == 1 then 0
    else
      var k := LatestIndex(ms[..|ms| - 1]);
      if Last(ms).endTime > ms[k].endTime then |ms| - 1 else k
  }

  /** The summary of the stored sessions `ms` of application `key`, stated per field. */
  function SummaryOf(key: string, ms: seq<Session>): Summary
    requires ms != []
  {
    var k := LatestIndex(ms);
    Summary(key, ms[k].windowTitle, TotalOf(ms), |ms|, MinStart(ms), ms[k].endTime)
  }

  /** The fold over stored sessions holds a summary for exactly the applications that
      have a stored session, and that summary is the per-field description of those
      sessions: summed durations, their count, the earliest start, and the end and
      title of the first session with the latest end. */
  lemma {:induction false} FoldStoredMatches(ss: seq<Session>, key: string)
    ensures key in FoldStored(ss) <==> Matching(ss, key) != []
    ensures key in FoldStored(ss) ==> FoldStored(ss)[key] == SummaryOf(key, Matching(ss, key))
  {
    if ss != [] {
      var init := ss[..|ss| - 1];
      var x := Last(ss);
      FoldStoredMatches(init, key);
      var ms := Matching(init, key);
      if x.appClass == key {
        assert Matching(ss, key) == ms + [x];
        if ms == [] {
          SummaryOfOne(key, x);
        } else {
          SummaryOfAppend(key, ms, x);
        }
      }
    }
  }

  lemma SummaryOfOne(key: string, x: Session)
    requires x.appClass == key
    ensures SummaryOf(key, [] + [x])
            == Accumulate(Summary(key, x.windowTitle, 0, 0, x.startTime, x.endTime), x)
  {
    var ns := [] + [x];
    assert ns[..0] == [];
    assert TotalOf(ns) == x.duration;
  }

  lemma SummaryOfAppend(key: string, ms: seq<Session>, x: Session)
    requires ms != []
    ensures SummaryOf(key, ms + [x]) == Accumulate(SummaryOf(key, ms), x)
  {
    var ns := ms + [x];
    assert ns[..|ns| - 1] == ms;
    assert Last(ns) == x;
    assert ns[LatestIndex(ms)] == ms[LatestIndex(ms)];
  }

  /** The session of `current` when it is active for application `key`. */
  predicate ActiveFor(current: Option<Session>, key: string)
  {
    IsActive(current) && current.value.appClass == key
  }

  /** GetActivitySummaries per key: a summary exists iff the key has a stored session
      or is the active session's application. Its total is the sum of the stored
      durations plus the active session's elapsed time, its count the number of stored
      sessions plus one for the active one; its first-seen time is the earliest stored
      start (the active start for a new key); its last-seen time and details come from
      the first stored session with the latest end, overridden by `now` and the active
      title when the session is active. */
  lemma SummariesPerKey(stored: seq<Session>, current: Option<Session>, now: Time, key: string)
    ensures var r := Summaries(stored, current, now);
      var ms := Matching(stored, key);
      && (key in r <==> ms != [] || ActiveFor(current, key))
      && (key in r ==>
          && r[key].appClass == key
          && r[key].totalDuration
             == TotalOf(ms) + (if ActiveFor(current, key) then now - current.value.startTime else 0)
          && r[key].sessionCount == |ms| + (if ActiveFor(current, key) then 1 else 0)
          && r[key].firstSeen == (if ms != [] then MinStart(ms) else current.value.startTime)
          && r[key].lastSeen
             == (if ActiveFor(current, key) then now else ms[LatestIndex(ms)].endTime)
          && r[key].activityDetails
             == (if ActiveFor(current, key) then current.value.windowTitle
                 else ms[LatestIndex(ms)].windowTitle))
  {
    FoldStoredMatches(stored, key);
    assert Matching(stored, key) == [] ==> TotalOf(Matching(stored, key)) == 0;
  }

  /** A summary that holds no active contribution covers at least the minimum duration
      once for each of its sessions, since only sessions that long are ever stored. */
  lemma StoredSummaryAtLeastMinimum(stored: seq<Session>, current: Option<Session>, now: Time, key: string)
    requires StoredInvariant(stored)
    requires key in Summaries(stored, current, now) && !ActiveFor(current, key)
    ensures Summaries(stored, current, now)[key].totalDuration
            >= Summaries(stored, current, now)[key].sessionCount * MinDuration
  {
    SummariesPerKey(stored, current, now, key);
    var ms := Matching(stored, key);
    forall i | 0 <= i < |ms| ensures ms[i].duration >= MinDuration {
      assert ms[i] in stored;
    }
    TotalAtLeastMinimum(ms);
  }

  lemma {:induction false} TotalAtLeastMinimum(ms: seq<Session>)
    requires forall i :: 0 <= i < |ms| ==> ms[i].duration >= MinDuration
    ensures TotalOf(ms) >= |ms| * MinDuration
  {
    if ms != [] {
      TotalAtLeastMinimum(ms[..|ms| - 1]);
    }
  }

  /** The states in which the tracker can be queried at time `now`: stored sessions
      satisfy the stored invariant and ended by `now`; an active session started after
      every stored one ended and no later than `now`. */
  predicate Consistent(stored: seq<Session>, current: Option<Session>, now: Time)
  {
    && StoredInvariant(stored) && EndsBy(stored, now)
    && (IsActive(current) ==> EndsBy(stored, current.value.startTime) && current.value.startTime <= now)
  }

  /** Every summary's first-seen time is no later than its last-seen time. */
  lemma SummaryWindowOrdered(stored: seq<Session>, current: Option<Session>, now: Time, key: string)
    requires Consistent(stored, current, now)
    requires key in Summaries(stored, current, now)
    ensures Summaries(stored, current, now)[key].firstSeen <= Summaries(stored, current, now)[key].lastSeen
  {
    SummariesPerKey(stored, current, now, key);
    var ms := Matching(stored, key);
    if ms != [] {
      var k := LatestIndex(ms);
      assert ms[k] in stored;
      assert MinStart(ms) <= ms[k].startTime;
      assert ms[k].startTime <= ms[k].endTime <= now;
    }
  }

  /** While a session stays active, a later query reports the same applications and
      no smaller total for any of them. */
  lemma SummariesGrowWithTime(stored: seq<Session>, current: Option<Session>, now: Time, later: Time, key: string)
    requires now <= later
    ensures key in Summaries(stored, current, now) <==> key in Summaries(stored, current, later)
    ensures key in Summaries(stored, current, now) ==>
      Summaries(stored, current, now)[key].totalDuration <= Summaries(stored, current, later)[key].totalDuration
  {
    SummariesPerKey(stored, current, now, key);
    SummariesPerKey(stored, current, later, key);
  }

  /** With no stored sessions and no active session there is nothing to summarise. */
  lemma NothingToSummarise(current: Option<Session>, now: Time)
    requires !IsActive(current)
    ensures Summaries([], current, now) == map[]
  {
  }
}
