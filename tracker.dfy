/** The ActivityTracker: the active session (if any) and the ordered sequence of
    closed sessions, changed in place by its methods. The clock is passed in as `now`
    and never goes backwards; the ghost field `clock` remembers the latest time the
    tracker has been given. */
module Tracker {
  import opened Wrappers
  import opened Sessions
  import opened Aggregator

  /** The stored sessions after the active session of `current`, if any, is closed at `t`. */
  function Closing(stored: seq<Session>, current: Option<Session>, t: Time): seq<Session>
  {
    if IsActive(current) then Store(stored, Close(current.value, t)) else stored
  }

  class ActivityTracker {
    var current: Option<Session>
    var sessions: seq<Session>
    ghost var clock: Time

    /** The stored sequence keeps its invariant and ended by the clock, an active
        session started after every stored one ended, and a session that is no longer
        active has its duration set to its end minus its start. */
    ghost predicate Valid()
      reads this
    {
      && Consistent(sessions, current, clock)
      && (current.Some? && !current.value.active ==> Closed(current.value))
    }

    /** NewActivityTracker: no session yet, nothing stored. */
    constructor (ghost start: Time)
      ensures Valid() && clock == start
      ensures current == None && sessions == []
    {
      current := None;
      sessions := [];
      clock := start;
    }

    /** StartSession: close the active session at `now`, then open a new one there. */
    method StartSession(appClass: string, windowTitle: string, now: Time)
      requires Valid() && clock <= now
      modifies this
      ensures Valid() && clock == now
      ensures sessions == Closing(old(sessions), old(current), now)
      ensures current == Some(Open(appClass, windowTitle, now))
    {
      if current.Some? && current.value.active {
        EndCurrentSessionAt(now);
      }
      clock := now;
      current := Some(Session(now, 0, appClass, windowTitle, 0, true));
    }

    /** endCurrentSessionUnsafe: without an active session nothing changes; otherwise
        the session is closed at `endTime`, and then discarded when shorter than the
        minimum, merged into the last stored session, or appended. */
    method EndCurrentSessionAt(endTime: Time)
      requires Valid() && clock <= endTime
      modifies this
      ensures Valid() && clock == endTime && !IsActive(current)
      ensures sessions == Closing(old(sessions), old(current), endTime)
      ensures current == if old(IsActive(current)) then Some(Close(old(current).value, endTime))
                         else old(current)
    {
      clock := endTime;
      if current.None? || !current.value.active {
        return;
      }
      ghost var before := sessions;
      var c := current.value;
      ghost var closed := Close(c, endTime);
      current := Some(c.(endTime := endTime, duration := endTime - c.startTime, active := false));
      assert current.value == closed;
      if current.value.duration >= MinDuration {
        var merge := ShouldMergeWithLastSession();
        if merge {
          MergeWithLastSession();
          assert sessions == before[..|before| - 1] + [Extend(Last(before), closed)];
        } else {
          sessions := sessions + [current.value];
        }
      }
      assert sessions == Store(before, closed);
      StorePreservesInvariant(before, closed);
    }

    /** EndCurrentSession: close the active session at `now`; a second call is a no-op. */
    method EndCurrentSession(now: Time)
      requires Valid() && clock <= now
      modifies this
      ensures Valid() && clock == now && !IsActive(current)
      ensures sessions == Closing(old(sessions), old(current), now)
      ensures current == if old(IsActive(current)) then Some(Close(old(current).value, now))
                         else old(current)
    {
      EndCurrentSessionAt(now);
    }

    /** shouldMergeWithLastSession: whether the current session extends the last stored one. */
    method ShouldMergeWithLastSession() returns (merge: bool)
      ensures merge <==> current.Some? && ShouldMerge(sessions, current.value)
    {
      if |sessions| == 0 || current.None? {
        return false;
      }
      var last := sessions[|sessions| - 1];
      if last.appClass != current.value.appClass {
        return false;
      }
      var gap := current.value.startTime - last.endTime;
      return gap <= MergeThreshold;
    }

    /** mergeWithLastSession: extend the last stored session in place to the current
        session's end and title; every other stored session is left as it was. */
    method MergeWithLastSession()
      modifies this
      ensures current == old(current) && clock == old(clock)
      ensures old(sessions) == [] || old(current).None? ==> sessions == old(sessions)
      ensures old(sessions) != [] && old(current).Some? ==>
        sessions == old(sessions)[|old(sessions)| - 1 := Extend(Last(old(sessions)), old(current).value)]
    {
      if |sessions| == 0 || current.None? {
        return;
      }
      var n := |sessions|;
      var last := sessions[n - 1];
      last := last.(endTime := current.value.endTime);
      last := last.(duration := last.endTime - last.startTime);
      last := last.(windowTitle := current.value.windowTitle);
      sessions := sessions[n - 1 := last];
    }

    /** GetActivitySummaries: fold the stored sessions, then add the active session's
        elapsed time at `now`; the tracker itself is not changed. */
    method GetActivitySummaries(now: Time) returns (summaries: map<string, Summary>)
      ensures summaries == Summaries(sessions, current, now)
    {
      summaries := map[];
      for i := 0 to |sessions|
        invariant summaries == FoldStored(sessions[..i])
      {
        var session := sessions[i];
        var key := session.appClass;
        var summary: Summary;
        if key in summaries {
          summary := summaries[key];
        } else {
          summary := Summary(session.appClass, session.windowTitle, 0, 0,
                             session.startTime, session.endTime);
        }
        summary := summary.(totalDuration := summary.totalDuration + session.duration,
                            sessionCount := summary.sessionCount + 1);
        if session.startTime < summary.firstSeen {
          summary := summary.(firstSeen := session.startTime);
        }
        if session.endTime > summary.lastSeen {
          summary := summary.(lastSeen := session.endTime, activityDetails := session.windowTitle);
        }
        summaries := summaries[key := summary];
        assert sessions[..i + 1][..i] == sessions[..i];
      }
      assert sessions[..|sessions|] == sessions;
      if current.Some? && current.value.active {
        var c := current.value;
        var key := c.appClass;
        var currentDuration := now - c.startTime;
        var summary: Summary;
        if key in summaries {
          summary := summaries[key];
        } else {
          summary := Summary(c.appClass, c.windowTitle, 0, 0, c.startTime, now);
        }
        summary := summary.(totalDuration := summary.totalDuration + currentDuration,
                            sessionCount := summary.sessionCount + 1);
        summary := summary.(activityDetails := c.windowTitle, lastSeen := now);
        summaries := summaries[key := summary];
      }
    }

    /** ClearCompletedSessions: drop every stored session; the active one is kept. */
    method ClearCompletedSessions()
      requires Valid()
      modifies this
      ensures Valid() && sessions == []
      ensures current == old(current) && clock == old(clock)
      ensures !IsActive(current) ==> Summaries(sessions, current, clock) == map[]
    {
      sessions := [];
    }
  }
}
