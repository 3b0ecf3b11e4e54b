/** The monitor loop that drives the tracker: a poll tick samples the focused window
    and starts a new session when the application or the title changed; a submit tick
    hands the summaries to the uploader and then clears the stored sessions; an
    interrupt closes the active session and reports the final summaries. The window
    sample, the upload and the clock are inputs. */
module PollLoop {
  import opened Wrappers
  import opened Sessions
  import opened Aggregator
  import opened Tracker

  /** The class and title of the focused window, as sampled. */
  datatype Window = Window(appClass: string, title: string)

  /** Whether a sample differs from the last observed pair in either field. */
  predicate WindowChanged(lastAppClass: string, lastWindowTitle: string, w: Window)
    ensures WindowChanged(lastAppClass, lastWindowTitle, w) <==> w != Window(lastAppClass, lastWindowTitle)
  {
    w.appClass != lastAppClass || w.title != lastWindowTitle
  }

  /** The line printed for a window; the class is shown only when it is known. */
  function FormatWindowOutput(windowName: string, windowClass: string): (line: string)
    ensures |line| >= |"Active Window: "| + |windowName|
    ensures line[..|"Active Window: "| + |windowName|] == "Active Window: " + windowName
    ensures windowClass == "" <==> line == "Active Window: " + windowName
    ensures windowClass != "" ==> line[|"Active Window: "| + |windowName|..] == " (" + windowClass + ")"
  {
    if windowClass != "" then "Active Window: " + windowName + " (" + windowClass + ")"
    else "Active Window: " + windowName
  }

  class Monitor {
    const tracker: ActivityTracker
    var lastAppClass: string
    var lastWindowTitle: string

    ghost predicate Valid()
      reads this, tracker
    {
      tracker.Valid()
    }

    /** A monitor whose initial window sample succeeded: the first session is open and
        the sampled pair is the last observed one. */
    constructor (initial: Window, now: Time)
      ensures Valid() && fresh(tracker) && tracker.clock == now
      ensures tracker.sessions == [] && tracker.current == Some(Open(initial.appClass, initial.title, now))
      ensures lastAppClass == initial.appClass && lastWindowTitle == initial.title
    {
      var t := new ActivityTracker(now);
      t.StartSession(initial.appClass, initial.title, now);
      tracker := t;
      lastAppClass := initial.appClass;
      lastWindowTitle := initial.title;
    }

    /** One poll tick. A failed sample is skipped; a sample that differs from the last
        observed pair starts a new session and becomes the last observed pair; an
        unchanged sample does nothing. */
    method PollTick(sample: Result<Window, string>, now: Time) returns (started: bool)
      requires Valid() && tracker.clock <= now
      modifies this, tracker
      ensures Valid()
      ensures started <==> sample.Ok? && WindowChanged(old(lastAppClass), old(lastWindowTitle), sample.value)
      ensures !started ==>
        && lastAppClass == old(lastAppClass) && lastWindowTitle == old(lastWindowTitle)
        && tracker.sessions == old(tracker.sessions) && tracker.current == old(tracker.current)
        && tracker.clock == old(tracker.clock)
      ensures started ==>
        && tracker.sessions == Closing(old(tracker.sessions), old(tracker.current), now)
        && tracker.current == Some(Open(sample.value.appClass, sample.value.title, now))
        && lastAppClass == sample.value.appClass && lastWindowTitle == sample.value.title
    {
      started := false;
      if sample.Err? {
        return;
      }
      var window := sample.value;
      if window.appClass != lastAppClass || window.title != lastWindowTitle {
        tracker.StartSession(window.appClass, window.title, now);
        lastAppClass := window.appClass;
        lastWindowTitle := window.title;
        started := true;
      }
    }

    /** One submit tick: the summaries at `now` are handed to the uploader, whose
        outcome is not consulted, and the stored sessions are cleared in any case. */
    method SubmitTick(now: Time) returns (submitted: map<string, Summary>)
      requires Valid()
      modifies tracker
      ensures Valid()
      ensures submitted == Summaries(old(tracker.sessions), old(tracker.current), now)
      ensures tracker.sessions == [] && tracker.current == old(tracker.current)
      ensures tracker.clock == old(tracker.clock)
    {
      submitted := tracker.GetActivitySummaries(now);
      tracker.ClearCompletedSessions();
    }

    /** The interrupt: the active session is closed at `now`, and the summaries then
        handed to the final upload and printed hold only closed sessions. */
    method Shutdown(now: Time) returns (final: map<string, Summary>)
      requires Valid() && tracker.clock <= now
      modifies tracker
      ensures Valid() && !IsActive(tracker.current)
      ensures tracker.sessions == Closing(old(tracker.sessions), old(tracker.current), now)
      ensures final == Summaries(tracker.sessions, None, now)
    {
      tracker.EndCurrentSession(now);
      final := tracker.GetActivitySummaries(now);
    }
  }

  /** Clearing after a submit tick keeps the active session with its original start,
      so each later submit tick reports its time from that start again: two ticks at
      `t1` and `t2` both report it from first-seen at its start, and the second
      total holds the whole of the first. */
  lemma ActiveTimeReReported(c: Session, t1: Time, t2: Time)
    requires c.active && c.startTime <= t1 <= t2
    ensures var first := Summaries([], Some(c), t1);
      var second := Summaries([], Some(c), t2);
      && c.appClass in first && c.appClass in second
      && first[c.appClass].firstSeen == second[c.appClass].firstSeen == c.startTime
      && first[c.appClass].totalDuration == t1 - c.startTime
      && second[c.appClass].totalDuration == first[c.appClass].totalDuration + (t2 - t1)
  {
    SummariesPerKey([], Some(c), t1, c.appClass);
    SummariesPerKey([], Some(c), t2, c.appClass);
  }

  /** The start of monitoring: when the initial sample fails the monitor ends before
      any state exists; otherwise the first session is opened. */
  method Launch(sample: Result<Window, string>, now: Time) returns (m: Monitor?)
    ensures sample.Err? <==> m == null
    ensures m != null ==>
      && fresh(m) && fresh(m.tracker) && m.Valid()
      && m.tracker.sessions == []
      && m.tracker.current == Some(Open(sample.value.appClass, sample.value.title, now))
      && m.lastAppClass == sample.value.appClass && m.lastWindowTitle == sample.value.title
  {
    if sample.Err? {
      return null;
    }
    m := new Monitor(sample.value, now);
  }
}
