/** The conversions of a summary into the two upload formats, the one-minute filter
    applied before uploading, and the tally of one upload round in which each summary
    tries the native format first (when native credentials exist) and falls back to
    the legacy one. Timestamps stay instants: their text formatting is not modelled. */
module Payload {
  import opened Sessions
  import opened Aggregator

  /** The legacy offline-time payload: a start, a duration in whole minutes, the
      application and its details. */
  datatype LegacyPayload = LegacyPayload(
    startTime: Time,
    durationMinutes: int,
    activityName: string,
    activityDetails: string)

  /** The native user-client event: the application appears twice. */
  datatype UserClientEvent = UserClientEvent(
    eventDescription: string,
    startTime: Time,
    endTime: Time,
    windowTitle: string,
    application: string)

  /** A duration in whole minutes, rounded up. */
  function CeilMinutes(d: Duration): (m: int)
    ensures (m - 1) * Minute < d <= m * Minute
  {
    -((-d) / Minute)
  }

  /** summaryToPayload. The legacy payload never under-reports: its minutes cover the
      total duration, by less than a minute too much; a submittable summary reports at
      least one minute. The start, the application and the details are carried over. */
  function SummaryToPayload(s: Summary): (p: LegacyPayload)
    ensures p.durationMinutes * Minute >= s.totalDuration
    ensures p.durationMinutes * Minute - s.totalDuration < Minute
    ensures Submittable(s) ==> p.durationMinutes >= 1
    ensures p.startTime == s.firstSeen
    ensures p.activityName == s.appClass && p.activityDetails == s.activityDetails
  {
    LegacyPayload(s.firstSeen, CeilMinutes(s.totalDuration), s.appClass, s.activityDetails)
  }

  /** summaryToUserClientEvent: the event spans exactly the total duration from
      first-seen, and both of its application fields name the summary's application. */
  function SummaryToUserClientEvent(s: Summary): (e: UserClientEvent)
    ensures e.startTime == s.firstSeen
    ensures e.endTime - e.startTime == s.totalDuration
    ensures e.eventDescription == e.application == s.appClass
    ensures e.windowTitle == s.activityDetails
  {
    UserClientEvent(s.appClass, s.firstSeen, s.firstSeen + s.totalDuration,
                    s.activityDetails, s.appClass)
  }

  /** Summaries under one minute are skipped. */
  predicate Submittable(s: Summary)
  {
    s.totalDuration >= Minute
  }

  /** How one submittable summary was delivered. */
  datatype Delivery = NativeDelivered | FallbackDelivered | LegacyDelivered | NotDelivered

  /** With native credentials the native upload is tried first and the legacy upload
      only when it failed; without them only the legacy upload is tried. */
  function Route(hasNative: bool, nativeOk: bool, legacyOk: bool): (d: Delivery)
    ensures d == NativeDelivered ==> hasNative && nativeOk
    ensures d == FallbackDelivered ==> hasNative && !nativeOk && legacyOk
    ensures d == LegacyDelivered ==> !hasNative && legacyOk
    ensures d == NotDelivered <==> (hasNative ==> !nativeOk) && !legacyOk
  {
    if hasNative then
      if nativeOk then NativeDelivered else if legacyOk then FallbackDelivered else NotDelivered
    else if legacyOk then LegacyDelivered else NotDelivered
  }

  /** The counters printed after an upload round. */
  datatype Tally = Tally(succeeded: nat, failed: nat, nativeSucceeded: nat, fallbackSucceeded: nat)

  /** The applications whose summaries are uploaded. */
  function Eligible(summaries: map<string, Summary>): set<string>
  {
    set k | k in summaries && Submittable(summaries[k])
  }

  /** The eligible applications whose upload ended as `d` satisfies. */
  function DeliveredAs(summaries: map<string, Summary>, hasNative: bool,
                       nativeOk: string -> bool, legacyOk: string -> bool,
                       p: Delivery -> bool): set<string>
  {
    set k | k in Eligible(summaries) && p(Route(hasNative, nativeOk(k), legacyOk(k)))
  }

  predicate IsDelivered(d: Delivery) { d != NotDelivered }
  predicate IsFailed(d: Delivery) { d == NotDelivered }
  predicate IsNative(d: Delivery) { d == NativeDelivered }
  predicate IsFallback(d: Delivery) { d == FallbackDelivered }

  /** The counters after one more eligible application ended as `d`. */
  function Bump(t: Tally, d: Delivery): Tally
  {
    Tally(t.succeeded + (if IsDelivered(d) then 1 else 0),
          t.failed + (if IsFailed(d) then 1 else 0),
          t.nativeSucceeded + (if IsNative(d) then 1 else 0),
          t.fallbackSucceeded + (if IsFallback(d) then 1 else 0))
  }

  /** The upload of one eligible summary: the native upload first when native
      credentials exist, the legacy upload when there are none or the native one
      failed; the counters move as the delivery route says. */
  method UploadOne(t: Tally, hasNative: bool, nativeOk: bool, legacyOk: bool) returns (t': Tally)
    ensures t' == Bump(t, Route(hasNative, nativeOk, legacyOk))
  {
    t' := t;
    var ok: bool;
    var usedFallback := false;
    if hasNative {
      ok := nativeOk;
      if !ok {
        ok := legacyOk;
        usedFallback := true;
      } else {
        t' := t'.(nativeSucceeded := t'.nativeSucceeded + 1);
      }
    } else {
      ok := legacyOk;
    }
    if !ok {
      t' := t'.(failed := t'.failed + 1);
    } else {
      t' := t'.(succeeded := t'.succeeded + 1);
      if usedFallback {
        t' := t'.(fallbackSucceeded := t'.fallbackSucceeded + 1);
      }
    }
  }

  /** One pass of the upload loop: a summary under a minute is skipped, any other is
      uploaded and counted. */
  method SubmitOne(summaries: map<string, Summary>, key: string, hasNative: bool,
                   nativeOk: string -> bool, legacyOk: string -> bool,
                   t: Tally, ghost done: set<string>)
    returns (t': Tally)
    requires key in summaries && key !in done
    requires t == TallyOf(summaries, done, hasNative, nativeOk, legacyOk)
    ensures t' == TallyOf(summaries, done + {key}, hasNative, nativeOk, legacyOk)
  {
    TallyOfAdd(summaries, done, key, hasNative, nativeOk, legacyOk);
    t' := t;
    if summaries[key].totalDuration >= Minute {
      t' := UploadOne(t, hasNative, nativeOk(key), legacyOk(key));
    }
  }

  /** submitActivitiesToRescueTime: each summary of at least a minute is uploaded once
      (in no particular order); `nativeOk` and `legacyOk` say whether the native and
      the legacy upload of an application's summary succeed. The counters are the
      numbers of eligible applications that were delivered, that failed, that went
      through natively, and that went through on the legacy fallback. */
  method SubmitActivities(summaries: map<string, Summary>, hasNative: bool,
                          nativeOk: string -> bool, legacyOk: string -> bool)
    returns (t: Tally)
    ensures t.succeeded == |DeliveredAs(summaries, hasNative, nativeOk, legacyOk, IsDelivered)|
    ensures t.failed == |DeliveredAs(summaries, hasNative, nativeOk, legacyOk, IsFailed)|
    ensures t.nativeSucceeded == |DeliveredAs(summaries, hasNative, nativeOk, legacyOk, IsNative)|
    ensures t.fallbackSucceeded == |DeliveredAs(summaries, hasNative, nativeOk, legacyOk, IsFallback)|
    ensures t.succeeded + t.failed == |Eligible(summaries)|
  {
    t := Tally(0, 0, 0, 0);
    var todo := summaries.Keys;
    ghost var done: set<string> := {};
    while todo != {}
      invariant todo !! done && todo + done == summaries.Keys
      invariant t == TallyOf(summaries, done, hasNative, nativeOk, legacyOk)
      decreases |todo|
    {
      var key :| key in todo;
      t := SubmitOne(summaries, key, hasNative, nativeOk, legacyOk, t, done);
      todo := todo - {key};
      done := done + {key};
    }
    TallyOfAll(summaries, done, hasNative, nativeOk, legacyOk);
  }

  /** The eligible applications among `keys` whose upload ended as `p` says. */
  ghost function Among(summaries: map<string, Summary>, keys: set<string>, hasNative: bool,
                       nativeOk: string -> bool, legacyOk: string -> bool,
                       p: Delivery -> bool): set<string>
  {
    set k | k in keys && k in summaries && Submittable(summaries[k])
                      && p(Route(hasNative, nativeOk(k), legacyOk(k)))
  }

  /** The counters once the applications `keys` have been dealt with. */
  ghost function TallyOf(summaries: map<string, Summary>, keys: set<string>, hasNative: bool,
                         nativeOk: string -> bool, legacyOk: string -> bool): Tally
  {
    Tally(|Among(summaries, keys, hasNative, nativeOk, legacyOk, IsDelivered)|,
          |Among(summaries, keys, hasNative, nativeOk, legacyOk, IsFailed)|,
          |Among(summaries, keys, hasNative, nativeOk, legacyOk, IsNative)|,
          |Among(summaries, keys, hasNative, nativeOk, legacyOk, IsFallback)|)
  }

  lemma TallyOfAdd(summaries: map<string, Summary>, keys: set<string>, key: string, hasNative: bool,
                   nativeOk: string -> bool, legacyOk: string -> bool)
    requires key !in keys && key in summaries
    ensures TallyOf(summaries, keys + {key}, hasNative, nativeOk, legacyOk)
         == if Submittable(summaries[key])
            then Bump(TallyOf(summaries, keys, hasNative, nativeOk, legacyOk),
                      Route(hasNative, nativeOk(key), legacyOk(key)))
            else TallyOf(summaries, keys, hasNative, nativeOk, legacyOk)
  {
    AmongAdd(summaries, keys, key, hasNative, nativeOk, legacyOk, IsDelivered);
    AmongAdd(summaries, keys, key, hasNative, nativeOk, legacyOk, IsFailed);
    AmongAdd(summaries, keys, key, hasNative, nativeOk, legacyOk, IsNative);
    AmongAdd(summaries, keys, key, hasNative, nativeOk, legacyOk, IsFallback);
  }

  lemma AmongAdd(summaries: map<string, Summary>, keys: set<string>, key: string, hasNative: bool,
                 nativeOk: string -> bool, legacyOk: string -> bool, p: Delivery -> bool)
    requires key !in keys && key in summaries
    ensures var counted := Submittable(summaries[key]) && p(Route(hasNative, nativeOk(key), legacyOk(key)));
      |Among(summaries, keys + {key}, hasNative, nativeOk, legacyOk, p)|
      == |Among(summaries, keys, hasNative, nativeOk, legacyOk, p)| + (if counted then 1 else 0)
  {
    var before := Among(summaries, keys, hasNative, nativeOk, legacyOk, p);
    var after := Among(summaries, keys + {key}, hasNative, nativeOk, legacyOk, p);
    if Submittable(summaries[key]) && p(Route(hasNative, nativeOk(key), legacyOk(key))) {
      assert after == before + {key};
    } else {
      assert after == before;
    }
  }

  /** Once every application has been dealt with, the counters are the sizes of the
      delivery classes, and every eligible application was delivered or failed. */
  lemma TallyOfAll(summaries: map<string, Summary>, keys: set<string>, hasNative: bool,
                   nativeOk: string -> bool, legacyOk: string -> bool)
    requires keys == summaries.Keys
    ensures var t := TallyOf(summaries, keys, hasNative, nativeOk, legacyOk);
      && t.succeeded == |DeliveredAs(summaries, hasNative, nativeOk, legacyOk, IsDelivered)|
      && t.failed == |DeliveredAs(summaries, hasNative, nativeOk, legacyOk, IsFailed)|
      && t.nativeSucceeded == |DeliveredAs(summaries, hasNative, nativeOk, legacyOk, IsNative)|
      && t.fallbackSucceeded == |DeliveredAs(summaries, hasNative, nativeOk, legacyOk, IsFallback)|
      && t.succeeded + t.failed == |Eligible(summaries)|
  {
    assert Among(summaries, keys, hasNative, nativeOk, legacyOk, IsDelivered)
        == DeliveredAs(summaries, hasNative, nativeOk, legacyOk, IsDelivered);
    assert Among(summaries, keys, hasNative, nativeOk, legacyOk, IsFailed)
        == DeliveredAs(summaries, hasNative, nativeOk, legacyOk, IsFailed);
    assert Among(summaries, keys, hasNative, nativeOk, legacyOk, IsNative)
        == DeliveredAs(summaries, hasNative, nativeOk, legacyOk, IsNative);
    assert Among(summaries, keys, hasNative, nativeOk, legacyOk, IsFallback)
        == DeliveredAs(summaries, hasNative, nativeOk, legacyOk, IsFallback);
    var a := DeliveredAs(summaries, hasNative, nativeOk, legacyOk, IsDelivered);
    var b := DeliveredAs(summaries, hasNative, nativeOk, legacyOk, IsFailed);
    assert a !! b;
    assert a + b == Eligible(summaries);
  }
}
