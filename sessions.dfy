/** Activity sessions and the rule that decides what happens to a session when it is
    closed: it is discarded when too short, merged into the last stored session when
    that one belongs to the same application and ended recently enough, or appended. */
module Sessions {

  /** Instants and durations are integer nanoseconds (the source's time.Time and
      time.Duration, without the 64-bit bound). */
  type Time = int
  type Duration = int

  const Second: Duration := 1_000_000_000
  const Minute: Duration := 60 * Second

  /** The tracker's two thresholds, fixed when the tracker is created. */
  const MergeThreshold: Duration := 30 * Second
  const MinDuration: Duration := 10 * Second

  /** One continuous interval of focus on one application. While the session is
      active its end time and duration still hold their zero values. */
  datatype Session = Session(
    startTime: Time,
    endTime: Time,
    appClass: string,
    windowTitle: string,
    duration: Duration,
    active: bool)

  function Last(ss: seq<Session>): Session
    requires ss != []
  {
    ss[|ss| - 1]
  }

  /** The session opened by StartSession at `now`. */
  function Open(appClass: string, windowTitle: string, now: Time): Session
  {
    Session(now, 0, appClass, windowTitle, 0, true)
  }

  /** The session `s` once closed at `endTime`. */
  function Close(s: Session, endTime: Time): (c: Session)
    ensures Closed(c)
    ensures c.startTime == s.startTime && c.endTime == endTime
    ensures c.appClass == s.appClass && c.windowTitle == s.windowTitle
  {
    s.(endTime := endTime, duration := endTime - s.startTime, active := false)
  }

  /** A closed session: inactive, and its duration is its end minus its start. */
  predicate Closed(s: Session)
  {
    !s.active && s.duration == s.endTime - s.startTime
  }

  /** A session long enough to be kept. */
  predicate Retained(s: Session)
  {
    Closed(s) && s.duration >= MinDuration
  }

  /** The merge rule: the candidate extends the last stored session iff there is one,
      it belongs to the same application, and the gap from its end to the candidate's
      start is at most the merge threshold (a zero or negative gap merges too). */
  predicate ShouldMerge(stored: seq<Session>, cand: Session)
    ensures (stored != [] && Last(stored).appClass == cand.appClass
             && cand.startTime == Last(stored).endTime + MergeThreshold) ==> ShouldMerge(stored, cand)
    ensures stored != [] && cand.startTime > Last(stored).endTime + MergeThreshold ==> !ShouldMerge(stored, cand)
  {
    stored != [] && Last(stored).appClass == cand.appClass
    && cand.startTime - Last(stored).endTime <= MergeThreshold
  }

  /** The last stored session extended in place by the candidate. */
  function Extend(last: Session, cand: Session): (e: Session)
    ensures e.startTime == last.startTime && e.appClass == last.appClass && e.active == last.active
    ensures e.endTime == cand.endTime && e.windowTitle == cand.windowTitle
    ensures e.duration == e.endTime - e.startTime
  {
    last.(endTime := cand.endTime, duration := cand.endTime - last.startTime,
          windowTitle := cand.windowTitle)
  }

  /** The stored sequence after the closed session `cand` has been dealt with. */
  function Store(stored: seq<Session>, cand: Session): (r: seq<Session>)
    ensures cand.duration < MinDuration ==> r == stored
    ensures |stored| <= |r| <= |stored| + 1
    ensures stored != [] ==> r[..|stored| - 1] == stored[..|stored| - 1]
    ensures |r| == |stored| + 1 ==> r == stored + [cand]
  {
    if cand.duration < MinDuration then stored
    else if ShouldMerge(stored, cand) then stored[..|stored| - 1] + [Extend(Last(stored), cand)]
    else stored + [cand]
  }

  /** Stored sessions are ordered: each one ends no later than the next one starts. */
  predicate Chronological(ss: seq<Session>)
  {
    forall i :: 0 < i < |ss| ==> ss[i - 1].endTime <= ss[i].startTime
  }

  /** Two neighbouring stored sessions of the same application are never close enough
      to have been merged. */
  predicate Separated(ss: seq<Session>)
  {
    forall i :: 0 < i < |ss| && ss[i - 1].appClass == ss[i].appClass ==>
      ss[i].startTime - ss[i - 1].endTime > MergeThreshold
  }

  /** What holds of the tracker's stored sequence at all times. */
  predicate StoredInvariant(ss: seq<Session>)
  {
    (forall i :: 0 <= i < |ss| ==> Retained(ss[i])) && Chronological(ss) && Separated(ss)
  }

  /** Every session in `ss` ended by `t`. */
  predicate EndsBy(ss: seq<Session>, t: Time)
  {
    forall i :: 0 <= i < |ss| ==> ss[i].endTime <= t
  }

  /** Storing a closed session that started after every stored one ended keeps the
      stored sequence retained, ordered and separated, and every stored session then
      ends by the candidate's end. */
  lemma StorePreservesInvariant(stored: seq<Session>, cand: Session)
    requires StoredInvariant(stored) && EndsBy(stored, cand.startTime)
    requires Closed(cand) && cand.duration >= 0
    ensures StoredInvariant(Store(stored, cand))
    ensures EndsBy(Store(stored, cand), cand.endTime)
  {
    var r := Store(stored, cand);
    if cand.duration >= MinDuration && ShouldMerge(stored, cand) {
      var n := |stored|;
      var e := Extend(Last(stored), cand);
      assert r == stored[..n - 1] + [e];
      assert Retained(e);
      forall i | 0 < i < |r|
        ensures r[i - 1].endTime <= r[i].startTime
        ensures r[i - 1].appClass == r[i].appClass ==> r[i].startTime - r[i - 1].endTime > MergeThreshold
      {
        assert r[i - 1] == stored[i - 1];
        if i < n - 1 { assert r[i] == stored[i]; }
      }
      forall i | 0 <= i < |r| ensures r[i].endTime <= cand.endTime {
        if i < n - 1 { assert r[i] == stored[i]; }
      }
    } else if cand.duration >= MinDuration {
      assert r == stored + [cand];
      forall i | 0 < i < |r|
        ensures r[i - 1].endTime <= r[i].startTime
        ensures r[i - 1].appClass == r[i].appClass ==> r[i].startTime - r[i - 1].endTime > MergeThreshold
      {
        if i < |stored| { assert r[i - 1] == stored[i - 1] && r[i] == stored[i]; }
      }
    }
  }

  /** A merge keeps the length and every element but the last; the last keeps its
      start and application, takes the candidate's end and title, and its duration
      grows by the gap plus the candidate's duration. */
  lemma MergeExtendsLast(stored: seq<Session>, cand: Session)
    requires Closed(cand) && cand.duration >= MinDuration && ShouldMerge(stored, cand)
    requires Closed(Last(stored))
    ensures var r := Store(stored, cand);
      && |r| == |stored|
      && (forall i :: 0 <= i < |r| - 1 ==> r[i] == stored[i])
      && Last(r).startTime == Last(stored).startTime
      && Last(r).appClass == Last(stored).appClass
      && Last(r).endTime == cand.endTime
      && Last(r).windowTitle == cand.windowTitle
      && Last(r).duration == Last(r).endTime - Last(r).startTime
      && Last(r).duration
         == Last(stored).duration + (cand.startTime - Last(stored).endTime) + cand.duration
  {
    var r := Store(stored, cand);
    assert r == stored[..|stored| - 1] + [Extend(Last(stored), cand)];
    forall i | 0 <= i < |r| - 1 ensures r[i] == stored[i] {
      assert r[i] == stored[..|stored| - 1][i];
    }
  }

  /** The sessions stored after closing each of `cands` in turn. */
  function StoreAll(stored: seq<Session>, cands: seq<Session>): seq<Session>
    decreases |cands|
  {
    if cands == [] then stored else StoreAll(Store(stored, cands[0]), cands[1..])
  }

  /** The single session that a run of merged sessions of one application becomes. */
  function Spanning(first: Session, last: Session): (s: Session)
    ensures Closed(s)
  {
    Session(first.startTime, last.endTime, first.appClass, last.windowTitle,
            last.endTime - first.startTime, false)
  }

  /** A run of long-enough sessions of one application, each starting within the
      merge threshold of the previous one's end. */
  predicate MergeableRun(cands: seq<Session>, app: string)
  {
    && (forall i :: 0 <= i < |cands| ==> Retained(cands[i]) && cands[i].appClass == app)
    && (forall i :: 0 < i < |cands| ==> cands[i].startTime - cands[i - 1].endTime <= MergeThreshold)
  }

  /** A mergeable run closed after a stored session `x` of the same application that
      it may merge with collapses into `x`: one session from x's start to the run's
      last end, titled with the run's last title. */
  lemma {:induction false} RunExtendsLast(pre: seq<Session>, x: Session, cands: seq<Session>)
    requires !x.active && cands != [] && MergeableRun(cands, x.appClass)
    requires cands[0].startTime - x.endTime <= MergeThreshold
    ensures StoreAll(pre + [x], cands) == pre + [Spanning(x, Last(cands))]
    decreases |cands|
  {
    var c := cands[0];
    assert ShouldMerge(pre + [x], c);
    assert Last(pre + [x]) == x;
    assert (pre + [x])[..|pre + [x]| - 1] == pre;
    var y := Extend(x, c);
    assert Store(pre + [x], c) == pre + [y];
    if |cands| == 1 {
      assert StoreAll(pre + [y], cands[1..]) == pre + [y];
      assert y == Spanning(x, Last(cands));
    } else {
      var rest := cands[1..];
      assert MergeableRun(rest, x.appClass) by {
        forall i | 0 < i < |rest|
          ensures rest[i].startTime - rest[i - 1].endTime <= MergeThreshold
        {
          assert rest[i] == cands[i + 1] && rest[i - 1] == cands[i];
        }
      }
      assert rest[0] == cands[1];
      RunExtendsLast(pre, y, rest);
      assert Last(rest) == Last(cands);
    }
  }

  /** Closing a mergeable run of one application, starting from no stored sessions,
      stores exactly one session spanning from the first start to the last end, with
      the last title. */
  lemma {:induction false} RunMergesToOne(cands: seq<Session>, app: string)
    requires cands != [] && MergeableRun(cands, app)
    ensures StoreAll([], cands) == [Spanning(cands[0], Last(cands))]
  {
    var c := cands[0];
    assert Store([], c) == [] + [c];
    if |cands| == 1 {
      assert StoreAll([c], cands[1..]) == [c];
    } else {
      var rest := cands[1..];
      assert MergeableRun(rest, app) by {
        forall i | 0 < i < |rest|
          ensures rest[i].startTime - rest[i - 1].endTime <= MergeThreshold
        {
          assert rest[i] == cands[i + 1] && rest[i - 1] == cands[i];
        }
      }
      assert rest[0] == cands[1];
      RunExtendsLast([], c, rest);
      assert Last(rest) == Last(cands);
    }
  }

  /** Closing long-enough sessions of which no two neighbours may merge (different
      applications, or a gap above the threshold) stores each of them as its own entry. */
  lemma {:induction false} UnmergeableSessionsAppended(stored: seq<Session>, cands: seq<Session>)
    requires forall i :: 0 <= i < |cands| ==> cands[i].duration >= MinDuration
    requires forall i :: 0 < i < |cands| ==>
      cands[i - 1].appClass != cands[i].appClass
      || cands[i].startTime - cands[i - 1].endTime > MergeThreshold
    requires cands != [] ==> !ShouldMerge(stored, cands[0])
    ensures StoreAll(stored, cands) == stored + cands
    decreases |cands|
  {
    if cands != [] {
      var c := cands[0];
      var rest := cands[1..];
      assert Store(stored, c) == stored + [c];
      if rest != [] {
        assert rest[0] == cands[1];
        assert Last(stored + [c]) == c;
      }
      forall i | 0 < i < |rest|
        ensures rest[i - 1].appClass != rest[i].appClass
             || rest[i].startTime - rest[i - 1].endTime > MergeThreshold
      {
        assert rest[i] == cands[i + 1] && rest[i - 1] == cands[i];
      }
      UnmergeableSessionsAppended(stored + [c], rest);
      assert stored + [c] + rest == stored + cands;
    }
  }

  /** A session of another application too short to be kept does not separate two
      sessions of one application around it: they are stored as one session, whose
      duration counts the interruption too. */
  lemma ShortInterruptionMerged(a1: Session, b: Session, a2: Session)
    requires Retained(a1) && Retained(a2) && a1.appClass == a2.appClass
    requires Closed(b) && b.duration < MinDuration && b.appClass != a1.appClass
    requires a1.endTime <= b.startTime && b.endTime <= a2.startTime
    requires a2.startTime - a1.endTime <= MergeThreshold
    ensures StoreAll([], [a1, b, a2]) == [Spanning(a1, a2)]
    ensures Spanning(a1, a2).duration >= a1.duration + b.duration + a2.duration
  {
    assert Store([], a1) == [a1];
    assert Store([a1], b) == [a1];
    assert ShouldMerge([a1], a2);
    assert [a1][..0] == [];
    assert Store([a1], a2) == [Extend(a1, a2)];
    assert [a1, b, a2][1..] == [b, a2] && [b, a2][1..] == [a2];
    assert StoreAll([a1], [a2]) == StoreAll([Extend(a1, a2)], []);
    assert StoreAll([a1], [b, a2]) == StoreAll([a1], [a2]);
    assert Extend(a1, a2) == Spanning(a1, a2);
  }
}
