/**
  The check-in script: like the capturing reader, but with a 15 second gap and a beep
  played only when the snapshot was actually written.
*/
module CheckinSystem {
  import opened Wrappers
  import opened Dedup
  import opened Snapshots

  const TimeGap: real := 15.0

  /** What one accepted scan led to: the save attempt and whether the beep was played. */
  datatype CheckinEvent = CheckinEvent(save: SaveAttempt, beeped: bool)

  /** The event of each acceptance, in order: the beep follows a successful write and nothing else. */
  function EventsOf(acc: seq<Acceptance>, frameNonEmpty: bool, writeOk: nat -> bool): (r: seq<CheckinEvent>)
    ensures |r| == |acc|
    ensures forall k :: 0 <= k < |acc| ==>
      && r[k].save == AttemptSave(acc[k].timestamp, acc[k].text, frameNonEmpty, writeOk(acc[k].index))
      && (r[k].beeped <==> frameNonEmpty && writeOk(acc[k].index))
  {
    if acc == [] then []
    else
      var last := acc[|acc| - 1];
      var save := AttemptSave(last.timestamp, last.text, frameNonEmpty, writeOk(last.index));
      EventsOf(acc[..|acc| - 1], frameNonEmpty, writeOk) + [CheckinEvent(save, save.result == Saved)]
  }

  lemma EventsOfSnoc(acc: seq<Acceptance>, a: Acceptance, frameNonEmpty: bool, writeOk: nat -> bool)
    ensures var save := AttemptSave(a.timestamp, a.text, frameNonEmpty, writeOk(a.index));
      EventsOf(acc + [a], frameNonEmpty, writeOk) == EventsOf(acc, frameNonEmpty, writeOk) + [CheckinEvent(save, save.result == Saved)]
  {
    assert (acc + [a])[..|acc|] == acc;
  }

  /**
    The cooldown is 15 seconds: once c is accepted at t1, it is accepted again at t2
    exactly when t2 - t1 > 15.
  */
  lemma CooldownIsFifteen(s: State, c: string, t1: real, stamp1: string, t2: real, stamp2: string)
    requires Step(s, c, t1, stamp1, TimeGap).accepted
    ensures Step(Step(s, c, t1, stamp1, TimeGap).state, c, t2, stamp2, TimeGap).accepted <==> t2 - t1 > 15.0
  {
    if t2 - t1 > TimeGap {
      CooldownExpires(s, c, t1, stamp1, t2, stamp2, TimeGap);
    } else {
      CooldownBlocks(s, c, t1, stamp1, t2, stamp2, TimeGap);
    }
  }

  /**
    A write that fails, or an empty frame, takes nothing back: every accepted code of the
    frame, beeped or not, ends the frame recorded with `now` and its timestamp.
  */
  lemma FailedSaveStillRecorded(s: State, decodedInfo: seq<string>, points: Option<nat>, now: real, stampAt: nat -> string,
                                frameNonEmpty: bool, writeOk: nat -> bool)
    requires KeysAgree(s)
    ensures var r := ReadFrame(s, decodedInfo, points, now, stampAt, TimeGap);
      var events := EventsOf(r.accepted, frameNonEmpty, writeOk);
      && KeysAgree(r.state)
      && forall k :: 0 <= k < |events| && !events[k].beeped ==>
           && r.accepted[k].text in r.state.lastDetectedTimes && r.state.lastDetectedTimes[r.accepted[k].text] == now
           && r.accepted[k].text in r.state.detectedCodes && r.state.detectedCodes[r.accepted[k].text] == r.accepted[k].timestamp
  {
    if points.Some? && decodedInfo != [] {
      BoxesAcceptedRecorded(s, decodedInfo, points.value, now, stampAt, TimeGap);
    }
  }

  /**
    One frame: dedup with the 15 second gap; for each acceptance build the snapshot name,
    try the write when the frame has pixels, and beep when the write succeeded.
  */
  method ReadQrCode(rec: Recorder, decodedInfo: seq<string>, points: Option<nat>, now: real, stampAt: nat -> string,
                    frameNonEmpty: bool, writeOk: nat -> bool)
    returns (events: seq<CheckinEvent>)
    requires rec.Valid()
    modifies rec
    ensures rec.Valid()
    ensures var r := ReadFrame(old(rec.Current()), decodedInfo, points, now, stampAt, TimeGap);
      rec.Current() == r.state && events == EventsOf(r.accepted, frameNonEmpty, writeOk)
  {
    events := [];
    ghost var detected: seq<Acceptance> := [];
    ghost var s0 := rec.Current();
    if points.Some? && decodedInfo != [] {
      var i := 0;
      while i < points.value
        invariant 0 <= i <= points.value
        invariant rec.Valid()
        invariant FrameResult(rec.Current(), detected) == Boxes(s0, decodedInfo, i, now, stampAt, TimeGap)
        invariant events == EventsOf(detected, frameNonEmpty, writeOk)
      {
        var text := if i < |decodedInfo| then decodedInfo[i] else Unknown;
        ghost var before := rec.Current();
        var accepted := rec.Observe(text, now, stampAt(i), TimeGap);
        BoxesExtend(s0, decodedInfo, i, now, stampAt, TimeGap, before, detected, rec.Current(), accepted);
        if accepted {
          var timestamp := stampAt(i);
          var attempt := SaveSnapshot(timestamp, text, frameNonEmpty, writeOk(i));
          var beeped := attempt.result == Saved;
          EventsOfSnoc(detected, Acceptance(i, text, timestamp), frameNonEmpty, writeOk);
          detected := detected + [Acceptance(i, text, timestamp)];
          events := events + [CheckinEvent(attempt, beeped)];
        }
        i := i + 1;
      }
    }
  }
}
