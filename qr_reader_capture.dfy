/**
  The capturing reader: each accepted code also saves a snapshot named
  `{timestamp}_{sanitized code}.png`; the gap is 5 seconds. The dictionaries are updated
  before the save is attempted, so a failed write or an empty frame leaves them updated.
*/
module QrReaderCapture {
  import opened Wrappers
  import opened Dedup
  import opened Snapshots

  const TimeGap: real := 5.0

  /** The save attempted for each acceptance, in order. */
  function SavesOf(acc: seq<Acceptance>, frameNonEmpty: bool, writeOk: nat -> bool): (r: seq<SaveAttempt>)
    ensures |r| == |acc|
    ensures forall k :: 0 <= k < |acc| ==>
      r[k] == AttemptSave(acc[k].timestamp, acc[k].text, frameNonEmpty, writeOk(acc[k].index))
  {
    if acc == [] then []
    else
      var last := acc[|acc| - 1];
      SavesOf(acc[..|acc| - 1], frameNonEmpty, writeOk)
        + [AttemptSave(last.timestamp, last.text, frameNonEmpty, writeOk(last.index))]
  }

  lemma SavesOfSnoc(acc: seq<Acceptance>, a: Acceptance, frameNonEmpty: bool, writeOk: nat -> bool)
    ensures SavesOf(acc + [a], frameNonEmpty, writeOk)
      == SavesOf(acc, frameNonEmpty, writeOk) + [AttemptSave(a.timestamp, a.text, frameNonEmpty, writeOk(a.index))]
  {
    assert (acc + [a])[..|acc|] == acc;
  }

  /**
    Every acceptance of a frame leads to exactly one save attempt, under its own snapshot
    name; with a non-negative gap no two attempts in one frame come from the same code.
  */
  lemma FrameSavesOncePerCode(s: State, decodedInfo: seq<string>, points: Option<nat>, now: real, stampAt: nat -> string,
                              frameNonEmpty: bool, writeOk: nat -> bool)
    ensures var r := ReadFrame(s, decodedInfo, points, now, stampAt, TimeGap);
      var saves := SavesOf(r.accepted, frameNonEmpty, writeOk);
      && |saves| == |r.accepted|
      && (forall k :: 0 <= k < |saves| ==> saves[k].fileName == SnapshotName(r.accepted[k].timestamp, r.accepted[k].text))
      && DistinctTexts(r.accepted)
  {
    if points.Some? && decodedInfo != [] {
      BoxesAcceptOncePerCode(s, decodedInfo, points.value, now, stampAt, TimeGap);
    }
  }

  /**
    One frame: dedup exactly as the plain reader, then for each acceptance build the
    snapshot name and try to save it. `frameNonEmpty` says whether the frame has pixels,
    `writeOk(i)` whether writing box i's snapshot succeeds.
  */
  method ReadQrCode(rec: Recorder, decodedInfo: seq<string>, points: Option<nat>, now: real, stampAt: nat -> string,
                    frameNonEmpty: bool, writeOk: nat -> bool)
    returns (saves: seq<SaveAttempt>)
    requires rec.Valid()
    modifies rec
    ensures rec.Valid()
    ensures var r := ReadFrame(old(rec.Current()), decodedInfo, points, now, stampAt, TimeGap);
      rec.Current() == r.state && saves == SavesOf(r.accepted, frameNonEmpty, writeOk)
  {
    saves := [];
    ghost var detected: seq<Acceptance> := [];
    ghost var s0 := rec.Current();
    if points.Some? && decodedInfo != [] {
      var i := 0;
      while i < points.value
        invariant 0 <= i <= points.value
        invariant rec.Valid()
        invariant FrameResult(rec.Current(), detected) == Boxes(s0, decodedInfo, i, now, stampAt, TimeGap)
        invariant saves == SavesOf(detected, frameNonEmpty, writeOk)
      {
        var text := if i < |decodedInfo| then decodedInfo[i] else Unknown;
        ghost var before := rec.Current();
        var accepted := rec.Observe(text, now, stampAt(i), TimeGap);
        BoxesExtend(s0, decodedInfo, i, now, stampAt, TimeGap, before, detected, rec.Current(), accepted);
        if accepted {
          var timestamp := stampAt(i);
          var attempt := SaveSnapshot(timestamp, text, frameNonEmpty, writeOk(i));
          SavesOfSnoc(detected, Acceptance(i, text, timestamp), frameNonEmpty, writeOk);
          detected := detected + [Acceptance(i, text, timestamp)];
          saves := saves + [attempt];
        }
        i := i + 1;
      }
    }
  }
}
