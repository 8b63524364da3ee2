/**
  The plain reader: each accepted code is reported on the console with its timestamp
  (modelled as the returned list of acceptances); the gap is 5 seconds.
*/
module QrReader {
  import opened Wrappers
  import opened Dedup

  const TimeGap: real := 5.0

  /**
    One frame: walk the boxes in index order, reading past the decoder's list as "Unknown",
    skipping empty text and accepting each code through the recorder. The recorder ends in
    the state `ReadFrame` describes and the reported scans are the frame's acceptances.
  */
  method ReadQrCode(rec: Recorder, decodedInfo: seq<string>, points: Option<nat>, now: real, stampAt: nat -> string)
    returns (detected: seq<Acceptance>)
    requires rec.Valid()
    modifies rec
    ensures rec.Valid()
    ensures FrameResult(rec.Current(), detected) == ReadFrame(old(rec.Current()), decodedInfo, points, now, stampAt, TimeGap)
  {
    detected := [];
    ghost var s0 := rec.Current();
    if points.Some? && decodedInfo != [] {
      var i := 0;
      while i < points.value
        invariant 0 <= i <= points.value
        invariant rec.Valid()
        invariant FrameResult(rec.Current(), detected) == Boxes(s0, decodedInfo, i, now, stampAt, TimeGap)
      {
        var text := if i < |decodedInfo| then decodedInfo[i] else Unknown;
        ghost var before := rec.Current();
        var accepted := rec.Observe(text, now, stampAt(i), TimeGap);
        BoxesExtend(s0, decodedInfo, i, now, stampAt, TimeGap, before, detected, rec.Current(), accepted);
        if accepted {
          detected := detected + [Acceptance(i, text, stampAt(i))];
        }
        i := i + 1;
      }
    }
  }
}
