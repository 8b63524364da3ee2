/**
  The dashboard variant: each accepted scan appends a `[timestamp, ID]` row to the check-in
  log, plays a beep and saves the snapshot; the gap is 5 seconds; the records table shows
  the log's data rows newest first.
*/
module StLitSystem {
  import opened Wrappers
  import opened Dedup
  import opened Snapshots

  const TimeGap: real := 5.0

  /** One CSV row. */
  type Row = seq<string>

  /** The header row written when the log is created. */
  const Header: Row := ["timestamp", "ID"]

  /** `s` in reverse order. */
  function Reversed<T>(s: seq<T>): (r: seq<T>)
    ensures |r| == |s|
    ensures forall k :: 0 <= k < |s| ==> r[k] == s[|s| - 1 - k]
  {
    if s == [] then [] else [s[|s| - 1]] + Reversed(s[..|s| - 1])
  }

  /** Reversing a concatenation reverses the order of its parts. */
  lemma ReversedAppend<T>(a: seq<T>, b: seq<T>)
    ensures Reversed(a + b) == Reversed(b) + Reversed(a)
  {
    var l, r := Reversed(a + b), Reversed(b) + Reversed(a);
    assert forall k :: 0 <= k < |l| ==> l[k] == r[k];
  }

  /**
    The records table: the log read with its first row as the header, then reversed, so that
    the first row shown is the last one appended.
  */
  function Table(rows: seq<Row>): (t: seq<Row>)
    ensures |t| == if rows == [] then 0 else |rows| - 1
    ensures forall k :: 0 <= k < |t| ==> t[k] == rows[|rows| - 1 - k]
  {
    if rows == [] then [] else Reversed(rows[1..])
  }

  /** Appending rows to a log puts them, latest first, above the rows already shown. */
  lemma TableAfterAppend(rows: seq<Row>, added: seq<Row>)
    requires |rows| >= 1
    ensures Table(rows + added) == Reversed(added) + Table(rows)
  {
    assert (rows + added)[1..] == rows[1..] + added;
    ReversedAppend(rows[1..], added);
  }

  /** The row each acceptance appends to the log, in order: its timestamp and its decoded text. */
  function LogRows(acc: seq<Acceptance>): (r: seq<Row>)
    ensures |r| == |acc|
    ensures forall k :: 0 <= k < |acc| ==> r[k] == [acc[k].timestamp, acc[k].text]
  {
    if acc == [] then [] else LogRows(acc[..|acc| - 1]) + [[acc[|acc| - 1].timestamp, acc[|acc| - 1].text]]
  }

  /** The snapshot file name of each acceptance, in order. */
  function ImageNames(acc: seq<Acceptance>): (r: seq<string>)
    ensures |r| == |acc|
    ensures forall k :: 0 <= k < |acc| ==> r[k] == SnapshotName(acc[k].timestamp, acc[k].text)
  {
    if acc == [] then [] else ImageNames(acc[..|acc| - 1]) + [SnapshotName(acc[|acc| - 1].timestamp, acc[|acc| - 1].text)]
  }

  lemma SnocRows(start: seq<Row>, acc: seq<Acceptance>, a: Acceptance)
    ensures start + LogRows(acc) + [[a.timestamp, a.text]] == start + LogRows(acc + [a])
  {
    assert (acc + [a])[..|acc|] == acc;
    assert LogRows(acc + [a]) == LogRows(acc) + [[a.timestamp, a.text]];
  }

  lemma ImageNamesSnoc(acc: seq<Acceptance>, a: Acceptance)
    ensures ImageNames(acc + [a]) == ImageNames(acc) + [SnapshotName(a.timestamp, a.text)]
  {
    assert (acc + [a])[..|acc|] == acc;
  }

  /** The check-in log file, as the list of its rows. */
  class CheckinLog {
    var rows: seq<Row>

    /** Startup: a log that does not exist yet is created holding only the header; an existing one is kept as it is. */
    constructor Open(existing: Option<seq<Row>>)
      ensures rows == if existing.Some? then existing.value else [Header]
    {
      if existing.None? {
        rows := [Header];
      } else {
        rows := existing.value;
      }
    }

    /** Append one row `[timestamp, qrId]` at the end; earlier rows stay as they were. */
    method LogScan(timestamp: string, qrId: string)
      modifies this
      ensures rows == old(rows) + [[timestamp, qrId]]
    {
      rows := rows + [[timestamp, qrId]];
    }
  }

  /**
    A new log shows an empty table; after one scan is logged, the scan is the first row shown
    and the rest of the table is unchanged.
  */
  lemma NewestFirst(rows: seq<Row>, timestamp: string, qrId: string)
    requires |rows| >= 1
    ensures Table([Header]) == []
    ensures Table(rows + [[timestamp, qrId]]) == [[timestamp, qrId]] + Table(rows)
  {
    TableAfterAppend(rows, [[timestamp, qrId]]);
  }

  /**
    The log rows a frame appends carry the frame's accepted codes, all non-empty, each box's own
    text and timestamp, with at most one row per code (the gap is non-negative).
  */
  lemma FrameLogsOncePerCode(s: State, decodedInfo: seq<string>, points: Option<nat>, now: real, stampAt: nat -> string)
    ensures var r := ReadFrame(s, decodedInfo, points, now, stampAt, TimeGap);
      var added := LogRows(r.accepted);
      && (points.None? || decodedInfo == [] ==> added == [])
      && (forall k :: 0 <= k < |added| ==>
            added[k][1] != "" && added[k][1] == TextAt(decodedInfo, r.accepted[k].index)
            && added[k][0] == stampAt(r.accepted[k].index))
      && (forall j, k :: 0 <= j < k < |added| ==> added[j][1] != added[k][1])
  {
    if points.Some? && decodedInfo != [] {
      BoxesAcceptOncePerCode(s, decodedInfo, points.value, now, stampAt, TimeGap);
    }
  }

  /** The snapshot of an accepted scan is saved as `{timestamp}_{sanitized text}.png`; the write's result is not checked. */
  method SaveCapturedImage(qrText: string, timestamp: string) returns (imageFilename: string)
    ensures imageFilename == SnapshotName(timestamp, qrText)
  {
    var sanitizedText := SanitizeFilename(qrText);
    imageFilename := ImageFileName(timestamp, sanitizedText);
  }

  /**
    One decoded text of the frame: dedup it; when accepted, append its log row, play the beep
    and save the snapshot. A rejected or empty text touches neither the recorder nor the log.
  */
  method CheckInText(rec: Recorder, log: CheckinLog, text: string, now: real, timestamp: string)
    returns (accepted: bool, imageFilename: string)
    requires rec.Valid()
    modifies rec, log
    ensures rec.Valid()
    ensures Outcome(rec.Current(), accepted) == Step(old(rec.Current()), text, now, timestamp, TimeGap)
    ensures log.rows == if accepted then old(log.rows) + [[timestamp, text]] else old(log.rows)
    ensures accepted ==> imageFilename == SnapshotName(timestamp, text)
  {
    imageFilename := "";
    accepted := rec.Observe(text, now, timestamp, TimeGap);
    if accepted {
      log.LogScan(timestamp, text);
      imageFilename := SaveCapturedImage(text, timestamp);
    }
  }

  /**
    One pass of the capture loop: dedup every box of the frame; for each acceptance append its
    log row, then save its snapshot (the write's success is not checked). Returns the snapshot
    names in order.
  */
  method CaptureFrame(rec: Recorder, log: CheckinLog, decodedInfo: seq<string>, points: Option<nat>, now: real,
                      stampAt: nat -> string)
    returns (images: seq<string>)
    requires rec.Valid()
    modifies rec, log
    ensures rec.Valid()
    ensures var r := ReadFrame(old(rec.Current()), decodedInfo, points, now, stampAt, TimeGap);
      && rec.Current() == r.state
      && log.rows == old(log.rows) + LogRows(r.accepted)
      && images == ImageNames(r.accepted)
  {
    images := [];
    ghost var detected: seq<Acceptance> := [];
    ghost var s0 := rec.Current();
    ghost var start := log.rows;
    if points.Some? && decodedInfo != [] {
      var i := 0;
      while i < points.value
        invariant 0 <= i <= points.value
        invariant rec.Valid()
        invariant FrameResult(rec.Current(), detected) == Boxes(s0, decodedInfo, i, now, stampAt, TimeGap)
        invariant log.rows == start + LogRows(detected)
        invariant images == ImageNames(detected)
      {
        var text := if i < |decodedInfo| then decodedInfo[i] else Unknown;
        ghost var before := rec.Current();
        var accepted, imageName := CheckInText(rec, log, text, now, stampAt(i));
        BoxesExtend(s0, decodedInfo, i, now, stampAt, TimeGap, before, detected, rec.Current(), accepted);
        if accepted {
          var a := Acceptance(i, text, stampAt(i));
          SnocRows(start, detected, a);
          ImageNamesSnoc(detected, a);
          detected := detected + [a];
          images := images + [imageName];
        }
        i := i + 1;
      }
    }
  }
}
