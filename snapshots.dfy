/**
  Filesystem-safe names for the snapshot images saved on an accepted scan:
  the sanitizer shared by three of the scripts and the `{timestamp}_{code}.png` file name.
*/
module Snapshots {

  /** The nine characters the sanitizer rewrites: \ / * ? : " < > | */
  predicate IsForbidden(c: char) {
    c == '\\' || c == '/' || c == '*' || c == '?' || c == ':' || c == '"' || c == '<' || c == '>' || c == '|'
  }

  /** No character of `s` needs sanitizing. */
  predicate IsClean(s: string) {
    forall i :: 0 <= i < |s| ==> !IsForbidden(s[i])
  }

  /**
    The regular-expression substitution of the character class above by "_":
    the result has the same length, each forbidden character becomes '_', every other
    character is kept, and so the result is clean.
  */
  function SanitizeFilename(text: string): (r: string)
    ensures |r| == |text|
    ensures forall i :: 0 <= i < |text| ==> r[i] == (if IsForbidden(text[i]) then '_' else text[i])
    ensures IsClean(r)
  {
    if text == [] then []
    else (if IsForbidden(text[0]) then "_" else [text[0]]) + SanitizeFilename(text[1..])
  }

  /** Sanitizing twice is sanitizing once. */
  lemma SanitizeIdempotent(text: string)
    ensures SanitizeFilename(SanitizeFilename(text)) == SanitizeFilename(text)
  {
    var once := SanitizeFilename(text);
    var twice := SanitizeFilename(once);
    assert forall i :: 0 <= i < |once| ==> twice[i] == once[i];
  }

  /** A text is left as it is exactly when it is already clean. */
  lemma SanitizeFixesExactlyClean(text: string)
    ensures SanitizeFilename(text) == text <==> IsClean(text)
  {
    var r := SanitizeFilename(text);
    if IsClean(text) {
      assert forall i :: 0 <= i < |text| ==> r[i] == text[i];
    }
  }

  /** Two codes that differ only in which forbidden character they hold share one sanitized name. */
  lemma SanitizeMerges(a: string, b: string)
    requires |a| == |b|
    requires forall i :: 0 <= i < |a| ==> a[i] == b[i] || (IsForbidden(a[i]) && IsForbidden(b[i]))
    ensures SanitizeFilename(a) == SanitizeFilename(b)
  {
    var ra, rb := SanitizeFilename(a), SanitizeFilename(b);
    assert forall i :: 0 <= i < |a| ==> ra[i] == rb[i];
  }

  /** The image file name of an accepted scan: the timestamp, an underscore, the sanitized code and ".png". */
  function SnapshotName(timestamp: string, text: string): (r: string)
    ensures |r| == |timestamp| + |text| + 5
  {
    ImageFileName(timestamp, SanitizeFilename(text))
  }

  /** The `{timestamp}_{sanitized text}.png` pattern, applied to an already sanitized text. */
  function ImageFileName(timestamp: string, sanitizedText: string): string {
    timestamp + "_" + sanitizedText + ".png"
  }

  /**
    Each part of a snapshot name can be read back from its position: the timestamp, the
    underscore, the sanitized code, the extension. The name is clean exactly when the
    timestamp is, so a timestamp format without forbidden characters gives a safe name.
  */
  lemma SnapshotNameParts(timestamp: string, text: string)
    ensures var r := SnapshotName(timestamp, text);
      && |r| == |timestamp| + |text| + 5
      && r[..|timestamp|] == timestamp
      && r[|timestamp|] == '_'
      && r[|timestamp| + 1 .. |r| - 4] == SanitizeFilename(text)
      && r[|r| - 4..] == ".png"
      && (IsClean(r) <==> IsClean(timestamp))
  {
    var r := SnapshotName(timestamp, text);
    assert r[..|timestamp|] == timestamp;
    assert r[|timestamp| + 1 .. |r| - 4] == SanitizeFilename(text);
    assert r[|r| - 4..] == ".png";
    if IsClean(timestamp) {
      forall i | 0 <= i < |r| ensures !IsForbidden(r[i]) {
        if i < |timestamp| {
          assert r[i] == timestamp[i];
        } else if i == |timestamp| {
          assert r[i] == '_';
        } else if i < |r| - 4 {
          assert r[i] == SanitizeFilename(text)[i - |timestamp| - 1];
        } else {
          assert r[i] == ".png"[i - (|r| - 4)];
        }
      }
    }
    if IsClean(r) {
      forall i | 0 <= i < |timestamp| ensures !IsForbidden(timestamp[i]) {
        assert r[i] == timestamp[i];
      }
    }
  }

  /** The snapshot names of two scans with the same timestamp coincide when their codes differ only in forbidden characters. */
  lemma SnapshotNamesCollide(timestamp: string, a: string, b: string)
    requires |a| == |b|
    requires forall i :: 0 <= i < |a| ==> a[i] == b[i] || (IsForbidden(a[i]) && IsForbidden(b[i]))
    ensures SnapshotName(timestamp, a) == SnapshotName(timestamp, b)
  {
    SanitizeMerges(a, b);
  }

  /** What happened to one attempted image save. */
  datatype SaveResult = Saved | WriteFailed | EmptyFrame

  /** One attempted image save: the file name and its result. */
  datatype SaveAttempt = SaveAttempt(fileName: string, result: SaveResult)

  /**
    Saving the snapshot of an accepted scan: an empty frame skips the write; otherwise the
    outcome is the write's success, which the model receives as `writeOk`.
  */
  function AttemptSave(timestamp: string, text: string, frameNonEmpty: bool, writeOk: bool): (r: SaveAttempt)
    ensures r.fileName == SnapshotName(timestamp, text)
    ensures r.result == Saved <==> frameNonEmpty && writeOk
    ensures r.result == EmptyFrame <==> !frameNonEmpty
  {
    SaveAttempt(SnapshotName(timestamp, text),
                if !frameNonEmpty then EmptyFrame else if writeOk then Saved else WriteFailed)
  }

  /**
    The save step of an accepted scan: sanitize the code, build the file name, and when the
    frame has pixels write it (`writeSucceeds` is the write's result).
  */
  method SaveSnapshot(timestamp: string, text: string, frameNonEmpty: bool, writeSucceeds: bool) returns (attempt: SaveAttempt)
    ensures attempt == AttemptSave(timestamp, text, frameNonEmpty, writeSucceeds)
  {
    var sanitizedText := SanitizeFilename(text);
    var imageName := ImageFileName(timestamp, sanitizedText);
    if frameNonEmpty {
      if writeSucceeds {
        attempt := SaveAttempt(imageName, Saved);
      } else {
        attempt := SaveAttempt(imageName, WriteFailed);
      }
    } else {
      attempt := SaveAttempt(imageName, EmptyFrame);
    }
  }
}
