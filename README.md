# QR-code check-in recorder: a Dafny model

This project models the bookkeeping core of a webcam QR-code check-in logger. Four Python
scripts share it:

- `qr_reader.py` prints each new scan.
- `qr-reader-capture.py` also saves a snapshot image.
- `checkin_system.py` saves a snapshot, beeps when the save succeeded, and uses a 15 second cooldown.
- `st_lit_system.py` is a Streamlit dashboard. It appends scans to a CSV log, shows them newest first, and offers a camera selector.

In every script, two dictionaries keyed by the decoded text deduplicate scans:

- `detected_codes` maps a code to the formatted timestamp of its last acceptance.
- `last_detected_times` maps a code to the clock reading of its last acceptance.

The boxes of one frame are walked in index order, and every box sees the same clock reading. A
box past the end of the decoder's string list reads as the code `"Unknown"`. Empty text is
skipped. A code is accepted only when `now - last_time > gap` holds strictly, where an unseen
code has last time 0. An acceptance updates both dictionaries, and only then are the side
effects run: console line, snapshot, beep, log row.

Modules, one per source file plus the shared pieces:

- `Dedup` (dedup.dfy): the shared recorder.
  - `State`, `Step` and `Boxes`/`ReadFrame` are the value-level specification of one text and of one frame.
  - The class `Recorder` holds the two dictionaries as fields that its `Observe` method updates in place.
  - The lemmas cover the cooldown, key agreement, at-most-once acceptance per frame, independence of distinct codes and the `"Unknown"` padding.
- `Snapshots` (snapshots.dfy): the filename sanitizer, the `{timestamp}_{code}.png` name and the save step. All three copies of the sanitizer in the source are identical.
- `QrReader`, `QrReaderCapture`, `CheckinSystem`, `StLitSystem`: each script's frame loop as a method over a `Recorder`, proved to leave the recorder in the state `ReadFrame` gives and to return the effects modelled for the frame's acceptances: the acceptances themselves (`qr_reader.py`), the snapshot save attempts, the save attempts with their beeps (`checkin_system.py`), and the log rows with the image names (`st_lit_system.py`). The cooldown constants are 5, 5, 15 and 5 seconds.
- `Cameras` (cameras.dfy): the dashboard's camera list, the `"Camera <i>"` labels and the parsing of the selected label back to an index.

Times are exact `real`s. Formatted timestamps are opaque strings supplied by the caller as
`stampAt(i)`, the clock's formatted reading when box `i` is accepted; the scripts call
`strftime` once per acceptance. Outside inputs are parameters:

- the decoder's output: `decodedInfo`, plus `points`, the number of boxes or `None`;
- whether the frame has pixels: `frameNonEmpty`;
- whether each image write succeeds: `writeOk(i)`;
- whether camera `i` delivers a frame: `opens(i)`.

The CSV log is an in-memory list of rows.

Three behaviours of the code worth noting:

- An unseen code counts as last accepted at time 0. With a clock that starts at 0, a first scan at t = 0 (or any t ≤ gap) is therefore rejected, not accepted. `Dedup.ScenarioFromEpoch` states this.
- A missing decode becomes `"Unknown"`, which is deduplicated like any code rather than rejected.
- The cooldown in `checkin_system.py` is 15 seconds; the comment beside it says 5.

## Model

| member | source | states |
|---|---|---|
| Snapshots.SanitizeFilename | qr-reader-capture.py:8-10 | Same length as the input; each of `\ / * ? : " < > \|` becomes `_`, every other character is kept, so the result contains none of them |
| Snapshots.SanitizeIdempotent | checkin_system.py:10-11 | Sanitizing twice equals sanitizing once |
| Snapshots.SanitizeFixesExactlyClean | st_lit_system.py:27-28 | A text is returned unchanged exactly when it holds no forbidden character |
| Snapshots.SanitizeMerges | qr-reader-capture.py:10 | Texts that differ only in which forbidden characters they hold sanitize to the same string |
| Snapshots.SnapshotName | qr-reader-capture.py:42 | The file name is 5 characters longer than the timestamp and code together (`_` and `.png`); its parts are stated by `SnapshotNameParts` |
| Snapshots.SnapshotNameParts | qr-reader-capture.py:42 | The snapshot name is the timestamp, `_`, the sanitized code and `.png`, each part readable back from its position; the name is clean exactly when the timestamp is |
| Snapshots.SnapshotNamesCollide | checkin_system.py:62 | Two codes differing only in forbidden characters, accepted under the same timestamp, get the same image file name |
| Snapshots.AttemptSave | qr-reader-capture.py:48-55 | An empty frame skips the write; otherwise the result is Saved exactly when the write succeeds; the file name is the snapshot name |
| Snapshots.SaveSnapshot | qr-reader-capture.py:32-55 | The save step (sanitize, build the name, check the frame, write) yields exactly the attempt `AttemptSave` describes |
| Dedup.Step | qr_reader.py:21-26 | Accepted iff the text is non-empty and `now - last_detected_times.get(text, 0) > gap` (so a gap of exactly `gap` is rejected); on acceptance both entries of the text become `(stamp, now)`; on rejection nothing changes; no other code's entries change; key agreement is kept |
| Dedup.TextAt | qr_reader.py:20 | A box within the decoder's list reads its string; a box past the end reads `"Unknown"`, which is non-empty |
| Dedup.Boxes | qr_reader.py:15-26 | Every acceptance of a frame names a box below the box count, carries that box's non-empty text and timestamp, and acceptances come in increasing box order |
| Dedup.BoxesAcceptedExactly | qr_reader.py:19-26 | A box of the frame is in the list of acceptances exactly when its own step, from the state the earlier boxes left, accepts it |
| Dedup.LastTime | qr_reader.py:22 | `last_detected_times.get(text, 0)`: the recorded clock reading of the code, or 0 for a code never accepted |
| Dedup.ReadFrame | qr_reader.py:18-26 | A frame with no boxes (`points` is None) or no decoded strings leaves both dictionaries unchanged and accepts nothing; key agreement is kept |
| Dedup.BoxesKeepKeysAgree | qr_reader.py:25-26 | After any frame the key sets of the two dictionaries are still equal |
| Dedup.BoxesUntouched | checkin_system.py:48-53 | A code that no box of the frame decodes to keeps both of its entries |
| Dedup.BoxesAcceptedNow | qr_reader.py:26 | Every code accepted in a frame ends the frame with the frame's clock reading as its last time |
| Dedup.BoxesAcceptedRecorded | qr_reader.py:24-26 | With a non-negative gap, every code accepted in a frame ends the frame holding its own acceptance's timestamp and the frame's clock reading |
| Dedup.BoxesAcceptOncePerCode | qr_reader.py:15 | With a non-negative gap, no code is accepted twice in one frame, because all boxes share one `current_time` |
| Dedup.BoxesCooled | qr_reader.py:19-23 | After a box has decoded a non-empty code, every later box of the frame finds that code inside its cooldown |
| Dedup.RepeatNeverAccepted | qr_reader.py:22-23 | With a non-negative gap, a box repeating an earlier box's code is rejected |
| Dedup.FirstOccurrenceIndependent | checkin_system.py:48-49 | The first box carrying a code is accepted iff the code is non-empty and its own last time from before the frame is more than `gap` in the past, whatever the other boxes hold |
| Dedup.UnknownPadding | qr_reader.py:19-21 | Boxes past the decoder's list are `"Unknown"`: when no decoded string is itself `"Unknown"`, the first of them is accepted iff `"Unknown"` is due; with a non-negative gap no later one is accepted |
| Dedup.CooldownBlocks | qr-reader-capture.py:28-29 | After an acceptance at t1, the same code is rejected at any t2 with t2 - t1 ≤ gap |
| Dedup.CooldownExpires | qr-reader-capture.py:21 | After an acceptance at t1, the same code is accepted again at any t2 with t2 - t1 > gap |
| Dedup.ScenarioFromEpoch | qr_reader.py:16-23 | With a 5 s gap from the empty state: rejected at t=0 and t=5, accepted at t=6, rejected at t=9, accepted at t=12; another code is accepted at t=6 regardless |
| Dedup.Recorder.constructor | qr_reader.py:48-49 | Both dictionaries start empty |
| Dedup.Recorder.Observe | qr-reader-capture.py:27-34 | The in-place update of the two dictionaries for one text is exactly `Step`, and key agreement is kept |
| QrReader.ReadQrCode | qr_reader.py:9-27 | The frame loop leaves the dictionaries in the `ReadFrame` state and reports exactly the frame's acceptances, in box order |
| QrReaderCapture.SavesOf | qr-reader-capture.py:42-55 | One save attempt per acceptance, in order, each under that acceptance's snapshot name |
| QrReaderCapture.FrameSavesOncePerCode | qr-reader-capture.py:24-34 | A frame attempts one save per acceptance under its snapshot name, and no two attempts come from the same code |
| QrReaderCapture.ReadQrCode | qr-reader-capture.py:13-55 | The dictionaries end in the `ReadFrame` state, whatever the writes do; the save attempts are those of the acceptances |
| CheckinSystem.EventsOf | checkin_system.py:68-76 | Per acceptance, the save attempt and a beep that is played exactly when the frame has pixels and the write succeeded |
| CheckinSystem.CooldownIsFifteen | checkin_system.py:42-49 | After an acceptance at t1, the same code is accepted at t2 iff t2 - t1 > 15 |
| CheckinSystem.FailedSaveStillRecorded | checkin_system.py:52-74 | An acceptance with no beep (failed write or empty frame) still leaves the code recorded with the frame's time and its own timestamp; key agreement is kept |
| CheckinSystem.ReadQrCode | checkin_system.py:37-76 | The dictionaries end in the `ReadFrame` state with the 15 s gap; the events are those of the acceptances |
| StLitSystem.Reversed | st_lit_system.py:171 | Same length, element k is the input's element counted k from the end |
| StLitSystem.Table | st_lit_system.py:170-171 | The displayed table has one row per data row below the header, row k being the k-th most recent |
| StLitSystem.TableAfterAppend | st_lit_system.py:169-171 | Appending rows to a log puts them, latest first, above the rows already shown |
| StLitSystem.LogRows | st_lit_system.py:150-153 | One row `[timestamp, text]` per acceptance, in order |
| StLitSystem.ImageNames | st_lit_system.py:157 | One snapshot name per acceptance, in order |
| StLitSystem.CheckinLog.Open | st_lit_system.py:21-24 | A log that does not exist is created holding only the header `["timestamp", "ID"]`; an existing log is kept as it is |
| StLitSystem.CheckinLog.LogScan | st_lit_system.py:43-46 | Exactly one row `[timestamp, qr_id]` is appended at the end; earlier rows are unchanged |
| StLitSystem.NewestFirst | st_lit_system.py:169-174 | A new log shows an empty table; after a scan is logged it is the first row shown and the rest of the table is unchanged |
| StLitSystem.FrameLogsOncePerCode | st_lit_system.py:143-153 | The rows a frame logs carry non-empty IDs equal to their boxes' texts and timestamps, at most one row per code; an empty frame logs nothing |
| StLitSystem.SaveCapturedImage | st_lit_system.py:65-74 | The saved image's file name is `timestamp + "_" + sanitize_filename(qr_text) + ".png"` |
| StLitSystem.CheckInText | st_lit_system.py:146-157 | One text: the recorder does `Step`; an accepted text appends exactly its row and names its snapshot; a rejected or empty one leaves the log as it was |
| StLitSystem.CaptureFrame | st_lit_system.py:128-157 | The dictionaries end in the `ReadFrame` state; the log gains exactly the rows of the acceptances at its end; the images are their snapshot names |
| Cameras.NatToString | st_lit_system.py:83 | `str(index)` is a non-empty string of decimal digits |
| Cameras.DecimalRoundTrip | st_lit_system.py:102 | Reading back the decimal text of n gives n |
| Cameras.CameraLabel | st_lit_system.py:83 | The label is `"Camera "` followed by decimal digits whose value is the index |
| Cameras.CameraIndexOf | st_lit_system.py:102 | Three outcomes: no index exactly when the label does not contain "Camera"; a parse error exactly when it does but its last word is not an integer; otherwise the integer value of the last word |
| Cameras.LabelRoundTrip | st_lit_system.py:102 | Parsing the label `"Camera " + str(i)` with the "Camera" test and `int(label.split()[-1])` gives back i |
| Cameras.NoCameraHasNoIndex | st_lit_system.py:102 | `"No camera found"` does not contain "Camera", so it selects no index |
| Cameras.Probed | st_lit_system.py:80-83 | Probing indices below n gives at most n labels, each starting with `"Camera "` |
| Cameras.ProbedSound | st_lit_system.py:80-83 | Each probed label is the label of a working index in range and parses back to it |
| Cameras.ProbedComplete | st_lit_system.py:80-83 | Every working index in range has its label in the probed list |
| Cameras.ProbedEmpty | st_lit_system.py:85 | The probed list is empty exactly when no index in range works |
| Cameras.ProbedIncreasing | st_lit_system.py:80-83 | Probing walks the indices upwards, so the probed labels parse to strictly increasing indices |
| Cameras.GetAvailableCameras | st_lit_system.py:78-85 | The list is never empty; it is `["No camera found"]` exactly when none of cameras 0..9 works; otherwise every entry is a working camera's label that parses back to its index, every working camera is listed, and the labels name strictly increasing indices (no repeats, so the selector's default `index=0` is the lowest working camera) |

## Left out

- Recorder lifetime in the dashboard: `st_lit_system.py` creates both dictionaries empty inside the camera branch (st_lit_system.py:124-125), and Streamlit re-runs the whole script on every widget interaction, so each re-run starts a fresh recorder and the cooldown does not carry over from one run to the next. `StLitSystem.CaptureFrame` models the frames of one run, with the recorder given by the caller; the re-run itself is not modelled.
- QR detection and decoding by the vision library: the decoder's output is an input (`decodedInfo`, `points`).
- Drawing bounding boxes, text overlays, mirroring, colour conversion and display windows: pixel work in the vision library.
- Camera access (opening, reading, releasing): a parameter `opens(i)` stands for "camera i delivered a frame". The model does not capture that a camera whose probe fails is never released.
- Sound playback and its error handling: the beep is a boolean in the check-in script's events. The dashboard's unconditional beep on every acceptance has no output in the model.
- Clock and time formatting: times are exact reals and formatted timestamps are caller-supplied strings. Floating-point rounding of `time.time()` is not modelled.
- File and CSV I/O: the log is a list of rows. The model does not cover CSV quoting, pandas parsing (for example an empty ID read back as a missing value), an empty or header-less existing file, the image folder path and its creation, or write exceptions.
- The dashboard's status messages, three-second sleep, session-state toggle and page layout: UI plumbing.
- Console output (the "Detected QR Code" lines and the attempting, saved, failed-write and empty-frame messages) is not modelled as output; `QrReader.ReadQrCode` returns the acceptances those lines report, and the save attempts carry the file name and result the other messages report.
- Cameras.CameraIndexOf: `int()` is modelled as an optional sign followed by ASCII digits. Underscores between digits and non-ASCII digits, which Python also accepts, are not modelled; no label the script produces contains them.
- The main loops' frame capture, the stop key and the release of the camera are I/O. One call of each script's frame method models one pass.
