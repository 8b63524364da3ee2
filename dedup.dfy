/**
  The scan-deduplication recorder shared by all four scripts. Two dictionaries keyed by the
  decoded QR text: `detectedCodes` (code -> formatted timestamp of its last acceptance) and
  `lastDetectedTimes` (code -> clock reading of its last acceptance). A code is accepted when
  it is non-empty and strictly more than `gap` seconds have passed since its last acceptance,
  a code never seen counting as last accepted at time 0.
*/
module Dedup {
  import opened Wrappers

  /** The two dictionaries as values. */
  datatype State = State(detectedCodes: map<string, string>, lastDetectedTimes: map<string, real>)

  /** Both dictionaries start empty. */
  const Initial := State(map[], map[])

  /** The text a box decodes to when the decoder returned fewer strings than boxes. */
  const Unknown := "Unknown"

  /** Every code with a timestamp also has a clock reading, and conversely. */
  predicate KeysAgree(s: State) {
    s.detectedCodes.Keys == s.lastDetectedTimes.Keys
  }

  /** `last_detected_times.get(text, 0)` */
  function LastTime(s: State, text: string): (r: real)
    ensures Entry(s, text).1.Some? ==> r == Entry(s, text).1.value
    ensures Entry(s, text).1.None? ==> r == 0.0
  {
    if text in s.lastDetectedTimes then s.lastDetectedTimes[text] else 0.0
  }

  /** Everything the state holds about one code. */
  function Entry(s: State, c: string): (Option<string>, Option<real>) {
    (if c in s.detectedCodes then Some(s.detectedCodes[c]) else None,
     if c in s.lastDetectedTimes then Some(s.lastDetectedTimes[c]) else None)
  }

  /** The state after one decoded text, and whether that text was accepted. */
  datatype Outcome = Outcome(state: State, accepted: bool)

  /**
    One decoded text seen at clock reading `now`, with `stamp` the formatted time of that
    moment. Acceptance needs a non-empty text and a gap strictly greater than `gap`; an
    accepted code gets both entries set, a rejected one changes nothing, and no other code's
    entries change either way.
  */
  function Step(s: State, text: string, now: real, stamp: string, gap: real): (r: Outcome)
    ensures r.accepted <==> text != "" && now - LastTime(s, text) > gap
    ensures r.accepted ==> Entry(r.state, text) == (Some(stamp), Some(now))
    ensures !r.accepted ==> r.state == s
    ensures forall c :: c != text ==> Entry(r.state, c) == Entry(s, c)
    ensures KeysAgree(s) ==> KeysAgree(r.state)
  {
    if text != "" && now - LastTime(s, text) > gap then
      Outcome(State(s.detectedCodes[text := stamp], s.lastDetectedTimes[text := now]), true)
    else
      Outcome(s, false)
  }

  /**
    The text of box `i`: the decoder's string at that index, or "Unknown" past the end of
    the decoder's list. "Unknown" is not empty, so it is deduplicated like any code.
  */
  function TextAt(decodedInfo: seq<string>, i: nat): (r: string)
    ensures i < |decodedInfo| ==> r == decodedInfo[i]
    ensures |decodedInfo| <= i ==> r == Unknown && r != ""
  {
    if i < |decodedInfo| then decodedInfo[i] else Unknown
  }

  /** An accepted scan: the box index, the decoded text and its formatted timestamp. */
  datatype Acceptance = Acceptance(index: nat, text: string, timestamp: string)

  /** The state after a frame and the scans it accepted, in box order. */
  datatype FrameResult = FrameResult(state: State, accepted: seq<Acceptance>)

  /**
    Boxes 0 .. n-1 of one frame taken in index order, all at the same clock reading `now`;
    `stampAt(i)` is the formatted time read when box i is accepted. Every acceptance names
    a box below n, carries that box's non-empty text and timestamp, and they come in
    increasing box order.
  */
  function Boxes(s: State, decodedInfo: seq<string>, n: nat, now: real, stampAt: nat -> string, gap: real): (r: FrameResult)
    ensures forall k :: 0 <= k < |r.accepted| ==>
      && r.accepted[k].index < n
      && r.accepted[k].text == TextAt(decodedInfo, r.accepted[k].index)
      && r.accepted[k].text != ""
      && r.accepted[k].timestamp == stampAt(r.accepted[k].index)
    ensures forall j, k :: 0 <= j < k < |r.accepted| ==> r.accepted[j].index < r.accepted[k].index
    decreases n
  {
    if n == 0 then FrameResult(s, [])
    else
      var prev := Boxes(s, decodedInfo, n - 1, now, stampAt, gap);
      var text := TextAt(decodedInfo, n - 1);
      var o := Step(prev.state, text, now, stampAt(n - 1), gap);
      FrameResult(o.state,
                  if o.accepted then prev.accepted + [Acceptance(n - 1, text, stampAt(n - 1))]
                  else prev.accepted)
  }

  /** One more box: the frame so far extended by box i's step. */
  lemma BoxesExtend(s: State, decodedInfo: seq<string>, i: nat, now: real, stampAt: nat -> string, gap: real,
                    before: State, detected: seq<Acceptance>, after: State, accepted: bool)
    requires FrameResult(before, detected) == Boxes(s, decodedInfo, i, now, stampAt, gap)
    requires Outcome(after, accepted) == Step(before, TextAt(decodedInfo, i), now, stampAt(i), gap)
    ensures FrameResult(after, if accepted then detected + [Acceptance(i, TextAt(decodedInfo, i), stampAt(i))] else detected)
      == Boxes(s, decodedInfo, i + 1, now, stampAt, gap)
  {
  }

  /** Whether box i is accepted: its step from the state left by boxes 0 .. i-1. */
  function AcceptedAt(s: State, decodedInfo: seq<string>, i: nat, now: real, stampAt: nat -> string, gap: real): bool {
    Step(Boxes(s, decodedInfo, i, now, stampAt, gap).state, TextAt(decodedInfo, i), now, stampAt(i), gap).accepted
  }

  /**
    One frame: `points` is the number of boxes found, None when nothing was detected.
    A frame with no boxes or no decoded strings leaves the state unchanged and accepts nothing.
  */
  function ReadFrame(s: State, decodedInfo: seq<string>, points: Option<nat>, now: real, stampAt: nat -> string, gap: real): (r: FrameResult)
    ensures points.None? || decodedInfo == [] ==> r == FrameResult(s, [])
    ensures KeysAgree(s) ==> KeysAgree(r.state)
  {
    if points.Some? && decodedInfo != [] then
      BoxesKeepKeysAgree(s, decodedInfo, points.value, now, stampAt, gap);
      Boxes(s, decodedInfo, points.value, now, stampAt, gap)
    else
      FrameResult(s, [])
  }

  /** Processing a frame keeps the two dictionaries' key sets equal. */
  lemma {:induction false} BoxesKeepKeysAgree(s: State, decodedInfo: seq<string>, n: nat, now: real, stampAt: nat -> string, gap: real)
    ensures KeysAgree(s) ==> KeysAgree(Boxes(s, decodedInfo, n, now, stampAt, gap).state)
    decreases n
  {
    if n > 0 {
      BoxesKeepKeysAgree(s, decodedInfo, n - 1, now, stampAt, gap);
    }
  }

  /** A code that no box of the frame decodes to keeps both of its entries. */
  lemma {:induction false} BoxesUntouched(s: State, decodedInfo: seq<string>, n: nat, now: real, stampAt: nat -> string, gap: real, c: string)
    requires forall j :: 0 <= j < n ==> TextAt(decodedInfo, j) != c
    ensures Entry(Boxes(s, decodedInfo, n, now, stampAt, gap).state, c) == Entry(s, c)
    decreases n
  {
    if n > 0 {
      BoxesUntouched(s, decodedInfo, n - 1, now, stampAt, gap, c);
    }
  }

  /** Every code accepted in a frame ends the frame with `now` as its last time. */
  lemma {:induction false} BoxesAcceptedNow(s: State, decodedInfo: seq<string>, n: nat, now: real, stampAt: nat -> string, gap: real)
    ensures AcceptedAreNow(Boxes(s, decodedInfo, n, now, stampAt, gap), now)
    decreases n
  {
    if n > 0 {
      BoxesAcceptedNow(s, decodedInfo, n - 1, now, stampAt, gap);
      var prev := Boxes(s, decodedInfo, n - 1, now, stampAt, gap);
      var o := Step(prev.state, TextAt(decodedInfo, n - 1), now, stampAt(n - 1), gap);
      forall k | 0 <= k < |prev.accepted|
        ensures Entry(o.state, prev.accepted[k].text).1 == Some(now)
      {
        var c := prev.accepted[k].text;
        assert Entry(prev.state, c).1 == Some(now);
        if c != TextAt(decodedInfo, n - 1) {
          assert Entry(o.state, c) == Entry(prev.state, c);
        }
      }
    }
  }

  /** Every code a frame accepted is recorded with that frame's clock reading. */
  predicate AcceptedAreNow(r: FrameResult, now: real) {
    forall k :: 0 <= k < |r.accepted| ==> Entry(r.state, r.accepted[k].text).1 == Some(now)
  }

  /**
    With a non-negative gap, every code accepted in a frame ends the frame holding the
    timestamp of its own acceptance and the frame's clock reading.
  */
  lemma {:induction false} BoxesAcceptedRecorded(s: State, decodedInfo: seq<string>, n: nat, now: real, stampAt: nat -> string, gap: real)
    requires gap >= 0.0
    ensures AcceptedAreRecorded(Boxes(s, decodedInfo, n, now, stampAt, gap), now)
    decreases n
  {
    if n > 0 {
      BoxesAcceptedRecorded(s, decodedInfo, n - 1, now, stampAt, gap);
      BoxesAcceptedNow(s, decodedInfo, n - 1, now, stampAt, gap);
      var prev := Boxes(s, decodedInfo, n - 1, now, stampAt, gap);
      var text := TextAt(decodedInfo, n - 1);
      var o := Step(prev.state, text, now, stampAt(n - 1), gap);
      if o.accepted {
        forall k | 0 <= k < |prev.accepted|
          ensures Entry(o.state, prev.accepted[k].text) == (Some(prev.accepted[k].timestamp), Some(now))
        {
          var c := prev.accepted[k].text;
          assert Entry(prev.state, c).1 == Some(now);
          assert c != text;
        }
      }
    }
  }

  /** Every code a frame accepted holds its acceptance's timestamp and the frame's clock reading. */
  predicate AcceptedAreRecorded(r: FrameResult, now: real) {
    forall k :: 0 <= k < |r.accepted| ==>
      Entry(r.state, r.accepted[k].text) == (Some(r.accepted[k].timestamp), Some(now))
  }

  /**
    The frame's list of acceptances is exactly the boxes whose step accepted: box i (below n)
    is listed iff its step from the state left by boxes 0 .. i-1 accepts it.
  */
  lemma {:induction false} BoxesAcceptedExactly(s: State, decodedInfo: seq<string>, n: nat, now: real, stampAt: nat -> string, gap: real, i: nat)
    requires i < n
    ensures AcceptedAt(s, decodedInfo, i, now, stampAt, gap) <==> Listed(Boxes(s, decodedInfo, n, now, stampAt, gap).accepted, i)
    decreases n
  {
    var prev := Boxes(s, decodedInfo, n - 1, now, stampAt, gap);
    var text := TextAt(decodedInfo, n - 1);
    var o := Step(prev.state, text, now, stampAt(n - 1), gap);
    var acc := Boxes(s, decodedInfo, n, now, stampAt, gap).accepted;
    assert acc == if o.accepted then prev.accepted + [Acceptance(n - 1, text, stampAt(n - 1))] else prev.accepted;
    if o.accepted {
      ListedAppend(prev.accepted, Acceptance(n - 1, text, stampAt(n - 1)), i);
    }
    if i == n - 1 {
      ListedBelow(prev.accepted, n - 1);
    } else {
      BoxesAcceptedExactly(s, decodedInfo, n - 1, now, stampAt, gap, i);
    }
  }

  /** Box i has an entry in the list of acceptances. */
  predicate Listed(acc: seq<Acceptance>, i: nat) {
    exists k :: 0 <= k < |acc| && acc[k].index == i
  }

  /** Appending an acceptance lists its box and keeps every other box's listing. */
  lemma ListedAppend(acc: seq<Acceptance>, a: Acceptance, i: nat)
    ensures Listed(acc + [a], i) <==> Listed(acc, i) || a.index == i
  {
    if Listed(acc, i) {
      var k :| 0 <= k < |acc| && acc[k].index == i;
      assert (acc + [a])[k] == acc[k];
    }
    if a.index == i {
      assert (acc + [a])[|acc|] == a;
    }
  }

  /** A box at or above every listed index is not listed. */
  lemma ListedBelow(acc: seq<Acceptance>, m: nat)
    requires forall k :: 0 <= k < |acc| ==> acc[k].index < m
    ensures !Listed(acc, m)
  {
  }

  /** With a non-negative gap, no code is accepted twice in one frame. */
  lemma {:induction false} BoxesAcceptOncePerCode(s: State, decodedInfo: seq<string>, n: nat, now: real, stampAt: nat -> string, gap: real)
    requires gap >= 0.0
    ensures DistinctTexts(Boxes(s, decodedInfo, n, now, stampAt, gap).accepted)
    decreases n
  {
    if n > 0 {
      BoxesAcceptOncePerCode(s, decodedInfo, n - 1, now, stampAt, gap);
      BoxesAcceptedNow(s, decodedInfo, n - 1, now, stampAt, gap);
      var prev := Boxes(s, decodedInfo, n - 1, now, stampAt, gap);
      var text := TextAt(decodedInfo, n - 1);
      var o := Step(prev.state, text, now, stampAt(n - 1), gap);
      if o.accepted {
        forall j | 0 <= j < |prev.accepted| ensures prev.accepted[j].text != text {
          assert Entry(prev.state, prev.accepted[j].text).1 == Some(now);
        }
        var acc := prev.accepted + [Acceptance(n - 1, text, stampAt(n - 1))];
        forall j, k | 0 <= j < k < |acc| ensures acc[j].text != acc[k].text {
          if k == |prev.accepted| {
            assert acc[j] == prev.accepted[j];
          } else {
            assert acc[j] == prev.accepted[j] && acc[k] == prev.accepted[k];
          }
        }
      }
    }
  }

  /** No two acceptances carry the same code. */
  predicate DistinctTexts(acc: seq<Acceptance>) {
    forall j, k :: 0 <= j < k < |acc| ==> acc[j].text != acc[k].text
  }

  /**
    Once box j has decoded code c, the rest of the frame finds c inside its cooldown:
    either box j accepted it at `now`, or it was already too recent before the frame.
  */
  lemma {:induction false} BoxesCooled(s: State, decodedInfo: seq<string>, j: nat, m: nat, now: real, stampAt: nat -> string, gap: real)
    requires gap >= 0.0
    requires j < m
    requires TextAt(decodedInfo, j) != ""
    ensures now - LastTime(Boxes(s, decodedInfo, m, now, stampAt, gap).state, TextAt(decodedInfo, j)) <= gap
    decreases m
  {
    if m - 1 > j {
      BoxesCooled(s, decodedInfo, j, m - 1, now, stampAt, gap);
    }
  }

  /** With a non-negative gap, a box repeating an earlier box's code is never accepted. */
  lemma RepeatNeverAccepted(s: State, decodedInfo: seq<string>, j: nat, i: nat, now: real, stampAt: nat -> string, gap: real)
    requires gap >= 0.0
    requires j < i
    requires TextAt(decodedInfo, j) == TextAt(decodedInfo, i)
    ensures !AcceptedAt(s, decodedInfo, i, now, stampAt, gap)
  {
    if TextAt(decodedInfo, i) != "" {
      BoxesCooled(s, decodedInfo, j, i, now, stampAt, gap);
    }
  }

  /**
    Distinct codes never block each other: the first box of a frame carrying code c is
    accepted exactly when c is non-empty and its own last time, from before the frame,
    lies strictly more than `gap` in the past, whatever the other boxes hold.
  */
  lemma FirstOccurrenceIndependent(s: State, decodedInfo: seq<string>, i: nat, now: real, stampAt: nat -> string, gap: real)
    requires forall j :: 0 <= j < i ==> TextAt(decodedInfo, j) != TextAt(decodedInfo, i)
    ensures AcceptedAt(s, decodedInfo, i, now, stampAt, gap)
      <==> TextAt(decodedInfo, i) != "" && now - LastTime(s, TextAt(decodedInfo, i)) > gap
  {
    BoxesUntouched(s, decodedInfo, i, now, stampAt, gap, TextAt(decodedInfo, i));
  }

  /**
    Boxes past the end of the decoder's list read as "Unknown" and go through the same
    cooldown: the first of them is accepted exactly when "Unknown" is due (if no decoded
    string is itself "Unknown"), and with a non-negative gap no later one is accepted.
  */
  lemma UnknownPadding(s: State, decodedInfo: seq<string>, i: nat, now: real, stampAt: nat -> string, gap: real)
    requires |decodedInfo| <= i
    ensures TextAt(decodedInfo, i) == Unknown
    ensures (forall j :: 0 <= j < |decodedInfo| ==> decodedInfo[j] != Unknown) && i == |decodedInfo| ==>
      (AcceptedAt(s, decodedInfo, i, now, stampAt, gap) <==> now - LastTime(s, Unknown) > gap)
    ensures gap >= 0.0 && |decodedInfo| < i ==> !AcceptedAt(s, decodedInfo, i, now, stampAt, gap)
  {
    if (forall j :: 0 <= j < |decodedInfo| ==> decodedInfo[j] != Unknown) && i == |decodedInfo| {
      FirstOccurrenceIndependent(s, decodedInfo, i, now, stampAt, gap);
    }
    if gap >= 0.0 && |decodedInfo| < i {
      RepeatNeverAccepted(s, decodedInfo, |decodedInfo|, i, now, stampAt, gap);
    }
  }

  /** Across frames: after c is accepted at t1, c is rejected at any t2 with t2 - t1 <= gap. */
  lemma CooldownBlocks(s: State, c: string, t1: real, stamp1: string, t2: real, stamp2: string, gap: real)
    requires Step(s, c, t1, stamp1, gap).accepted
    requires t2 - t1 <= gap
    ensures !Step(Step(s, c, t1, stamp1, gap).state, c, t2, stamp2, gap).accepted
  {
  }

  /** Across frames: after c is accepted at t1, c is accepted again at any t2 with t2 - t1 > gap. */
  lemma CooldownExpires(s: State, c: string, t1: real, stamp1: string, t2: real, stamp2: string, gap: real)
    requires Step(s, c, t1, stamp1, gap).accepted
    requires t2 - t1 > gap
    ensures Step(Step(s, c, t1, stamp1, gap).state, c, t2, stamp2, gap).accepted
  {
  }

  /**
    With a 5 second gap on a fresh recorder, where the default last time is 0: "ABC123" is
    rejected at t=0 and at t=5 (the gap must be exceeded), accepted at t=6, rejected at t=9,
    accepted again at t=12; "XYZ789" at t=6 is accepted regardless of "ABC123".
  */
  lemma ScenarioFromEpoch()
    ensures !Step(Initial, "ABC123", 0.0, "t0", 5.0).accepted
    ensures !Step(Initial, "ABC123", 5.0, "t5", 5.0).accepted
    ensures var s6 := Step(Initial, "ABC123", 6.0, "t6", 5.0);
      && s6.accepted
      && !Step(s6.state, "ABC123", 9.0, "t9", 5.0).accepted
      && Step(s6.state, "ABC123", 12.0, "t12", 5.0).accepted
      && Step(s6.state, "XYZ789", 6.0, "t6", 5.0).accepted
  {
  }

  /**
    The two dictionaries, mutated in place by each script's frame loop. `Valid` is the
    invariant that their key sets agree.
  */
  class Recorder {
    var detectedCodes: map<string, string>
    var lastDetectedTimes: map<string, real>

    ghost predicate Valid()
      reads this
    {
      KeysAgree(Current())
    }

    /** The dictionaries as a value. */
    function Current(): State
      reads this
    {
      State(detectedCodes, lastDetectedTimes)
    }

    constructor ()
      ensures Valid() && Current() == Initial
    {
      detectedCodes := map[];
      lastDetectedTimes := map[];
    }

    /** The body of every script's loop for one decoded text. */
    method Observe(text: string, now: real, stamp: string, gap: real) returns (accepted: bool)
      requires Valid()
      modifies this
      ensures Valid()
      ensures Outcome(Current(), accepted) == Step(old(Current()), text, now, stamp, gap)
    {
      accepted := false;
      if text != "" {
        var lastTime := if text in lastDetectedTimes then lastDetectedTimes[text] else 0.0;
        if now - lastTime > gap {
          detectedCodes := detectedCodes[text := stamp];
          lastDetectedTimes := lastDetectedTimes[text := now];
          accepted := true;
        }
      }
    }
  }
}
