/**
  The dashboard's camera selector: probing camera indices 0 .. 9, labelling each one that
  delivers a frame as "Camera <index>", and reading the index back out of the selected label.
*/
module Cameras {
  import opened Wrappers

  /** How many camera indices are probed. */
  const CameraSlots: nat := 10

  /** The only entry of the list when no camera delivers a frame. */
  const NoCameraFound := "No camera found"

  predicate IsDigit(c: char) {
    '0' <= c <= '9'
  }

  predicate AllDigits(s: string) {
    forall i :: 0 <= i < |s| ==> IsDigit(s[i])
  }

  /** The characters a string's argument-less split treats as separators. */
  predicate IsSpace(c: char) {
    var n := c as int;
    (9 <= n <= 13) || (28 <= n <= 32) || n == 0x85 || n == 0xA0 || n == 0x1680
    || (0x2000 <= n <= 0x200A) || n == 0x2028 || n == 0x2029 || n == 0x202F || n == 0x205F || n == 0x3000
  }

  function DigitChar(d: nat): (c: char)
    requires d < 10
    ensures IsDigit(c) && c as int - '0' as int == d
  {
    (48 + d) as char
  }

  /** The decimal text of a natural number, as `str` writes it. */
  function NatToString(n: nat): (s: string)
    ensures |s| >= 1 && AllDigits(s)
    decreases n
  {
    if n < 10 then [DigitChar(n)] else NatToString(n / 10) + [DigitChar(n % 10)]
  }

  /** The value of a string of decimal digits. */
  function DigitsValue(s: string): nat
    requires AllDigits(s)
  {
    if s == [] then 0 else DigitsValue(s[..|s| - 1]) * 10 + (s[|s| - 1] as int - '0' as int)
  }

  /** Reading back the decimal text of n gives n. */
  lemma {:induction false} DecimalRoundTrip(n: nat)
    ensures DigitsValue(NatToString(n)) == n
    decreases n
  {
    if n >= 10 {
      DecimalRoundTrip(n / 10);
      var s := NatToString(n);
      assert s[..|s| - 1] == NatToString(n / 10);
    }
  }

  /** `int` of a word: an optional sign followed by at least one decimal digit; anything else is a ValueError. */
  function ParseInt(w: string): Option<int> {
    if |w| >= 2 && (w[0] == '-' || w[0] == '+') && AllDigits(w[1..]) then
      Some(if w[0] == '-' then 0 - DigitsValue(w[1..]) else DigitsValue(w[1..]))
    else if w != [] && AllDigits(w) then Some(DigitsValue(w))
    else None
  }

  /** Whether `w` occurs in `s` as a contiguous substring (Python's `in` on strings). */
  function Contains(s: string, w: string): bool
    decreases |s|
  {
    |w| <= |s| && (s[..|w|] == w || (s != [] && Contains(s[1..], w)))
  }

  /** The maximal run of non-space characters at the very end of `s`. */
  function TrailingRun(s: string): string {
    if s == [] || IsSpace(s[|s| - 1]) then [] else TrailingRun(s[..|s| - 1]) + [s[|s| - 1]]
  }

  /** The last element of `s.split()`: trailing separators are dropped, then the final run is taken. */
  function LastWord(s: string): string {
    if s == [] then []
    else if IsSpace(s[|s| - 1]) then LastWord(s[..|s| - 1])
    else TrailingRun(s)
  }

  /** The label shown for camera index i: "Camera ", then the decimal digits whose value is i. */
  function CameraLabel(i: nat): (r: string)
    ensures |r| > 7 && r[..7] == "Camera "
    ensures AllDigits(r[7..]) && DigitsValue(r[7..]) == i
  {
    DecimalRoundTrip(i);
    assert ("Camera " + NatToString(i))[7..] == NatToString(i);
    "Camera " + NatToString(i)
  }

  /** What the selector yields: no index, an index, or the ValueError `int` raises. */
  datatype Selection = NoIndex | CameraIndex(index: int) | ParseError

  /** The selected label's camera index: the integer value of its last word if it mentions "Camera", else none. */
  function CameraIndexOf(selected: string): (r: Selection)
    ensures r == NoIndex <==> !Contains(selected, "Camera")
    ensures r == ParseError <==> Contains(selected, "Camera") && ParseInt(LastWord(selected)) == None
    ensures r.CameraIndex? ==> ParseInt(LastWord(selected)) == Some(r.index)
  {
    if Contains(selected, "Camera") then
      match ParseInt(LastWord(selected))
      case Some(i) => CameraIndex(i)
      case None => ParseError
    else NoIndex
  }

  /** A word of digits after a separator is the last word. */
  lemma {:induction false} TrailingRunOfWord(p: string, d: string)
    requires AllDigits(d)
    ensures TrailingRun(p + " " + d) == d
    decreases |d|
  {
    var s := p + " " + d;
    if d == [] {
      assert s[|s| - 1] == ' ';
    } else {
      assert s[..|s| - 1] == p + " " + d[..|d| - 1];
      TrailingRunOfWord(p, d[..|d| - 1]);
      assert d == d[..|d| - 1] + [d[|d| - 1]];
    }
  }

  /** Parsing the label of camera i gives back i. */
  lemma LabelRoundTrip(i: nat)
    ensures CameraIndexOf(CameraLabel(i)) == CameraIndex(i)
  {
    var shown := CameraLabel(i);
    var digits := shown[7..];
    assert shown == "Camera" + " " + digits;
    assert Contains(shown, "Camera") by { assert shown[..6] == "Camera"; }
    TrailingRunOfWord("Camera", digits);
    assert LastWord(shown) == digits;
  }

  /** A string without the first character of `w` does not contain `w`. */
  lemma {:induction false} MissingFirstChar(s: string, w: string)
    requires w != []
    requires forall i :: 0 <= i < |s| ==> s[i] != w[0]
    ensures !Contains(s, w)
    decreases |s|
  {
    if |w| <= |s| {
      assert s[..|w|][0] != w[0];
      if s != [] {
        MissingFirstChar(s[1..], w);
      }
    }
  }

  /** "No camera found" has a lower-case "camera", so it selects no index. */
  lemma NoCameraHasNoIndex()
    ensures CameraIndexOf(NoCameraFound) == NoIndex
  {
    MissingFirstChar(NoCameraFound, "Camera");
  }

  /** The labels of the cameras among indices 0 .. n-1 that deliver a frame, in index order. */
  function Probed(opens: nat -> bool, n: nat): (r: seq<string>)
    ensures |r| <= n
    ensures forall k :: 0 <= k < |r| ==> |r[k]| > 7 && r[k][..7] == "Camera "
    decreases n
  {
    if n == 0 then []
    else Probed(opens, n - 1) + (if opens(n - 1) then [CameraLabel(n - 1)] else [])
  }

  /** Each entry of the probed list is the label of a working index below n, and parses back to it. */
  lemma {:induction false} ProbedSound(opens: nat -> bool, n: nat)
    ensures forall k :: 0 <= k < |Probed(opens, n)| ==> LabelOfWorking(opens, n, Probed(opens, n)[k])
    decreases n
  {
    if n > 0 {
      ProbedSound(opens, n - 1);
      var prev := Probed(opens, n - 1);
      var p := Probed(opens, n);
      forall k | 0 <= k < |p| ensures LabelOfWorking(opens, n, p[k]) {
        if k < |prev| {
          assert p[k] == prev[k];
          LabelOfWorkingWider(opens, n - 1, n, prev[k]);
        } else {
          assert opens(n - 1) && p[k] == CameraLabel(n - 1);
          WorkingLabel(opens, n - 1);
        }
      }
    }
  }

  /** Label a names a smaller camera index than label b; both parse to an index. */
  predicate LabelsBefore(a: string, b: string) {
    var sa, sb := CameraIndexOf(a), CameraIndexOf(b);
    sa.CameraIndex? && sb.CameraIndex? && sa.index < sb.index
  }

  /** The labels name strictly increasing camera indices, so no index is listed twice. */
  predicate IndicesIncrease(labels: seq<string>) {
    forall j, k :: 0 <= j < k < |labels| ==> LabelsBefore(labels[j], labels[k])
  }

  /** Probing walks the indices upwards, so the probed labels name strictly increasing indices. */
  lemma {:induction false} ProbedIncreasing(opens: nat -> bool, n: nat)
    ensures IndicesIncrease(Probed(opens, n))
    decreases n
  {
    if n > 0 {
      ProbedIncreasing(opens, n - 1);
      var prev := Probed(opens, n - 1);
      var p := Probed(opens, n);
      if opens(n - 1) {
        ProbedSound(opens, n - 1);
        LabelRoundTrip(n - 1);
        forall j, k | 0 <= j < k < |p| ensures LabelsBefore(p[j], p[k]) {
          assert p[j] == prev[j];
          if k < |prev| {
            assert p[k] == prev[k];
          } else {
            assert p[k] == CameraLabel(n - 1);
            assert LabelOfWorking(opens, n - 1, prev[j]);
          }
        }
      } else {
        assert p == prev;
      }
    }
  }

  /** The label of a working camera i is a working label below i + 1. */
  lemma WorkingLabel(opens: nat -> bool, i: nat)
    requires opens(i)
    ensures LabelOfWorking(opens, i + 1, CameraLabel(i))
  {
    LabelRoundTrip(i);
  }

  /** A working label below m is a working label below any larger bound. */
  lemma LabelOfWorkingWider(opens: nat -> bool, m: nat, n: nat, name: string)
    requires m <= n && LabelOfWorking(opens, m, name)
    ensures LabelOfWorking(opens, n, name)
  {
  }

  /** Every working index below n has its label in the probed list. */
  lemma {:induction false} ProbedComplete(opens: nat -> bool, n: nat)
    ensures forall i :: 0 <= i < n && opens(i) ==> CameraLabel(i) in Probed(opens, n)
    decreases n
  {
    if n > 0 {
      ProbedComplete(opens, n - 1);
      var prev := Probed(opens, n - 1);
      var p := Probed(opens, n);
      forall i | 0 <= i < n && opens(i) ensures CameraLabel(i) in p {
        if i < n - 1 {
          assert CameraLabel(i) in prev;
        } else {
          assert p[|p| - 1] == CameraLabel(i);
        }
      }
    }
  }

  /** The probed list is empty exactly when no index below n works. */
  lemma {:induction false} ProbedEmpty(opens: nat -> bool, n: nat)
    ensures Probed(opens, n) == [] <==> forall i :: 0 <= i < n ==> !opens(i)
    decreases n
  {
    if n > 0 {
      ProbedEmpty(opens, n - 1);
    }
  }

  /** `name` is the label of a working camera index below n, and parses back to that index. */
  predicate LabelOfWorking(opens: nat -> bool, n: nat, name: string) {
    var sel := CameraIndexOf(name);
    sel.CameraIndex? && 0 <= sel.index < n && opens(sel.index) && name == CameraLabel(sel.index)
  }

  /**
    Probe indices 0 .. 9 (`opens(i)` says whether camera i delivers a frame) and list the
    labels of those that do, or the single entry "No camera found".
  */
  method GetAvailableCameras(opens: nat -> bool) returns (cameraList: seq<string>)
    ensures cameraList != []
    ensures cameraList == [NoCameraFound] <==> forall i :: 0 <= i < CameraSlots ==> !opens(i)
    ensures cameraList != [NoCameraFound] ==> forall k :: 0 <= k < |cameraList| ==> LabelOfWorking(opens, CameraSlots, cameraList[k])
    ensures forall i :: 0 <= i < CameraSlots && opens(i) ==> CameraLabel(i) in cameraList
    ensures cameraList != [NoCameraFound] ==> IndicesIncrease(cameraList)
  {
    cameraList := [];
    var index := 0;
    while index < CameraSlots
      invariant 0 <= index <= CameraSlots
      invariant cameraList == Probed(opens, index)
    {
      if opens(index) {
        cameraList := cameraList + [CameraLabel(index)];
      }
      index := index + 1;
    }
    if cameraList == [] {
      cameraList := [NoCameraFound];
    }
    CameraListFacts(opens, cameraList);
  }

  /** The facts about the probed list, or its placeholder, that `GetAvailableCameras` promises. */
  lemma CameraListFacts(opens: nat -> bool, cameraList: seq<string>)
    requires cameraList == if Probed(opens, CameraSlots) == [] then [NoCameraFound] else Probed(opens, CameraSlots)
    ensures cameraList != []
    ensures cameraList == [NoCameraFound] <==> forall i :: 0 <= i < CameraSlots ==> !opens(i)
    ensures cameraList != [NoCameraFound] ==> forall k :: 0 <= k < |cameraList| ==> LabelOfWorking(opens, CameraSlots, cameraList[k])
    ensures forall i :: 0 <= i < CameraSlots && opens(i) ==> CameraLabel(i) in cameraList
    ensures cameraList != [NoCameraFound] ==> IndicesIncrease(cameraList)
  {
    ProbedIncreasing(opens, CameraSlots);
    ProbedSound(opens, CameraSlots);
    ProbedComplete(opens, CameraSlots);
    ProbedEmpty(opens, CameraSlots);
    var p := Probed(opens, CameraSlots);
    if p != [] {
      assert LabelOfWorking(opens, CameraSlots, p[0]);
      assert p[0] != NoCameraFound by { NoCameraHasNoIndex(); }
    }
  }
}
