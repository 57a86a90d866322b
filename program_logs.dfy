/**
 * What the error parsers read from a failed transaction: the error's
 * `logs` and `message`, the first log line holding a marker
 * (`Array.prototype.find` with `includes`), and the number a regular
 * expression `<marker>(<digits>+)` captures from that line.
 */
module ProgramLogs {
  import opened Wrappers
  import opened Text

  /** A thrown transaction error: `err.logs` and `err.message`, each possibly absent. */
  datatype TxError = TxError(logs: Option<seq<string>>, message: Option<string>)

  /** The index of the first line containing the marker. */
  function FirstContaining(lines: seq<string>, marker: string): (r: Option<nat>)
    ensures r.Some? ==> r.value < |lines| && Contains(lines[r.value], marker)
    ensures r.Some? ==> forall j :: 0 <= j < r.value ==> !Contains(lines[j], marker)
    ensures r.None? ==> forall j :: 0 <= j < |lines| ==> !Contains(lines[j], marker)
  {
    if lines == [] then None
    else if Contains(lines[0], marker) then Some(0)
    else match FirstContaining(lines[1..], marker)
      case None => None
      case Some(k) => Some(k + 1)
  }

  /** `logs?.find(l => l.includes(marker))`. */
  function FindLine(logs: Option<seq<string>>, marker: string): (r: Option<string>)
    ensures r.Some? <==> logs.Some? && exists j :: 0 <= j < |logs.value| && Contains(logs.value[j], marker)
    ensures r.Some? ==> Contains(r.value, marker)
  {
    match logs
    case None => None
    case Some(lines) =>
      match FirstContaining(lines, marker)
      case None => None
      case Some(k) => Some(lines[k])
  }

  /** Whether a match of `<marker>(<digits>+)` starts at position k of the line. */
  predicate MatchesAt(line: string, k: nat, marker: string, radix: Radix)
  {
    k <= |line| && StartsWith(line[k..], marker) && k + |marker| < |line| && IsDigit(radix, line[k + |marker|])
  }

  /**
   * `line.match(/<marker>(<digits>+)/)?.[1]`: the greedy run of digits after
   * the leftmost occurrence of the marker that is followed by a digit.
   */
  function Capture(line: string, marker: string, radix: Radix): (r: Option<string>)
    ensures r.Some? ==> r.value != [] && AllDigits(radix, r.value) && Contains(line, marker + r.value)
    ensures !Contains(line, marker) ==> r.None?
    decreases |line|
  {
    if MatchesAt(line, 0, marker, radix) then
      var run := DigitRun(radix, line[|marker|..]);
      assert line[..|marker| + |run|] == marker + run;
      Some(run)
    else if line == [] then None
    else Capture(line[1..], marker, radix)
  }

  /** Where the marker and its digits start the line, the capture is exactly those digits. */
  lemma CaptureAtStart(marker: string, digits: string, rest: string, radix: Radix)
    requires digits != [] && AllDigits(radix, digits)
    requires rest == [] || !IsDigit(radix, rest[0])
    ensures Capture(marker + digits + rest, marker, radix) == Some(digits)
  {
    var line := marker + digits + rest;
    assert line[..|marker|] == marker;
    assert line[|marker|..] == digits + rest;
    DigitRunOfRun(radix, digits, rest);
  }

  lemma {:induction false} DigitRunOfRun(radix: Radix, digits: string, rest: string)
    requires AllDigits(radix, digits)
    requires rest == [] || !IsDigit(radix, rest[0])
    ensures DigitRun(radix, digits + rest) == digits
  {
    if digits != [] {
      DigitRunOfRun(radix, digits[1..], rest);
      assert (digits + rest)[1..] == digits[1..] + rest;
      assert [digits[0]] + digits[1..] == digits;
    }
  }

  /** Text before the first possible match does not change what is captured. */
  lemma {:induction false} CaptureSkipsPrefix(pre: string, rest: string, marker: string, radix: Radix)
    requires forall k :: 0 <= k < |pre| ==> !MatchesAt(pre + rest, k, marker, radix)
    ensures Capture(pre + rest, marker, radix) == Capture(rest, marker, radix)
    decreases |pre|
  {
    if pre != [] {
      var line := pre + rest;
      assert !MatchesAt(line, 0, marker, radix);
      assert line[1..] == pre[1..] + rest;
      forall k | 0 <= k < |pre| - 1 ensures !MatchesAt(pre[1..] + rest, k, marker, radix) {
        assert !MatchesAt(line, k + 1, marker, radix);
        assert line[k + 1..] == (pre[1..] + rest)[k..];
      }
      CaptureSkipsPrefix(pre[1..], rest, marker, radix);
    }
  }

  /** The first line holding the marker is the one found, whatever lines follow it. */
  lemma FindFirstLine(earlier: seq<string>, line: string, later: seq<string>, marker: string)
    requires forall j :: 0 <= j < |earlier| ==> !Contains(earlier[j], marker)
    requires Contains(line, marker)
    ensures FindLine(Some(earlier + [line] + later), marker) == Some(line)
  {
    var lines := earlier + [line] + later;
    assert lines[|earlier|] == line;
    assert forall j :: 0 <= j < |earlier| ==> lines[j] == earlier[j];
  }

  /**
   * A marker whose first character does not recur in it cannot start a
   * match inside text that does not hold it, even one running into the marker.
   */
  lemma NoMatchBefore(pre: string, marker: string, tail: string, radix: Radix)
    requires marker != []
    requires forall i :: 0 < i < |marker| ==> marker[i] != marker[0]
    requires !Contains(pre, marker)
    ensures forall k :: 0 <= k < |pre| ==> !MatchesAt(pre + marker + tail, k, marker, radix)
  {
    var line := pre + marker + tail;
    var m := |marker|;
    forall k | 0 <= k < |pre| ensures !MatchesAt(line, k, marker, radix) {
      assert line[k..][..m] == line[k..k + m];
      if k + m <= |pre| {
        assert line[k..k + m] == pre[k..k + m];
        ContainsAt(pre, k, marker);
      } else {
        assert line[k..k + m][|pre| - k] == line[|pre|] == marker[0];
      }
    }
  }

  /**
   * In `<pre><marker><digits><rest>`, with no match of the marker before it,
   * the capture is exactly the digits.
   */
  lemma CaptureInLine(pre: string, marker: string, digits: string, rest: string, radix: Radix)
    requires marker != []
    requires forall i :: 0 < i < |marker| ==> marker[i] != marker[0]
    requires !Contains(pre, marker)
    requires digits != [] && AllDigits(radix, digits)
    requires rest == [] || !IsDigit(radix, rest[0])
    ensures Capture(pre + marker + digits + rest, marker, radix) == Some(digits)
  {
    NoMatchBefore(pre, marker, digits + rest, radix);
    assert pre + marker + digits + rest == pre + marker + (digits + rest);
    assert pre + marker + digits + rest == pre + (marker + digits + rest);
    CaptureSkipsPrefix(pre, marker + digits + rest, marker, radix);
    CaptureAtStart(marker, digits, rest, radix);
  }

  /** The first line `<pre><marker><digits><rest>` holding the marker is the one found. */
  lemma LoggedLine(earlier: seq<string>, pre: string, marker: string, digits: string, rest: string, later: seq<string>)
    requires forall j :: 0 <= j < |earlier| ==> !Contains(earlier[j], marker)
    ensures FindLine(Some(earlier + [pre + marker + digits + rest] + later), marker) == Some(pre + marker + digits + rest)
  {
    var line := pre + marker + digits + rest;
    assert line == pre + marker + (digits + rest);
    ContainsAfter(pre, marker, digits + rest);
    FindFirstLine(earlier, line, later, marker);
  }
}
