/**
 * The governance program's error-log parsers. hooks/use-vote.ts and
 * hooks/use-initialize-governance.ts carry the same function text; the copy
 * in hooks/use-create-proposal.ts matches the hex digits differently and
 * uses `??` where the others use `||`.
 */
module GovernanceErrors {
  import opened Wrappers
  import opened Text
  import opened ProgramLogs
  import opened Types

  /** `GOVERNANCE_ERRORS`: code to `{ name, msg }`; its contents are a parameter of the model. */
  type ErrorTable = map<nat, ErrorEntry>

  const HEX_MARKER: string := "custom program error: 0x"
  const UNKNOWN_ERROR: string := "An unknown error occurred"

  /** `Unknown governance error code: ${code} (0x${hex})`. */
  function UnknownCodeMessage(code: nat, hex: string): string
  {
    "Unknown governance error code: " + Dec(code) + " (0x" + hex + ")"
  }

  /** The hex digits after the marker, in the first log line that holds the marker. */
  function HexCode(err: TxError): (r: Option<string>)
    ensures r.Some? ==> r.value != [] && AllDigits(Hex, r.value)
  {
    match FindLine(err.logs, HEX_MARKER)
    case None => None
    case Some(line) => Capture(line, HEX_MARKER, Hex)
  }

  /**
   * `parseGovernanceError` of use-vote and use-initialize-governance: the
   * table's message for the code, a message naming an unknown code, or the
   * error's own message when no log line carries a code.
   */
  function GovernanceErrorMessage(table: ErrorTable, err: TxError): (r: string)
    ensures r != ""
  {
    match HexCode(err)
    case Some(hex) =>
      var code := ParseNat(Hex, hex);
      if code in table && table[code].msg != "" then table[code].msg else UnknownCodeMessage(code, hex)
    case None =>
      if err.message.Some? && err.message.value != "" then err.message.value else UNKNOWN_ERROR
  }

  /** The runtime's words before the code: HEX_MARKER without its "0x". */
  const CODE_PREFIX: string := "custom program error: "

  /** The marker's first character does not recur in it, so its occurrences cannot overlap. */
  lemma MarkerStartsOnce()
    ensures forall i :: 0 < i < |HEX_MARKER| ==> HEX_MARKER[i] != HEX_MARKER[0]
  {
  }

  /** The marker is the runtime's words followed by "0x", and those words hold no '0'. */
  lemma MarkerParts()
    ensures HEX_MARKER == CODE_PREFIX + "0x"
    ensures forall i :: 0 <= i < |CODE_PREFIX| ==> CODE_PREFIX[i] != '0'
  {
  }

  /** The hex digits of the first line carrying `<pre>custom program error: 0x<hex><rest>` are hex. */
  lemma LoggedHexCode(earlier: seq<string>, pre: string, hex: string, rest: string, later: seq<string>, message: Option<string>)
    requires forall j :: 0 <= j < |earlier| ==> !Contains(earlier[j], HEX_MARKER)
    requires !Contains(pre, HEX_MARKER)
    requires hex != [] && AllDigits(Hex, hex)
    requires rest == [] || !IsDigit(Hex, rest[0])
    ensures HexCode(TxError(Some(earlier + [pre + HEX_MARKER + hex + rest] + later), message)) == Some(hex)
  {
    LoggedLine(earlier, pre, HEX_MARKER, hex, rest, later);
    MarkerStartsOnce();
    CaptureInLine(pre, HEX_MARKER, hex, rest, Hex);
  }

  /**
   * A failed transaction whose first line carrying a code reads
   * `<pre>custom program error: 0x<hex><rest>`: the table's message for the
   * code when it has a non-empty one, otherwise the unknown-code message;
   * the error's own message plays no part.
   */
  lemma LoggedCodeMessage(table: ErrorTable, earlier: seq<string>, pre: string, hex: string, rest: string,
                          later: seq<string>, message: Option<string>)
    requires forall j :: 0 <= j < |earlier| ==> !Contains(earlier[j], HEX_MARKER)
    requires !Contains(pre, HEX_MARKER)
    requires hex != [] && AllDigits(Hex, hex)
    requires rest == [] || !IsDigit(Hex, rest[0])
    ensures var r := GovernanceErrorMessage(table, TxError(Some(earlier + [pre + HEX_MARKER + hex + rest] + later), message));
            var code := ParseNat(Hex, hex);
            (code in table && table[code].msg != "" ==> r == table[code].msg)
            && (code !in table || table[code].msg == "" ==> r == UnknownCodeMessage(code, hex))
  {
    LoggedHexCode(earlier, pre, hex, rest, later, message);
  }

  /** An unknown code gives a message that shows both the decimal code and the hex digits as logged. */
  lemma UnknownCodeIsShown(table: ErrorTable, err: TxError, hex: string)
    requires HexCode(err) == Some(hex)
    requires ParseNat(Hex, hex) !in table
    ensures Contains(GovernanceErrorMessage(table, err), Dec(ParseNat(Hex, hex)))
    ensures Contains(GovernanceErrorMessage(table, err), hex)
  {
    var code := ParseNat(Hex, hex);
    var head := "Unknown governance error code: ";
    ContainsAfter(head, Dec(code), " (0x" + hex + ")");
    assert UnknownCodeMessage(code, hex) == head + Dec(code) + (" (0x" + hex + ")");
    ContainsAfter(head + Dec(code) + " (0x", hex, ")");
  }

  /**
   * Without logs, or with no log line carrying a code, the error's own
   * message is shown; when it is absent both parsers fall back to the
   * default, and when it is empty use-create-proposal shows it empty.
   */
  lemma NoCodeInLogs(table: ErrorTable, err: TxError)
    requires err.logs.None? || forall j :: 0 <= j < |err.logs.value| ==> !Contains(err.logs.value[j], HEX_MARKER)
    ensures err.message.Some? && err.message.value != "" ==>
              GovernanceErrorMessage(table, err) == err.message.value == CreateProposalErrorMessage(table, err)
    ensures err.message.None? ==> GovernanceErrorMessage(table, err) == UNKNOWN_ERROR == CreateProposalErrorMessage(table, err)
    ensures err.message == Some("") ==> GovernanceErrorMessage(table, err) == UNKNOWN_ERROR && CreateProposalErrorMessage(table, err) == ""
  {
  }

  /** The hex digits after the first "0x" in the first log line that holds the marker. */
  function CreateProposalHexCode(err: TxError): (r: Option<string>)
    ensures r.Some? ==> r.value != [] && AllDigits(Hex, r.value)
    ensures FindLine(err.logs, HEX_MARKER).None? ==> r.None?
  {
    match FindLine(err.logs, HEX_MARKER)
    case None => None
    case Some(line) => Capture(line, "0x", Hex)
  }

  /**
   * `parseGovernanceError` of use-create-proposal: the hex digits are those
   * after the first "0x" (followed by a hex digit) anywhere in the line, an
   * empty table message is kept (`??`), and an empty error message is kept.
   */
  function CreateProposalErrorMessage(table: ErrorTable, err: TxError): (r: string)
    ensures r == "" ==> err.message == Some("") || exists c :: c in table && table[c].msg == ""
  {
    match CreateProposalHexCode(err)
    case Some(h) =>
      var code := ParseNat(Hex, h);
      if code in table then table[code].msg else UnknownCodeMessage(code, h)
    case None =>
      if err.message.Some? then err.message.value else UNKNOWN_ERROR
  }

  /**
   * The two parsers agree when the log line carrying a code begins with the
   * marker and a hex digit, every table message is non-empty and the error's
   * message is not the empty string.
   */
  lemma ParsersAgree(table: ErrorTable, err: TxError, rest: string)
    requires FindLine(err.logs, HEX_MARKER) == Some(HEX_MARKER + rest)
    requires rest != [] && IsDigit(Hex, rest[0])
    requires forall c :: c in table ==> table[c].msg != ""
    requires err.message != Some("")
    ensures CreateProposalErrorMessage(table, err) == GovernanceErrorMessage(table, err)
  {
    var pre := "custom program error: ";
    var line := HEX_MARKER + rest;
    assert line == pre + ("0x" + rest);
    forall k | 0 <= k < |pre| ensures !MatchesAt(line, k, "0x", Hex) {
      assert line[k] == pre[k];
    }
    CaptureSkipsPrefix(pre, "0x" + rest, "0x", Hex);
    assert MatchesAt(line, 0, HEX_MARKER, Hex);
    assert ("0x" + rest)[..2] == "0x";
    assert MatchesAt("0x" + rest, 0, "0x", Hex);
    assert line[|HEX_MARKER|..] == ("0x" + rest)[2..];
  }

  /**
   * use-create-proposal on `<pre>custom program error: 0x<hex><rest>`, where
   * no "0x" comes earlier in the line: the table's entry for the code, kept
   * even when its message is empty (where the other parser names the code
   * as unknown), otherwise the unknown-code message.
   */
  lemma CreateProposalLoggedCode(table: ErrorTable, earlier: seq<string>, pre: string, hex: string, rest: string,
                                 later: seq<string>, message: Option<string>)
    requires forall j :: 0 <= j < |earlier| ==> !Contains(earlier[j], HEX_MARKER)
    requires !Contains(pre, "0x")
    requires hex != [] && AllDigits(Hex, hex)
    requires rest == [] || !IsDigit(Hex, rest[0])
    ensures var err := TxError(Some(earlier + [pre + HEX_MARKER + hex + rest] + later), message);
            var r := CreateProposalErrorMessage(table, err);
            var code := ParseNat(Hex, hex);
            (code in table ==> r == table[code].msg)
            && (code !in table ==> r == UnknownCodeMessage(code, hex))
            && (code in table && table[code].msg == "" ==> r == "" && GovernanceErrorMessage(table, err) == UnknownCodeMessage(code, hex))
  {
    var err := TxError(Some(earlier + [pre + HEX_MARKER + hex + rest] + later), message);
    CreateProposalReadsLoggedHex(earlier, pre, hex, rest, later, message);
    MarkerParts();
    ContainsTail(pre, CODE_PREFIX, "0x");
    LoggedCodeMessage(table, earlier, pre, hex, rest, later, message);
  }

  /** On `<pre>custom program error: 0x<hex><rest>` with no "0x" in pre, use-create-proposal reads the hex digits. */
  lemma CreateProposalReadsLoggedHex(earlier: seq<string>, pre: string, hex: string, rest: string,
                                     later: seq<string>, message: Option<string>)
    requires forall j :: 0 <= j < |earlier| ==> !Contains(earlier[j], HEX_MARKER)
    requires !Contains(pre, "0x")
    requires hex != [] && AllDigits(Hex, hex)
    requires rest == [] || !IsDigit(Hex, rest[0])
    ensures CreateProposalHexCode(TxError(Some(earlier + [pre + HEX_MARKER + hex + rest] + later), message)) == Some(hex)
  {
    LoggedLine(earlier, pre, HEX_MARKER, hex, rest, later);
    CreateProposalCapture(pre, hex, rest);
  }

  /** The create-proposal pattern reads the hex digits of `<pre>custom program error: 0x<hex><rest>` when pre holds no "0x". */
  lemma CreateProposalCapture(pre: string, hex: string, rest: string)
    requires !Contains(pre, "0x")
    requires hex != [] && AllDigits(Hex, hex)
    requires rest == [] || !IsDigit(Hex, rest[0])
    ensures Capture(pre + HEX_MARKER + hex + rest, "0x", Hex) == Some(hex)
  {
    var tail := "0x" + hex + rest;
    MarkerParts();
    assert pre + HEX_MARKER + hex + rest == (pre + CODE_PREFIX) + tail;
    NoHexBeforeMarker(pre, tail);
    CaptureSkipsPrefix(pre + CODE_PREFIX, tail, "0x", Hex);
    CaptureAtStart("0x", hex, rest, Hex);
  }

  /** Where pre holds no "0x", the first "0x" of `<pre>custom program error: <tail>` is not before the tail. */
  lemma NoHexBeforeMarker(pre: string, tail: string)
    requires !Contains(pre, "0x")
    ensures forall k :: 0 <= k < |pre + CODE_PREFIX| ==> !MatchesAt(pre + CODE_PREFIX + tail, k, "0x", Hex)
  {
    MarkerParts();
    var line := pre + CODE_PREFIX + tail;
    forall k | 0 <= k < |pre + CODE_PREFIX| ensures !MatchesAt(line, k, "0x", Hex) {
      if k + 2 <= |line| {
        assert line[k..][..2] == line[k..k + 2];
        if k + 2 <= |pre| {
          assert line[k..k + 2] == pre[k..k + 2];
          ContainsAt(pre, k, "0x");
        } else if k + 1 == |pre| {
          assert line[k..k + 2][1] == CODE_PREFIX[0] == 'c';
        } else {
          assert line[k..k + 2][0] == CODE_PREFIX[k - |pre|];
        }
      }
    }
  }

  /**
   * use-create-proposal takes the first "0x" followed by a hex digit anywhere
   * in the line: on `0xff custom program error: 0x<hex>` it reads code 255,
   * where the other parser reads the digits after the marker.
   */
  lemma EarlierHexIsCaptured(table: ErrorTable, hex: string, message: Option<string>)
    requires hex != [] && AllDigits(Hex, hex)
    ensures var err := TxError(Some(["0xff " + HEX_MARKER + hex]), message);
            && CreateProposalErrorMessage(table, err) == (if 255 in table then table[255].msg else UnknownCodeMessage(255, "ff"))
            && HexCode(err) == Some(hex)
  {
    var line := "0xff " + HEX_MARKER + hex;
    assert line == "0xff " + HEX_MARKER + hex + "";
    assert [line] == [] + [line] + [];
    ContainsRoom("0xff ", HEX_MARKER);
    LoggedHexCode([], "0xff ", hex, "", [], message);
    ContainsAfter("0xff ", HEX_MARKER, hex);
    FindFirstLine([], line, [], HEX_MARKER);
    assert line == "0x" + "ff" + (" " + HEX_MARKER + hex);
    CaptureAtStart("0x", "ff", " " + HEX_MARKER + hex, Hex);
    assert ParseNat(Hex, "ff") == 255 by {
      assert "ff"[..1] == "f";
      assert "f"[..0] == "";
    }
  }
}
