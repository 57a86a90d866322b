/**
 * hooks/useStaking.ts: the user-stake and vault PDAs, the user-stake account
 * decoder, the stake / start-unstake / claim instruction payloads, the
 * decimal error-code mapping, and the cooldown countdown.
 */
module Staking {
  import opened Wrappers
  import opened Bytes
  import opened Borsh
  import opened Text
  import opened ProgramLogs
  import opened Types
  import opened Pda

  const STAKE_DISCRIMINATOR: seq<byte> := [206, 176, 202, 18, 200, 209, 179, 108]
  const START_UNSTAKE_DISCRIMINATOR: seq<byte> := [200, 243, 106, 111, 170, 72, 31, 117]
  const CLAIM_UNSTAKE_DISCRIMINATOR: seq<byte> := [172, 113, 117, 178, 223, 245, 247, 118]

  /** The hook's own code-to-message table. */
  const ERROR_MESSAGES: map<nat, string> := map[
    6000 := "Stake amount is below the minimum of 1 SOL.",
    6001 := "Already staked.",
    6002 := "Not currently staked.",
    6003 := "Not in cooldown.",
    6004 := "Cooldown period not elapsed.",
    6005 := "Vault PDA is incorrect."
  ]

  /** The hook's table and the shared `STAKING_ERRORS` table hold the same codes with the same messages. */
  lemma ErrorMessagesAgree()
    ensures forall c :: c in ERROR_MESSAGES <==> c in STAKING_ERRORS
    ensures forall c :: c in ERROR_MESSAGES ==> ERROR_MESSAGES[c] == STAKING_ERRORS[c].msg
  {
  }

  // ---------------------------------------------------------------- PDAs

  /** `findPDAs()` for a connected wallet. */
  datatype Pdas = Pdas(userStakePda: PublicKey, vaultPda: PublicKey, vaultBump: byte)

  /** `findPDAs()`: nothing without a wallet; otherwise both addresses, keeping the vault's bump. */
  function FindPdas(derive: Derivation, programId: PublicKey, wallet: Option<PublicKey>): (r: Option<Pdas>)
    ensures r.Some? <==> wallet.Some?
    ensures r.Some? ==> var (vault, bump) := derive([VAULT_SEED, wallet.value], programId);
                        r.value.vaultPda == vault && r.value.vaultBump == bump
                        && r.value.userStakePda == derive([USER_STAKE_SEED, wallet.value], programId).0
  {
    match wallet
    case None => None
    case Some(user) =>
      var (userStakePda, _) := derive([USER_STAKE_SEED, user], programId);
      var (vaultPda, bump) := derive([VAULT_SEED, user], programId);
      Some(Pdas(userStakePda, vaultPda, bump))
  }

  /** The hook's seed lists are the ones `findProgramAddress` builds for a key seed. */
  lemma FindPdasSeedLists(derive: Derivation, programId: PublicKey, user: PublicKey)
    ensures FindPdas(derive, programId, Some(user)).value.userStakePda
            == FindProgramAddress(derive, USER_STAKE_SEED, programId, [KeySeed(user)]).0
    ensures FindPdas(derive, programId, Some(user)).value.vaultPda
            == FindProgramAddress(derive, VAULT_SEED, programId, [KeySeed(user)]).0
    ensures FindPdas(derive, programId, Some(user)).value.vaultBump
            == FindProgramAddress(derive, VAULT_SEED, programId, [KeySeed(user)]).1
  {
    assert SeedList(USER_STAKE_SEED, [KeySeed(user)]) == [USER_STAKE_SEED, user];
    assert SeedList(VAULT_SEED, [KeySeed(user)]) == [VAULT_SEED, user];
  }

  // ---------------------------------------------------- user-stake account

  /** `UserStakeData`, with the three BN fields as whole numbers. */
  datatype UserStakeData = UserStakeData(amount: nat, stakeTime: nat, cooldownStart: nat, status: StakeStatus)

  /** The `switch` on the status byte; a missing byte (`undefined`) and any unknown value read as unstaked. */
  function StatusAt(data: seq<byte>, off: nat): (s: StakeStatus)
    ensures s == Staked <==> off < |data| && data[off] == 1
    ensures s == Cooldown <==> off < |data| && data[off] == 2
  {
    if off < |data| && data[off] == 1 then Staked
    else if off < |data| && data[off] == 2 then Cooldown
    else Unstaked
  }

  /** The account layout the decoder reads: u64 fields at 8, 16 and 24, the status byte at 32, no discriminator check. */
  function UserStakeLayout(data: seq<byte>): (r: UserStakeData)
    ensures r.amount < U64_LIMIT && r.stakeTime < U64_LIMIT && r.cooldownStart < U64_LIMIT
    ensures |data| <= 32 ==> r.status == Unstaked
    ensures |data| <= 8 ==> r == UserStakeData(0, 0, 0, Unstaked)
  {
    UserStakeData(U64At(data, 8), U64At(data, 16), U64At(data, 24), StatusAt(data, 32))
  }

  /** `parseUserStakeData`: the cursor walk over the account data. It never fails. */
  method ParseUserStakeData(data: seq<byte>) returns (r: UserStakeData)
    ensures r == UserStakeLayout(data)
  {
    var offset := 8;
    var amount := U64At(data, offset);
    offset := offset + 8;
    var stakeTime := U64At(data, offset);
    offset := offset + 8;
    var cooldownStart := U64At(data, offset);
    offset := offset + 8;
    var status: StakeStatus;
    if offset < |data| && data[offset] == 0 {
      status := Unstaked;
    } else if offset < |data| && data[offset] == 1 {
      status := Staked;
    } else if offset < |data| && data[offset] == 2 {
      status := Cooldown;
    } else {
      status := Unstaked;
    }
    r := UserStakeData(amount, stakeTime, cooldownStart, status);
  }

  /** The status byte the program writes for each status. */
  function StatusByte(s: StakeStatus): (b: byte)
    ensures StatusAt([b], 0) == s
  {
    match s
    case Unstaked => 0
    case Staked => 1
    case Cooldown => 2
  }

  /** A user-stake account as the program lays it out: 8 discriminator bytes, three u64s, the status, then anything. */
  function EncodeUserStake(discriminator: seq<byte>, u: UserStakeData, tail: seq<byte>): (r: seq<byte>)
    requires |discriminator| == 8
    ensures |r| == 33 + |tail|
  {
    discriminator + LeBytes(u.amount, 8) + LeBytes(u.stakeTime, 8) + LeBytes(u.cooldownStart, 8) + [StatusByte(u.status)] + tail
  }

  /** Decoding an account the program wrote gives back its fields, whatever the discriminator and trailing bytes. */
  lemma UserStakeRoundTrip(discriminator: seq<byte>, u: UserStakeData, tail: seq<byte>)
    requires |discriminator| == 8
    requires u.amount < U64_LIMIT && u.stakeTime < U64_LIMIT && u.cooldownStart < U64_LIMIT
    ensures UserStakeLayout(EncodeUserStake(discriminator, u, tail)) == u
  {
    var a, t, c := LeBytes(u.amount, 8), LeBytes(u.stakeTime, 8), LeBytes(u.cooldownStart, 8);
    var status := [StatusByte(u.status)] + tail;
    var data := EncodeUserStake(discriminator, u, tail);
    assert data == discriminator + a + (t + c + status);
    U64AtFramed(discriminator, u.amount, t + c + status);
    assert data == discriminator + a + t + (c + status);
    U64AtFramed(discriminator + a, u.stakeTime, c + status);
    assert data == discriminator + a + t + c + status;
    U64AtFramed(discriminator + a + t, u.cooldownStart, status);
    assert data[32] == StatusByte(u.status);
  }

  /** The decoder never looks at the first eight bytes. */
  lemma DiscriminatorIgnored(d1: seq<byte>, d2: seq<byte>)
    requires |d1| == |d2| && |d1| >= 8 && d1[8..] == d2[8..]
    ensures UserStakeLayout(d1) == UserStakeLayout(d2)
  {
    assert forall i :: 8 <= i < |d1| ==> d1[i] == d2[i] by {
      forall i | 8 <= i < |d1| ensures d1[i] == d2[i] {
        assert d1[i] == d1[8..][i - 8];
      }
    }
    assert Slice(d1, 8, 16) == Slice(d2, 8, 16);
    assert Slice(d1, 16, 24) == Slice(d2, 16, 24);
    assert Slice(d1, 24, 32) == Slice(d2, 24, 32);
  }

  /** A status byte outside 0..2 reads as unstaked. */
  lemma UnknownStatusIsUnstaked(data: seq<byte>)
    requires |data| > 32 && data[32] > 2
    ensures UserStakeLayout(data).status == Unstaked
  {
  }

  // ----------------------------------------------------- instruction data

  /** `Buffer.concat([STAKE_DISCRIMINATOR, Buffer.from(amount.toArray("le", 8))])`; None where `toArray` throws. */
  function StakePayload(amount: nat): (r: Option<seq<byte>>)
    ensures r.Some? <==> amount < U64_LIMIT
    ensures r.Some? ==> |r.value| == 16 && r.value[..8] == STAKE_DISCRIMINATOR
  {
    if amount < U64_LIMIT then Some(STAKE_DISCRIMINATOR + LeBytes(amount, 8)) else None
  }

  /** The claim data: the discriminator and the vault bump as one byte. No bump known, no instruction. */
  function ClaimPayload(vaultBump: Option<byte>): (r: Option<seq<byte>>)
    ensures r.Some? <==> vaultBump.Some?
    ensures r.Some? ==> |r.value| == 9 && r.value[..8] == CLAIM_UNSTAKE_DISCRIMINATOR
  {
    match vaultBump
    case None => None
    case Some(bump) => Some(CLAIM_UNSTAKE_DISCRIMINATOR + [bump])
  }

  /** The staking program's three instructions. */
  datatype StakingInstruction = Stake(amount: nat) | StartUnstake | ClaimUnstake(vaultBump: byte)

  /** The program's reading of instruction data: dispatch on the discriminator, exact argument length. */
  function DecodeStakingInstruction(data: seq<byte>): Option<StakingInstruction>
  {
    if |data| < 8 then None
    else if data[..8] == STAKE_DISCRIMINATOR then
      if |data| == 16 then Some(Stake(LeValue(data[8..]))) else None
    else if data[..8] == START_UNSTAKE_DISCRIMINATOR then
      if |data| == 8 then Some(StartUnstake) else None
    else if data[..8] == CLAIM_UNSTAKE_DISCRIMINATOR then
      if |data| == 9 then Some(ClaimUnstake(data[8])) else None
    else None
  }

  /** The stake payload carries the amount the hook was given. */
  lemma StakePayloadDecodes(amount: nat)
    requires amount < U64_LIMIT
    ensures DecodeStakingInstruction(StakePayload(amount).value) == Some(Stake(amount))
  {
    var data := StakePayload(amount).value;
    assert data[8..] == LeBytes(amount, 8);
    Pow256Constants();
    LeValueOfLeBytes(amount, 8);
  }

  /** The start-unstake payload is the bare discriminator, an instruction without arguments. */
  lemma StartUnstakePayloadDecodes()
    ensures DecodeStakingInstruction(START_UNSTAKE_DISCRIMINATOR) == Some(StartUnstake)
  {
    var data := START_UNSTAKE_DISCRIMINATOR;
    assert data[..8] == START_UNSTAKE_DISCRIMINATOR;
    assert data[0] != STAKE_DISCRIMINATOR[0];
  }

  /** The claim payload carries the vault bump. */
  lemma ClaimPayloadDecodes(bump: byte)
    ensures DecodeStakingInstruction(ClaimPayload(Some(bump)).value) == Some(ClaimUnstake(bump))
  {
    var data := ClaimPayload(Some(bump)).value;
    assert data[..8] == CLAIM_UNSTAKE_DISCRIMINATOR;
  }

  // ----------------------------------------------------------- error codes

  const ERROR_LINE_MARKER: string := "custom program error"
  const DECIMAL_MARKER: string := "custom program error: "
  const HEX_MARKER: string := "custom program error: 0x"
  const TRANSACTION_FAILED: string := "Transaction failed"

  /** The table's message for a code, or "Transaction failed". */
  function MessageFor(code: nat): (r: string)
    ensures r == TRANSACTION_FAILED || (code in ERROR_MESSAGES && r == ERROR_MESSAGES[code])
    ensures code in ERROR_MESSAGES <==> r != TRANSACTION_FAILED
  {
    if code in ERROR_MESSAGES then ERROR_MESSAGES[code] else TRANSACTION_FAILED
  }

  /**
   * The catch blocks of `stake`, `startUnstake` and `claimUnstake` as
   * written: the decimal digits after "custom program error: " in the first
   * line holding "custom program error".
   */
  function StakingErrorMessage(err: TxError): (r: string)
    ensures r == TRANSACTION_FAILED || r in ERROR_MESSAGES.Values
  {
    match FindLine(err.logs, ERROR_LINE_MARKER)
    case None => TRANSACTION_FAILED
    case Some(line) =>
      match Capture(line, DECIMAL_MARKER, Decimal)
      case None => TRANSACTION_FAILED
      case Some(digits) => MessageFor(ParseNat(Decimal, digits))
  }

  /**
   * The same lookup reading the code the way the runtime prints it: the hex
   * digits after "custom program error: 0x" when the line has them, else
   * the decimal digits.
   */
  function StakingErrorMessageCorrected(err: TxError): (r: string)
    ensures r == TRANSACTION_FAILED || r in ERROR_MESSAGES.Values
  {
    match FindLine(err.logs, ERROR_LINE_MARKER)
    case None => TRANSACTION_FAILED
    case Some(line) =>
      match Capture(line, HEX_MARKER, Hex)
      case Some(hex) => MessageFor(ParseNat(Hex, hex))
      case None =>
        match Capture(line, DECIMAL_MARKER, Decimal)
        case None => TRANSACTION_FAILED
        case Some(digits) => MessageFor(ParseNat(Decimal, digits))
  }

  /** Without logs, or with no log line holding "custom program error", both readings give "Transaction failed". */
  lemma NoErrorLine(err: TxError)
    requires err.logs.None? || forall j :: 0 <= j < |err.logs.value| ==> !Contains(err.logs.value[j], ERROR_LINE_MARKER)
    ensures StakingErrorMessage(err) == TRANSACTION_FAILED
    ensures StakingErrorMessageCorrected(err) == TRANSACTION_FAILED
  {
  }

  /** A single log line "custom program error: " + "0x" + hex, behind a prefix that holds no decimal match. */
  function HexLog(prefix: string, hex: string): string
  {
    prefix + (DECIMAL_MARKER + "0x" + hex)
  }

  /** A lone log line holding the marker is the line the parser picks. */
  lemma SingleLineFound(line: string)
    requires Contains(line, ERROR_LINE_MARKER)
    ensures FindLine(Some([line]), ERROR_LINE_MARKER) == Some(line)
  {
    assert FirstContaining([line], ERROR_LINE_MARKER) == Some(0);
  }

  lemma HexLogFound(prefix: string, hex: string)
    ensures FindLine(Some([HexLog(prefix, hex)]), ERROR_LINE_MARKER) == Some(HexLog(prefix, hex))
  {
    var tail := ": 0x" + hex;
    assert HexLog(prefix, hex) == prefix + ERROR_LINE_MARKER + tail;
    ContainsAfter(prefix, ERROR_LINE_MARKER, tail);
    SingleLineFound(HexLog(prefix, hex));
  }

  /**
   * As written, a code logged in hex is misread: the decimal pattern stops
   * at the "x" and captures "0", which no table entry has.
   */
  lemma HexCodeIsMisread(prefix: string, hex: string, message: Option<string>)
    requires forall k :: 0 <= k < |prefix| ==> !MatchesAt(HexLog(prefix, hex), k, DECIMAL_MARKER, Decimal)
    ensures StakingErrorMessage(TxError(Some([HexLog(prefix, hex)]), message)) == TRANSACTION_FAILED
  {
    var line := HexLog(prefix, hex);
    assert FindLine(Some([line]), ERROR_LINE_MARKER) == Some(line) by {
      HexLogFound(prefix, hex);
    }
    assert Capture(line, DECIMAL_MARKER, Decimal) == Some("0") by {
      DecimalPatternCapturesZero(prefix, hex);
    }
    assert ParseNat(Decimal, "0") == 0 by { assert "0"[..0] == []; }
    DecimalCaptureDecides(TxError(Some([line]), message), line, "0");
  }

  /** As written, the message is the table's entry for the decimal digits the pattern captured. */
  lemma DecimalCaptureDecides(err: TxError, line: string, digits: string)
    requires FindLine(err.logs, ERROR_LINE_MARKER) == Some(line)
    requires Capture(line, DECIMAL_MARKER, Decimal) == Some(digits)
    ensures StakingErrorMessage(err) == MessageFor(ParseNat(Decimal, digits))
  {
  }

  /** On a hex line the decimal pattern captures the lone "0" of "0x". */
  lemma DecimalPatternCapturesZero(prefix: string, hex: string)
    requires forall k :: 0 <= k < |prefix| ==> !MatchesAt(HexLog(prefix, hex), k, DECIMAL_MARKER, Decimal)
    ensures Capture(HexLog(prefix, hex), DECIMAL_MARKER, Decimal) == Some("0")
  {
    var tail := DECIMAL_MARKER + "0x" + hex;
    assert HexLog(prefix, hex) == prefix + tail;
    assert Capture(prefix + tail, DECIMAL_MARKER, Decimal) == Capture(tail, DECIMAL_MARKER, Decimal) by {
      CaptureSkipsPrefix(prefix, tail, DECIMAL_MARKER, Decimal);
    }
    assert Capture(tail, DECIMAL_MARKER, Decimal) == Some("0") by {
      assert tail == DECIMAL_MARKER + "0" + ("x" + hex);
      CaptureAtStart(DECIMAL_MARKER, "0", "x" + hex, Decimal);
    }
  }

  /** The hex digits "1770" are 6000, the code of BelowMinimumStake. */
  lemma Hex1770()
    ensures AllDigits(Hex, "1770") && ParseNat(Hex, "1770") == 6000
  {
    assert "1770"[..3] == "177";
    assert "177"[..2] == "17";
    assert "17"[..1] == "1";
    assert "1"[..0] == "";
  }

  /** The log line the runtime writes for BelowMinimumStake, as the hook's catch block sees it. */
  lemma BelowMinimumStakeIsLost()
    ensures StakingErrorMessage(TxError(Some([HexLog("", "1770")]), None)) == TRANSACTION_FAILED
    ensures 6000 in ERROR_MESSAGES
  {
    HexCodeIsMisread("", "1770", None);
  }

  /** The corrected reading maps a hex-logged code to its message. */
  lemma HexCodeIsRead(prefix: string, hex: string, message: Option<string>)
    requires hex != [] && AllDigits(Hex, hex)
    requires forall k :: 0 <= k < |prefix| ==> !MatchesAt(HexLog(prefix, hex), k, HEX_MARKER, Hex)
    ensures StakingErrorMessageCorrected(TxError(Some([HexLog(prefix, hex)]), message)) == MessageFor(ParseNat(Hex, hex))
  {
    var line := HexLog(prefix, hex);
    var tail := HEX_MARKER + hex + "";
    assert FindLine(Some([line]), ERROR_LINE_MARKER) == Some(line) by {
      HexLogFound(prefix, hex);
    }
    assert Capture(line, HEX_MARKER, Hex) == Some(hex) by {
      assert line == prefix + tail;
      CaptureSkipsPrefix(prefix, tail, HEX_MARKER, Hex);
      CaptureAtStart(HEX_MARKER, hex, "", Hex);
    }
    HexCaptureDecides(TxError(Some([line]), message), line, hex);
  }

  /** With the correction, a hex code after "0x" is looked up in the table. */
  lemma HexCaptureDecides(err: TxError, line: string, hex: string)
    requires FindLine(err.logs, ERROR_LINE_MARKER) == Some(line)
    requires Capture(line, HEX_MARKER, Hex) == Some(hex)
    ensures StakingErrorMessageCorrected(err) == MessageFor(ParseNat(Hex, hex))
  {
  }

  /** With the correction, the runtime's BelowMinimumStake line gives its message. */
  lemma BelowMinimumStakeIsShown()
    ensures StakingErrorMessageCorrected(TxError(Some([HexLog("", "1770")]), None))
            == "Stake amount is below the minimum of 1 SOL."
  {
    Hex1770();
    HexCodeIsRead("", "1770", None);
  }

  /** Where the line carries no hex code, the correction reads exactly as the code as written. */
  lemma CorrectionKeepsDecimal(err: TxError)
    requires FindLine(err.logs, ERROR_LINE_MARKER).Some?
    requires Capture(FindLine(err.logs, ERROR_LINE_MARKER).value, HEX_MARKER, Hex).None?
    ensures StakingErrorMessageCorrected(err) == StakingErrorMessage(err)
  {
  }

  /** A decimal code right after the marker is looked up in the table. */
  lemma DecimalCodeIsRead(code: nat, rest: string, message: Option<string>)
    requires rest == [] || !IsDigit(Decimal, rest[0])
    ensures StakingErrorMessage(TxError(Some([DECIMAL_MARKER + Dec(code) + rest]), message)) == MessageFor(code)
  {
    var line := DECIMAL_MARKER + Dec(code) + rest;
    assert FindLine(Some([line]), ERROR_LINE_MARKER) == Some(line) by {
      var tail := ": " + Dec(code) + rest;
      assert line == [] + ERROR_LINE_MARKER + tail;
      ContainsAfter([], ERROR_LINE_MARKER, tail);
      SingleLineFound(line);
    }
    assert Capture(line, DECIMAL_MARKER, Decimal) == Some(Dec(code)) by {
      CaptureAtStart(DECIMAL_MARKER, Dec(code), rest, Decimal);
    }
    assert ParseNat(Decimal, Dec(code)) == code by {
      ParseDec(code);
    }
    DecimalCaptureDecides(TxError(Some([line]), message), line, Dec(code));
  }

  // ---------------------------------------------------------- hook actions

  /** What `stake`, `startUnstake` or `claimUnstake` does before the send. */
  datatype StakingOutcome =
    | Skipped
    | Failed(error: string)
    | Send(user: PublicKey, vaultPda: PublicKey, userStakePda: PublicKey, data: seq<byte>)

  /** `stake(amount)`: nothing without a wallet; an amount past u64 fails in `toArray` and is reported. */
  function StakeAction(derive: Derivation, programId: PublicKey, wallet: Option<PublicKey>, amount: nat): (r: StakingOutcome)
    ensures wallet.None? <==> r.Skipped?
    ensures r.Failed? <==> wallet.Some? && amount >= U64_LIMIT
    ensures r.Failed? ==> r.error == TRANSACTION_FAILED
    ensures r.Send? ==> DecodeStakingInstruction(r.data) == Some(Stake(amount)) && r.user == wallet.value
  {
    match FindPdas(derive, programId, wallet)
    case None => Skipped
    case Some(pdas) =>
      match StakePayload(amount)
      case None => Failed(StakingErrorMessage(TxError(None, None)))
      case Some(data) =>
        StakePayloadDecodes(amount);
        Send(wallet.value, pdas.vaultPda, pdas.userStakePda, data)
  }

  /** `startUnstake()`: nothing without a wallet; otherwise the argument-less instruction. */
  function StartUnstakeAction(derive: Derivation, programId: PublicKey, wallet: Option<PublicKey>): (r: StakingOutcome)
    ensures wallet.None? <==> r.Skipped?
    ensures r.Send? ==> DecodeStakingInstruction(r.data) == Some(StartUnstake) && r.user == wallet.value
    ensures !r.Failed?
  {
    match FindPdas(derive, programId, wallet)
    case None => Skipped
    case Some(pdas) =>
      StartUnstakePayloadDecodes();
      Send(wallet.value, pdas.vaultPda, pdas.userStakePda, START_UNSTAKE_DISCRIMINATOR)
  }

  /** `claimUnstake()`: nothing without a wallet or without the bump a previous fetch kept. */
  function ClaimAction(derive: Derivation, programId: PublicKey, wallet: Option<PublicKey>, vaultBump: Option<byte>): (r: StakingOutcome)
    ensures r.Skipped? <==> wallet.None? || vaultBump.None?
    ensures r.Send? ==> DecodeStakingInstruction(r.data) == Some(ClaimUnstake(vaultBump.value)) && r.user == wallet.value
    ensures !r.Failed?
  {
    if vaultBump.None? then Skipped
    else match FindPdas(derive, programId, wallet)
      case None => Skipped
      case Some(pdas) =>
        ClaimPayloadDecodes(vaultBump.value);
        Send(wallet.value, pdas.vaultPda, pdas.userStakePda, ClaimPayload(vaultBump).value)
  }

  /**
   * The hook's `error` once a send settles: cleared on success, and on
   * failure the message the catch block maps the error to, as written.
   */
  function SettledError(failure: Option<TxError>): (r: Option<string>)
    ensures r.None? <==> failure.None?
    ensures r.Some? ==> r.value == TRANSACTION_FAILED || r.value in ERROR_MESSAGES.Values
    ensures r.Some? && FindLine(failure.value.logs, ERROR_LINE_MARKER).None? ==> r.value == TRANSACTION_FAILED
  {
    match failure
    case None => None
    case Some(err) => Some(StakingErrorMessage(err))
  }

  /** A failure logged the way the runtime logs code 6000 settles as "Transaction failed". */
  lemma BelowMinimumStakeSettlesAsFailed()
    ensures SettledError(Some(TxError(Some([HexLog("", "1770")]), None))) == Some(TRANSACTION_FAILED)
  {
    BelowMinimumStakeIsLost();
  }

  // -------------------------------------------------------------- cooldown

  const COOLDOWN_SECONDS: nat := 300
  /** `BN.toNumber()` throws at and above 2^53. */
  const SAFE_LIMIT: nat := 0x20_0000_0000_0000
  const UNSAFE_NUMBER: string := "Number can only safely store up to 53 bits"
  /** The latest instant a JavaScript `Date` holds, 8.64e15 ms, in seconds. */
  const DATE_LIMIT_SECONDS: nat := 8_640_000_000_000
  /** The label an Invalid Date end produces: every step of the arithmetic is NaN. */
  const NAN_COUNTDOWN: string := "NaNm NaNs remaining"

  /** Whole minutes and leftover seconds of a duration. */
  function CooldownParts(remaining: nat): (r: (nat, nat))
    ensures r.1 < 60 && r.0 * 60 + r.1 == remaining
  {
    (remaining / 60, remaining % 60)
  }

  /** The parts are the only split of a duration into minutes and seconds under 60. */
  lemma CooldownPartsUnique(remaining: nat, minutes: nat, seconds: nat)
    requires seconds < 60 && minutes * 60 + seconds == remaining
    ensures CooldownParts(remaining) == (minutes, seconds)
  {
  }

  /**
   * `getCooldownRemaining()`, with `now` in whole seconds: nothing unless the
   * stake is cooling down and its end is still ahead; then "<m>m <s>s remaining".
   * A start time `toNumber` cannot hold is a thrown error. An end past the
   * last instant a `Date` holds is an Invalid Date: `cooldownEnds <= now` is
   * false for it and the label is made of NaNs.
   */
  function GetCooldownRemaining(userStake: Option<UserStakeData>, now: int): (r: Result<Option<string>>)
    ensures userStake.None? || userStake.value.status != Cooldown ==> r == Success(None)
    ensures r.Failure? <==> userStake.Some? && userStake.value.status == Cooldown && userStake.value.cooldownStart >= SAFE_LIMIT
    ensures r.Success? && r.value.Some? <==>
              userStake.Some? && userStake.value.status == Cooldown && userStake.value.cooldownStart < SAFE_LIMIT
              && (now < userStake.value.cooldownStart + COOLDOWN_SECONDS
                  || DATE_LIMIT_SECONDS < userStake.value.cooldownStart + COOLDOWN_SECONDS)
    ensures r.Success? && r.value.Some? && userStake.value.cooldownStart + COOLDOWN_SECONDS <= DATE_LIMIT_SECONDS ==>
              var (m, s) := CooldownParts(userStake.value.cooldownStart + COOLDOWN_SECONDS - now);
              r.value.value == Dec(m) + "m " + Dec(s) + "s remaining"
    ensures r.Success? && r.value.Some? && DATE_LIMIT_SECONDS < userStake.value.cooldownStart + COOLDOWN_SECONDS ==>
              r.value.value == NAN_COUNTDOWN
  {
    match userStake
    case None => Success(None)
    case Some(u) =>
      if u.status != Cooldown then Success(None)
      else if u.cooldownStart >= SAFE_LIMIT then Failure(UNSAFE_NUMBER)
      else
        var ends := u.cooldownStart + COOLDOWN_SECONDS;
        if ends > DATE_LIMIT_SECONDS then Success(Some(NAN_COUNTDOWN))
        else if ends <= now then Success(None)
        else
          var remaining := ends - now;
          Success(Some(Dec(remaining / 60) + "m " + Dec(remaining % 60) + "s remaining"))
  }

  /**
   * While the end is a valid `Date`, the countdown never runs past the
   * five-minute cooldown and is over exactly at its end.
   */
  lemma CooldownBounds(u: UserStakeData, now: int)
    requires u.status == Cooldown && u.cooldownStart < SAFE_LIMIT && u.cooldownStart <= now
    requires u.cooldownStart + COOLDOWN_SECONDS <= DATE_LIMIT_SECONDS
    ensures GetCooldownRemaining(Some(u), now).Success?
    ensures GetCooldownRemaining(Some(u), now).value.Some? ==> CooldownParts(u.cooldownStart + COOLDOWN_SECONDS - now).0 <= 5
    ensures GetCooldownRemaining(Some(u), u.cooldownStart + COOLDOWN_SECONDS) == Success(None)
  {
  }

  /**
   * A start time `toNumber` still holds but whose end is past the last
   * `Date`: the countdown reads "NaNm NaNs remaining" at every instant and never ends.
   */
  lemma InvalidDateNeverEnds(u: UserStakeData, now: int)
    requires u.status == Cooldown && u.cooldownStart < SAFE_LIMIT
    requires DATE_LIMIT_SECONDS < u.cooldownStart + COOLDOWN_SECONDS
    ensures GetCooldownRemaining(Some(u), now) == Success(Some(NAN_COUNTDOWN))
  {
  }
}
