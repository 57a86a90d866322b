/**
 * hooks/use-vote.ts: the vote instruction payload, the guards `vote` checks
 * before building it, and the toast it posts once the transaction settles.
 */
module VoteHook {
  import opened Wrappers
  import opened Bytes
  import opened Text
  import opened ProgramLogs
  import opened Toasts
  import GovernanceErrors

  const VOTE_DISCRIMINATOR: seq<byte> := [227, 110, 155, 23, 136, 126, 172, 25]

  const WALLET_NOT_CONNECTED: ToastType :=
    ToastType("Wallet not connected", "Please connect your wallet to vote.", Destructive)
  const PROPOSAL_NOT_SELECTED: ToastType :=
    ToastType("Proposal not selected", "Please select a proposal to vote on.", Destructive)

  /** `Buffer.concat([VOTE_DISCRIMINATOR, Buffer.from([optionIndex])])`: the index kept as one byte, modulo 256. */
  function VotePayload(optionIndex: nat): (r: seq<byte>)
    ensures |r| == 9 && r[..8] == VOTE_DISCRIMINATOR && r[8] == optionIndex % 256
    ensures optionIndex < 256 ==> r[8] == optionIndex
  {
    VOTE_DISCRIMINATOR + [optionIndex % 256]
  }

  /** What `vote` does before anything is sent: refuse with a toast, or send the built instruction. */
  datatype VoteOutcome =
    | Refused(toast: ToastType)
    | Send(user: PublicKey, proposal: PublicKey, data: seq<byte>)

  /**
   * `vote({ optionIndex })` up to the send. The wallet (None when the key,
   * connection or sender is missing) is checked before the proposal key.
   */
  function Vote(wallet: Option<PublicKey>, proposal: Option<PublicKey>, optionIndex: nat): (r: VoteOutcome)
    ensures wallet.None? ==> r == Refused(WALLET_NOT_CONNECTED)
    ensures wallet.Some? && proposal.None? ==> r == Refused(PROPOSAL_NOT_SELECTED)
    ensures r.Send? <==> wallet.Some? && proposal.Some?
    ensures r.Send? ==> r.user == wallet.value && r.proposal == proposal.value && r.data == VotePayload(optionIndex)
                        && |r.data| == 9 && r.data[8] == optionIndex % 256
  {
    match (wallet, proposal)
    case (None, _) => Refused(WALLET_NOT_CONNECTED)
    case (Some(_), None) => Refused(PROPOSAL_NOT_SELECTED)
    case (Some(user), Some(key)) => Send(user, key, VotePayload(optionIndex))
  }

  /** The toast posted once the send settles: success, or the parsed governance error. */
  function VoteSettledToast(table: GovernanceErrors.ErrorTable, optionIndex: nat, failure: Option<TxError>): (t: ToastType)
    ensures failure.None? ==> t.variant == Default && Contains(t.description, Dec(optionIndex))
    ensures failure.Some? ==> t.variant == Destructive
                              && t.description == GovernanceErrors.GovernanceErrorMessage(table, failure.value)
  {
    match failure
    case None =>
      ContainsAfter("Successfully voted for option ", Dec(optionIndex), ".");
      ToastType("Vote Cast", "Successfully voted for option " + Dec(optionIndex) + ".", Default)
    case Some(err) =>
      var message := GovernanceErrors.GovernanceErrorMessage(table, err);
      ToastType("Error Casting Vote", if message != "" then message else GovernanceErrors.UNKNOWN_ERROR, Destructive)
  }
}
