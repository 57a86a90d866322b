/**
 * hooks/use-initialize-governance.ts: the argument-less init instruction,
 * the wallet and already-initialised guards, and the settle toast.
 */
module InitializeGovernanceHook {
  import opened Wrappers
  import opened Bytes
  import opened ProgramLogs
  import opened Pda
  import opened Toasts
  import GovernanceErrors

  const INITIALIZE_GOV_DISCRIMINATOR: seq<byte> := [175, 151, 72, 150, 248, 86, 141, 91]

  const WALLET_NOT_CONNECTED: ToastType :=
    ToastType("Wallet not connected", "Please connect your wallet to initialize governance.", Destructive)
  const ALREADY_INITIALIZED: ToastType :=
    ToastType("Already Initialized", "Governance state account already exists.", Default)

  /** What `initializeGovernance` does before anything is sent. */
  datatype InitOutcome =
    | Refused(toast: ToastType)
    | Send(govStatePda: PublicKey, admin: PublicKey, data: seq<byte>)

  /**
   * `initializeGovernance()` up to the send: the wallet guard, the
   * governance-state PDA, and the existence check on that account
   * (`govStateExists` is whether `getAccountInfo` found it).
   */
  function InitializeGovernance(wallet: Option<PublicKey>, derive: Derivation, govStateSeed: seq<byte>,
                                programId: PublicKey, govStateExists: bool): (r: InitOutcome)
    ensures wallet.None? ==> r == Refused(WALLET_NOT_CONNECTED)
    ensures wallet.Some? && govStateExists ==> r == Refused(ALREADY_INITIALIZED)
    ensures r.Send? <==> wallet.Some? && !govStateExists
    ensures r.Send? ==> r.admin == wallet.value && r.data == INITIALIZE_GOV_DISCRIMINATOR
                        && r.govStatePda == FindProgramAddress(derive, govStateSeed, programId, []).0
  {
    match wallet
    case None => Refused(WALLET_NOT_CONNECTED)
    case Some(admin) =>
      var (govStatePda, _) := FindProgramAddress(derive, govStateSeed, programId, []);
      if govStateExists then Refused(ALREADY_INITIALIZED)
      else Send(govStatePda, admin, INITIALIZE_GOV_DISCRIMINATOR)
  }

  /** The toast posted once the send settles: success, or the parsed governance error. */
  function InitSettledToast(table: GovernanceErrors.ErrorTable, failure: Option<TxError>): (t: ToastType)
    ensures failure.None? ==> t.variant == Default
    ensures failure.Some? ==> t.variant == Destructive
                              && t.description == GovernanceErrors.GovernanceErrorMessage(table, failure.value)
  {
    match failure
    case None => ToastType("Governance Initialized", "Successfully created the governance state account.", Default)
    case Some(err) =>
      var message := GovernanceErrors.GovernanceErrorMessage(table, err);
      ToastType("Error Initializing Governance", if message != "" then message else GovernanceErrors.UNKNOWN_ERROR, Destructive)
  }
}
