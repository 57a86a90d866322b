/**
 * components/stake-sol.tsx: the stake panel. Its guards (minimum stake,
 * wallet balance, stake status), which actions it offers for each status,
 * its three busy flags, and the toasts it posts.
 */
module StakePanel {
  import opened Wrappers
  import opened Bytes
  import opened Types
  import opened Toasts
  import Staking

  /** `LAMPORTS_PER_SOL` from the Solana client library. */
  const LAMPORTS_PER_SOL: nat := 1_000_000_000

  const BELOW_MINIMUM: ToastType := ToastType("Error", "You must stake at least 1 SOL", Destructive)
  const INSUFFICIENT_FUNDS: ToastType := ToastType("Error", "Insufficient funds in your wallet", Destructive)
  const UNSTAKE_REQUESTED: ToastType :=
    ToastType("Success", "Unstake requested. Funds will be available after a 5-minute cooldown period.", Default)
  const CLAIMED: ToastType := ToastType("Success", "Successfully claimed unstaked SOL", Default)

  function StakedToast(amount: string): ToastType
  {
    ToastType("Success", "Staked " + amount + " SOL successfully", Default)
  }

  /** The toast the error effect posts for the hook's `error`. */
  function ErrorToast(error: string): ToastType
  {
    ToastType("Error", error, Destructive)
  }

  // -------------------------------------------------------------- guards

  /**
   * How `handleStake` ends before its hook call: it returns early, posts a
   * refusal, goes on to stake, or its promise rejects because a bn.js call
   * threw (an unhandled rejection: no toast, no busy flag).
   */
  datatype StakeCheck = Ignored | Rejected(toast: ToastType) | Thrown | Proceed(lamports: int)

  /**
   * `new BN(n)` for a JavaScript number asserts that |n| is below 2^53, so
   * `convertSolToLamports` throws for an amount that large.
   */
  predicate BnConstructible(lamports: int)
  {
    -(Staking.SAFE_LIMIT as int) < lamports < Staking.SAFE_LIMIT
  }

  /**
   * `handleStake`'s guards, in order, with the comparisons made on the
   * values as intended. `lamports` is `Math.floor(Number(amount) * LAMPORTS_PER_SOL)`,
   * None when the text is not a number; a negative amount is below the minimum.
   */
  function CheckStake(amount: string, lamports: Option<int>, walletConnected: bool, balance: nat): (r: StakeCheck)
    ensures r.Ignored? <==> amount == "" || lamports.None? || !walletConnected
    ensures r.Thrown? <==> !r.Ignored? && !BnConstructible(lamports.value)
    ensures r == Rejected(BELOW_MINIMUM) <==> !r.Ignored? && BnConstructible(lamports.value) && lamports.value < LAMPORTS_PER_SOL
    ensures r == Rejected(INSUFFICIENT_FUNDS) <==>
              !r.Ignored? && BnConstructible(lamports.value) && LAMPORTS_PER_SOL <= lamports.value && lamports.value > balance
    ensures r.Proceed? <==> !r.Ignored? && LAMPORTS_PER_SOL <= lamports.value <= balance && lamports.value < Staking.SAFE_LIMIT
    ensures r.Proceed? ==> r.lamports == lamports.value
  {
    if amount == "" || lamports.None? || !walletConnected then Ignored
    else if !BnConstructible(lamports.value) then Thrown
    else if lamports.value < LAMPORTS_PER_SOL then Rejected(BELOW_MINIMUM)
    else if lamports.value > balance then Rejected(INSUFFICIENT_FUNDS)
    else Proceed(lamports.value)
  }

  /**
   * bn.js `cmp` handed a plain JavaScript number, as `lt` and `gt` are at
   * components/stake-sol.tsx:68, 78 and 202. `cmp` first compares sign flags,
   * and a number has no `negative` field: `undefined !== 0`, so every
   * non-negative BN compares as the greater, whatever the two values are.
   * For a negative BN `cmp` goes on to `ucmp`, which reads the number's
   * `words` and throws (None).
   */
  function CmpNumber(bn: int, n: nat): (r: Option<int>)
    ensures r.None? <==> bn < 0
    ensures r.Some? ==> -1 <= r.value <= 1
  {
    if bn < 0 then None else Some(1)
  }

  /**
   * `handleStake`'s guards as written: `new BN` in `convertSolToLamports`,
   * then `amountLamports.lt(LAMPORTS_PER_SOL)` and `amountLamports.gt(walletBalance)`
   * through `CmpNumber`.
   */
  function CheckStakeAsWritten(amount: string, lamports: Option<int>, walletConnected: bool, balance: nat): (r: StakeCheck)
    ensures r.Ignored? <==> amount == "" || lamports.None? || !walletConnected
    ensures r.Thrown? <==> !r.Ignored? && (lamports.value < 0 || !BnConstructible(lamports.value))
  {
    if amount == "" || lamports.None? || !walletConnected then Ignored
    else if !BnConstructible(lamports.value) then Thrown
    else
      var l := lamports.value;
      match CmpNumber(l, LAMPORTS_PER_SOL)
      case None => Thrown
      case Some(below) =>
        if below == -1 then Rejected(BELOW_MINIMUM)
        else
          match CmpNumber(l, balance)
          case None => Thrown
          case Some(above) => if above == 1 then Rejected(INSUFFICIENT_FUNDS) else Proceed(l)
  }

  /**
   * As written, every amount that gets past the first guard is refused for
   * insufficient funds or makes the handler throw: an affordable amount the
   * intended guards let through is refused, and a negative one, which they
   * refuse as below the minimum, throws.
   */
  lemma EveryStakeRefusedAsWritten(amount: string, lamports: Option<int>, balance: nat)
    requires amount != "" && lamports.Some?
    ensures 0 <= lamports.value < Staking.SAFE_LIMIT ==>
              CheckStakeAsWritten(amount, lamports, true, balance) == Rejected(INSUFFICIENT_FUNDS)
    ensures lamports.value < 0 ==> CheckStakeAsWritten(amount, lamports, true, balance) == Thrown
    ensures LAMPORTS_PER_SOL <= lamports.value <= balance && lamports.value < Staking.SAFE_LIMIT ==>
              CheckStake(amount, lamports, true, balance).Proceed?
    ensures BnConstructible(lamports.value) && lamports.value < 0 ==>
              CheckStake(amount, lamports, true, balance) == Rejected(BELOW_MINIMUM)
  {
  }

  /** `handleRequestUnstake`'s guard: it passes exactly for a record whose on-chain status byte is 1 (staked). */
  predicate CanRequestUnstake(walletConnected: bool, userStake: Option<Staking.UserStakeData>): (r: bool)
    ensures r <==> walletConnected && userStake.Some? && Staking.StatusByte(userStake.value.status) == 1
  {
    walletConnected && userStake.Some? && userStake.value.status == Staked
  }

  /** `handleClaimUnstake`'s guard: it passes exactly for a record whose on-chain status byte is 2 (cooldown). */
  predicate CanClaim(walletConnected: bool, userStake: Option<Staking.UserStakeData>): (r: bool)
    ensures r <==> walletConnected && userStake.Some? && Staking.StatusByte(userStake.value.status) == 2
  {
    walletConnected && userStake.Some? && userStake.value.status == Cooldown
  }

  /**
   * The amount input and the stake button are rendered for no record or an
   * unstaked one: exactly when neither other action is offered.
   */
  predicate ShowsStakeInput(userStake: Option<Staking.UserStakeData>): (r: bool)
    ensures r <==> !CanRequestUnstake(true, userStake) && !CanClaim(true, userStake)
  {
    userStake.None? || userStake.value.status == Unstaked
  }

  /**
   * The stake button's `disabled` expression with the comparison read as
   * intended. Its last disjunct calls `convertSolToLamports` once the amount
   * is at least 1 SOL, so evaluating it during render throws (None) for an
   * amount past `new BN`'s range.
   */
  function StakeButtonDisabled(amount: string, lamports: Option<int>, isStaking: bool, balance: nat): (r: Option<bool>)
    ensures r.None? <==>
              amount != "" && !isStaking && CheckStake(amount, lamports, true, balance).Thrown? && lamports.value >= LAMPORTS_PER_SOL
    ensures r.Some? ==> (r.value <==> isStaking || !CheckStake(amount, lamports, true, balance).Proceed?)
  {
    if amount == "" || isStaking || lamports.None? || lamports.value < LAMPORTS_PER_SOL then Some(true)
    else if !BnConstructible(lamports.value) then None
    else Some(lamports.value > balance)
  }

  /** The stake button's `disabled` expression as written, with `.gt(walletBalance)` going through `CmpNumber`. */
  function StakeButtonDisabledAsWritten(amount: string, lamports: Option<int>, isStaking: bool, balance: nat): Option<bool>
  {
    if amount == "" || isStaking || lamports.None? || lamports.value < LAMPORTS_PER_SOL then Some(true)
    else if !BnConstructible(lamports.value) then None
    else
      match CmpNumber(lamports.value, balance)
      case None => None
      case Some(c) => Some(c == 1)
  }

  /**
   * As written, the stake button is never enabled: it is disabled for every
   * amount and balance, or its render throws exactly where the intended one does.
   */
  lemma StakeButtonNeverEnabledAsWritten(amount: string, lamports: Option<int>, isStaking: bool, balance: nat)
    ensures StakeButtonDisabledAsWritten(amount, lamports, isStaking, balance) != Some(false)
    ensures StakeButtonDisabledAsWritten(amount, lamports, isStaking, balance).None?
            <==> StakeButtonDisabled(amount, lamports, isStaking, balance).None?
    ensures lamports.Some? && amount != "" && !isStaking && LAMPORTS_PER_SOL <= lamports.value <= balance
            && lamports.value < Staking.SAFE_LIMIT
            ==> StakeButtonDisabled(amount, lamports, isStaking, balance) == Some(false)
  {
  }

  /** The claim button's `disabled` expression. */
  predicate ClaimButtonDisabled(isClaiming: bool, cooldownRemaining: Option<string>)
  {
    isClaiming || cooldownRemaining.Some?
  }

  /** An enabled stake button always gets past every guard; a disabled one that is not busy never does. */
  lemma StakeButtonMatchesGuards(amount: string, lamports: Option<int>, isStaking: bool, balance: nat)
    ensures StakeButtonDisabled(amount, lamports, isStaking, balance) == Some(false)
            ==> CheckStake(amount, lamports, true, balance) == Proceed(lamports.value)
    ensures !isStaking && StakeButtonDisabled(amount, lamports, isStaking, balance) == Some(true)
            ==> !CheckStake(amount, lamports, true, balance).Proceed?
  {
  }

  /** Exactly one of stake, request-unstake and claim is offered for each stake record. */
  lemma OneActionPerStatus(userStake: Option<Staking.UserStakeData>)
    ensures ShowsStakeInput(userStake) || CanRequestUnstake(true, userStake) || CanClaim(true, userStake)
    ensures !(ShowsStakeInput(userStake) && CanRequestUnstake(true, userStake))
    ensures !(ShowsStakeInput(userStake) && CanClaim(true, userStake))
    ensures !(CanRequestUnstake(true, userStake) && CanClaim(true, userStake))
  {
  }

  /**
   * The cooldown effect shows the hook's countdown for a record in cooldown,
   * so the claim button opens (when no claim is running) exactly when the
   * five-minute cooldown has elapsed, and never when its end is past the
   * last instant a `Date` holds.
   */
  lemma ClaimOpensWhenCooldownEnds(u: Staking.UserStakeData, now: int)
    requires u.status == Cooldown && u.cooldownStart < Staking.SAFE_LIMIT
    ensures var shown := Staking.GetCooldownRemaining(Some(u), now);
            var ends := u.cooldownStart + Staking.COOLDOWN_SECONDS;
            shown.Success? && (!ClaimButtonDisabled(false, shown.value) <==> ends <= Staking.DATE_LIMIT_SECONDS && now >= ends)
  {
  }

  // ------------------------------------------------ after the hook returns

  /**
   * The toasts a handler posts once its hook call resolves, as written:
   * the hook swallows every error, so the `await` always resolves and the
   * success toast follows whatever happened to the transaction.
   */
  function SettledToastsAsWritten(success: ToastType, failure: Option<string>): (r: seq<ToastType>)
    ensures r == [success]
  {
    [success]
  }

  /**
   * A failed request-unstake or claim is still announced as a success:
   * together with the error effect the user gets the success notice and then
   * the error toast, where the intended handler posts only the error. The
   * stake handler has the same shape, but as written no stake gets past its
   * guard (EveryStakeRefusedAsWritten).
   */
  lemma FailureAnnouncedAsSuccess(error: string)
    ensures SettledToastsAsWritten(UNSTAKE_REQUESTED, Some(error)) + [ErrorToast(error)] == [UNSTAKE_REQUESTED, ErrorToast(error)]
    ensures SettledToastsAsWritten(CLAIMED, Some(error)) + [ErrorToast(error)] == [CLAIMED, ErrorToast(error)]
    ensures SettledToastsAsWritten(UNSTAKE_REQUESTED, Some(error)) != SettledToasts(UNSTAKE_REQUESTED, Some(error))
    ensures SettledToastsAsWritten(CLAIMED, Some(error)) != SettledToasts(CLAIMED, Some(error))
  {
  }

  /** The toasts as intended: the success toast only when the hook reported no error. */
  function SettledToasts(success: ToastType, failure: Option<string>): (r: seq<ToastType>)
    ensures |r| <= 1
    ensures success in r <==> failure.None?
  {
    if failure.None? then [success] else []
  }

  /** Together with the error effect, each settled call posts exactly one toast that matches its outcome. */
  lemma OutcomeAnnouncedOnce(success: ToastType, failure: Option<string>)
    requires success.variant == Default
    ensures var posted := SettledToasts(success, failure) + (if failure.Some? then [ErrorToast(failure.value)] else []);
            |posted| == 1
            && (posted[0] == success <==> failure.None?)
            && (posted[0].variant == Destructive <==> failure.Some?)
  {
  }

  // --------------------------------------------------------------- panel

  class StakePanelState {
    const toaster: ToastProvider
    var amount: string
    var isStaking: bool
    var isUnstaking: bool
    var isClaiming: bool

    constructor(toaster: ToastProvider)
      ensures this.toaster == toaster
      ensures amount == "" && !isStaking && !isUnstaking && !isClaiming
    {
      this.toaster := toaster;
      amount := "";
      isStaking := false;
      isUnstaking := false;
      isClaiming := false;
    }

    /** The error effect: a new hook error becomes a destructive toast. */
    method ShowError(error: Option<string>)
      modifies toaster
      ensures error.Some? ==> toaster.toasts == old(toaster.toasts) + [ErrorToast(error.value)]
      ensures error.None? ==> toaster.toasts == old(toaster.toasts)
    {
      if error.Some? {
        toaster.Toast(ErrorToast(error.value));
      }
    }

    /**
     * `handleStake` up to the hook call, with its guards as written: a
     * rejected amount posts its toast, an accepted one raises `isStaking`,
     * and a throw leaves the panel as it was.
     */
    method BeginStake(lamports: Option<int>, walletConnected: bool, balance: nat) returns (r: StakeCheck)
      modifies this, toaster
      ensures r == CheckStakeAsWritten(old(amount), lamports, walletConnected, balance)
      ensures amount == old(amount) && isUnstaking == old(isUnstaking) && isClaiming == old(isClaiming)
      ensures r.Proceed? ==> isStaking && toaster.toasts == old(toaster.toasts)
      ensures r.Rejected? ==> isStaking == old(isStaking) && toaster.toasts == old(toaster.toasts) + [r.toast]
      ensures r.Ignored? || r.Thrown? ==> isStaking == old(isStaking) && toaster.toasts == old(toaster.toasts)
    {
      r := CheckStakeAsWritten(amount, lamports, walletConnected, balance);
      if r.Rejected? {
        toaster.Toast(r.toast);
      }
      isStaking := isStaking || r.Proceed?;
    }

    /**
     * `handleStake` after the hook call. The hook resolves whether or not its
     * transaction failed (`failure` is the error it recorded), so the success
     * toast is posted and the amount cleared on every path, and `isStaking` drops.
     */
    method FinishStake(failure: Option<string>)
      modifies this, toaster
      ensures !isStaking && isUnstaking == old(isUnstaking) && isClaiming == old(isClaiming)
      ensures toaster.toasts == old(toaster.toasts) + SettledToastsAsWritten(StakedToast(old(amount)), failure)
      ensures amount == ""
    {
      toaster.Toast(StakedToast(amount));
      amount := "";
      isStaking := false;
    }

    /** `handleRequestUnstake` up to the hook call. */
    method BeginUnstake(walletConnected: bool, userStake: Option<Staking.UserStakeData>) returns (proceed: bool)
      modifies this
      ensures proceed == CanRequestUnstake(walletConnected, userStake)
      ensures isUnstaking == (old(isUnstaking) || proceed)
      ensures amount == old(amount) && isStaking == old(isStaking) && isClaiming == old(isClaiming)
    {
      proceed := CanRequestUnstake(walletConnected, userStake);
      if proceed {
        isUnstaking := true;
      }
    }

    /** `handleRequestUnstake` after the hook call: the notice follows every call, failed or not. */
    method FinishUnstake(failure: Option<string>)
      modifies this, toaster
      ensures !isUnstaking && amount == old(amount) && isStaking == old(isStaking) && isClaiming == old(isClaiming)
      ensures toaster.toasts == old(toaster.toasts) + SettledToastsAsWritten(UNSTAKE_REQUESTED, failure)
    {
      toaster.Toast(UNSTAKE_REQUESTED);
      isUnstaking := false;
    }

    /** `handleClaimUnstake` up to the hook call. */
    method BeginClaim(walletConnected: bool, userStake: Option<Staking.UserStakeData>) returns (proceed: bool)
      modifies this
      ensures proceed == CanClaim(walletConnected, userStake)
      ensures isClaiming == (old(isClaiming) || proceed)
      ensures amount == old(amount) && isStaking == old(isStaking) && isUnstaking == old(isUnstaking)
    {
      proceed := CanClaim(walletConnected, userStake);
      if proceed {
        isClaiming := true;
      }
    }

    /** `handleClaimUnstake` after the hook call: the notice follows every call, failed or not. */
    method FinishClaim(failure: Option<string>)
      modifies this, toaster
      ensures !isClaiming && amount == old(amount) && isStaking == old(isStaking) && isUnstaking == old(isUnstaking)
      ensures toaster.toasts == old(toaster.toasts) + SettledToastsAsWritten(CLAIMED, failure)
    {
      toaster.Toast(CLAIMED);
      isClaiming := false;
    }
  }
}
