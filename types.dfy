/** The shared types, error table and constants of the staking program's client. */
module Types {
  import opened Bytes
  import opened Text

  /** `StakeStatus`: "unstaked" | "staked" | "cooldown". */
  datatype StakeStatus = Unstaked | Staked | Cooldown

  /** One entry of a program's error table: `{ name, msg }`. */
  datatype ErrorEntry = ErrorEntry(name: string, msg: string)

  /** The staking program's custom error codes and their messages. */
  const STAKING_ERRORS: map<nat, ErrorEntry> := map[
    6000 := ErrorEntry("BelowMinimumStake", "Stake amount is below the minimum of 1 SOL."),
    6001 := ErrorEntry("AlreadyStaked", "Already staked."),
    6002 := ErrorEntry("NotStaked", "Not currently staked."),
    6003 := ErrorEntry("NotInCooldown", "Not in cooldown."),
    6004 := ErrorEntry("CooldownNotElapsed", "Cooldown period not elapsed."),
    6005 := ErrorEntry("InvalidVault", "Vault PDA is incorrect.")
  ]

  /** `Buffer.from("vault")` and `Buffer.from("user-stake")`. */
  const VAULT_SEED: seq<byte> := Utf8("vault")
  const USER_STAKE_SEED: seq<byte> := Utf8("user-stake")

  /** 1 SOL in lamports. */
  const MINIMUM_STAKE_AMOUNT: nat := 1_000_000_000

  /** The table holds exactly the contiguous codes 6000 to 6005, and each has a message. */
  lemma StakingErrorCodes()
    ensures forall c: nat :: c in STAKING_ERRORS <==> 6000 <= c <= 6005
    ensures forall c :: c in STAKING_ERRORS ==> STAKING_ERRORS[c].msg != ""
    ensures STAKING_ERRORS[6000] == ErrorEntry("BelowMinimumStake", "Stake amount is below the minimum of 1 SOL.")
  {
  }

  /** The seeds are the ASCII bytes of "vault" and "user-stake". */
  lemma SeedBytes()
    ensures VAULT_SEED == [118, 97, 117, 108, 116]
    ensures USER_STAKE_SEED == [117, 115, 101, 114, 45, 115, 116, 97, 107, 101]
  {
    Utf8Ascii("vault");
    Utf8Ascii("user-stake");
  }
}
