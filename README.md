# Staking and governance front-end: a Dafny model

This project models the client-side logic of a Solana dApp front-end. The front-end talks to two on-chain programs:

- A **staking program**. A user stakes SOL, requests an unstake, waits out a five-minute cooldown and claims.
- A **governance program**. An admin initialises a governance state, users create proposals with options, and users vote.

The front-end writes the programs' instruction data by hand and decodes their accounts by hand. Both use the Borsh layout that Anchor programs use:

- an 8-byte discriminator;
- little-endian integers;
- u32 length prefixes for strings and vectors.

It also maps program errors found in transaction logs to messages. It keeps small pieces of UI state: the proposal form's option list, the stake panel's busy flags and the toast list.

The model covers, per source file:

- **components/vote-on-proposal.tsx** (modules `ProposalView`, `ProposalList`):
  - the Proposal account decoder `parseProposalData`, as a cursor-walking method proved equal to a layout function;
  - the time-remaining label and the active flag;
  - the fetch / filter / stable newest-first sort;
  - selection by key, the per-option vote count and percentage, and the vote guard.
- **hooks/use-create-proposal.ts** (module `CreateProposalHook`):
  - `serializeString` and `serializeStringVec`;
  - the create-proposal payload and its decoding by the program (round trip);
  - the proposal counter re-encoded as the PDA seed;
  - the steps of `createProposal` up to the built instruction.
- **hooks/useStaking.ts** (module `Staking`):
  - the PDAs;
  - `parseUserStakeData`, as a method over its layout function, with a round trip against the program's layout;
  - the three instruction payloads and their decoding;
  - the error-code mapping;
  - `getCooldownRemaining`.
- **hooks/use-vote.ts**, **hooks/use-initialize-governance.ts** (modules `VoteHook`, `InitializeGovernanceHook`, `GovernanceErrors`, `GovernanceInstructions`):
  - the payloads and the guards before sending;
  - the settle toasts;
  - the shared `parseGovernanceError`, and how the create-proposal copy of it differs.
- **types/index.ts** (module `Types`): `StakeStatus`, the `STAKING_ERRORS` table, the seeds and the minimum stake.
- **components/create-proposal.tsx** (module `ProposalForm`): the form as a class with its add / remove / submit handlers.
- **components/stake-sol.tsx** (module `StakePanel`):
  - the stake guards and the action availability per status;
  - the busy flags and toasts, as a class over the toast provider.
- **components/ui/use-toast.tsx** (module `Toasts`): the toast list as a class, and `useToast`.
- **utils/pda.ts** (module `Pda`): the seed list handed to the address derivation.

Some helper modules hold the runtime behaviour the sources rely on:

- `Bytes`: Buffer bytes, `BN` little-endian conversion and the clamping `Buffer.slice`.
- `Borsh`: framing and cursor reads.
- `Text`: `includes`, digits, `String(n)`, `trim` and UTF-8 encoding.
- `ProgramLogs`: `logs.find` and the regular-expression capture.
- `Lists`: filter by index.
- `Wrappers`: Option and Result.

Where the project's written description and the code disagree, the model follows the code. Two examples:

- A truncated Proposal account is not rejected. Its missing vote and time bytes read as zero, because slices clamp.
- An unknown status byte reads as `unstaked` rather than being an error.

## Model

| member | source | states |
|---|---|---|
| Bytes.LeValueOfLeBytes | hooks/useStaking.ts:153 | a value below 256^n written as n little-endian bytes (`toArray("le", n)`) reads back (`new BN(buf, "le")`) as the same value |
| Bytes.LeBytesOfLeValue | hooks/use-create-proposal.ts:69-70 | reading at most n bytes as a BN and writing it back into n bytes gives those bytes followed by zero padding |
| Bytes.LeBytesOfLeValueExact | hooks/use-create-proposal.ts:69-70 | reading exactly n bytes and writing the value back into n bytes is the identity |
| Bytes.Slice | components/vote-on-proposal.tsx:42 | `Buffer.slice` never fails: within bounds it is exactly `data[start..end]`, otherwise its length is the clamped length (empty when start is past the end or end before start) |
| Text.DigitRun | hooks/use-vote.ts:17 | the greedy `[0-9a-fA-F]+` / `\d+` run: a prefix of digits that cannot be extended, non-empty when the text starts with a digit |
| Text.Dec | hooks/use-vote.ts:21 | `String(code)`: a non-empty decimal numeral with no leading zero |
| Text.ParseDec | hooks/useStaking.ts:182-184 | parsing the decimal numeral of n gives back n |
| Text.Trim | components/create-proposal.tsx:26 | `trim()` is empty exactly when the text has no visible character, and otherwise begins and ends with a visible character |
| Text.TrimIdempotent | components/create-proposal.tsx:27 | trimming an option that was already trimmed changes nothing |
| Text.Utf8 | hooks/use-create-proposal.ts:20 | the UTF-8 byte length lies between the character count and four times it, and equals the character count exactly for ASCII text |
| Text.Utf8Ascii | types/index.ts:49-50 | `Buffer.from` of an ASCII string gives one byte per character, its code |
| ProgramLogs.FirstContaining | hooks/use-vote.ts:15-16 | `find` gives the first log line containing the marker: no earlier line contains it, and None exactly when no line does |
| ProgramLogs.FindLine | hooks/useStaking.ts:180-181 | a line is found exactly when the logs exist and one of them contains the marker, and that line contains it |
| ProgramLogs.Capture | hooks/use-vote.ts:17 | a capture is a non-empty run of digits that follows the marker in the line; a line without the marker captures nothing |
| ProgramLogs.CaptureAtStart | hooks/use-vote.ts:17 | marker, digits, then a non-digit: the capture is exactly those digits |
| ProgramLogs.CaptureSkipsPrefix | hooks/use-create-proposal.ts:34 | the match is leftmost: text before the first position where the pattern matches does not change the capture |
| Lists.WithoutIndex | components/ui/use-toast.tsx:30 | `filter((_, i) => i !== index)` removes exactly the element at an index in range and leaves the list unchanged for any other index |
| Lists.WithoutIndexShape | components/create-proposal.tsx:34 | removing an index in range shortens the list by one, keeps the elements before it and shifts the later ones down by one, in order |
| Lists.WithoutAppended | components/ui/use-toast.tsx:25-31 | removing the toast just appended gives back the list as it was |
| Types.StakingErrorCodes | types/index.ts:13-38 | `STAKING_ERRORS` holds exactly the codes 6000 to 6005, each with a message, and 6000 is BelowMinimumStake with its message |
| Types.SeedBytes | types/index.ts:49-50 | `VAULT_SEED` and `USER_STAKE_SEED` are the ASCII bytes of "vault" and "user-stake" |
| Pda.SeedBytes | utils/pda.ts:18-22 | a public-key seed always contributes exactly 32 bytes |
| Pda.SeedList | utils/pda.ts:16-24 | the seed list has 1 + extras entries, starts with the prefix, and holds each extra seed's bytes in argument order |
| Pda.SameSeedBytesSameAddress | utils/pda.ts:25 | with derivation a function, argument lists whose seeds have the same bytes give the same address and bump |
| Borsh.LengthPrefixed | hooks/use-create-proposal.ts:19-24 | a serialized string is 4 + its byte length long, and the bytes after the prefix are the string's |
| Borsh.ReadU32 | components/vote-on-proposal.tsx:40 | `readUInt32LE` succeeds exactly when four bytes remain at the cursor, with a value below 2^32 |
| Borsh.ReadPrefixed | components/vote-on-proposal.tsx:40-43 | a length-prefixed read fails exactly when the length field does not fit in the buffer (the clamped slice itself never fails) |
| Borsh.ReadPrefixedItems | components/vote-on-proposal.tsx:53-58 | reading count strings gives count strings, and the cursor advances at least 4 bytes per string |
| Borsh.ReadPrefixedItemsFailureStays | components/vote-on-proposal.tsx:53-58 | once a length read inside the options loop fails, the whole loop fails (the parser's catch returns null) |
| Borsh.ReadPrefixedItemsStops | components/vote-on-proposal.tsx:54 | a failing length read after k successful options fails the run of all count options |
| Borsh.ReadPrefixedItemsStep | components/vote-on-proposal.tsx:54-57 | one more successful string read extends the options read so far by that string and moves the cursor past it |
| Borsh.U64At | components/vote-on-proposal.tsx:65 | `new BN(data.slice(off, off + 8), "le")` never fails and is below 2^64 |
| Borsh.ReadU64Items | components/vote-on-proposal.tsx:64-69 | the votes loop reads exactly count values |
| Borsh.ReadU64ItemAt | components/vote-on-proposal.tsx:64-69 | the i-th vote is the u64 at eight times i bytes past the start of the votes |
| Borsh.ReadStringVecOf | components/vote-on-proposal.tsx:50-58 | a string vector is its u32 count followed by that many length-prefixed strings |
| Borsh.ReadU32Framed | hooks/use-create-proposal.ts:27-28 | a u32 written little-endian (`writeUInt32LE`) is read back by `readUInt32LE` where it was written |
| Borsh.ReadPrefixedFramed | hooks/use-create-proposal.ts:19-24 | reading a `serializeString` output with the parser's length-prefixed read gives back the bytes and consumes exactly 4 + length |
| Borsh.ReadPrefixedItemsFramed | hooks/use-create-proposal.ts:29 | serialized strings written one after another are read back in order, ending exactly after the last |
| Borsh.U64AtFramed | hooks/useStaking.ts:71 | a u64 written as 8 little-endian bytes is read back where it was written, whatever surrounds it |
| Borsh.ReadU64ItemsFramed | components/vote-on-proposal.tsx:64-69 | u64 values written one after another are read back in order |
| CreateProposalHook.SerializeString | hooks/use-create-proposal.ts:19-24 | `serializeString` is the u32 LE UTF-8 byte length followed by exactly those bytes, and its prefix reads back as the byte length; it fails (`writeUInt32LE` throws) exactly when the length needs more than 32 bits |
| CreateProposalHook.SerializeEach | hooks/use-create-proposal.ts:29 | `vec.map(serializeString)` concatenated is each element serialized in order, and fails exactly when some element is too long |
| CreateProposalHook.SerializeStringVec | hooks/use-create-proposal.ts:26-30 | `serializeStringVec` is the u32 LE element count followed by each element serialized, in the original order |
| CreateProposalHook.CreateProposalPayload | hooks/use-create-proposal.ts:74-79 | the payload is the create-proposal discriminator, heading, description and options, in that order, and exists exactly when each part can be serialized |
| CreateProposalHook.DecodeProposalWire | hooks/use-create-proposal.ts:74-79 | decoding the create-proposal wire layout gives back the heading, description and options it was built from, with nothing left over |
| CreateProposalHook.CreateProposalRoundTrip | hooks/use-create-proposal.ts:74-79 | the program reads back exactly the UTF-8 of the heading, description and options the hook encoded |
| CreateProposalHook.SerializedStringLength | hooks/use-create-proposal.ts:20-22 | a serialized string is sized by UTF-8 bytes: between 4 + characters and 4 + 4 * characters |
| CreateProposalHook.ProposalCountSeed | hooks/use-create-proposal.ts:69-71 | the count re-encoded as 8 LE bytes has the count's value, is the identity on bytes 8..16 when they are there, and zero-pads a short account |
| CreateProposalHook.CreateProposal | hooks/use-create-proposal.ts:48-79 | no wallet stops it; a missing governance state fails with "Governance state not found. Initialize governance first." before any payload is built; with a wallet and a state, the instruction is built exactly when the payload serializes (`PayloadTooLong` otherwise); its data is that payload and decodes to the UTF-8 of the heading, description and options, the governance-state PDA is the one derived from its seed alone, and the proposal PDA is seeded with the re-encoded count |
| GovernanceErrors.HexCode | hooks/use-vote.ts:15-17 | the captured code is a non-empty run of hex digits |
| GovernanceErrors.GovernanceErrorMessage | hooks/use-vote.ts:14-24 | the parser never returns an empty message |
| GovernanceErrors.LoggedCodeMessage | hooks/use-vote.ts:14-22 | for logs whose first line holding the marker reads `<pre>custom program error: 0x<hex><rest>`: the table message of the code when the table has a non-empty one, otherwise "Unknown governance error code: <code> (0x<hex>)", whatever the error message and the later lines |
| GovernanceErrors.UnknownCodeIsShown | hooks/use-initialize-governance.ts:20-22 | an unknown code gives a message containing both its decimal value and the hex digits as logged |
| GovernanceErrors.NoCodeInLogs | hooks/use-vote.ts:15-24 | with no logs, or no log line holding "custom program error: 0x", the error's own message is shown by both parsers when it is non-empty; without one both fall back to "An unknown error occurred", except that the create-proposal copy (`??`) shows an empty message as empty |
| GovernanceErrors.ParsersAgree | hooks/use-create-proposal.ts:33-40 | the create-proposal copy of the parser agrees with the vote / init copy when the coded line begins with the marker, table messages are non-empty and the error message is not empty |
| GovernanceErrors.CreateProposalErrorMessage | hooks/use-create-proposal.ts:33-40 | the create-proposal copy of the parser returns an empty message only when the error's message is empty or the table holds an entry with an empty message |
| GovernanceErrors.CreateProposalLoggedCode | hooks/use-create-proposal.ts:34-38 | on `<pre>custom program error: 0x<hex><rest>` with no "0x" earlier in the line: the table entry's message whenever the code is in the table, even an empty one (where the other copy reports the code as unknown), otherwise the unknown-code message |
| GovernanceErrors.EarlierHexIsCaptured | hooks/use-create-proposal.ts:34 | the create-proposal copy matches `/0x([0-9a-fA-F]+)/` anywhere in the line: on "0xff custom program error: 0x<hex>" it reads code 255, while the other copy reads <hex> |
| GovernanceInstructions.InitPayloadDecodes | hooks/use-initialize-governance.ts:69 | the init payload is exactly the init instruction with no arguments |
| GovernanceInstructions.VotePayloadDecodes | hooks/use-vote.ts:59-62 | the vote payload is a vote for the option index modulo 256, and for the index itself below 256 |
| GovernanceInstructions.VoteIndexWraps | hooks/use-vote.ts:61 | `Buffer.from([optionIndex])` keeps one byte: index 256 gives the same payload as index 0 |
| GovernanceInstructions.CreateProposalPayloadDecodes | hooks/use-create-proposal.ts:74-79 | the create-proposal payload dispatches to the create-proposal instruction carrying the UTF-8 of its strings |
| VoteHook.VotePayload | hooks/use-vote.ts:59-62 | the vote payload is 9 bytes: the vote discriminator, then the option index as one byte |
| VoteHook.Vote | hooks/use-vote.ts:38-53 | no wallet: the "Wallet not connected" toast; wallet but no proposal: the "Proposal not selected" toast; an instruction is built exactly when both are there, with the vote payload |
| VoteHook.VoteSettledToast | hooks/use-vote.ts:83-95 | success names the option index; failure shows the governance parser's message as a destructive toast |
| InitializeGovernanceHook.InitializeGovernance | hooks/use-initialize-governance.ts:34-69 | no wallet or an existing governance state builds nothing; otherwise the instruction data is exactly the initialize discriminator, for the derived governance-state PDA with the wallet as admin |
| InitializeGovernanceHook.InitSettledToast | hooks/use-initialize-governance.ts:81-93 | success is a default toast; failure shows the governance parser's message as a destructive toast |
| Toasts.ToastProvider.constructor | components/ui/use-toast.tsx:23 | the toast list starts empty |
| Toasts.ToastProvider.Toast | components/ui/use-toast.tsx:25-27 | `toast(t)` appends t: the list grows by one and earlier entries are unchanged |
| Toasts.ToastProvider.RemoveToast | components/ui/use-toast.tsx:29-31 | `removeToast(i)` deletes exactly the entry at i, keeping the order of the rest; an index out of range changes nothing |
| Toasts.UseToast | components/ui/use-toast.tsx:54-60 | inside a provider, its context; outside, the error "useToast must be used within a ToastProvider" |
| ProposalForm.TrimmedIsVisible | components/create-proposal.tsx:26-27 | a new option with a visible character stays visible after trimming |
| ProposalForm.CreateProposalForm.constructor | components/create-proposal.tsx:20-23 | the form starts with empty heading, description and new option, and options ["Yes", "No"] |
| ProposalForm.CreateProposalForm.AddOption | components/create-proposal.tsx:25-30 | a visible new option is trimmed, appended and the input cleared while the list is below the maximum, otherwise nothing changes; the list never grows past the maximum and every option stays visible |
| ProposalForm.CreateProposalForm.RemoveOption | components/create-proposal.tsx:32-36 | with more than one option, exactly the option at the index is removed (an index out of range removes nothing); the last option is never removed, so the list never empties |
| ProposalForm.CreateProposalForm.Request | components/create-proposal.tsx:38-45 | the submit is rejected exactly when the heading or description is blank after trimming or the option count is 0 or above the maximum; otherwise the untrimmed fields are sent |
| ProposalForm.CreateProposalForm.Settle | components/create-proposal.tsx:45-51 | a returned signature resets the form to its initial state; no signature leaves it as it was |
| Staking.ErrorMessagesAgree | hooks/useStaking.ts:16-23 | the hook's `ERROR_MESSAGES` holds the same codes as `STAKING_ERRORS`, with the same messages |
| Staking.FindPdas | hooks/useStaking.ts:59-66 | nothing without a wallet; otherwise the user-stake and vault addresses from their seed lists, keeping the vault's bump |
| Staking.FindPdasSeedLists | hooks/useStaking.ts:62-63 | the seed lists are `["user-stake", userKey]` and `["vault", userKey]`, as `findProgramAddress` would build them |
| Staking.StatusAt | hooks/useStaking.ts:80-94 | byte 1 is staked, byte 2 is cooldown, anything else (including a missing byte) is unstaked |
| Staking.UserStakeLayout | hooks/useStaking.ts:68-97 | the three fields are u64 values; an account of at most 32 bytes is unstaked and one of at most 8 bytes reads as all zero |
| Staking.ParseUserStakeData | hooks/useStaking.ts:68-97 | the cursor walk computes exactly the layout (u64 fields at offsets 8, 16, 24, status at byte 32) and never throws |
| Staking.StatusByte | hooks/useStaking.ts:82-91 | the status byte the program writes reads back as the same status |
| Staking.EncodeUserStake | hooks/useStaking.ts:68-80 | the program's layout is 33 bytes before any trailing space |
| Staking.UserStakeRoundTrip | hooks/useStaking.ts:68-97 | decoding an account the program wrote gives back its fields, whatever its discriminator and trailing bytes |
| Staking.DiscriminatorIgnored | hooks/useStaking.ts:69 | the decoder does not check a discriminator: accounts that differ only in their first 8 bytes decode alike |
| Staking.UnknownStatusIsUnstaked | hooks/useStaking.ts:92-93 | a status byte above 2 reads as unstaked |
| Staking.StakePayload | hooks/useStaking.ts:153 | the stake payload is 16 bytes starting with the stake discriminator, and `toArray("le", 8)` fails exactly for an amount past u64 |
| Staking.ClaimPayload | hooks/useStaking.ts:235-247 | the claim payload is 9 bytes starting with the claim discriminator, and exists exactly when a vault bump is known |
| Staking.StakePayloadDecodes | hooks/useStaking.ts:153 | the stake payload decodes to a stake of the amount the hook was given |
| Staking.StartUnstakePayloadDecodes | hooks/useStaking.ts:209 | the start-unstake payload is the bare discriminator, an instruction without arguments |
| Staking.ClaimPayloadDecodes | hooks/useStaking.ts:244-247 | the claim payload decodes to a claim carrying the vault bump |
| Staking.MessageFor | hooks/useStaking.ts:184 | a known code gives its `ERROR_MESSAGES` entry and any other code "Transaction failed" |
| Staking.StakingErrorMessage | hooks/useStaking.ts:180-184 | as written, the message is always "Transaction failed" or one of the table's messages |
| Staking.StakingErrorMessageCorrected | hooks/useStaking.ts:180-184 | the corrected reading also gives "Transaction failed" or a table message |
| Staking.NoErrorLine | hooks/useStaking.ts:180-184 | with no logs, or no log line holding "custom program error", both readings give "Transaction failed" |
| Staking.DecimalPatternCapturesZero | hooks/useStaking.ts:182 | on a line with "custom program error: 0x…", the decimal pattern captures the lone "0" |
| Staking.HexCodeIsMisread | hooks/useStaking.ts:180-184 | as written, any code logged in hex gives "Transaction failed" |
| Staking.BelowMinimumStakeIsLost | hooks/useStaking.ts:180-184 | as written, the runtime's line for code 6000 (0x1770) gives "Transaction failed", though 6000 is in the table |
| Staking.HexCodeIsRead | hooks/useStaking.ts:180-184 | with the correction, a hex-logged code gives its table message |
| Staking.BelowMinimumStakeIsShown | hooks/useStaking.ts:180-184 | with the correction, the line for 0x1770 gives "Stake amount is below the minimum of 1 SOL." |
| Staking.CorrectionKeepsDecimal | hooks/useStaking.ts:182-184 | on a line with no hex code the correction reads exactly as the code as written |
| Staking.DecimalCodeIsRead | hooks/useStaking.ts:182-184 | a decimal code right after "custom program error: " gives its table message |
| Staking.StakeAction | hooks/useStaking.ts:142-153 | nothing without a wallet; an amount past u64 fails with "Transaction failed"; otherwise the sent data decodes to a stake of that amount by the wallet |
| Staking.StartUnstakeAction | hooks/useStaking.ts:192-209 | nothing without a wallet; otherwise the start-unstake instruction, and it never fails before sending |
| Staking.ClaimAction | hooks/useStaking.ts:234-247 | nothing without a wallet or a known bump; otherwise a claim carrying the bump |
| Staking.SettledError | hooks/useStaking.ts:178-184 | the hook's `error` is cleared exactly on success; on failure it is the message the catch block maps the error to as written: "Transaction failed" or a table message, and "Transaction failed" when no log line holds "custom program error" |
| Staking.BelowMinimumStakeSettlesAsFailed | hooks/useStaking.ts:180-184 | a stake the program refuses with code 6000, logged in hex, leaves the hook's `error` at "Transaction failed" |
| Staking.CooldownParts | hooks/useStaking.ts:298-300 | minutes and seconds satisfy seconds < 60 and minutes * 60 + seconds = remaining |
| Staking.CooldownPartsUnique | hooks/useStaking.ts:299-300 | that split is the only one with seconds below 60 |
| Staking.GetCooldownRemaining | hooks/useStaking.ts:290-303 | null unless the status is cooldown and the cooldown end is still ahead; a start time past `toNumber`'s range throws; an end past the last instant a `Date` holds (8.64e15 ms) is an Invalid Date, never "<= now", and reads "NaNm NaNs remaining"; otherwise "<m>m <s>s remaining" for the time left |
| Staking.CooldownBounds | hooks/useStaking.ts:293-296 | once cooling down with a valid end date, the countdown shows at most 5 minutes and is over exactly at start + 300 |
| Staking.InvalidDateNeverEnds | hooks/useStaking.ts:293-303 | a start time `toNumber` accepts whose end is past the last `Date` shows "NaNm NaNs remaining" at every instant |
| StakePanel.CheckStake | components/stake-sol.tsx:62-85 | the guards as intended: a missing amount, a non-number or no wallet does nothing; an amount whose lamport count is 2^53 or more in size makes `new BN` throw; below 1 SOL, a negative amount included, is refused with "You must stake at least 1 SOL"; above the balance with "Insufficient funds in your wallet"; otherwise the stake proceeds with that amount |
| StakePanel.EveryStakeRefusedAsWritten | components/stake-sol.tsx:62-85 | as written, with bn.js `lt` / `gt` handed plain numbers, every non-negative amount in `new BN`'s range past the first guard is refused with "Insufficient funds in your wallet", including an affordable one the intended guards let through, and a negative amount makes the handler throw where the intended guards refuse it as below the minimum |
| StakePanel.CanRequestUnstake | components/stake-sol.tsx:102-103 | `handleRequestUnstake` goes ahead exactly with a wallet and a record whose on-chain status byte is 1 (staked) |
| StakePanel.CanClaim | components/stake-sol.tsx:119-120 | `handleClaimUnstake` goes ahead exactly with a wallet and a record whose on-chain status byte is 2 (cooldown) |
| StakePanel.ShowsStakeInput | components/stake-sol.tsx:172-194 | the amount input and stake button are rendered exactly when neither request-unstake nor claim is offered |
| StakePanel.StakeButtonDisabled | components/stake-sol.tsx:197-203 | with the comparisons read as intended, the stake button is disabled exactly when a stake is running or `handleStake` would not proceed; its render throws exactly for an amount of at least 1 SOL whose lamports `new BN` cannot hold |
| StakePanel.StakeButtonNeverEnabledAsWritten | components/stake-sol.tsx:197-203 | as written, the stake button is never enabled for any amount, balance or busy flag (its render throws exactly where the intended one does), although the intended expression enables it for an affordable amount of at least 1 SOL |
| StakePanel.StakeButtonMatchesGuards | components/stake-sol.tsx:197-203 | an enabled stake button always passes `handleStake`'s guards, and a disabled one that is not busy never does |
| StakePanel.OneActionPerStatus | components/stake-sol.tsx:194-229 | for every stake record exactly one of stake, request-unstake and claim is offered |
| StakePanel.ClaimOpensWhenCooldownEnds | components/stake-sol.tsx:221-224 | in cooldown, the claim button (no claim running) is enabled exactly once the five-minute cooldown has elapsed, and never when the end is an Invalid Date |
| StakePanel.SettledToastsAsWritten | components/stake-sol.tsx:88-94 | as written, the success toast is the one toast posted after every hook call, failed or not |
| StakePanel.FailureAnnouncedAsSuccess | components/stake-sol.tsx:106-112 | as written, a failed request-unstake or claim posts its success toast followed by the error toast, which differs from the intended outcome |
| StakePanel.SettledToasts | components/stake-sol.tsx:88-94 | as intended, the success toast is posted exactly when the hook reported no error, and at most one toast |
| StakePanel.OutcomeAnnouncedOnce | components/stake-sol.tsx:52-60 | with the error effect, each settled call posts exactly one toast: success on success, destructive on failure |
| StakePanel.StakePanelState.constructor | components/stake-sol.tsx:28-32 | the amount starts empty and no busy flag is set |
| StakePanel.StakePanelState.ShowError | components/stake-sol.tsx:52-60 | one run of the error effect: a hook error appends a destructive "Error" toast with its message; no error posts nothing |
| StakePanel.StakePanelState.BeginStake | components/stake-sol.tsx:62-87 | the guards run as written: a refusal posts its toast, a proceeding stake sets `isStaking`, and a throw (a negative amount, or one `new BN` cannot hold) changes nothing; nothing else changes |
| StakePanel.StakePanelState.FinishStake | components/stake-sol.tsx:88-99 | as written: after every call, failed or not, "Staked <amount> SOL successfully" is posted, the amount is cleared and `isStaking` is false |
| StakePanel.StakePanelState.BeginUnstake | components/stake-sol.tsx:102-105 | request-unstake proceeds and sets `isUnstaking` only with a wallet and a record in the staked state |
| StakePanel.StakePanelState.FinishUnstake | components/stake-sol.tsx:106-116 | as written: after every call, failed or not, the cooldown notice is posted and `isUnstaking` is false |
| StakePanel.StakePanelState.BeginClaim | components/stake-sol.tsx:119-122 | claim proceeds and sets `isClaiming` only with a wallet and a record in cooldown |
| StakePanel.StakePanelState.FinishClaim | components/stake-sol.tsx:123-133 | as written: after every call, failed or not, the claimed notice is posted and `isClaiming` is false |
| ProposalView.SumAppend | components/vote-on-proposal.tsx:63-68 | adding one more vote count to the list adds it to `totalVotes` |
| ProposalView.ElementAtMostSum | components/vote-on-proposal.tsx:230 | no option's count exceeds the total |
| ProposalView.RemainingParts | components/vote-on-proposal.tsx:104-106 | days, hours below 24 and minutes below 60 account for the remaining time to within a minute |
| ProposalView.GetTimeRemaining | components/vote-on-proposal.tsx:98-112 | "Ended" exactly when no time remains; "< 1m left" exactly when less than a minute remains; otherwise days and hours, hours and minutes, or minutes, whichever is the largest non-zero unit |
| ProposalView.ReadStrings | components/vote-on-proposal.tsx:40-58 | the heading, description and options can be read only from an account of at least 44 bytes |
| ProposalView.BuildProposal | components/vote-on-proposal.tsx:74-91 | the total is the sum of the votes; active exactly when now <= createdAt + lifetime; the label counts down to that instant |
| ProposalView.ReadTail | components/vote-on-proposal.tsx:60-72 | a tail that is read has every vote and the creation time within `toNumber`'s range |
| ProposalView.DecodeProposal | components/vote-on-proposal.tsx:29-96 | a decoded proposal comes from an account of at least 44 bytes with the Proposal discriminator; its proposer is bytes 8..40, its key the account's, and its total the sum of its votes |
| ProposalView.DecodedActivity | components/vote-on-proposal.tsx:75-78 | a decoded proposal is active up to and including createdAt + lifetime, and reads "Ended" exactly when inactive or at that instant |
| ProposalView.ReadString | components/vote-on-proposal.tsx:40-43 | one `readUInt32LE`-then-slice step of the walk is the length-prefixed read |
| ProposalView.ReadOptions | components/vote-on-proposal.tsx:53-58 | the options loop reads the count of strings one after the other, or fails once a length does not fit |
| ProposalView.VotesStep | components/vote-on-proposal.tsx:64-68 | one more safe vote extends the votes read and the running total by that vote |
| ProposalView.UnsafeVoteSeen | components/vote-on-proposal.tsx:67 | a single vote at or above 2^53 makes the votes unreadable |
| ProposalView.ReadVotes | components/vote-on-proposal.tsx:62-69 | the votes loop gives the count of u64 values and their sum, with the cursor 8 bytes per vote further, or fails exactly when some vote is at or above 2^53 |
| ProposalView.ReadHeadingToOptions | components/vote-on-proposal.tsx:40-58 | the first part of the walk reads heading, description and options exactly as the layout says |
| ProposalView.ReadVotesAndCreatedAt | components/vote-on-proposal.tsx:60-72 | the last part of the walk reads the votes, their total and the creation time exactly as the layout says |
| ProposalView.ParseProposalData | components/vote-on-proposal.tsx:29-96 | the cursor walk returns exactly the decoded proposal (or null) of the layout |
| ProposalView.StringsRoundTrip | components/vote-on-proposal.tsx:37-58 | whatever follows the options, the heading, description and options written by the program are read back, and the cursor stops at the end of the options |
| ProposalView.TailRoundTrip | components/vote-on-proposal.tsx:60-72 | the votes and creation time written by the program are read back where they were written |
| ProposalView.ProposalRoundTrip | components/vote-on-proposal.tsx:29-96 | decoding an account the program wrote (plus any unused space) gives back its fields, with the sum of its votes, whenever votes and time are within `toNumber`'s range |
| ProposalView.UnsafeTailRejected | components/vote-on-proposal.tsx:67 | a vote count past `toNumber`'s range makes the tail unreadable |
| ProposalView.UnsafeVoteRejected | components/vote-on-proposal.tsx:65-67 | an account holding a vote at or above 2^53 is not listed at all |
| ProposalView.TruncatedTail | components/vote-on-proposal.tsx:64-72 | a vote count with nothing after it reads as that many zero votes and creation time 0 |
| ProposalView.TruncatedVotesReadAsZero | components/vote-on-proposal.tsx:60-72 | an account ending right after its vote count still decodes, with that many votes all 0 and creation time 0 |
| ProposalView.ShortAccountRejected | components/vote-on-proposal.tsx:37-40 | an account shorter than 44 bytes decodes to null rather than throwing |
| ProposalView.ForeignDiscriminatorRejected | components/vote-on-proposal.tsx:29-32 | any other discriminator gives null, whatever follows it |
| ProposalList.PresentMembership | components/vote-on-proposal.tsx:134 | the filter keeps exactly the non-null parses |
| ProposalList.ParseAllMembership | components/vote-on-proposal.tsx:132-134 | a proposal is listed exactly when some account decodes to it |
| ProposalList.InsertByAgeKeepsOrder | components/vote-on-proposal.tsx:136 | inserting into a newest-first list keeps it newest first |
| ProposalList.InsertByAgeAddsOne | components/vote-on-proposal.tsx:136 | inserting adds exactly the one proposal |
| ProposalList.InsertByAgeStable | components/vote-on-proposal.tsx:136 | the inserted proposal goes after the others of the same creation time |
| ProposalList.SortNewestFirstCorrect | components/vote-on-proposal.tsx:136 | the sort is newest first, a permutation of its input, and stable for equal creation times |
| ProposalList.FetchProposals | components/vote-on-proposal.tsx:127-149 | the "Error Fetching Proposals" toast appears exactly when the account fetch fails |
| ProposalList.FetchedProposals | components/vote-on-proposal.tsx:131-138 | the loaded list is newest first and holds exactly the proposals the accounts decode to, as often as decoded |
| ProposalList.FindProposal | components/vote-on-proposal.tsx:178 | `find` gives the first proposal with the key, none when no proposal has it |
| ProposalList.VotesForOption | components/vote-on-proposal.tsx:230 | an option's count is its entry in the decoded vote list, and 0 for an option past the end of that list |
| ProposalList.Percentage | components/vote-on-proposal.tsx:231 | the bar is 0 when nobody has voted; otherwise it times the total equals 100 times the option's count |
| ProposalList.VotesForOptionBounded | components/vote-on-proposal.tsx:230 | an option shows at most the total, and 0 when it has no vote entry |
| ProposalList.PercentageInRange | components/vote-on-proposal.tsx:231 | every bar lies between 0 and 100, and is 0 when there are no votes |
| ProposalList.HandleVote | components/vote-on-proposal.tsx:159-169 | without a selected option the "No Option Selected" toast and no vote; otherwise the vote hook with that index |
| ProposalList.SettleVote | components/vote-on-proposal.tsx:170-174 | the list is fetched again exactly when `vote` returned a signature (sent with no failure), and the chosen option is cleared exactly then; otherwise it is kept |
| ProposalList.NoRepeatVoteWithoutChoice | components/vote-on-proposal.tsx:170-174 | after a vote that went through, the Cast Vote button is disabled until an option is chosen again |
| ProposalList.NoVoteAfterLifetime | components/vote-on-proposal.tsx:253-256 | the Cast Vote button is usable exactly while the proposal is active, no vote is running and an option is chosen |

## Left out

- Network and wallet I/O (`getAccountInfo`, `getProgramAccounts`, `getLatestBlockhash`, `simulateTransaction`, `sendTransaction`, `confirmTransaction`, `getBalance`) are not modelled.
  - Their results are parameters: the account bytes, whether an account exists, the fetched account list, and the settled failure.
  - Account-meta lists and `Transaction` assembly are not modelled.
  - The simulation-failure toast of `createProposal`, which joins the logs, is not modelled either.
- `fetchUserStake` and `fetchWalletBalance` are not modelled: they are network reads followed by state setters. The stake record, the balance and the vault bump are parameters.
- Timers (`setInterval` polling and the one-second cooldown refresh) are not modelled: they are scheduling, not logic.
- The current time is a whole number of seconds.
  - `isActive` in the decoder compares against the fractional `Date.now() / 1000`.
  - `getCooldownRemaining` floors a millisecond difference.
  - Sub-second instants are not modelled.
- Floating point is not modelled.
  - `convertSolToLamports` and `convertLamportsToSol` are left out: the lamport amount `Math.floor(Number(amount) * 10^9)` is an integer parameter, None when the text is not a number. An infinite amount is represented by any count of 2^53 or more in size, where `new BN` throws just as it does for `Infinity`.
  - StakePanel.StakeButtonDisabled: models the button's `Number(amount) < 1` through the lamport amount. This differs only where float rounding of amount * 10^9 crosses 10^9.
  - ProposalList.Percentage: is exact real division, not binary64.
  - ProposalView.BuildProposal: `totalVotes` is the exact sum. The source adds JavaScript numbers, so a total above 2^53 would be rounded.
  - Staking.StakingErrorMessage and GovernanceErrors.GovernanceErrorMessage: parse codes exactly. `Number(...)` and `parseInt` of more than 53 bits of digits would round.
- `toString("utf8")` in the decoder is not modelled. Decoded strings stay the account's bytes, and UTF-8 validity and replacement characters are not modelled. Encoding (`Buffer.from(s, "utf8")`) is modelled.
- `GOVERNANCE_ERRORS`, `GOVERNANCE_PROPOSAL_LIFETIME`, `GOVERNANCE_MAX_OPTIONS`, `GOV_STATE_SEED` and `PROPOSAL_SEED` are parameters. Their definitions are not part of this model: the client code shown imports them but does not define them.
- `PublicKey.findProgramAddressSync` (SHA-256 and the off-curve bump search) is a function parameter.
- CreateProposalHook.CreateProposal: a string too long for `writeUInt32LE` ends as `PayloadTooLong`. The RangeError text the catch block would show is not modelled.
- VoteHook.Vote and InitializeGovernanceHook.InitializeGovernance: the wallet key, connection and `sendTransaction` are folded into one optional wallet.
- The hooks' `isLoading` / `loading` flags, the radio items' `disabled`, the request-unstake button's `disabled={isUnstaking}` and all JSX rendering are not modelled.
- StakePanel.StakePanelState.ShowError: models one run of the error effect. In the program the effect depends on `[error, toast]` (components/stake-sol.tsx:60), and `ToastProvider` creates a new `toast` function and a new context value on every render (components/ui/use-toast.tsx:25-27, 34). Each posted toast therefore re-renders the panel, re-runs the effect and posts the error toast again, for as long as `error` stays set; that repetition is not modelled.
- ProposalList.FetchProposals: models one fetch. In the program `fetchProposals` is recreated whenever `toast` changes (components/vote-on-proposal.tsx:149), so the effect at lines 151-157 fetches again after every toast, and a failing fetch, which itself toasts, starts the next one. That repetition, and the previously shown list being kept on failure, are not modelled.
- `useToast` is modelled as access to the provider object. React context propagation is not modelled.
- Strings are sequences of Unicode scalar values. JavaScript strings are UTF-16 code units, so lengths and indices differ for characters beyond U+FFFF, and a lone surrogate cannot be represented.
- ProposalList.SettleVote: the list refresh after a vote is only a flag. The refetch itself is a network read and is not modelled.
- Staking.SettledError: maps a failure with the decimal pattern as written, so a hex-logged program error settles as "Transaction failed". The intended reading is stated by Staking.StakingErrorMessageCorrected.
- StakePanel.StakePanelState: models the panel's behaviour as written, so its stake guard refuses every amount or throws, and its hook calls always post the success toast. The intended behaviour is stated by StakePanel.CheckStake and StakePanel.SettledToasts.

## Findings

| source | as written | input that shows it | evidently intended | confidence | as-written member | corrected member |
|---|---|---|---|---|---|---|
| hooks/useStaking.ts:180-184 | the code is taken with the decimal pattern `custom program error: (\d+)`, but the runtime logs custom errors in hex; the other hooks match `custom program error: 0x` | the log line "custom program error: 0x1770" (BelowMinimumStake, 6000): the pattern captures "0", and the user sees "Transaction failed" | read the hex digits after "0x" and show "Stake amount is below the minimum of 1 SOL." | medium, not executed | Staking.HexCodeIsMisread | Staking.HexCodeIsRead |
| components/stake-sol.tsx:106-129 | the success toasts of `handleRequestUnstake` and `handleClaimUnstake` follow `await startUnstake()` / `await claimUnstake()`, but the hook catches every error and always resolves | a request-unstake (or a claim) whose transaction fails: the hook sets its error, and the panel posts both "Unstake requested…" (or "Successfully claimed unstaked SOL") and the error toast; `handleStake` (lines 88-94) has the same shape, but shows it only once the next row is fixed | announce success only when the hook reported no error | medium, not executed | StakePanel.FailureAnnouncedAsSuccess | StakePanel.OutcomeAnnouncedOnce |
| components/stake-sol.tsx:68-85 | `amountLamports.lt(LAMPORTS_PER_SOL)` and `.gt(walletBalance)` hand bn.js a plain number; its `cmp` reads the number's `negative` field, which is undefined, and so ranks every non-negative BN above it | an amount of "2" with a balance of 10 SOL: refused with "Insufficient funds in your wallet", and "-5" makes the handler throw in `ucmp`; the stake button's `.gt(walletBalance)` (line 202) likewise keeps the button disabled for every amount | compare the values with BN arguments (`lt(new BN(LAMPORTS_PER_SOL))`, `gt(new BN(walletBalance))`; `ltn` would not do, as it asserts an argument below 2^26): refuse below 1 SOL, a negative amount included, and above the balance, and proceed otherwise | medium, not executed | StakePanel.EveryStakeRefusedAsWritten | StakePanel.CheckStake |
