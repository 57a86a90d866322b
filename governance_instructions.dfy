/**
 * The governance program's side of the three instructions the front-end
 * builds: which instruction a payload is, and its arguments. It is the
 * partner of the hand-written encoders in the three hooks.
 */
module GovernanceInstructions {
  import opened Wrappers
  import opened Bytes
  import opened Text
  import opened CreateProposalHook
  import opened VoteHook
  import opened InitializeGovernanceHook

  datatype GovernanceInstruction =
    | InitializeGovernance
    | CreateProposal(args: ProposalArgs)
    | CastVote(optionIndex: nat)

  /** Dispatch on the 8-byte discriminator; each instruction takes exactly its own arguments. */
  function DecodeGovernanceInstruction(data: seq<byte>): Option<GovernanceInstruction>
  {
    if |data| < 8 then None
    else if data[..8] == INITIALIZE_GOV_DISCRIMINATOR then
      if |data| == 8 then Some(InitializeGovernance) else None
    else if data[..8] == VOTE_DISCRIMINATOR then
      if |data| == 9 then Some(CastVote(data[8])) else None
    else match DecodeCreateProposal(data)
      case Some(args) => Some(CreateProposal(args))
      case None => None
  }

  /** The init payload is the init instruction with no arguments. */
  lemma InitPayloadDecodes()
    ensures DecodeGovernanceInstruction(INITIALIZE_GOV_DISCRIMINATOR) == Some(InitializeGovernance)
  {
  }

  /** The vote payload is a vote for the option index modulo 256 (the index travels as a u8). */
  lemma VotePayloadDecodes(optionIndex: nat)
    ensures DecodeGovernanceInstruction(VotePayload(optionIndex)) == Some(CastVote(optionIndex % 256))
    ensures optionIndex < 256 ==> DecodeGovernanceInstruction(VotePayload(optionIndex)) == Some(CastVote(optionIndex))
  {
    assert VotePayload(optionIndex)[..8] != INITIALIZE_GOV_DISCRIMINATOR by {
      assert VotePayload(optionIndex)[0] != INITIALIZE_GOV_DISCRIMINATOR[0];
    }
  }

  /** Indexes 256 apart produce the same payload. */
  lemma VoteIndexWraps()
    ensures VotePayload(256) == VotePayload(0)
  {
  }

  /** The create-proposal payload is a create-proposal instruction carrying the UTF-8 of its strings. */
  lemma CreateProposalPayloadDecodes(heading: string, description: string, options: seq<string>)
    requires CreateProposalPayload(heading, description, options).Some?
    ensures DecodeGovernanceInstruction(CreateProposalPayload(heading, description, options).value)
            == Some(CreateProposal(ProposalArgs(Utf8(heading), Utf8(description), Utf8All(options))))
  {
    var data := CreateProposalPayload(heading, description, options).value;
    assert DecodeCreateProposal(data) == Some(ProposalArgs(Utf8(heading), Utf8(description), Utf8All(options))) by {
      CreateProposalRoundTrip(heading, description, options);
    }
    assert |data| >= 8 && data[..8] == CREATE_PROPOSAL_DISCRIMINATOR;
    CreateProposalDispatch(data);
  }

  /** Data behind the create-proposal discriminator is decoded as a create-proposal instruction. */
  lemma CreateProposalDispatch(data: seq<byte>)
    requires |data| >= 8 && data[..8] == CREATE_PROPOSAL_DISCRIMINATOR
    ensures DecodeGovernanceInstruction(data)
            == match DecodeCreateProposal(data) case Some(args) => Some(CreateProposal(args)) case None => None
  {
    assert data[0] != INITIALIZE_GOV_DISCRIMINATOR[0] && data[0] != VOTE_DISCRIMINATOR[0];
  }
}
