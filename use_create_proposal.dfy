/**
 * hooks/use-create-proposal.ts: string and string-vector serialization, the
 * create-proposal instruction payload, the proposal counter read from the
 * governance state and re-encoded as the proposal's PDA seed, and the steps
 * of `createProposal` up to the built instruction.
 */
module CreateProposalHook {
  import opened Wrappers
  import opened Bytes
  import opened Borsh
  import opened Text
  import opened Pda
  import opened ProgramLogs
  import GovernanceErrors

  const CREATE_PROPOSAL_DISCRIMINATOR: seq<byte> := [132, 116, 68, 174, 216, 160, 198, 22]
  const GOV_STATE_MISSING: string := "Governance state not found. Initialize governance first."

  /** The UTF-8 encodings of a list of strings, in order. */
  function Utf8All(v: seq<string>): (r: seq<seq<byte>>)
    ensures |r| == |v| && forall i :: 0 <= i < |v| ==> r[i] == Utf8(v[i])
  {
    seq(|v|, i requires 0 <= i < |v| => Utf8(v[i]))
  }

  predicate Fits(v: seq<string>)
  {
    forall i :: 0 <= i < |v| ==> |Utf8(v[i])| < U32_LIMIT
  }

  /**
   * `serializeString`: the UTF-8 byte length as a u32 little-endian, then the
   * bytes. None where `writeUInt32LE` throws, a byte length past u32.
   */
  function SerializeString(s: string): (r: Option<seq<byte>>)
    ensures r.Some? <==> |Utf8(s)| < U32_LIMIT
    ensures r.Some? ==> r.value == LeBytes(|Utf8(s)|, 4) + Utf8(s)
    ensures r.Some? ==> LeValue(r.value[..4]) == |Utf8(s)|
  {
    if |Utf8(s)| < U32_LIMIT then
      Pow256Constants();
      LeValueOfLeBytes(|Utf8(s)|, 4);
      assert LengthPrefixed(Utf8(s))[..4] == LeBytes(|Utf8(s)|, 4);
      Some(LengthPrefixed(Utf8(s)))
    else None
  }

  /** `vec.map(serializeString)`, concatenated; None as soon as one element throws. */
  function SerializeEach(v: seq<string>): (r: Option<seq<byte>>)
    ensures r.Some? <==> Fits(v)
    ensures r.Some? ==> r.value == PrefixedItems(Utf8All(v))
  {
    if v == [] then Some([])
    else
      var init, last := v[..|v| - 1], v[|v| - 1];
      FitsSnoc(v);
      match SerializeEach(init)
      case None => None
      case Some(front) =>
        match SerializeString(last)
        case None => None
        case Some(item) =>
          Utf8ItemsSnoc(v);
          Some(front + item)
  }

  lemma FitsSnoc(v: seq<string>)
    requires v != []
    ensures Fits(v) <==> Fits(v[..|v| - 1]) && |Utf8(v[|v| - 1])| < U32_LIMIT
  {
    var init := v[..|v| - 1];
    assert forall i :: 0 <= i < |init| ==> init[i] == v[i];
  }

  lemma Utf8ItemsSnoc(v: seq<string>)
    requires v != [] && Fits(v)
    ensures PrefixedItems(Utf8All(v)) == PrefixedItems(Utf8All(v[..|v| - 1])) + LengthPrefixed(Utf8(v[|v| - 1]))
  {
    var all := Utf8All(v);
    assert all[..|all| - 1] == Utf8All(v[..|v| - 1]);
  }

  /** `serializeStringVec`: the element count as a u32 little-endian, then each element serialized. */
  function SerializeStringVec(v: seq<string>): (r: Option<seq<byte>>)
    ensures r.Some? <==> |v| < U32_LIMIT && Fits(v)
    ensures r.Some? ==> r.value == LeBytes(|v|, 4) + PrefixedItems(Utf8All(v))
  {
    if |v| < U32_LIMIT then
      match SerializeEach(v)
      case None => None
      case Some(items) => Some(LeBytes(|v|, 4) + items)
    else None
  }

  /** The create-proposal instruction data: discriminator, heading, description, options. */
  function CreateProposalPayload(heading: string, description: string, options: seq<string>): (r: Option<seq<byte>>)
    ensures r.Some? <==> SerializeString(heading).Some? && SerializeString(description).Some?
                         && SerializeStringVec(options).Some?
    ensures r.Some? ==> r.value == CREATE_PROPOSAL_DISCRIMINATOR + SerializeString(heading).value
                                   + SerializeString(description).value + SerializeStringVec(options).value
  {
    var h, d, o := SerializeString(heading), SerializeString(description), SerializeStringVec(options);
    if h.Some? && d.Some? && o.Some? then Some(CREATE_PROPOSAL_DISCRIMINATOR + h.value + d.value + o.value)
    else None
  }

  /** The arguments of a create-proposal instruction as the program reads them: UTF-8 bytes. */
  datatype ProposalArgs = ProposalArgs(heading: seq<byte>, description: seq<byte>, options: seq<seq<byte>>)

  /**
   * The Borsh reading of create-proposal instruction data: the discriminator,
   * two strings and a string vector, with nothing missing and nothing left over.
   */
  function DecodeCreateProposal(data: seq<byte>): Option<ProposalArgs>
  {
    if |data| < 8 || data[..8] != CREATE_PROPOSAL_DISCRIMINATOR then None
    else match ReadHeadingDescription(data)
      case None => None
      case Some((heading, description, afterDescription)) =>
        match ReadStringVec(data, afterDescription)
        case None => None
        case Some((options, end)) =>
          if end == |data| then Some(ProposalArgs(heading, description, options)) else None
  }

  /** The two length-prefixed strings after the discriminator, and where they end. */
  function ReadHeadingDescription(data: seq<byte>): Option<(seq<byte>, seq<byte>, nat)>
  {
    match ReadPrefixed(data, 8)
    case None => None
    case Some((heading, afterHeading)) =>
      match ReadPrefixed(data, afterHeading)
      case None => None
      case Some((description, afterDescription)) => Some((heading, description, afterDescription))
  }

  /** The discriminator, the heading and the description on the wire. */
  function WireFields(h: seq<byte>, d: seq<byte>): (r: seq<byte>)
    requires |h| < U32_LIMIT && |d| < U32_LIMIT
    ensures |r| == 16 + |h| + |d|
  {
    CREATE_PROPOSAL_DISCRIMINATOR + LengthPrefixed(h) + LengthPrefixed(d)
  }

  /** The create-proposal wire layout, over the already-encoded fields. */
  function ProposalWire(h: seq<byte>, d: seq<byte>, o: seq<seq<byte>>): seq<byte>
    requires |h| < U32_LIMIT && |d| < U32_LIMIT && |o| < U32_LIMIT
    requires forall i :: 0 <= i < |o| ==> |o[i]| < U32_LIMIT
  {
    WireFields(h, d) + LeBytes(|o|, 4) + PrefixedItems(o)
  }

  /** The decoder's result once each field has been read and the options end the buffer. */
  lemma DecodeCreateProposalOf(data: seq<byte>, h: seq<byte>, d: seq<byte>, o: seq<seq<byte>>, afterDescription: nat)
    requires |data| >= 8 && data[..8] == CREATE_PROPOSAL_DISCRIMINATOR
    requires ReadHeadingDescription(data) == Some((h, d, afterDescription))
    requires ReadStringVec(data, afterDescription) == Some((o, |data|))
    ensures DecodeCreateProposal(data) == Some(ProposalArgs(h, d, o))
  {
  }

  /** Decoding the wire layout gives back the fields it was built from. */
  lemma DecodeProposalWire(h: seq<byte>, d: seq<byte>, o: seq<seq<byte>>)
    requires |h| < U32_LIMIT && |d| < U32_LIMIT && |o| < U32_LIMIT
    requires forall i :: 0 <= i < |o| ==> |o[i]| < U32_LIMIT
    ensures DecodeCreateProposal(ProposalWire(h, d, o)) == Some(ProposalArgs(h, d, o))
  {
    WireDiscriminator(h, d, o);
    WireHeadingDescription(h, d, o);
    WireOptionVector(h, d, o);
    DecodeCreateProposalOf(ProposalWire(h, d, o), h, d, o, 16 + |h| + |d|);
  }

  lemma WireHeadingDescription(h: seq<byte>, d: seq<byte>, o: seq<seq<byte>>)
    requires |h| < U32_LIMIT && |d| < U32_LIMIT && |o| < U32_LIMIT
    requires forall i :: 0 <= i < |o| ==> |o[i]| < U32_LIMIT
    ensures ReadHeadingDescription(ProposalWire(h, d, o)) == Some((h, d, 16 + |h| + |d|))
  {
    WireHeading(h, d, o);
    WireDescription(h, d, o);
  }

  lemma WireOptionVector(h: seq<byte>, d: seq<byte>, o: seq<seq<byte>>)
    requires |h| < U32_LIMIT && |d| < U32_LIMIT && |o| < U32_LIMIT
    requires forall i :: 0 <= i < |o| ==> |o[i]| < U32_LIMIT
    ensures ReadStringVec(ProposalWire(h, d, o), 16 + |h| + |d|) == Some((o, |ProposalWire(h, d, o)|))
  {
    WireCount(h, d, o);
    WireOptions(h, d, o);
    ReadStringVecOf(ProposalWire(h, d, o), 16 + |h| + |d|, o, |ProposalWire(h, d, o)|);
  }

  lemma WireDiscriminator(h: seq<byte>, d: seq<byte>, o: seq<seq<byte>>)
    requires |h| < U32_LIMIT && |d| < U32_LIMIT && |o| < U32_LIMIT
    requires forall i :: 0 <= i < |o| ==> |o[i]| < U32_LIMIT
    ensures |ProposalWire(h, d, o)| >= 8 && ProposalWire(h, d, o)[..8] == CREATE_PROPOSAL_DISCRIMINATOR
  {
    var rest := LengthPrefixed(h) + LengthPrefixed(d) + (LeBytes(|o|, 4) + PrefixedItems(o));
    assert ProposalWire(h, d, o) == CREATE_PROPOSAL_DISCRIMINATOR + rest;
  }

  lemma WireHeading(h: seq<byte>, d: seq<byte>, o: seq<seq<byte>>)
    requires |h| < U32_LIMIT && |d| < U32_LIMIT && |o| < U32_LIMIT
    requires forall i :: 0 <= i < |o| ==> |o[i]| < U32_LIMIT
    ensures ReadPrefixed(ProposalWire(h, d, o), 8) == Some((h, 12 + |h|))
  {
    var rest := LengthPrefixed(d) + LeBytes(|o|, 4) + PrefixedItems(o);
    assert ProposalWire(h, d, o) == CREATE_PROPOSAL_DISCRIMINATOR + LengthPrefixed(h) + rest;
    ReadPrefixedFramed(CREATE_PROPOSAL_DISCRIMINATOR, h, rest);
  }

  lemma WireDescription(h: seq<byte>, d: seq<byte>, o: seq<seq<byte>>)
    requires |h| < U32_LIMIT && |d| < U32_LIMIT && |o| < U32_LIMIT
    requires forall i :: 0 <= i < |o| ==> |o[i]| < U32_LIMIT
    ensures ReadPrefixed(ProposalWire(h, d, o), 12 + |h|) == Some((d, 16 + |h| + |d|))
  {
    var p1 := CREATE_PROPOSAL_DISCRIMINATOR + LengthPrefixed(h);
    var rest := LeBytes(|o|, 4) + PrefixedItems(o);
    assert ProposalWire(h, d, o) == p1 + LengthPrefixed(d) + rest;
    ReadPrefixedFramed(p1, d, rest);
  }

  lemma WireCount(h: seq<byte>, d: seq<byte>, o: seq<seq<byte>>)
    requires |h| < U32_LIMIT && |d| < U32_LIMIT && |o| < U32_LIMIT
    requires forall i :: 0 <= i < |o| ==> |o[i]| < U32_LIMIT
    ensures ReadU32(ProposalWire(h, d, o), 16 + |h| + |d|) == Some(|o|)
  {
    ReadU32Framed(WireFields(h, d), |o|, PrefixedItems(o));
  }

  lemma WireOptions(h: seq<byte>, d: seq<byte>, o: seq<seq<byte>>)
    requires |h| < U32_LIMIT && |d| < U32_LIMIT && |o| < U32_LIMIT
    requires forall i :: 0 <= i < |o| ==> |o[i]| < U32_LIMIT
    ensures ReadPrefixedItems(ProposalWire(h, d, o), 20 + |h| + |d|, |o|) == Some((o, |ProposalWire(h, d, o)|))
  {
    var p3 := WireFields(h, d) + LeBytes(|o|, 4);
    var data := p3 + PrefixedItems(o);
    assert |p3| == 20 + |h| + |d|;
    assert ProposalWire(h, d, o) == data;
    assert ReadPrefixedItems(data, |p3|, |o|) == Some((o, |data|)) by {
      Unpadded(data);
      ReadPrefixedItemsFramed(p3, o, []);
    }
  }

  /** The program reads back exactly the UTF-8 of the heading, description and options the hook encoded. */
  lemma CreateProposalRoundTrip(heading: string, description: string, options: seq<string>)
    requires CreateProposalPayload(heading, description, options).Some?
    ensures DecodeCreateProposal(CreateProposalPayload(heading, description, options).value)
            == Some(ProposalArgs(Utf8(heading), Utf8(description), Utf8All(options)))
  {
    var h, d, o := Utf8(heading), Utf8(description), Utf8All(options);
    assert CreateProposalPayload(heading, description, options).value == ProposalWire(h, d, o);
    DecodeProposalWire(h, d, o);
  }

  /** The encoded payload is sized by UTF-8 bytes, not characters: 4 + byte length per string. */
  lemma SerializedStringLength(s: string)
    requires SerializeString(s).Some?
    ensures |s| + 4 <= |SerializeString(s).value| <= 4 * |s| + 4
  {
  }

  /** `new BN(acct.data.slice(8, 16), "le")`: the governance state's proposal counter. */
  function ProposalCount(govState: seq<byte>): nat
  {
    LeValue(Slice(govState, 8, 16))
  }

  /**
   * `Buffer.from(count.toArray("le", 8))`: the counter re-encoded as the
   * proposal PDA seed. It is the identity on bytes 8..16 when they are all
   * there, and zero-pads a short account.
   */
  function ProposalCountSeed(govState: seq<byte>): (r: seq<byte>)
    ensures |r| == 8 && LeValue(r) == ProposalCount(govState)
    ensures |govState| >= 16 ==> r == govState[8..16]
    ensures r == Slice(govState, 8, 16) + seq(8 - |Slice(govState, 8, 16)|, _ => 0)
  {
    var raw := Slice(govState, 8, 16);
    LeBytesOfLeValue(raw, 8);
    Pow256Constants();
    LeValueOfLeBytes(LeValue(raw), 8);
    assert |govState| >= 16 ==> raw + seq(0, _ => 0) == raw;
    LeBytes(ProposalCount(govState), 8)
  }

  /** Where `createProposal` ends once its instruction is built (or earlier). */
  datatype CreateOutcome =
    | WalletNotConnected
    | Failed(message: string)
    | PayloadTooLong
    | Ready(govStatePda: PublicKey, proposalPda: PublicKey, data: seq<byte>)

  /**
   * `createProposal` up to the built instruction: the wallet guard, the
   * governance-state PDA, the fetched state (None when the account is absent),
   * the proposal PDA seeded with the counter, and the payload. A missing state
   * is thrown and caught, so the caller sees its message through the parser.
   */
  function CreateProposal(walletReady: bool, table: GovernanceErrors.ErrorTable, derive: Derivation,
                          govStateSeed: seq<byte>, proposalSeed: seq<byte>, programId: PublicKey,
                          govState: Option<seq<byte>>,
                          heading: string, description: string, options: seq<string>): (r: CreateOutcome)
    ensures !walletReady <==> r.WalletNotConnected?
    ensures walletReady && govState.None? ==> r == Failed(GOV_STATE_MISSING)
    ensures walletReady && govState.Some? ==>
              (r.Ready? <==> CreateProposalPayload(heading, description, options).Some?)
              && (r.PayloadTooLong? <==> CreateProposalPayload(heading, description, options).None?)
    ensures r.Ready? ==> govState.Some? && r.data == CreateProposalPayload(heading, description, options).value
    ensures r.Ready? ==> DecodeCreateProposal(r.data) == Some(ProposalArgs(Utf8(heading), Utf8(description), Utf8All(options)))
    ensures r.Ready? ==> r.govStatePda == FindProgramAddress(derive, govStateSeed, programId, []).0
    ensures r.Ready? ==> r.proposalPda
                         == FindProgramAddress(derive, proposalSeed, programId, [BufferSeed(ProposalCountSeed(govState.value))]).0
  {
    if !walletReady then WalletNotConnected
    else
      var (govStatePda, _) := FindProgramAddress(derive, govStateSeed, programId, []);
      match govState
      case None => Failed(GovernanceErrors.CreateProposalErrorMessage(table, TxError(None, Some(GOV_STATE_MISSING))))
      case Some(state) =>
        var (proposalPda, _) := FindProgramAddress(derive, proposalSeed, programId, [BufferSeed(ProposalCountSeed(state))]);
        match CreateProposalPayload(heading, description, options)
        case None => PayloadTooLong
        case Some(data) =>
          CreateProposalRoundTrip(heading, description, options);
          Ready(govStatePda, proposalPda, data)
  }
}
