/**
 * components/vote-on-proposal.tsx: the hand-written Proposal account
 * decoder, the time-remaining shown, the newest-first proposal list and the
 * per-option vote count shown next to each option.
 */
module ProposalView {
  import opened Wrappers
  import opened Bytes
  import opened Borsh
  import opened Text

  const PROPOSAL_DISCRIMINATOR: seq<byte> := [26, 94, 189, 187, 116, 136, 53, 33]
  /** `BN.toNumber()` throws at and above 2^53. */
  const SAFE_LIMIT: nat := 0x20_0000_0000_0000

  /**
   * `ParsedProposal`. The strings stay the bytes the account holds (the
   * decoder's `toString("utf8")` is not modelled); `now` and the lifetime
   * are whole seconds.
   */
  datatype ParsedProposal = ParsedProposal(
    publicKey: PublicKey,
    proposer: PublicKey,
    heading: seq<byte>,
    description: seq<byte>,
    options: seq<seq<byte>>,
    votes: seq<nat>,
    createdAt: nat,
    totalVotes: nat,
    isActive: bool,
    timeRemaining: string)

  // ------------------------------------------------------------ vote totals

  /** The sum of the vote counts. */
  function Sum(s: seq<nat>): nat
  {
    if s == [] then 0 else s[0] + Sum(s[1..])
  }

  /** Appending a count adds it to the sum. */
  lemma {:induction false} SumAppend(s: seq<nat>, v: nat)
    ensures Sum(s + [v]) == Sum(s) + v
  {
    if s != [] {
      assert (s + [v])[1..] == s[1..] + [v];
      SumAppend(s[1..], v);
    } else {
      assert [] + [v] == [v];
    }
  }

  /** No single count exceeds the sum. */
  lemma {:induction false} ElementAtMostSum(s: seq<nat>, i: nat)
    requires i < |s|
    ensures s[i] <= Sum(s)
  {
    if i > 0 {
      ElementAtMostSum(s[1..], i - 1);
    }
  }

  predicate AllSafe(votes: seq<nat>)
  {
    forall i :: 0 <= i < |votes| ==> votes[i] < SAFE_LIMIT
  }

  // ------------------------------------------------------- time remaining

  /** Whole days, hours within the day and minutes within the hour of a positive duration. */
  function RemainingParts(diff: int): (r: (nat, nat, nat))
    requires diff > 0
    ensures r.1 < 24 && r.2 < 60
    ensures r.0 * 86400 + r.1 * 3600 + r.2 * 60 <= diff < r.0 * 86400 + r.1 * 3600 + r.2 * 60 + 60
  {
    var days, inDay := diff / 86400, diff % 86400;
    var hours, inHour := inDay / 3600, inDay % 3600;
    assert diff % 3600 == inHour by {
      assert diff == (days * 24 + hours) * 3600 + inHour;
    }
    (days, hours, inHour / 60)
  }

  /** `getTimeRemaining(endTime)` with the current time in whole seconds. */
  function GetTimeRemaining(endTime: int, now: int): (r: string)
    ensures r == "Ended" <==> endTime - now <= 0
    ensures r == "< 1m left" <==> 0 < endTime - now < 60
    ensures endTime - now > 0 ==>
              var (d, h, m) := RemainingParts(endTime - now);
              (d > 0 ==> r == Dec(d) + "d " + Dec(h) + "h left")
              && (d == 0 && h > 0 ==> r == Dec(h) + "h " + Dec(m) + "m left")
              && (d == 0 && h == 0 && m > 0 ==> r == Dec(m) + "m left")
  {
    var diff := endTime - now;
    if diff <= 0 then "Ended"
    else
      var (days, hours, minutes) := RemainingParts(diff);
      assert "< 1m left"[0] == '<';
      if days > 0 then
        var shown := Dec(days) + "d " + Dec(hours) + "h left";
        assert shown[0] == Dec(days)[0] && shown[|shown| - 1] == 't';
        shown
      else if hours > 0 then
        var shown := Dec(hours) + "h " + Dec(minutes) + "m left";
        assert shown[0] == Dec(hours)[0] && shown[|shown| - 1] == 't';
        shown
      else if minutes > 0 then
        var shown := Dec(minutes) + "m left";
        assert shown[0] == Dec(minutes)[0] && shown[|shown| - 1] == 't';
        shown
      else "< 1m left"
  }

  // ------------------------------------------------------- account layout

  /** Heading, description and options read from offset 40, and where the cursor stops after them. */
  function ReadStrings(data: seq<byte>): (r: Option<(seq<byte>, seq<byte>, seq<seq<byte>>, nat)>)
    ensures r.Some? ==> |data| >= 44
  {
    match ReadPrefixed(data, 40)
    case None => None
    case Some((heading, afterHeading)) =>
      match ReadPrefixed(data, afterHeading)
      case None => None
      case Some((description, afterDescription)) =>
        match ReadStringVec(data, afterDescription)
        case None => None
        case Some((options, afterOptions)) => Some((heading, description, options, afterOptions))
  }

  /** The decoded fields with the derived total, activity flag and label. */
  function BuildProposal(key: PublicKey, proposer: PublicKey, heading: seq<byte>, description: seq<byte>,
                         options: seq<seq<byte>>, votes: seq<nat>, createdAt: nat, lifetime: int, now: int): (r: ParsedProposal)
    ensures r.publicKey == key && r.proposer == proposer && r.votes == votes && r.createdAt == createdAt
    ensures r.totalVotes == Sum(votes)
    ensures (r.isActive <==> now <= createdAt + lifetime) && r.timeRemaining == GetTimeRemaining(createdAt + lifetime, now)
  {
    var expiresAt := createdAt + lifetime;
    ParsedProposal(key, proposer, heading, description, options, votes, createdAt,
                   Sum(votes), now <= expiresAt, GetTimeRemaining(expiresAt, now))
  }

  /** The votes vector and the creation time, read from the cursor the options left. */
  function ReadTail(data: seq<byte>, afterOptions: nat): (r: Option<(seq<nat>, nat)>)
    ensures r.Some? ==> AllSafe(r.value.0) && r.value.1 < SAFE_LIMIT
  {
    match ReadU32(data, afterOptions)
    case None => None
    case Some(voteCount) =>
      var votes := ReadU64Items(data, afterOptions + 4, voteCount);
      var createdAt := U64At(data, afterOptions + 4 + 8 * voteCount);
      if !AllSafe(votes) || createdAt >= SAFE_LIMIT then None else Some((votes, createdAt))
  }

  /**
   * What `parseProposalData(data, publicKey)` returns: None for a foreign
   * discriminator, for a length or count field that does not fit in the
   * buffer, and for a vote count or creation time `toNumber` rejects.
   * The vote and time fields themselves are read through clamping slices.
   */
  function DecodeProposal(data: seq<byte>, key: PublicKey, lifetime: int, now: int): (r: Option<ParsedProposal>)
    ensures r.Some? ==> |data| >= 44 && data[..8] == PROPOSAL_DISCRIMINATOR && r.value.proposer == data[8..40]
    ensures r.Some? ==> r.value.publicKey == key && r.value.totalVotes == Sum(r.value.votes)
                        && AllSafe(r.value.votes) && r.value.createdAt < SAFE_LIMIT
  {
    if Slice(data, 0, 8) != PROPOSAL_DISCRIMINATOR then None
    else match ReadStrings(data)
      case None => None
      case Some((heading, description, options, afterOptions)) =>
        match ReadTail(data, afterOptions)
        case None => None
        case Some((votes, createdAt)) =>
          Some(BuildProposal(key, data[8..40], heading, description, options, votes, createdAt, lifetime, now))
  }

  /** The tail read succeeds with the votes and creation time the walk found once both are in range. */
  lemma ReadTailOf(data: seq<byte>, afterOptions: nat, count: nat, votes: seq<nat>, afterVotes: nat, createdAt: nat)
    requires ReadU32(data, afterOptions) == Some(count)
    requires ReadU64Items(data, afterOptions + 4, count) == votes && AllSafe(votes)
    requires afterVotes == afterOptions + 4 + 8 * count
    requires createdAt == U64At(data, afterVotes) && createdAt < SAFE_LIMIT
    ensures ReadTail(data, afterOptions) == Some((votes, createdAt))
  {
  }

  /**
   * A decoded proposal is active exactly up to and including the instant
   * createdAt + lifetime, and its label counts down to that instant.
   */
  lemma DecodedActivity(data: seq<byte>, key: PublicKey, lifetime: int, now: int)
    requires DecodeProposal(data, key, lifetime, now).Some?
    ensures var p := DecodeProposal(data, key, lifetime, now).value;
            (p.isActive <==> now <= p.createdAt + lifetime)
            && p.timeRemaining == GetTimeRemaining(p.createdAt + lifetime, now)
            && (p.timeRemaining == "Ended" <==> !p.isActive || now == p.createdAt + lifetime)
  {
  }

  /**
   * One string of `parseProposalData`'s walk: `readUInt32LE` for its length,
   * then a clamping slice of that many bytes, and the cursor past them.
   */
  method ReadString(data: seq<byte>, offset: nat) returns (r: Option<(seq<byte>, nat)>)
    ensures r == ReadPrefixed(data, offset)
  {
    var len := ReadU32(data, offset);
    if len.None? {
      return None;
    }
    var text := Slice(data, offset + 4, offset + 4 + len.value);
    return Some((text, offset + 4 + len.value));
  }

  /** The options loop of `parseProposalData`: count length-prefixed strings from start. */
  method ReadOptions(data: seq<byte>, start: nat, count: nat) returns (r: Option<(seq<seq<byte>>, nat)>)
    ensures r == ReadPrefixedItems(data, start, count)
  {
    var offset := start;
    var options: seq<seq<byte>> := [];
    var i := 0;
    while i < count
      invariant 0 <= i <= count
      invariant ReadPrefixedItems(data, start, i) == Some((options, offset))
    {
      var option := ReadString(data, offset);
      if option.None? {
        ReadPrefixedItemsStops(data, start, i, options, offset, count);
        return None;
      }
      ReadPrefixedItemsStep(data, start, i, options, offset, option.value.0, option.value.1);
      options := options + [option.value.0];
      offset := option.value.1;
      i := i + 1;
    }
    return Some((options, offset));
  }

  /** One more safe vote extends the votes read so far, and their total. */
  lemma VotesStep(data: seq<byte>, start: nat, j: nat, votes: seq<nat>, offset: nat, vote: nat)
    requires votes == ReadU64Items(data, start, j) && AllSafe(votes)
    requires offset == start + 8 * j && vote == U64At(data, offset) && vote < SAFE_LIMIT
    ensures votes + [vote] == ReadU64Items(data, start, j + 1)
    ensures AllSafe(votes + [vote])
    ensures Sum(votes + [vote]) == Sum(votes) + vote
  {
    SumAppend(votes, vote);
  }

  lemma UnsafeVoteSeen(data: seq<byte>, start: nat, count: nat, j: nat)
    requires j < count && U64At(data, start + 8 * j) >= SAFE_LIMIT
    ensures !AllSafe(ReadU64Items(data, start, count))
  {
    ReadU64ItemAt(data, start, count, j);
  }

  /**
   * The votes loop of `parseProposalData`: count u64 values from start and
   * their running total, or None once a value is past `toNumber`'s range.
   */
  method ReadVotes(data: seq<byte>, start: nat, count: nat) returns (r: Option<(seq<nat>, nat, nat)>)
    ensures r.None? <==> !AllSafe(ReadU64Items(data, start, count))
    ensures r.Some? ==> r.value == (ReadU64Items(data, start, count), Sum(ReadU64Items(data, start, count)), start + 8 * count)
  {
    var offset := start;
    var votes: seq<nat> := [];
    var totalVotes := 0;
    var j := 0;
    while j < count
      invariant 0 <= j <= count
      invariant offset == start + 8 * j
      invariant votes == ReadU64Items(data, start, j)
      invariant AllSafe(votes) && totalVotes == Sum(votes)
    {
      var voteCount := U64At(data, offset);
      if voteCount >= SAFE_LIMIT {
        UnsafeVoteSeen(data, start, count, j);
        return None;
      }
      VotesStep(data, start, j, votes, offset, voteCount);
      votes := votes + [voteCount];
      totalVotes := totalVotes + voteCount;
      offset := offset + 8;
      j := j + 1;
    }
    assert j == count && votes == ReadU64Items(data, start, count);
    return Some((votes, totalVotes, offset));
  }

  /** The first part of `parseProposalData`'s walk: heading, description and options from offset 40. */
  method ReadHeadingToOptions(data: seq<byte>) returns (r: Option<(seq<byte>, seq<byte>, seq<seq<byte>>, nat)>)
    ensures r == ReadStrings(data)
  {
    var heading := ReadString(data, 40);
    if heading.None? {
      return None;
    }
    var description := ReadString(data, heading.value.1);
    if description.None? {
      return None;
    }
    var offset := description.value.1;
    var optionsLen := ReadU32(data, offset);
    if optionsLen.None? {
      return None;
    }
    var options := ReadOptions(data, offset + 4, optionsLen.value);
    if options.None? {
      return None;
    }
    ReadStringVecOf(data, offset, options.value.0, options.value.1);
    ReadStringsOf(data, heading.value.0, heading.value.1, description.value.0, offset, options.value.0, options.value.1);
    return Some((heading.value.0, description.value.0, options.value.0, options.value.1));
  }

  /** The last part of `parseProposalData`'s walk: the votes vector, their total, and the creation time. */
  method ReadVotesAndCreatedAt(data: seq<byte>, afterOptions: nat) returns (r: Option<(seq<nat>, nat, nat)>)
    ensures r.None? <==> ReadTail(data, afterOptions).None?
    ensures r.Some? ==> (r.value.0, r.value.2) == ReadTail(data, afterOptions).value && r.value.1 == Sum(r.value.0)
  {
    var offset := afterOptions;
    var votesLen := ReadU32(data, offset);
    if votesLen.None? {
      return None;
    }
    offset := offset + 4;
    var votes := ReadVotes(data, offset, votesLen.value);
    if votes.None? {
      return None;
    }
    var (voteList, totalVotes, afterVotes) := votes.value;
    offset := afterVotes;
    var createdAt := U64At(data, offset);
    offset := offset + 8;
    if createdAt >= SAFE_LIMIT {
      return None;
    }
    ReadTailOf(data, afterOptions, votesLen.value, voteList, afterVotes, createdAt);
    return Some((voteList, totalVotes, createdAt));
  }

  /**
   * `parseProposalData`: the cursor walk, reading lengths with
   * `readUInt32LE` (whose RangeError the `catch` turns into null), strings
   * and u64 values through clamping slices, and totalling the votes as it goes.
   */
  method ParseProposalData(data: seq<byte>, publicKey: PublicKey, lifetime: int, now: int)
    returns (r: Option<ParsedProposal>)
    ensures r == DecodeProposal(data, publicKey, lifetime, now)
  {
    if Slice(data, 0, 8) != PROPOSAL_DISCRIMINATOR {
      return None;
    }
    var offset := 8;
    var proposerBytes := Slice(data, offset, offset + 32);
    offset := offset + 32;

    var strings := ReadHeadingToOptions(data);
    if strings.None? {
      return None;
    }
    var (heading, description, options, afterOptions) := strings.value;

    var tail := ReadVotesAndCreatedAt(data, afterOptions);
    if tail.None? {
      return None;
    }
    var (votes, totalVotes, createdAt) := tail.value;
    DecodeProposalOf(data, publicKey, lifetime, now, heading, description, options, afterOptions, votes, createdAt);
    assert proposerBytes == data[8..40];

    var expiresAt := createdAt + lifetime;
    var isActive := now <= expiresAt;
    var timeRemaining := GetTimeRemaining(expiresAt, now);
    var proposer: PublicKey := proposerBytes;
    r := Some(ParsedProposal(publicKey, proposer, heading, description, options, votes, createdAt,
                             totalVotes, isActive, timeRemaining));
  }

  // ------------------------------------------------ the account as written

  /** The fields of a Proposal account as the governance program stores them. */
  datatype ProposalFields = ProposalFields(
    proposer: PublicKey,
    heading: seq<byte>,
    description: seq<byte>,
    options: seq<seq<byte>>,
    votes: seq<nat>,
    createdAt: nat)

  /** Fields the Borsh layout can hold: u32 lengths and counts, u64 values. */
  predicate Encodable(f: ProposalFields)
  {
    |f.heading| < U32_LIMIT && |f.description| < U32_LIMIT && |f.options| < U32_LIMIT && |f.votes| < U32_LIMIT
    && (forall i :: 0 <= i < |f.options| ==> |f.options[i]| < U32_LIMIT)
    && (forall i :: 0 <= i < |f.votes| ==> f.votes[i] < U64_LIMIT)
    && f.createdAt < U64_LIMIT
  }

  /** The discriminator, the proposer, the heading and the description. */
  function FieldsPart(f: ProposalFields): (r: seq<byte>)
    requires Encodable(f)
    ensures |r| == 48 + |f.heading| + |f.description|
  {
    PROPOSAL_DISCRIMINATOR + f.proposer + LengthPrefixed(f.heading) + LengthPrefixed(f.description)
  }

  /** The account bytes up to the end of the options vector. */
  function StringsPart(f: ProposalFields): seq<byte>
    requires Encodable(f)
  {
    FieldsPart(f) + LeBytes(|f.options|, 4) + PrefixedItems(f.options)
  }

  /** The votes vector: its u32 count and one u64 per vote. */
  function VotesPart(f: ProposalFields): (r: seq<byte>)
    requires Encodable(f)
    ensures |r| == 4 + 8 * |f.votes|
  {
    LeBytes(|f.votes|, 4) + U64Items(f.votes)
  }

  /** The whole account: the strings part, the votes vector and the creation time. */
  function ProposalAccountBytes(f: ProposalFields): seq<byte>
    requires Encodable(f)
  {
    StringsPart(f) + VotesPart(f) + LeBytes(f.createdAt, 8)
  }

  lemma HeadingFramed(f: ProposalFields, rest: seq<byte>)
    requires Encodable(f)
    ensures ReadPrefixed(StringsPart(f) + rest, 40) == Some((f.heading, 44 + |f.heading|))
  {
    var pre := PROPOSAL_DISCRIMINATOR + f.proposer;
    var post := LengthPrefixed(f.description) + LeBytes(|f.options|, 4) + PrefixedItems(f.options) + rest;
    assert StringsPart(f) + rest == pre + LengthPrefixed(f.heading) + post;
    ReadPrefixedFramed(pre, f.heading, post);
  }

  lemma DescriptionFramed(f: ProposalFields, rest: seq<byte>)
    requires Encodable(f)
    ensures ReadPrefixed(StringsPart(f) + rest, 44 + |f.heading|) == Some((f.description, 48 + |f.heading| + |f.description|))
  {
    var pre := PROPOSAL_DISCRIMINATOR + f.proposer + LengthPrefixed(f.heading);
    var post := LeBytes(|f.options|, 4) + PrefixedItems(f.options) + rest;
    assert StringsPart(f) + rest == pre + LengthPrefixed(f.description) + post;
    ReadPrefixedFramed(pre, f.description, post);
  }

  lemma OptionCountFramed(f: ProposalFields, rest: seq<byte>)
    requires Encodable(f)
    ensures ReadU32(StringsPart(f) + rest, 48 + |f.heading| + |f.description|) == Some(|f.options|)
  {
    var pre := PROPOSAL_DISCRIMINATOR + f.proposer + LengthPrefixed(f.heading) + LengthPrefixed(f.description);
    var post := PrefixedItems(f.options) + rest;
    assert StringsPart(f) + rest == pre + LeBytes(|f.options|, 4) + post;
    ReadU32Framed(pre, |f.options|, post);
  }

  lemma OptionsFramed(f: ProposalFields, rest: seq<byte>)
    requires Encodable(f)
    ensures ReadPrefixedItems(StringsPart(f) + rest, 52 + |f.heading| + |f.description|, |f.options|)
            == Some((f.options, |StringsPart(f)|))
  {
    var pre := FieldsPart(f) + LeBytes(|f.options|, 4);
    ReadPrefixedItemsFramed(pre, f.options, rest);
  }

  /** Whatever follows the options vector, the strings are read back and the cursor stops at its end. */
  lemma StringsRoundTrip(f: ProposalFields, rest: seq<byte>)
    requires Encodable(f)
    ensures ReadStrings(StringsPart(f) + rest) == Some((f.heading, f.description, f.options, |StringsPart(f)|))
  {
    HeadingFramed(f, rest);
    DescriptionFramed(f, rest);
    OptionVectorFramed(f, rest);
    ReadStringsOf(StringsPart(f) + rest, f.heading, 44 + |f.heading|, f.description, 48 + |f.heading| + |f.description|,
                  f.options, |StringsPart(f)|);
  }

  lemma OptionVectorFramed(f: ProposalFields, rest: seq<byte>)
    requires Encodable(f)
    ensures ReadStringVec(StringsPart(f) + rest, 48 + |f.heading| + |f.description|) == Some((f.options, |StringsPart(f)|))
  {
    OptionCountFramed(f, rest);
    OptionsFramed(f, rest);
    ReadStringVecOf(StringsPart(f) + rest, 48 + |f.heading| + |f.description|, f.options, |StringsPart(f)|);
  }

  /** An account is its strings part followed by the rest of what was written. */
  lemma AccountSplit(f: ProposalFields, extra: seq<byte>)
    requires Encodable(f)
    ensures ProposalAccountBytes(f) + extra == StringsPart(f) + (VotesPart(f) + LeBytes(f.createdAt, 8) + extra)
  {
  }

  /** The strings of a written account are read back, whatever follows them. */
  lemma StringsOfAccount(f: ProposalFields, extra: seq<byte>)
    requires Encodable(f)
    ensures ReadStrings(ProposalAccountBytes(f) + extra) == Some((f.heading, f.description, f.options, |StringsPart(f)|))
  {
    AccountSplit(f, extra);
    StringsRoundTrip(f, VotesPart(f) + LeBytes(f.createdAt, 8) + extra);
  }

  /** The discriminator and the proposer lead a written account. */
  lemma HeaderOfAccount(f: ProposalFields, extra: seq<byte>)
    requires Encodable(f)
    ensures var data := ProposalAccountBytes(f) + extra;
            |data| >= 40 && Slice(data, 0, 8) == PROPOSAL_DISCRIMINATOR && data[8..40] == f.proposer
  {
    AccountSplit(f, extra);
    HeaderFramed(f, VotesPart(f) + LeBytes(f.createdAt, 8) + extra);
  }

  /** The strings read once each of the four reads has succeeded. */
  lemma ReadStringsOf(data: seq<byte>, heading: seq<byte>, afterHeading: nat, description: seq<byte>, afterDescription: nat,
                      options: seq<seq<byte>>, afterOptions: nat)
    requires ReadPrefixed(data, 40) == Some((heading, afterHeading))
    requires ReadPrefixed(data, afterHeading) == Some((description, afterDescription))
    requires ReadStringVec(data, afterDescription) == Some((options, afterOptions))
    ensures ReadStrings(data) == Some((heading, description, options, afterOptions))
  {
  }

  /** The discriminator and the proposer key lead the account. */
  lemma HeaderFramed(f: ProposalFields, rest: seq<byte>)
    requires Encodable(f)
    ensures var data := StringsPart(f) + rest;
            |data| >= 40 && Slice(data, 0, 8) == PROPOSAL_DISCRIMINATOR && data[8..40] == f.proposer
  {
    var data := StringsPart(f) + rest;
    var tail := LengthPrefixed(f.heading) + LengthPrefixed(f.description) + LeBytes(|f.options|, 4)
                + PrefixedItems(f.options) + rest;
    assert data == PROPOSAL_DISCRIMINATOR + f.proposer + tail;
    assert data[..8] == PROPOSAL_DISCRIMINATOR;
    assert data[8..40] == f.proposer;
  }

  /** The creation time is read back from where it was written. */
  lemma CreatedAtOfAccount(f: ProposalFields, extra: seq<byte>)
    requires Encodable(f)
    ensures U64At(ProposalAccountBytes(f) + extra, |StringsPart(f)| + 4 + 8 * |f.votes|) == f.createdAt
  {
    var front := StringsPart(f) + VotesPart(f);
    assert ProposalAccountBytes(f) + extra == front + LeBytes(f.createdAt, 8) + extra;
    U64AtFramed(front, f.createdAt, extra);
  }

  /** The votes vector and the creation time are read back from where they were written. */
  lemma TailRoundTrip(f: ProposalFields, extra: seq<byte>)
    requires Encodable(f)
    requires AllSafe(f.votes) && f.createdAt < SAFE_LIMIT
    ensures ReadTail(ProposalAccountBytes(f) + extra, |StringsPart(f)|) == Some((f.votes, f.createdAt))
  {
    var data := ProposalAccountBytes(f) + extra;
    var front := |StringsPart(f)|;
    assert ReadU32(data, front) == Some(|f.votes|) && ReadU64Items(data, front + 4, |f.votes|) == f.votes by {
      VotesOfAccount(f, extra);
    }
    assert U64At(data, front + 4 + 8 * |f.votes|) == f.createdAt by {
      CreatedAtOfAccount(f, extra);
    }
    ReadTailOf(data, front, |f.votes|, f.votes, front + 4 + 8 * |f.votes|, f.createdAt);
  }

  /** The decoder's result once its three stages have succeeded. */
  lemma DecodeProposalOf(data: seq<byte>, key: PublicKey, lifetime: int, now: int,
                         heading: seq<byte>, description: seq<byte>, options: seq<seq<byte>>, afterOptions: nat,
                         votes: seq<nat>, createdAt: nat)
    requires Slice(data, 0, 8) == PROPOSAL_DISCRIMINATOR
    requires ReadStrings(data) == Some((heading, description, options, afterOptions))
    requires ReadTail(data, afterOptions) == Some((votes, createdAt))
    ensures DecodeProposal(data, key, lifetime, now)
            == Some(BuildProposal(key, data[8..40], heading, description, options, votes, createdAt, lifetime, now))
  {
  }

  /**
   * Decoding an account the program wrote (followed by any unused space)
   * gives back its fields, with the total of its votes, whenever the votes
   * and the creation time are within `toNumber`'s range.
   */
  lemma ProposalRoundTrip(f: ProposalFields, extra: seq<byte>, key: PublicKey, lifetime: int, now: int)
    requires Encodable(f)
    requires AllSafe(f.votes) && f.createdAt < SAFE_LIMIT
    ensures DecodeProposal(ProposalAccountBytes(f) + extra, key, lifetime, now)
            == Some(BuildProposal(key, f.proposer, f.heading, f.description, f.options, f.votes, f.createdAt, lifetime, now))
  {
    HeaderOfAccount(f, extra);
    StringsOfAccount(f, extra);
    TailRoundTrip(f, extra);
    DecodeProposalOf(ProposalAccountBytes(f) + extra, key, lifetime, now,
                     f.heading, f.description, f.options, |StringsPart(f)|, f.votes, f.createdAt);
  }

  /** A vote count out of `toNumber`'s range makes the tail unreadable. */
  lemma UnsafeTailRejected(data: seq<byte>, afterOptions: nat, count: nat)
    requires ReadU32(data, afterOptions) == Some(count)
    requires !AllSafe(ReadU64Items(data, afterOptions + 4, count))
    ensures ReadTail(data, afterOptions) == None
  {
  }

  /** Once the strings are read, an unreadable tail rejects the account. */
  lemma TailRejectionDecides(data: seq<byte>, afterOptions: nat, key: PublicKey, lifetime: int, now: int)
    requires ReadStrings(data).Some? && ReadStrings(data).value.3 == afterOptions
    requires ReadTail(data, afterOptions) == None
    ensures DecodeProposal(data, key, lifetime, now) == None
  {
  }

  /** The vote count and the votes are read back from where they were written. */
  lemma VotesOfAccount(f: ProposalFields, extra: seq<byte>)
    requires Encodable(f)
    ensures var data := ProposalAccountBytes(f) + extra;
            ReadU32(data, |StringsPart(f)|) == Some(|f.votes|)
            && ReadU64Items(data, |StringsPart(f)| + 4, |f.votes|) == f.votes
  {
    var front := StringsPart(f);
    var count := LeBytes(|f.votes|, 4);
    var items := U64Items(f.votes);
    var after := LeBytes(f.createdAt, 8) + extra;
    assert ProposalAccountBytes(f) + extra == front + (count + items) + after;
    Regroup(front, count, items, after);
    ReadU32Framed(front, |f.votes|, items + after);
    ReadU64ItemsFramed(front + count, f.votes, after);
  }

  /** A count of votes at or above 2^53 makes the whole account unreadable. */
  lemma UnsafeVoteRejected(f: ProposalFields, extra: seq<byte>, key: PublicKey, lifetime: int, now: int, i: nat)
    requires Encodable(f) && i < |f.votes| && f.votes[i] >= SAFE_LIMIT
    ensures DecodeProposal(ProposalAccountBytes(f) + extra, key, lifetime, now) == None
  {
    var front := |StringsPart(f)|;
    var data := ProposalAccountBytes(f) + extra;
    StringsOfAccount(f, extra);
    VotesOfAccount(f, extra);
    assert !AllSafe(ReadU64Items(data, front + 4, |f.votes|));
    UnsafeTailRejected(data, front, |f.votes|);
    TailRejectionDecides(data, front, key, lifetime, now);
  }

  /** Past the end of the buffer every vote and the creation time read as 0. */
  lemma TruncatedTail(front: seq<byte>, count: nat)
    requires count < U32_LIMIT
    ensures ReadTail(front + LeBytes(count, 4), |front|) == Some((seq(count, _ => 0), 0))
  {
    var data := front + LeBytes(count, 4);
    assert data == front + LeBytes(count, 4) + [] by {
      Unpadded(data);
    }
    ReadU32Framed(front, count, []);
    var votes := ReadU64Items(data, |data|, count);
    assert votes == seq(count, _ => 0) by {
      forall i | 0 <= i < count
        ensures votes[i] == 0
      {
        ReadU64ItemAt(data, |data|, count, i);
      }
    }
    ReadTailOf(data, |front|, count, votes, |data| + 8 * count, 0);
  }

  /**
   * An account that ends right after its vote count still decodes: every
   * vote and the creation time read as 0 (the clamped slices are empty).
   */
  lemma TruncatedVotesReadAsZero(f: ProposalFields, count: nat, key: PublicKey, lifetime: int, now: int)
    requires Encodable(f) && count < U32_LIMIT
    ensures var data := StringsPart(f) + LeBytes(count, 4);
            DecodeProposal(data, key, lifetime, now)
            == Some(BuildProposal(key, f.proposer, f.heading, f.description, f.options, seq(count, _ => 0), 0, lifetime, now))
  {
    var data := StringsPart(f) + LeBytes(count, 4);
    assert |data| >= 40 && Slice(data, 0, 8) == PROPOSAL_DISCRIMINATOR && data[8..40] == f.proposer by {
      HeaderFramed(f, LeBytes(count, 4));
    }
    assert ReadStrings(data) == Some((f.heading, f.description, f.options, |StringsPart(f)|)) by {
      StringsRoundTrip(f, LeBytes(count, 4));
    }
    assert ReadTail(data, |StringsPart(f)|) == Some((seq(count, _ => 0), 0)) by {
      TruncatedTail(StringsPart(f), count);
    }
    DecodeProposalOf(data, key, lifetime, now, f.heading, f.description, f.options, |StringsPart(f)|, seq(count, _ => 0), 0);
  }

  /** Fewer than 44 bytes cannot hold the heading length: no proposal. */
  lemma ShortAccountRejected(data: seq<byte>, key: PublicKey, lifetime: int, now: int)
    requires |data| < 44
    ensures DecodeProposal(data, key, lifetime, now) == None
  {
  }

  /** Any other discriminator, whatever follows it: no proposal. */
  lemma ForeignDiscriminatorRejected(data: seq<byte>, key: PublicKey, lifetime: int, now: int)
    requires |data| >= 8 && data[..8] != PROPOSAL_DISCRIMINATOR
    ensures DecodeProposal(data, key, lifetime, now) == None
  {
  }
}
