/**
 * components/vote-on-proposal.tsx, the list side: every program account is
 * run through the decoder, the ones that decode are kept and sorted newest
 * first, one is selected by key, and each option shows its vote count and
 * its share of the total.
 */
module ProposalList {
  import opened Wrappers
  import opened Bytes
  import opened ProposalView
  import opened Toasts
  import VoteHook
  import ProgramLogs

  /** One entry of `getProgramAccounts`: the account's key and its data. */
  datatype Account = Account(pubkey: PublicKey, data: seq<byte>)

  // ------------------------------------------------------------ decoding

  /** The values present in a list of optional values, in order. */
  function Present<T>(s: seq<Option<T>>): (r: seq<T>)
    ensures |r| <= |s|
  {
    if s == [] then []
    else Present(s[..|s| - 1]) + (if s[|s| - 1].Some? then [s[|s| - 1].value] else [])
  }

  lemma {:induction false} PresentMembership<T>(s: seq<Option<T>>, x: T)
    ensures x in Present(s) <==> Some(x) in s
    decreases |s|
  {
    if s != [] {
      var init := s[..|s| - 1];
      PresentMembership(init, x);
      assert s == init + [s[|s| - 1]];
    }
  }

  /** `accounts.map((acc) => parseProposalData(acc.account.data, acc.pubkey))`. */
  function DecodeEach(accounts: seq<Account>, lifetime: int, now: int): (r: seq<Option<ParsedProposal>>)
    ensures |r| == |accounts|
  {
    seq(|accounts|, i requires 0 <= i < |accounts| => DecodeProposal(accounts[i].data, accounts[i].pubkey, lifetime, now))
  }

  /** `… .filter((p) => p !== null)`. */
  function ParseAll(accounts: seq<Account>, lifetime: int, now: int): (r: seq<ParsedProposal>)
    ensures |r| <= |accounts|
  {
    Present(DecodeEach(accounts, lifetime, now))
  }

  /** A proposal is listed exactly when some account decodes to it. */
  lemma ParseAllMembership(accounts: seq<Account>, lifetime: int, now: int, p: ParsedProposal)
    ensures p in ParseAll(accounts, lifetime, now)
            <==> exists i :: 0 <= i < |accounts| && DecodeProposal(accounts[i].data, accounts[i].pubkey, lifetime, now) == Some(p)
  {
    var decoded := DecodeEach(accounts, lifetime, now);
    PresentMembership(decoded, p);
    if Some(p) in decoded {
      var i :| 0 <= i < |decoded| && decoded[i] == Some(p);
      assert DecodeProposal(accounts[i].data, accounts[i].pubkey, lifetime, now) == Some(p);
    }
    if exists i :: 0 <= i < |accounts| && DecodeProposal(accounts[i].data, accounts[i].pubkey, lifetime, now) == Some(p) {
      var i :| 0 <= i < |accounts| && DecodeProposal(accounts[i].data, accounts[i].pubkey, lifetime, now) == Some(p);
      assert decoded[i] == Some(p);
    }
  }

  // ------------------------------------------------------------- sorting

  /** Newest first: `createdAt` never increases along the list. */
  predicate NewestFirst(s: seq<ParsedProposal>)
  {
    forall i, j :: 0 <= i < j < |s| ==> s[i].createdAt >= s[j].createdAt
  }

  /** The proposals created at instant `t`, in list order. */
  function CreatedAt(s: seq<ParsedProposal>, t: nat): (r: seq<ParsedProposal>)
    ensures |r| <= |s|
  {
    if s == [] then []
    else (if s[0].createdAt == t then [s[0]] else []) + CreatedAt(s[1..], t)
  }

  /** Places `p` after every proposal at least as new, so equal times keep their order. */
  function InsertByAge(p: ParsedProposal, sorted: seq<ParsedProposal>): (r: seq<ParsedProposal>)
    ensures |r| == |sorted| + 1
  {
    if sorted == [] then [p]
    else if sorted[0].createdAt >= p.createdAt then [sorted[0]] + InsertByAge(p, sorted[1..])
    else [p] + sorted
  }

  /**
   * `sort((a, b) => b.createdAt.cmp(a.createdAt))`: a stable sort on
   * creation time, newest first (Array.prototype.sort is stable).
   */
  function SortNewestFirst(s: seq<ParsedProposal>): (r: seq<ParsedProposal>)
    ensures |r| == |s|
  {
    if s == [] then [] else InsertByAge(s[|s| - 1], SortNewestFirst(s[..|s| - 1]))
  }

  /** Every element of the inserted list is `p` or one of the sorted list. */
  lemma {:induction false} InsertByAgeElements(p: ParsedProposal, sorted: seq<ParsedProposal>)
    ensures forall q :: q in InsertByAge(p, sorted) ==> q == p || q in sorted
    decreases |sorted|
  {
    if sorted != [] && sorted[0].createdAt >= p.createdAt {
      InsertByAgeElements(p, sorted[1..]);
    }
  }

  /** Inserting adds exactly `p`. */
  lemma {:induction false} InsertByAgeAddsOne(p: ParsedProposal, sorted: seq<ParsedProposal>)
    ensures multiset(InsertByAge(p, sorted)) == multiset(sorted) + multiset{p}
    decreases |sorted|
  {
    if sorted != [] {
      assert sorted == [sorted[0]] + sorted[1..];
      if sorted[0].createdAt >= p.createdAt {
        InsertByAgeAddsOne(p, sorted[1..]);
      }
    }
  }

  /** The head of a newest-first list is at least as new as everything after it. */
  lemma HeadIsNewest(sorted: seq<ParsedProposal>)
    requires sorted != [] && NewestFirst(sorted)
    ensures forall q :: q in sorted[1..] ==> sorted[0].createdAt >= q.createdAt
  {
    forall q | q in sorted[1..]
      ensures sorted[0].createdAt >= q.createdAt
    {
      var k :| 0 <= k < |sorted[1..]| && sorted[1..][k] == q;
      assert sorted[k + 1] == q;
    }
  }

  /** Putting in front an element at least as new as every other keeps a list newest first. */
  lemma ConsNewest(q: ParsedProposal, rest: seq<ParsedProposal>)
    requires NewestFirst(rest) && forall x :: x in rest ==> q.createdAt >= x.createdAt
    ensures NewestFirst([q] + rest)
  {
    var r := [q] + rest;
    forall i, j | 0 <= i < j < |r|
      ensures r[i].createdAt >= r[j].createdAt
    {
      assert r[j] == rest[j - 1];
      if i > 0 {
        assert r[i] == rest[i - 1];
      }
    }
  }

  /** Inserting into a newest-first list keeps it newest first. */
  lemma {:induction false} InsertByAgeKeepsOrder(p: ParsedProposal, sorted: seq<ParsedProposal>)
    requires NewestFirst(sorted)
    ensures NewestFirst(InsertByAge(p, sorted))
    decreases |sorted|
  {
    if sorted == [] {
    } else if sorted[0].createdAt >= p.createdAt {
      var rest := InsertByAge(p, sorted[1..]);
      NewestFirstTail(sorted);
      InsertByAgeKeepsOrder(p, sorted[1..]);
      InsertByAgeElements(p, sorted[1..]);
      HeadIsNewest(sorted);
      ConsNewest(sorted[0], rest);
    } else {
      HeadIsNewest(sorted);
      assert sorted == [sorted[0]] + sorted[1..];
      ConsNewest(p, sorted);
    }
  }

  /** A list holding nothing as new as `t` holds nothing created at `t`. */
  lemma {:induction false} NothingCreatedAt(s: seq<ParsedProposal>, t: nat)
    requires forall q :: q in s ==> q.createdAt < t
    ensures CreatedAt(s, t) == []
    decreases |s|
  {
    if s != [] {
      assert s[0] in s;
      assert forall q :: q in s[1..] ==> q in s;
      NothingCreatedAt(s[1..], t);
    }
  }

  /** Inserting `p` appends it to the proposals of its own instant and leaves the others alone. */
  lemma {:induction false} InsertByAgeStable(p: ParsedProposal, sorted: seq<ParsedProposal>, t: nat)
    requires NewestFirst(sorted)
    ensures CreatedAt(InsertByAge(p, sorted), t) == CreatedAt(sorted, t) + (if p.createdAt == t then [p] else [])
    decreases |sorted|
  {
    if sorted == [] {
      CreatedAtCons(p, [], t);
      assert [p] + [] == [p];
    } else if sorted[0].createdAt >= p.createdAt {
      NewestFirstTail(sorted);
      InsertByAgeStable(p, sorted[1..], t);
      InsertBehindHead(p, sorted, t);
    } else {
      InsertBeforeHead(p, sorted, t);
    }
  }

  /** When the head is at least as new as `p`, it stays in front of what inserting into the rest gives. */
  lemma InsertBehindHead(p: ParsedProposal, sorted: seq<ParsedProposal>, t: nat)
    requires sorted != [] && sorted[0].createdAt >= p.createdAt
    requires CreatedAt(InsertByAge(p, sorted[1..]), t) == CreatedAt(sorted[1..], t) + (if p.createdAt == t then [p] else [])
    ensures CreatedAt(InsertByAge(p, sorted), t) == CreatedAt(sorted, t) + (if p.createdAt == t then [p] else [])
  {
    var mine := if p.createdAt == t then [p] else [];
    var head := if sorted[0].createdAt == t then [sorted[0]] else [];
    var rest := InsertByAge(p, sorted[1..]);
    calc {
      CreatedAt(InsertByAge(p, sorted), t);
      CreatedAt([sorted[0]] + rest, t);
      { CreatedAtCons(sorted[0], rest, t); }
      head + CreatedAt(rest, t);
      head + (CreatedAt(sorted[1..], t) + mine);
      (head + CreatedAt(sorted[1..], t)) + mine;
      CreatedAt(sorted, t) + mine;
    }
  }

  /** When `p` is newer than the head, it goes first and nothing else is of its instant. */
  lemma InsertBeforeHead(p: ParsedProposal, sorted: seq<ParsedProposal>, t: nat)
    requires NewestFirst(sorted) && sorted != [] && sorted[0].createdAt < p.createdAt
    ensures CreatedAt(InsertByAge(p, sorted), t) == CreatedAt(sorted, t) + (if p.createdAt == t then [p] else [])
  {
    var mine := if p.createdAt == t then [p] else [];
    assert CreatedAt([p] + sorted, t) == mine + CreatedAt(sorted, t) by {
      CreatedAtCons(p, sorted, t);
    }
    if p.createdAt == t {
      assert CreatedAt(sorted, t) == [] by {
        NothingAsOld(p, sorted);
        NothingCreatedAt(sorted, t);
      }
      assert mine + [] == [] + mine;
    }
  }

  /** The proposals of an instant in a list with one more at its head. */
  lemma CreatedAtCons(x: ParsedProposal, s: seq<ParsedProposal>, t: nat)
    ensures CreatedAt([x] + s, t) == (if x.createdAt == t then [x] else []) + CreatedAt(s, t)
  {
    assert ([x] + s)[1..] == s;
  }

  /** Everything in a newest-first list is older than a proposal newer than its head. */
  lemma NothingAsOld(p: ParsedProposal, sorted: seq<ParsedProposal>)
    requires NewestFirst(sorted) && sorted != [] && sorted[0].createdAt < p.createdAt
    ensures forall q :: q in sorted ==> q.createdAt < p.createdAt
  {
    forall q | q in sorted
      ensures q.createdAt < p.createdAt
    {
      var k :| 0 <= k < |sorted| && sorted[k] == q;
    }
  }

  /** The tail of a newest-first list is newest first. */
  lemma NewestFirstTail(sorted: seq<ParsedProposal>)
    requires sorted != [] && NewestFirst(sorted)
    ensures NewestFirst(sorted[1..])
  {
    forall i, j | 0 <= i < j < |sorted[1..]|
      ensures sorted[1..][i].createdAt >= sorted[1..][j].createdAt
    {
      assert sorted[1..][i] == sorted[i + 1] && sorted[1..][j] == sorted[j + 1];
    }
  }

  /** Taking the proposals of one instant commutes with appending. */
  lemma {:induction false} CreatedAtSnoc(s: seq<ParsedProposal>, q: ParsedProposal, t: nat)
    ensures CreatedAt(s + [q], t) == CreatedAt(s, t) + (if q.createdAt == t then [q] else [])
    decreases |s|
  {
    if s == [] {
      assert CreatedAt([q], t) == (if q.createdAt == t then [q] else []) + CreatedAt([], t);
    } else {
      assert (s + [q])[1..] == s[1..] + [q];
      CreatedAtSnoc(s[1..], q, t);
    }
  }

  /**
   * The sort is newest first, a permutation of its input, and stable:
   * proposals created at the same instant keep their relative order.
   */
  lemma {:induction false} SortNewestFirstCorrect(s: seq<ParsedProposal>)
    ensures NewestFirst(SortNewestFirst(s))
    ensures multiset(SortNewestFirst(s)) == multiset(s)
    ensures forall t: nat :: CreatedAt(SortNewestFirst(s), t) == CreatedAt(s, t)
    decreases |s|
  {
    if s != [] {
      var init := s[..|s| - 1];
      var last := s[|s| - 1];
      var sorted := SortNewestFirst(init);
      assert s == init + [last];
      assert SortNewestFirst(s) == InsertByAge(last, sorted);
      SortNewestFirstCorrect(init);
      assert NewestFirst(InsertByAge(last, sorted)) by {
        InsertByAgeKeepsOrder(last, sorted);
      }
      assert multiset(InsertByAge(last, sorted)) == multiset(s) by {
        InsertByAgeAddsOne(last, sorted);
      }
      forall t: nat
        ensures CreatedAt(InsertByAge(last, sorted), t) == CreatedAt(s, t)
      {
        InsertByAgeStable(last, sorted, t);
        CreatedAtSnoc(init, last, t);
      }
    }
  }

  // ------------------------------------------------------------- fetching

  const FETCH_FAILED: ToastType :=
    ToastType("Error Fetching Proposals", "Could not load proposals from the network.", Destructive)

  datatype FetchOutcome = Loaded(proposals: seq<ParsedProposal>) | FetchFailed(toast: ToastType)

  /**
   * `fetchProposals`: the accounts `getProgramAccounts` returned (None when
   * it threw), decoded, filtered and sorted newest first.
   */
  function FetchProposals(accounts: Option<seq<Account>>, lifetime: int, now: int): (r: FetchOutcome)
    ensures accounts.None? <==> r == FetchFailed(FETCH_FAILED)
  {
    match accounts
    case None => FetchFailed(FETCH_FAILED)
    case Some(list) => Loaded(SortNewestFirst(ParseAll(list, lifetime, now)))
  }

  /**
   * A loaded list is newest first and holds exactly the proposals the
   * accounts decode to, each as often as the decoder produced it.
   */
  lemma FetchedProposals(accounts: seq<Account>, lifetime: int, now: int)
    ensures var r := FetchProposals(Some(accounts), lifetime, now);
            r.Loaded? && NewestFirst(r.proposals)
            && multiset(r.proposals) == multiset(ParseAll(accounts, lifetime, now))
            && forall p :: p in r.proposals
                 <==> exists i :: 0 <= i < |accounts| && DecodeProposal(accounts[i].data, accounts[i].pubkey, lifetime, now) == Some(p)
  {
    var parsed := ParseAll(accounts, lifetime, now);
    SortNewestFirstCorrect(parsed);
    forall p
      ensures p in SortNewestFirst(parsed)
              <==> exists i :: 0 <= i < |accounts| && DecodeProposal(accounts[i].data, accounts[i].pubkey, lifetime, now) == Some(p)
    {
      assert p in SortNewestFirst(parsed) <==> p in multiset(SortNewestFirst(parsed));
      assert p in parsed <==> p in multiset(parsed);
      ParseAllMembership(accounts, lifetime, now, p);
    }
  }

  // ------------------------------------------------------------ selection

  /** `proposals.find(p => p.publicKey.equals(key))`: the first proposal with that key. */
  function FindProposal(proposals: seq<ParsedProposal>, key: PublicKey): (r: Option<ParsedProposal>)
    ensures r.None? <==> forall i :: 0 <= i < |proposals| ==> proposals[i].publicKey != key
    ensures r.Some? ==> exists i :: 0 <= i < |proposals| && proposals[i] == r.value && r.value.publicKey == key
                                   && forall j :: 0 <= j < i ==> proposals[j].publicKey != key
  {
    if proposals == [] then None
    else if proposals[0].publicKey == key then Some(proposals[0])
    else
      var r := FindProposal(proposals[1..], key);
      assert forall i :: 1 <= i < |proposals| ==> proposals[i] == proposals[1..][i - 1];
      r
  }

  /** `proposal.votes[index]?.toNumber() ?? 0`: the option's count, and zero for an option with no count. */
  function VotesForOption(p: ParsedProposal, index: nat): (r: nat)
    ensures index < |p.votes| ==> r == p.votes[index]
    ensures index >= |p.votes| ==> r == 0
  {
    if index < |p.votes| then p.votes[index] else 0
  }

  /** No option shows more votes than the proposal's total. */
  lemma VotesForOptionBounded(p: ParsedProposal, index: nat)
    requires p.totalVotes == Sum(p.votes)
    ensures VotesForOption(p, index) <= p.totalVotes
    ensures index >= |p.votes| ==> VotesForOption(p, index) == 0
  {
    if index < |p.votes| {
      ElementAtMostSum(p.votes, index);
    }
  }

  /** The progress bar's value: the option's share of the total, in percent, and 0 when nobody has voted. */
  function Percentage(p: ParsedProposal, index: nat): (r: real)
    ensures p.totalVotes == 0 ==> r == 0.0
    ensures p.totalVotes > 0 ==> r * (p.totalVotes as real) == (VotesForOption(p, index) as real) * 100.0
  {
    if p.totalVotes > 0 then (VotesForOption(p, index) as real / p.totalVotes as real) * 100.0 else 0.0
  }

  /** For a decoded proposal every bar lies between 0 and 100. */
  lemma PercentageInRange(p: ParsedProposal, index: nat)
    requires p.totalVotes == Sum(p.votes)
    ensures 0.0 <= Percentage(p, index) <= 100.0
    ensures p.totalVotes == 0 ==> Percentage(p, index) == 0.0
  {
    VotesForOptionBounded(p, index);
    if p.totalVotes > 0 {
      ShareAtMostWhole(VotesForOption(p, index) as real, p.totalVotes as real);
    }
  }

  /** A part no larger than a positive whole is a share between 0 and 1. */
  lemma ShareAtMostWhole(part: real, whole: real)
    requires 0.0 <= part <= whole && whole > 0.0
    ensures 0.0 <= part / whole <= 1.0
  {
    assert (part / whole) * whole == part;
  }

  // --------------------------------------------------------------- voting

  const NO_OPTION_SELECTED: ToastType :=
    ToastType("No Option Selected", "Please select an option to vote for.", Destructive)

  datatype HandleVoteOutcome = NoOption(toast: ToastType) | Voted(outcome: VoteHook.VoteOutcome)

  /** `handleVote`: without a selected option nothing reaches the vote hook. */
  function HandleVote(selected: Option<nat>, wallet: Option<PublicKey>, proposal: Option<PublicKey>): (r: HandleVoteOutcome)
    ensures selected.None? <==> r == NoOption(NO_OPTION_SELECTED)
    ensures selected.Some? ==> r == Voted(VoteHook.Vote(wallet, proposal, selected.value))
  {
    match selected
    case None => NoOption(NO_OPTION_SELECTED)
    case Some(index) => Voted(VoteHook.Vote(wallet, proposal, index))
  }

  /** The list state `handleVote` leaves once `vote` settles. */
  datatype AfterVote = AfterVote(selected: Option<nat>, refresh: bool)

  /**
   * The end of `handleVote`: `vote` returns a signature only when the
   * transaction was sent and confirmed, and then the list is fetched again
   * and the chosen option is cleared; a refused or failed vote keeps the
   * choice and the list as they were.
   */
  function SettleVote(selected: nat, outcome: VoteHook.VoteOutcome, failure: Option<ProgramLogs.TxError>): (r: AfterVote)
    ensures r.refresh <==> outcome.Send? && failure.None?
    ensures r.selected.None? <==> r.refresh
    ensures r.selected.Some? ==> r.selected.value == selected
  {
    if outcome.Send? && failure.None? then AfterVote(None, true) else AfterVote(Some(selected), false)
  }

  /** After a vote that went through, the "Cast Vote" button stays disabled until an option is chosen again. */
  lemma NoRepeatVoteWithoutChoice(p: ParsedProposal, isVoting: bool, selected: nat, wallet: Option<PublicKey>, proposal: Option<PublicKey>)
    requires wallet.Some? && proposal.Some?
    ensures var r := HandleVote(Some(selected), wallet, proposal);
            r.Voted? && !CastVoteEnabled(p, isVoting, SettleVote(selected, r.outcome, None).selected)
  {
  }

  /** The "Cast Vote" button is shown for an active proposal and enabled once an option is chosen. */
  predicate CastVoteEnabled(p: ParsedProposal, isVoting: bool, selected: Option<nat>)
  {
    p.isActive && !isVoting && selected.Some?
  }

  /** Once a decoded proposal's lifetime has run out no vote can be cast on it. */
  lemma NoVoteAfterLifetime(data: seq<byte>, key: PublicKey, lifetime: int, now: int, isVoting: bool, selected: Option<nat>)
    requires DecodeProposal(data, key, lifetime, now).Some?
    ensures var p := DecodeProposal(data, key, lifetime, now).value;
            CastVoteEnabled(p, isVoting, selected) <==> now <= p.createdAt + lifetime && !isVoting && selected.Some?
  {
    DecodedActivity(data, key, lifetime, now);
  }
}
