/**
 * The M-of-N rule (qvault/services/approval_service.py, mobile/src/status.ts) and the sentences that
 * tell a voter what rejecting will do (qvault/evidence.py). A sentence is modelled as the claim it
 * makes; the theorems say each claim is made exactly when it is true of the votes still to come.
 */
module Rule {
  import opened Wrappers

  datatype Choice = Approve | Reject

  datatype Vote = Vote(voter: nat, choice: Choice)

  datatype Outcome = Open | Approved | Rejected

  function Count(votes: seq<Vote>, choice: Choice): nat {
    if votes == [] then 0
    else Count(votes[..|votes| - 1], choice) + if votes[|votes| - 1].choice == choice then 1 else 0
  }

  /** `_finalize_if_decided` on an open decision's tally. */
  function Decide(m: int, n: int, approvals: int, rejections: int): Outcome {
    if approvals >= m then Approved else if rejections > n - m then Rejected else Open
  }

  /** Votes taken one by one; a closed decision takes no more. */
  function Process(m: int, n: int, votes: seq<Vote>): Outcome {
    if votes == [] then Open
    else
      var before := Process(m, n, votes[..|votes| - 1]);
      if before != Open then before else Decide(m, n, Count(votes, Approve), Count(votes, Reject))
  }

  ghost function Voters(votes: seq<Vote>): set<nat> {
    set i | 0 <= i < |votes| :: votes[i].voter
  }

  /** Nobody votes twice, and only these people vote. */
  ghost predicate Ballot(votes: seq<Vote>, people: set<nat>) {
    && (forall i, j :: 0 <= i < j < |votes| ==> votes[i].voter != votes[j].voter)
    && Voters(votes) <= people
  }

  // ---------------------------------------------------------------- counting

  lemma {:induction false} BallotSize(votes: seq<Vote>, people: set<nat>)
    requires Ballot(votes, people)
    ensures |votes| == |Voters(votes)| <= |people|
    ensures Count(votes, Approve) + Count(votes, Reject) == |votes|
  {
    SubsetSize(Voters(votes), people);
    if votes != [] {
      var before, last := votes[..|votes| - 1], votes[|votes| - 1];
      assert Ballot(before, people) by { BallotPrefix(before, [last], people); assert before + [last] == votes; }
      BallotSize(before, people);
      assert Voters(votes) == Voters(before) + {last.voter} by {
        VotersAppend(before, [last]);
        assert before + [last] == votes;
      }
      assert last.voter !in Voters(before);
    }
  }

  lemma {:induction false} SubsetSize(a: set<nat>, b: set<nat>)
    requires a <= b
    ensures |a| <= |b|
  {
    if a != {} {
      var x :| x in a;
      SubsetSize(a - {x}, b - {x});
    }
  }

  lemma VotersAppend(votes: seq<Vote>, more: seq<Vote>)
    ensures Voters(votes + more) == Voters(votes) + Voters(more)
  {
    var all := votes + more;
    forall v | v in Voters(votes) + Voters(more) ensures v in Voters(all) {
      if v in Voters(votes) {
        var i :| 0 <= i < |votes| && votes[i].voter == v;
        assert all[i].voter == v;
      } else {
        var i :| 0 <= i < |more| && more[i].voter == v;
        assert all[|votes| + i].voter == v;
      }
    }
  }

  lemma BallotPrefix(votes: seq<Vote>, more: seq<Vote>, people: set<nat>)
    requires Ballot(votes + more, people)
    ensures Ballot(votes, people) && Ballot(more, people) && Voters(votes) !! Voters(more)
  {
    VotersAppend(votes, more);
    var all := votes + more;
    assert forall i :: 0 <= i < |votes| ==> votes[i] == all[i];
    assert forall i :: 0 <= i < |more| ==> more[i] == all[|votes| + i];
  }

  lemma BallotAppend(votes: seq<Vote>, more: seq<Vote>, people: set<nat>)
    requires Ballot(votes, people) && Ballot(more, people) && Voters(votes) !! Voters(more)
    ensures Ballot(votes + more, people)
  {
    VotersAppend(votes, more);
    var all := votes + more;
    forall i, j | 0 <= i < j < |all| ensures all[i].voter != all[j].voter {
      if i < |votes| <= j {
        assert votes[i].voter in Voters(votes) && more[j - |votes|].voter in Voters(more);
      }
    }
  }

  lemma {:induction false} CountAppend(votes: seq<Vote>, more: seq<Vote>, choice: Choice)
    ensures Count(votes + more, choice) == Count(votes, choice) + Count(more, choice)
  {
    if more == [] {
      assert votes + more == votes;
    } else {
      var all, rest := votes + more, more[..|more| - 1];
      assert all[..|all| - 1] == votes + rest;
      CountAppend(votes, rest, choice);
    }
  }

  lemma WithoutOne(votes: seq<Vote>, k: nat)
    requires k < |votes|
    ensures votes == votes[..k] + [votes[k]] + votes[k + 1..]
    ensures multiset(votes[..k] + votes[k + 1..]) == multiset(votes) - multiset{votes[k]}
  {
    var a, b := votes[..k], votes[k + 1..];
    assert votes == a + [votes[k]] + b;
    assert multiset(votes) == multiset(a) + multiset{votes[k]} + multiset(b);
  }

  lemma CountWithout(votes: seq<Vote>, k: nat, choice: Choice)
    requires k < |votes|
    ensures Count(votes, choice) == Count(votes[..k] + votes[k + 1..], choice) + if votes[k].choice == choice then 1 else 0
  {
    var a, one, b := votes[..k], [votes[k]], votes[k + 1..];
    assert votes == a + one + b;
    CountAppend(a + one, b, choice);
    CountAppend(a, one, choice);
    CountAppend(a, b, choice);
    assert one[..0] == [];
  }

  lemma {:induction false} CountsAreMultiset(votes: seq<Vote>, other: seq<Vote>, choice: Choice)
    requires multiset(votes) == multiset(other)
    ensures Count(votes, choice) == Count(other, choice)
    decreases |votes|
  {
    if votes == [] {
      assert |other| == |multiset(other)| == 0;
    } else {
      hide Count;
      var n := |votes| - 1;
      assert votes[n] in multiset(other);
      var k :| 0 <= k < |other| && other[k] == votes[n];
      WithoutOne(other, k);
      WithoutOne(votes, n);
      CountsAreMultiset(votes[..n] + votes[n + 1..], other[..k] + other[k + 1..], choice);
      CountWithout(other, k, choice);
      CountWithout(votes, n, choice);
    }
  }

  // ---------------------------------------------------------------- the rule

  /** No votes both approve and reject a decision. */
  lemma NeverBoth(m: int, n: int, votes: seq<Vote>, people: set<nat>)
    requires Ballot(votes, people) && |people| <= n
    ensures !(Count(votes, Approve) >= m && Count(votes, Reject) > n - m)
  {
    BallotSize(votes, people);
  }

  /**
   * Taking votes one by one, and stopping once decided, gives what the whole tally gives, except where
   * more approvals are needed than there are voters and nobody has voted: that tally is Rejected.
   */
  lemma {:induction false} ProcessIsTally(m: int, n: int, votes: seq<Vote>, people: set<nat>)
    requires Ballot(votes, people) && |people| <= n && 1 <= m
    ensures Process(m, n, votes) == Decide(m, n, Count(votes, Approve), Count(votes, Reject))
            <==> m <= n || votes != []
  {
    if votes != [] {
      var before, last := votes[..|votes| - 1], votes[|votes| - 1];
      assert before + [last] == votes;
      BallotPrefix(before, [last], people);
      ProcessIsTally(m, n, before, people);
      NeverBoth(m, n, votes, people);
    }
  }

  /** So an open decision with a vote on it needs no more approvals than there are voters. */
  lemma OpenTally(m: int, n: int, votes: seq<Vote>, people: set<nat>)
    requires Ballot(votes, people) && |people| <= n && 1 <= m && Process(m, n, votes) == Open
    ensures Count(votes, Approve) < m
    ensures m <= n ==> Count(votes, Reject) <= n - m
    ensures m > n ==> votes == []
  {
    ProcessIsTally(m, n, votes, people);
  }

  /** The outcome of a set of votes does not depend on the order they came in. */
  lemma OrderDoesNotMatter(m: int, n: int, votes: seq<Vote>, other: seq<Vote>, people: set<nat>)
    requires Ballot(votes, people) && Ballot(other, people) && |people| <= n && 1 <= m
    requires multiset(votes) == multiset(other)
    ensures Process(m, n, votes) == Process(m, n, other)
  {
    hide Process, Ballot;
    assert |votes| == |multiset(votes)| == |multiset(other)| == |other|;
    ProcessIsTally(m, n, votes, people);
    ProcessIsTally(m, n, other, people);
    CountsAreMultiset(votes, other, Approve);
    CountsAreMultiset(votes, other, Reject);
    if votes == [] {
      assert other == [];
    }
  }

  // ---------------------------------------------------------------- late reads

  datatype Status = IsOpen | IsApproved | IsRejected | IsExpired | Other(word: string)

  /** `n` is the decision's signed N. */
  datatype Facts = Facts(status: Status, deadline: Option<int>, approvals: int, rejections: int, m: int, n: int)

  /** `decisionStatus` on the phone; no deadline is also an unreadable one. */
  function DecisionStatus(f: Facts, now: int): Status {
    if f.status != IsOpen then f.status
    else if f.deadline.None? || now <= f.deadline.value then IsOpen
    else if f.approvals >= f.m then IsApproved
    else if f.rejections > f.n - f.m then IsRejected
    else IsExpired
  }

  /** `deciding_n`: the signed N, less whoever raised it when they cannot vote on it. */
  function DecidingN(f: Facts, requesterExcluded: bool): int {
    f.n - if requesterExcluded then 1 else 0
  }

  /** `refresh_expiry` on the server: the rule first, then the deadline. */
  function ServerStatus(f: Facts, requesterExcluded: bool, now: int): Status {
    if f.status != IsOpen || f.deadline.None? || now <= f.deadline.value then f.status
    else
      match Decide(f.m, DecidingN(f, requesterExcluded), f.approvals, f.rejections)
      case Approved => IsApproved
      case Rejected => IsRejected
      case Open => IsExpired
  }

  /** What a late read says of votes that came to this. */
  function ReadAs(outcome: Outcome): Status {
    match outcome
    case Approved => IsApproved
    case Rejected => IsRejected
    case Open => IsExpired
  }

  /** Past its deadline a decision still open has these votes. */
  ghost predicate LateWith(f: Facts, now: int, votes: seq<Vote>, people: set<nat>, n: int) {
    && f.status == IsOpen && f.deadline.Some? && now > f.deadline.value
    && Ballot(votes, people) && |people| <= n && 1 <= f.m
    && f.approvals == Count(votes, Approve) && f.rejections == Count(votes, Reject)
  }

  /**
   * The server's late read shows what its votes decided, taken in any order, and Expired exactly when
   * they decided nothing; unless M is above the number who can decide and nobody voted.
   */
  lemma LateReadIsTheRule(f: Facts, requesterExcluded: bool, now: int, votes: seq<Vote>, people: set<nat>)
    requires LateWith(f, now, votes, people, DecidingN(f, requesterExcluded))
    ensures ServerStatus(f, requesterExcluded, now) == ReadAs(Process(f.m, DecidingN(f, requesterExcluded), votes))
            <==> f.m <= DecidingN(f, requesterExcluded) || votes != []
  {
    ProcessIsTally(f.m, DecidingN(f, requesterExcluded), votes, people);
  }

  /** 2 of 2, raised by one of the two, separation of duties switched on since: Rejected with no vote cast. */
  lemma RejectedWithoutAVote(now: int)
    ensures var f := Facts(IsOpen, Some(now - 1), 0, 0, 2, 2);
            && ServerStatus(f, true, now) == IsRejected
            && Process(f.m, DecidingN(f, true), []) == Open
            && LateWith(f, now, [], {0}, DecidingN(f, true))
  {
    assert Voters([]) == {};
    assert |{0 as nat}| == 1;
  }

  /**
   * The phone says now what the server will say, except for one family: past its deadline, the
   * requester left out, too few approvals, and exactly N - M rejections. There the server's answer
   * is Rejected and the phone's Expired, because the phone counts against the signed N.
   */
  lemma PhoneAgreesExactly(f: Facts, requesterExcluded: bool, now: int)
    ensures DecisionStatus(f, now) == ServerStatus(f, requesterExcluded, now)
            <==> !(f.status == IsOpen && f.deadline.Some? && now > f.deadline.value
                   && requesterExcluded && f.approvals < f.m && f.rejections == f.n - f.m)
    ensures DecisionStatus(f, now) != ServerStatus(f, requesterExcluded, now) ==>
              DecisionStatus(f, now) == IsExpired && ServerStatus(f, requesterExcluded, now) == IsRejected
  {
    var left := DecidingN(f, requesterExcluded) - f.m;
    assert left == f.n - f.m || left == f.n - f.m - 1;
  }

  /**
   * Which of these a decision left open by its votes can be in. The requester may have been able to
   * vote when the votes were cast (`wasExcluded`) and not at the read. The two disagree exactly when
   * the requester is left out at the read, rejections are N - M, and either the requester was not left
   * out before or nobody voted at all.
   */
  lemma PhoneAgreesWhileOpen(f: Facts, wasExcluded: bool, isExcluded: bool, now: int, votes: seq<Vote>, people: set<nat>)
    requires LateWith(f, now, votes, people, DecidingN(f, wasExcluded)) && f.m <= f.n
    requires Process(f.m, DecidingN(f, wasExcluded), votes) == Open
    ensures DecisionStatus(f, now) == ServerStatus(f, isExcluded, now)
            <==> !(isExcluded && f.rejections == f.n - f.m && (!wasExcluded || votes == []))
  {
    OpenTally(f.m, DecidingN(f, wasExcluded), votes, people);
    PhoneAgreesExactly(f, isExcluded, now);
  }

  /** So while the number who can decide stays what it was, and M is not above it, the two always agree. */
  lemma PhoneAgreesWhileRuleStays(f: Facts, requesterExcluded: bool, now: int, votes: seq<Vote>, people: set<nat>)
    requires LateWith(f, now, votes, people, DecidingN(f, requesterExcluded)) && f.m <= DecidingN(f, requesterExcluded)
    requires Process(f.m, DecidingN(f, requesterExcluded), votes) == Open
    ensures DecisionStatus(f, now) == ServerStatus(f, requesterExcluded, now)
  {
    OpenTally(f.m, DecidingN(f, requesterExcluded), votes, people);
    PhoneAgreesExactly(f, requesterExcluded, now);
  }

  /**
   * 2 of 4: one approval and two rejections leave it open while all four may vote; then the fourth,
   * who raised it, is left out. The server's late read is Rejected, the phone's Expired.
   */
  lemma PhoneShowsExpired(now: int)
    ensures var f, votes := Facts(IsOpen, Some(now - 1), 1, 2, 2, 4), [Vote(0, Approve), Vote(1, Reject), Vote(2, Reject)];
            && LateWith(f, now, votes, {0, 1, 2, 3}, DecidingN(f, false))
            && Process(f.m, DecidingN(f, false), votes) == Open
            && DecisionStatus(f, now) == IsExpired && ServerStatus(f, true, now) == IsRejected
  {
    var votes := [Vote(0, Approve), Vote(1, Reject), Vote(2, Reject)];
    var people: set<nat> := {0, 1, 2, 3};
    var two, one := votes[..2], votes[..1];
    assert two[..1] == one && one[..0] == [];
    assert Count(one, Approve) == 1 && Count(one, Reject) == 0;
    assert Count(two, Approve) == 1 && Count(two, Reject) == 1;
    assert Count(votes, Approve) == 1 && Count(votes, Reject) == 2;
    assert Ballot(votes, people);
    assert |people| == 4;
    ProcessIsTally(2, 4, votes, people);
  }

  // ---------------------------------------------------------------- what the sentences claim

  /** How a decision that cannot pass still ends. */
  datatype Ending = Ending(rejecters: Option<int>, withdrawal: bool, expiry: bool)

  /** What the first sentences of `reject_consequence` say. */
  datatype Claim =
    | EndsForEveryone
    | MoreWouldEnd(more: int)
    | RejectionsCannotEnd(people: nat)
    | CannotPass(needed: int, people: nat, ending: Ending)

  /**
   * `how_it_ends` for k people who can still reject: "when A and B reject it" and "when any 2 of A,
   * B and C reject it" both say how many of them it takes. Nothing in any part is "it stays open".
   */
  function HowItEnds(rejections: int, m: int, n: int, k: nat, withdrawal: bool, expiry: bool): Ending {
    var left := n - m + 1 - rejections;
    Ending(if 0 < left <= k then Some(left) else None, withdrawal, expiry)
  }

  /** `reject_consequence`; `others` is None on the rule-only call. */
  function RejectConsequence(rejections: int, m: int, n: int, approvals: Option<int>, others: Option<nat>,
                             withdrawal: bool, expiry: bool): Claim {
    var limit, after := n - m, rejections + 1;
    var more := limit + 1 - after;
    if after > limit then EndsForEveryone
    else if others.None? || approvals.None? then MoreWouldEnd(more)
    else
      var needed := if m - approvals.value > 0 then m - approvals.value else 0;
      var k := others.value;
      if k >= needed then (if k >= more then MoreWouldEnd(more) else RejectionsCannotEnd(k))
      else CannotPass(needed, k, HowItEnds(after, m, n, k, withdrawal, expiry))
  }

  /** Further votes by some of these people, who have not voted yet. */
  ghost predicate Continues(cast: seq<Vote>, more: seq<Vote>, people: set<nat>) {
    Ballot(more, people) && Voters(cast) !! Voters(more)
  }

  ghost predicate CanEndAs(m: int, n: int, cast: seq<Vote>, people: set<nat>, outcome: Outcome) {
    exists more :: Continues(cast, more, people) && Process(m, n, cast + more) == outcome
  }

  /** All of these people making one choice, one after another. */
  ghost function All(people: set<nat>, choice: Choice): seq<Vote> {
    if people == {} then [] else var p :| p in people; All(people - {p}, choice) + [Vote(p, choice)]
  }

  lemma {:induction false} AllVote(people: set<nat>, choice: Choice)
    ensures var votes := All(people, choice);
            && Ballot(votes, people) && Voters(votes) == people && Count(votes, choice) == |people|
            && forall c :: c != choice ==> Count(votes, c) == 0
  {
    if people != {} {
      var votes := All(people, choice);
      var p, before := votes[|votes| - 1].voter, votes[..|votes| - 1];
      assert p in people && votes == before + [Vote(p, choice)] && before == All(people - {p}, choice);
      AllVote(people - {p}, choice);
      hide All;
      VotersAppend(before, [Vote(p, choice)]);
      assert Voters([Vote(p, choice)]) == {p} by { assert [Vote(p, choice)][0].voter == p; }
      assert Ballot(before, people) && Ballot([Vote(p, choice)], people);
      BallotAppend(before, [Vote(p, choice)], people);
    }
  }

  /** The tally after some continuation. */
  lemma TallyAfter(m: int, n: int, cast: seq<Vote>, more: seq<Vote>, voters: set<nat>, people: set<nat>)
    requires Ballot(cast, voters) && |voters| <= n && 1 <= m && people <= voters && Continues(cast, more, people)
    requires m <= n || cast + more != []
    ensures Process(m, n, cast + more) ==
            Decide(m, n, Count(cast, Approve) + Count(more, Approve), Count(cast, Reject) + Count(more, Reject))
    ensures Count(more, Approve) + Count(more, Reject) <= |people|
  {
    BallotAppend(cast, more, voters);
    ProcessIsTally(m, n, cast + more, voters);
    CountAppend(cast, more, Approve);
    CountAppend(cast, more, Reject);
    BallotSize(more, people);
  }

  /** Whether these people, who have not voted, can still get it approved. */
  lemma ApprovalReachable(m: int, n: int, cast: seq<Vote>, voters: set<nat>, people: set<nat>)
    requires Ballot(cast, voters) && |voters| <= n && 1 <= m
    requires people <= voters - Voters(cast) && Process(m, n, cast) == Open
    ensures CanEndAs(m, n, cast, people, Approved) <==> Count(cast, Approve) + |people| >= m
  {
    NoVotes(m, n);
    hide Process, Count, Ballot, Voters;
    if more :| Continues(cast, more, people) && Process(m, n, cast + more) == Approved {
      TallyAfter(m, n, cast, more, voters, people);
    }
    if Count(cast, Approve) + |people| >= m {
      var more := All(people, Approve);
      AllVote(people, Approve);
      TallyAfter(m, n, cast, more, voters, people);
      assert Continues(cast, more, people);
    }
  }

  lemma NoVotes(m: int, n: int)
    ensures Process(m, n, []) == Open && Count([], Approve) == Count([], Reject) == 0
  {
  }

  /** Whether these people, all rejecting, close it: it takes exactly `left` of them. */
  lemma RejectionReachable(m: int, n: int, cast: seq<Vote>, voters: set<nat>, people: set<nat>, more: seq<Vote>)
    requires Ballot(cast, voters) && |voters| <= n && 1 <= m && (m <= n || cast + more != [])
    requires people <= voters - Voters(cast) && Process(m, n, cast) == Open
    requires Ballot(more, people) && Voters(more) == people && forall i :: 0 <= i < |more| ==> more[i].choice == Reject
    ensures Process(m, n, cast + more) == Rejected <==> |people| >= n - m + 1 - Count(cast, Reject)
  {
    TallyAfter(m, n, cast, more, voters, people);
    BallotSize(more, people);
    OnlyRejections(more);
    OpenTally(m, n, cast, voters);
  }

  lemma {:induction false} OnlyRejections(votes: seq<Vote>)
    requires forall i :: 0 <= i < |votes| ==> votes[i].choice == Reject
    ensures Count(votes, Approve) == 0 && Count(votes, Reject) == |votes|
  {
    if votes != [] { OnlyRejections(votes[..|votes| - 1]); }
  }

  // ---------------------------------------------------------------- the claims are exact

  /**
   * One voter's sheet: an open decision of these votes, the voter about to reject, and the others
   * who can still vote on it (perhaps fewer than all who have not voted). The number n who can decide
   * it is the same throughout; M may be above it.
   */
  ghost predicate Sheet(m: int, n: int, cast: seq<Vote>, me: nat, voters: set<nat>, others: set<nat>) {
    && 1 <= m && |voters| == n && Ballot(cast, voters)
    && me in voters && me !in Voters(cast) && others <= voters - Voters(cast) - {me}
    && Process(m, n, cast) == Open
  }

  ghost function SheetClaim(m: int, n: int, cast: seq<Vote>, others: set<nat>, withdrawal: bool, expiry: bool): Claim {
    RejectConsequence(Count(cast, Reject), m, n, Some(Count(cast, Approve)), Some(|others|), withdrawal, expiry)
  }

  /** The votes once this voter has rejected. */
  lemma Rejecting(m: int, n: int, cast: seq<Vote>, me: nat, voters: set<nat>, others: set<nat>)
    requires Sheet(m, n, cast, me, voters, others)
    ensures var after := cast + [Vote(me, Reject)];
            && Ballot(after, voters) && others <= voters - Voters(after)
            && Voters(after) == Voters(cast) + {me}
            && Count(after, Reject) == Count(cast, Reject) + 1 && Count(after, Approve) == Count(cast, Approve)
            && Process(m, n, after) == if Count(cast, Reject) + 1 > n - m then Rejected else Open
    ensures Count(cast, Approve) < m && (m <= n ==> Count(cast, Reject) <= n - m) && (m > n ==> cast == [])
  {
    var mine := [Vote(me, Reject)];
    assert Voters(mine) == {me} by { assert mine[0].voter == me; }
    assert mine[..0] == [];
    assert Ballot(mine, voters);
    VotersAppend(cast, mine);
    BallotAppend(cast, mine, voters);
    CountAppend(cast, mine, Reject);
    CountAppend(cast, mine, Approve);
    OpenTally(m, n, cast, voters);
    ProcessIsTally(m, n, cast + mine, voters);
  }

  /**
   * "Rejecting ends this decision for everyone" is said exactly when, after it, no votes whatever by
   * the people its rule lets vote could approve it.
   */
  lemma EndsForEveryoneIsExact(m: int, n: int, cast: seq<Vote>, me: nat, voters: set<nat>, others: set<nat>,
                               withdrawal: bool, expiry: bool)
    requires Sheet(m, n, cast, me, voters, others)
    ensures var after := cast + [Vote(me, Reject)];
            SheetClaim(m, n, cast, others, withdrawal, expiry).EndsForEveryone?
            <==> !CanEndAs(m, n, after, voters - Voters(after), Approved)
  {
    hide Process, Count, Ballot, Voters, CanEndAs, Sheet, SheetClaim;
    var after := cast + [Vote(me, Reject)];
    SheetFacts(m, n, cast, me, voters, others);
    Rejecting(m, n, cast, me, voters, others);
    EndsWhenCrossed(m, n, cast, others, withdrawal, expiry);
    RestSize(after, voters);
    if Count(after, Reject) <= n - m {
      ApprovalReachable(m, n, after, voters, voters - Voters(after));
    } else {
      ApprovalLost(m, n, after, voters, voters - Voters(after));
    }
  }

  lemma SheetFacts(m: int, n: int, cast: seq<Vote>, me: nat, voters: set<nat>, others: set<nat>)
    requires Sheet(m, n, cast, me, voters, others)
    ensures 1 <= m && |voters| == n
  {
  }

  lemma EndsWhenCrossed(m: int, n: int, cast: seq<Vote>, others: set<nat>, withdrawal: bool, expiry: bool)
    ensures SheetClaim(m, n, cast, others, withdrawal, expiry).EndsForEveryone? <==> Count(cast, Reject) + 1 > n - m
  {
  }

  /** Those who have not voted. */
  lemma RestSize(votes: seq<Vote>, voters: set<nat>)
    requires Ballot(votes, voters)
    ensures |voters - Voters(votes)| == |voters| - Count(votes, Approve) - Count(votes, Reject)
  {
    BallotSize(votes, voters);
  }

  lemma ApprovalLost(m: int, n: int, cast: seq<Vote>, voters: set<nat>, people: set<nat>)
    requires Ballot(cast, voters) && |voters| <= n && 1 <= m && people <= voters && Count(cast, Reject) > n - m
    requires cast != []
    ensures !CanEndAs(m, n, cast, people, Approved)
  {
    hide Process, Count, Ballot, Voters;
    forall more | Continues(cast, more, people) ensures Process(m, n, cast + more) != Approved {
      TallyAfter(m, n, cast, more, voters, people);
      NeverBothAfter(m, n, cast, more, voters, people);
    }
  }

  lemma NeverBothAfter(m: int, n: int, cast: seq<Vote>, more: seq<Vote>, voters: set<nat>, people: set<nat>)
    requires Ballot(cast, voters) && |voters| <= n && people <= voters && Continues(cast, more, people)
    requires Count(cast, Reject) > n - m
    ensures Count(cast, Approve) + Count(more, Approve) < m
  {
    BallotAppend(cast, more, voters);
    CountAppend(cast, more, Approve);
    CountAppend(cast, more, Reject);
    NeverBoth(m, n, cast + more, voters);
  }

  /** "After yours it can't pass" is said exactly when the named others, all together, could not pass it. */
  lemma CannotPassIsExact(m: int, n: int, cast: seq<Vote>, me: nat, voters: set<nat>, others: set<nat>,
                          withdrawal: bool, expiry: bool)
    requires Sheet(m, n, cast, me, voters, others)
    requires !SheetClaim(m, n, cast, others, withdrawal, expiry).EndsForEveryone?
    ensures var claim := SheetClaim(m, n, cast, others, withdrawal, expiry);
            && (claim.CannotPass? <==> !CanEndAs(m, n, cast + [Vote(me, Reject)], others, Approved))
            && (claim.CannotPass? ==> claim.needed == m - Count(cast, Approve) && claim.people == |others| < claim.needed)
  {
    Rejecting(m, n, cast, me, voters, others);
    ApprovalReachable(m, n, cast + [Vote(me, Reject)], voters, others);
  }

  /**
   * "k more rejections would end it" and "any k of ..." name the exact number: those others who all
   * reject, in any order, close it exactly when they are at least that many. Where no number is
   * named, all of the others together could not.
   */
  lemma RejectersNamedAreExact(m: int, n: int, cast: seq<Vote>, me: nat, voters: set<nat>, others: set<nat>,
                               withdrawal: bool, expiry: bool, some: set<nat>, more: seq<Vote>)
    requires Sheet(m, n, cast, me, voters, others) && some <= others
    requires Ballot(more, some) && Voters(more) == some && forall i :: 0 <= i < |more| ==> more[i].choice == Reject
    requires !SheetClaim(m, n, cast, others, withdrawal, expiry).EndsForEveryone?
    ensures var claim := SheetClaim(m, n, cast, others, withdrawal, expiry);
            var closes := Process(m, n, cast + [Vote(me, Reject)] + more) == Rejected;
            match claim
            case MoreWouldEnd(k) => closes <==> |some| >= k
            case RejectionsCannotEnd(_) => !closes
            case CannotPass(_, _, Ending(Some(k), _, _)) => closes <==> |some| >= k
            case CannotPass(_, _, Ending(None, _, _)) => !closes
            case EndsForEveryone => true
  {
    Rejecting(m, n, cast, me, voters, others);
    RejectionReachable(m, n, cast + [Vote(me, Reject)], voters, some, more);
    SubsetSize(some, others);
  }

  /**
   * The same without the names of the others: "k more rejections would end it" is exact for any of
   * those who have not voted, and "ends it" is said exactly when this rejection does.
   */
  lemma RuleOnlyIsExact(m: int, n: int, cast: seq<Vote>, me: nat, voters: set<nat>, some: set<nat>, more: seq<Vote>,
                        approvals: Option<int>, withdrawal: bool, expiry: bool)
    requires Sheet(m, n, cast, me, voters, some)
    requires Ballot(more, some) && Voters(more) == some && forall i :: 0 <= i < |more| ==> more[i].choice == Reject
    ensures var claim, after := RejectConsequence(Count(cast, Reject), m, n, approvals, None, withdrawal, expiry),
                                cast + [Vote(me, Reject)];
            && (claim.EndsForEveryone? || claim.MoreWouldEnd?)
            && (claim.EndsForEveryone? <==> Process(m, n, after) == Rejected)
            && (claim.MoreWouldEnd? ==> (Process(m, n, after + more) == Rejected <==> |some| >= claim.more))
  {
    Rejecting(m, n, cast, me, voters, some);
    if Count(cast, Reject) + 1 <= n - m {
      RejectionReachable(m, n, cast + [Vote(me, Reject)], voters, some, more);
    }
  }

  /**
   * "It stays open" (no part at all) is said exactly when nobody left can reject it closed, the person
   * who raised it cannot withdraw it and it has no deadline; unless M is above the number who can
   * decide and somebody can still vote, whose every vote then closes it.
   */
  lemma StaysOpenIsExact(m: int, n: int, cast: seq<Vote>, voters: set<nat>, others: set<nat>, withdrawal: bool, expiry: bool)
    requires Ballot(cast, voters) && |voters| == n && 1 <= m && Process(m, n, cast) == Open
    requires others <= voters - Voters(cast)
    ensures (HowItEnds(Count(cast, Reject), m, n, |others|, withdrawal, expiry) == Ending(None, false, false)
             <==> !withdrawal && !expiry && !CanEndAs(m, n, cast, others, Rejected))
            <==> m <= n || others == {} || withdrawal || expiry
  {
    OpenTally(m, n, cast, voters);
    CloseableExactly(m, n, cast, voters, others);
    hide Process, Count, Ballot, Voters, CanEndAs;
    if others != {} { SubsetSize({}, others); }
  }

  /**
   * How a decision that a rejection leaves unable to pass is said to end: each of the three parts is there
   * exactly when it can end that way, by rejections of the others, a withdrawal, or its deadline.
   */
  lemma EndingIsExact(m: int, n: int, cast: seq<Vote>, me: nat, voters: set<nat>, others: set<nat>,
                      withdrawal: bool, expiry: bool)
    requires Sheet(m, n, cast, me, voters, others)
    requires SheetClaim(m, n, cast, others, withdrawal, expiry).CannotPass?
    ensures var ending := SheetClaim(m, n, cast, others, withdrawal, expiry).ending;
            && (ending.rejecters.Some? <==> CanEndAs(m, n, cast + [Vote(me, Reject)], others, Rejected))
            && (ending.withdrawal <==> withdrawal) && (ending.expiry <==> expiry)
  {
    Rejecting(m, n, cast, me, voters, others);
    CloseableExactly(m, n, cast + [Vote(me, Reject)], voters, others);
    hide Process, Count, Ballot, Voters, CanEndAs;
    if others != {} { SubsetSize({}, others); }
  }

  /** Whether some rejections by these people close it. */
  lemma CloseableExactly(m: int, n: int, cast: seq<Vote>, voters: set<nat>, others: set<nat>)
    requires Ballot(cast, voters) && |voters| == n && 1 <= m && Process(m, n, cast) == Open
    requires others <= voters - Voters(cast)
    ensures CanEndAs(m, n, cast, others, Rejected) <==> others != {} && |others| >= n - m + 1 - Count(cast, Reject)
  {
    hide Process, Count, Ballot, Voters;
    if more :| Continues(cast, more, others) && Process(m, n, cast + more) == Rejected {
      ClosedByMore(m, n, cast, more, voters, others);
    }
    if others != {} && |others| >= n - m + 1 - Count(cast, Reject) {
      AllCloseIt(m, n, cast, voters, others);
    }
  }

  lemma ClosedByMore(m: int, n: int, cast: seq<Vote>, more: seq<Vote>, voters: set<nat>, others: set<nat>)
    requires Ballot(cast, voters) && |voters| == n && 1 <= m && Process(m, n, cast) == Open
    requires others <= voters && Continues(cast, more, others) && Process(m, n, cast + more) == Rejected
    ensures others != {} && |others| >= n - m + 1 - Count(cast, Reject)
  {
    hide Process, Count, Ballot, Voters;
    assert cast + [] == cast;
    TallyAfter(m, n, cast, more, voters, others);
    SomeVoter(more, others);
  }

  lemma AllCloseIt(m: int, n: int, cast: seq<Vote>, voters: set<nat>, others: set<nat>)
    requires Ballot(cast, voters) && |voters| == n && 1 <= m && Process(m, n, cast) == Open
    requires others <= voters - Voters(cast) && others != {} && |others| >= n - m + 1 - Count(cast, Reject)
    ensures CanEndAs(m, n, cast, others, Rejected)
  {
    OpenTally(m, n, cast, voters);
    hide Process, Count, Ballot, Voters;
    var more := All(others, Reject);
    AllVote(others, Reject);
    SomeVoter(more, others);
    TallyAfter(m, n, cast, more, voters, others);
    assert Continues(cast, more, others);
  }

  lemma SomeVoter(more: seq<Vote>, people: set<nat>)
    requires Ballot(more, people)
    ensures more != [] ==> people != {}
    ensures Voters(more) == people && people != {} ==> more != []
  {
    if more != [] {
      assert more[0].voter in Voters(more);
    }
  }

  /** 3 of 3, its requester left out: "it stays open" is said, and the next vote rejects it. */
  lemma SaidToStayOpen()
    ensures HowItEnds(0, 3, 2, 1, false, false) == Ending(None, false, false)
    ensures Process(3, 2, [Vote(0, Approve)]) == Process(3, 2, [Vote(0, Reject)]) == Rejected
  {
    OneVoteRejects(Approve);
    OneVoteRejects(Reject);
  }

  lemma OneVoteRejects(choice: Choice)
    ensures Process(3, 2, [Vote(0, choice)]) == Rejected
  {
    var one := [Vote(0, choice)];
    assert one[..0] == [];
    assert Count(one, choice) == 1;
    assert Count(one, Approve) + Count(one, Reject) == 1;
    assert Process(3, 2, one[..0]) == Open;
  }

  // ---------------------------------------------------------------- approving

  datatype ApproveClaim = Completes | StillNeeds(more: int)

  /** The first sentence of `approve_consequence`. */
  function ApproveConsequence(approvals: int, m: int): ApproveClaim {
    var after := approvals + 1;
    if after >= m then Completes else StillNeeds(m - after)
  }

  lemma {:induction false} OnlyApprovals(votes: seq<Vote>)
    requires forall i :: 0 <= i < |votes| ==> votes[i].choice == Approve
    ensures Count(votes, Reject) == 0 && Count(votes, Approve) == |votes|
  {
    if votes != [] { OnlyApprovals(votes[..|votes| - 1]); }
  }

  lemma Approving(m: int, n: int, cast: seq<Vote>, me: nat, voters: set<nat>, others: set<nat>)
    requires Sheet(m, n, cast, me, voters, others)
    ensures var after := cast + [Vote(me, Approve)];
            && Ballot(after, voters) && others <= voters - Voters(after)
            && Count(after, Approve) == Count(cast, Approve) + 1 && Count(after, Reject) == Count(cast, Reject)
    ensures Count(cast, Approve) < m && (m <= n ==> Count(cast, Reject) <= n - m) && (m > n ==> cast == [])
  {
    var mine := [Vote(me, Approve)];
    assert Voters(mine) == {me} by { assert mine[0].voter == me; }
    assert mine[..0] == [];
    assert Ballot(mine, voters);
    VotersAppend(cast, mine);
    BallotAppend(cast, mine, voters);
    CountAppend(cast, mine, Reject);
    CountAppend(cast, mine, Approve);
    OpenTally(m, n, cast, voters);
  }

  /**
   * "Yours completes the approvals" is said exactly when approving decides it; otherwise the number
   * named is exact: others who all approve carry it exactly when they are at least that many. But
   * "this still needs k more" leaves it open exactly when M is not above the number who can decide:
   * above it, approving rejects it.
   */
  lemma ApproveSentenceIsExact(m: int, n: int, cast: seq<Vote>, me: nat, voters: set<nat>, others: set<nat>,
                               some: set<nat>, more: seq<Vote>)
    requires Sheet(m, n, cast, me, voters, others) && some <= others
    requires Ballot(more, some) && Voters(more) == some && forall i :: 0 <= i < |more| ==> more[i].choice == Approve
    ensures var claim, after := ApproveConsequence(Count(cast, Approve), m), cast + [Vote(me, Approve)];
            && (claim.Completes? <==> Process(m, n, after) == Approved)
            && (claim.StillNeeds? ==> (Process(m, n, after + more) == Approved <==> |some| >= claim.more))
            && (claim.StillNeeds? ==> Process(m, n, after) == if m <= n then Open else Rejected)
  {
    var after := cast + [Vote(me, Approve)];
    Approving(m, n, cast, me, voters, others);
    ProcessIsTally(m, n, after, voters);
    TallyAfter(m, n, after, more, voters, some);
    BallotSize(more, some);
    OnlyApprovals(more);
  }

  /** 3 of 3, its requester left out: two more are said to be needed, and approving rejects it. */
  lemma ApprovingRejects()
    ensures ApproveConsequence(0, 3) == StillNeeds(2) && Process(3, 2, [Vote(0, Approve)]) == Rejected
  {
    OneVoteRejects(Approve);
  }
}
