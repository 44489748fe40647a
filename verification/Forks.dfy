/** When tips can fork: nodes agree on one growing chain exactly as long as at most one node proposes. */
module Forks {
  import opened Counting
  import opened Digests
  import opened Records
  import opened HashChain
  import opened Disk
  import opened Mempools
  import opened Protocol
  import opened Consensus
  import opened Simulation

  /** Only these nodes propose. */
  predicate ProposersIn(steps: seq<Step>, nodes: set<nat>) {
    forall k :: 0 <= k < |steps| && steps[k].Propose? ==> steps[k].node in nodes
  }

  /** Every proposal takes the proposer's whole mempool as it stands, in time order. */
  predicate ProposesMempool(s: State, step: Step) {
    step.Propose? ==>
      && step.node < |s.members| && step.audits != []
      && Lists(s.members[step.node].pool, step.audits) && SortedByTime(step.audits)
  }

  ghost predicate Undisturbed(sha: Sha, n: nat, steps: seq<Step>) {
    forall k :: 0 <= k < |steps| ==> ProposesMempool(Run(sha, n, steps[..k]), steps[k])
  }

  /** Of any two chains one continues the other. */
  predicate Comparable(s: State) {
    forall i, j :: 0 <= i < |s.members| && 0 <= j < |s.members| ==>
      s.members[i].chain <= s.members[j].chain || s.members[j].chain <= s.members[i].chain
  }

  // ---------- two proposers are enough for a fork ----------

  const IDLE := Member([], map[], [], {})

  function Holding(a: Audit): Member {
    Member([], map[a.reqId := a], [], {a.reqId})
  }

  lemma OneAuditListed(a: Audit)
    ensures Lists(Holding(a).pool, [a]) && SortedByTime([a])
  {
    assert AuditsAt(map[a.reqId := a], {a.reqId}) == {a};
  }

  lemma SubmitToIdle(sha: Sha, s: State, i: nat, a: Audit)
    requires i < |s.members| && s.members[i] == IDLE
    ensures Next(sha, s, Submit(i, a)) == s.(members := s.members[i := Holding(a)])
  {
    var m := Next(sha, s, Submit(i, a)).members[i];
    assert m.pool == map[a.reqId := a] && m.accepted == {a.reqId};
  }

  ghost predicate NothingCommitted(s: State) {
    forall i :: 0 <= i < |s.members| ==> s.members[i].chain == []
  }

  /** Round r is p's proposal of a first block. */
  predicate FirstProposal(sha: Sha, s: State, p: nat, r: nat) {
    && r < |s.rounds| && p < |s.members|
    && s.rounds[r].proposer == p && s.rounds[r].phase.Voting? && Accepts(sha, [], s.rounds[r].block)
  }

  /** Nothing is committed, and p and q have each made a proposal. */
  ghost predicate TwoProposed(sha: Sha, s: State, p: nat, q: nat) {
    && NothingCommitted(s) && |s.rounds| == 2
    && FirstProposal(sha, s, p, 0) && FirstProposal(sha, s, q, 1)
  }

  function Proposing(p: nat, a: Audit, q: nat, b: Audit): seq<Step> {
    [Submit(p, a), Submit(q, b), Propose(p, [a]), Propose(q, [b])]
  }

  function Submitted(n: nat, p: nat, a: Audit, q: nat, b: Audit): State
    requires p < n && q < n
  {
    State(Init(n).members[p := Holding(a)][q := Holding(b)], [], {})
  }

  lemma SubmitBoth(sha: Sha, n: nat, p: nat, a: Audit, q: nat, b: Audit)
    requires p < n && q < n && p != q
    ensures Run(sha, n, [Submit(p, a), Submit(q, b)]) == Submitted(n, p, a, q, b)
  {
    TwoMoreSteps(sha, Init(n), [], Submit(p, a), Submit(q, b));
    assert [] + [Submit(p, a), Submit(q, b)] == [Submit(p, a), Submit(q, b)];
    SubmitToIdle(sha, Init(n), p, a);
    SubmitToIdle(sha, Init(n).(members := Init(n).members[p := Holding(a)]), q, b);
  }

  lemma ProposeBoth(sha: Sha, n: nat, p: nat, a: Audit, q: nat, b: Audit)
    requires p < n && q < n && p != q
    ensures var s := Run(sha, n, Proposing(p, a, q, b));
      && TwoProposed(sha, s, p, q)
      && s.rounds[0].block == Created(sha, [], [a]) && s.rounds[1].block == Created(sha, [], [b])
    ensures Run(sha, n, Proposing(p, a, q, b)[..3]).members == Submitted(n, p, a, q, b).members
  {
    var submits := [Submit(p, a), Submit(q, b)];
    SubmitBoth(sha, n, p, a, q, b);
    OneMoreStep(sha, Init(n), submits, Propose(p, [a]));
    assert Proposing(p, a, q, b)[..3] == submits + [Propose(p, [a])];
    TwoMoreSteps(sha, Init(n), submits, Propose(p, [a]), Propose(q, [b]));
    assert Proposing(p, a, q, b) == submits + [Propose(p, [a]), Propose(q, [b])];
  }

  predicate NoProposal(steps: seq<Step>) {
    forall k :: 0 <= k < |steps| ==> !steps[k].Propose?
  }

  lemma {:induction false} NoProposalAmongVotes(p: nat, r: nat, answers: seq<bool>, k: nat)
    requires k <= |answers|
    ensures NoProposal(VoteSteps(p, r, answers, k))
  {
    if k > 0 {
      NoProposalAmongVotes(p, r, answers, k - 1);
    }
  }

  /** All peers vote for a first proposal. */
  lemma EverybodyVotes(sha: Sha, s: State, p: nat, r: nat) returns (votes: seq<Step>, voters: set<nat>)
    requires NothingCommitted(s) && FirstProposal(sha, s, p, r)
    ensures NoProposal(votes)
    ensures var t := Exec(sha, s, votes);
      t.members == s.members && t.rounds == s.rounds && ApprovedBy(t, r, voters)
  {
    var peers := |s.members| - 1;
    var yes := seq(peers, _ => true);
    votes, voters := VoteSteps(p, r, yes, peers), VotersOf(p, yes);
    NoProposalAmongVotes(p, r, yes, peers);
    VotesAreCast(sha, s, p, r, yes, peers);
    VoteStepsRun(sha, s, p, r, yes, peers);
    VotersArrive(s, AfterVotes(sha, s, p, r, yes, peers), p, r, yes);
    CountOfFirst(yes, peers);
  }

  lemma SameProposals(sha: Sha, s: State, t: State, p: nat, q: nat)
    requires TwoProposed(sha, s, p, q) && t.members == s.members && t.rounds == s.rounds
    ensures TwoProposed(sha, t, p, q)
  {
  }

  /** Both rounds can be approved before either block is committed. */
  lemma BothApproved(sha: Sha, s: State, p: nat, q: nat) returns (votes: seq<Step>, xs: set<nat>, ys: set<nat>)
    requires TwoProposed(sha, s, p, q)
    ensures NoProposal(votes)
    ensures var t := Exec(sha, s, votes);
      t.members == s.members && t.rounds == s.rounds && ApprovedBy(t, 0, xs) && ApprovedBy(t, 1, ys)
  {
    var first, second;
    first, xs := EverybodyVotes(sha, s, p, 0);
    var middle := Exec(sha, s, first);
    SameProposals(sha, s, middle, p, q);
    second, ys := EverybodyVotes(sha, middle, q, 1);
    ApprovalStays(sha, middle, second, 0, xs);
    ExecConcat(sha, s, first, second);
    votes := first + second;
  }

  lemma CommitBoth(sha: Sha, s: State, p: nat, q: nat, xs: set<nat>, ys: set<nat>)
    requires TwoProposed(sha, s, p, q) && p != q && ApprovedBy(s, 0, xs) && ApprovedBy(s, 1, ys)
    ensures var t := Next(sha, Next(sha, s, Decide(0, xs, Done)), Decide(1, ys, Done));
      && |t.members| == |s.members|
      && t.members[p].chain == [s.rounds[0].block] && t.members[q].chain == [s.rounds[1].block]
  {
    DecideStep(sha, s, p, 0, xs);
    VotesStay(sha, s, Decide(0, xs, Done), 1, ys);
    DecideStep(sha, Next(sha, s, Decide(0, xs, Done)), q, 1, ys);
  }

  lemma ForkAfterProposals(sha: Sha, s: State, p: nat, q: nat) returns (rest: seq<Step>)
    requires TwoProposed(sha, s, p, q) && p != q
    ensures NoProposal(rest)
    ensures var t := Exec(sha, s, rest);
      t.members[p].chain == [s.rounds[0].block] && t.members[q].chain == [s.rounds[1].block]
  {
    var votes, xs, ys := BothApproved(sha, s, p, q);
    var t := Exec(sha, s, votes);
    SameProposals(sha, s, t, p, q);
    CommitBoth(sha, t, p, q, xs, ys);
    TwoMoreSteps(sha, s, votes, Decide(0, xs, Done), Decide(1, ys, Done));
    rest := votes + [Decide(0, xs, Done), Decide(1, ys, Done)];
  }

  lemma ForkProposal(sha: Sha, n: nat, p: nat, a: Audit, q: nat, b: Audit, rest: seq<Step>, k: nat)
    requires p < n && q < n && p != q && NoProposal(rest) && k < |Proposing(p, a, q, b) + rest|
    ensures var steps := Proposing(p, a, q, b) + rest;
      && ProposesMempool(Run(sha, n, steps[..k]), steps[k])
      && (steps[k].Propose? ==> steps[k].node in {p, q})
  {
    var steps := Proposing(p, a, q, b) + rest;
    if k == 2 {
      SubmitBoth(sha, n, p, a, q, b);
      assert steps[..k] == [Submit(p, a), Submit(q, b)];
      OneAuditListed(a);
    } else if k == 3 {
      ProposeBoth(sha, n, p, a, q, b);
      assert steps[..k] == Proposing(p, a, q, b)[..3];
      OneAuditListed(b);
    } else if k >= 4 {
      assert steps[k] == rest[k - 4];
    }
  }

  /** At the tip agreement is not kept with two proposers. Among any number of nodes, any two of them can
      propose what is in their mempools, be approved by everybody, and commit different first blocks. */
  lemma TwoProposersFork(sha: Sha, n: nat, p: nat, q: nat) returns (steps: seq<Step>)
    requires p < n && q < n && p != q
    ensures ProposersIn(steps, {p, q}) && Undisturbed(sha, n, steps)
    ensures var s := Run(sha, n, steps);
      && |s.members[p].chain| == 1 && |s.members[q].chain| == 1
      && s.members[p].chain[0] != s.members[q].chain[0]
  {
    var a := Audit("a", "", "", "", "", 0, 0, "", "");
    var b := Audit("b", "", "", "", "", 0, 0, "", "");
    ProposeBoth(sha, n, p, a, q, b);
    var rest := ForkAfterProposals(sha, Run(sha, n, Proposing(p, a, q, b)), p, q);
    steps := Proposing(p, a, q, b) + rest;
    ExecConcat(sha, Init(n), Proposing(p, a, q, b), rest);
    forall k | 0 <= k < |steps|
      ensures ProposesMempool(Run(sha, n, steps[..k]), steps[k])
      ensures steps[k].Propose? ==> steps[k].node in {p, q}
    {
      ForkProposal(sha, n, p, a, q, b, rest, k);
    }
    assert [a][0].reqId == "a" && [b][0].reqId == "b";
  }

  // ---------- and one is not ----------

  lemma LedIsComparable(s: State, p: nat)
    requires p < |s.members| && LedBy(s, p)
    ensures Comparable(s)
  {
    var lead := s.members[p].chain;
    forall i, j | 0 <= i < |s.members| && 0 <= j < |s.members|
      ensures s.members[i].chain <= s.members[j].chain || s.members[j].chain <= s.members[i].chain
    {
      assert s.members[i].chain == lead[..|s.members[i].chain|];
      assert s.members[j].chain == lead[..|s.members[j].chain|];
    }
  }

  lemma AtMostOne(nodes: set<nat>, p: nat)
    requires p in nodes
    ensures |nodes| <= 1 <==> nodes == {p}
  {
    assert nodes == (nodes - {p}) + {p};
  }

  lemma OneProposerAgrees(sha: Sha, n: nat, proposers: set<nat>, steps: seq<Step>)
    requires proposers <= UpTo(n) && |proposers| <= 1 && ProposersIn(steps, proposers)
    ensures Comparable(Run(sha, n, steps))
  {
    if n > 0 {
      var p: nat := 0;
      if proposers != {} {
        p :| p in proposers;
        AtMostOne(proposers, p);
      }
      StableLeader(sha, n, steps, p);
      LedIsComparable(Run(sha, n, steps), p);
    }
  }

  lemma ManyProposersFork(sha: Sha, n: nat, proposers: set<nat>) returns (steps: seq<Step>)
    requires proposers <= UpTo(n) && |proposers| > 1
    ensures ProposersIn(steps, proposers) && Undisturbed(sha, n, steps) && !Comparable(Run(sha, n, steps))
  {
    var p :| p in proposers;
    AtMostOne(proposers, p);
    var q :| q in proposers && q != p;
    steps := TwoProposersFork(sha, n, p, q);
    var s := Run(sha, n, steps);
    assert s.members[p].chain[0] != s.members[q].chain[0];
  }

  /** All chains always continue one another, in every run in which only the given nodes propose, exactly
      when these are one node or none; also when only runs count in which each proposal is the whole
      mempool in time order. */
  lemma AgreementIff(sha: Sha, n: nat, proposers: set<nat>)
    requires proposers <= UpTo(n)
    ensures (forall steps :: ProposersIn(steps, proposers) ==> Comparable(Run(sha, n, steps))) <==> |proposers| <= 1
    ensures |proposers| <= 1 <==> forall steps ::
      ProposersIn(steps, proposers) && Undisturbed(sha, n, steps) ==> Comparable(Run(sha, n, steps))
  {
    if |proposers| <= 1 {
      forall steps | ProposersIn(steps, proposers)
        ensures Comparable(Run(sha, n, steps))
      {
        OneProposerAgrees(sha, n, proposers, steps);
      }
    } else {
      var steps := ManyProposersFork(sha, n, proposers);
    }
  }
}
