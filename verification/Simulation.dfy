/** The node's own operations as runs of the protocol: a whole proposal round, and catching up with a peer.
    So what every run keeps, these operations keep. */
module Simulation {
  import opened Counting
  import opened Decimal
  import opened Digests
  import opened Records
  import opened HashChain
  import opened Disk
  import opened Mempools
  import opened Services
  import opened Elections
  import opened Nodes
  import opened Protocol

  function LedgerOf(m: Member): Ledger {
    Ledger(m.chain, m.pool)
  }

  /** The node has handled a commit request, and has as much left to clean up as before. */
  predicate Received(sha: Sha, m: Member, m': Member, b: Block, w: Write) {
    LedgerOf(m') == Receive(sha, LedgerOf(m), b, w) && m'.pending == m.pending
  }

  /** The ledgers of p's peers, in order. */
  function PeerLedgers(s: State, p: nat): seq<Ledger>
    requires p < |s.members|
  {
    seq(|s.members| - 1, i requires 0 <= i < |s.members| - 1 => LedgerOf(s.members[PeerOf(p, i)]))
  }

  // ---------- a proposal round ----------

  lemma TwoMoreSteps(sha: Sha, s: State, steps: seq<Step>, a: Step, b: Step)
    ensures Exec(sha, s, steps + [a, b]) == Next(sha, Next(sha, Exec(sha, s, steps), a), b)
  {
    assert steps + [a, b] == (steps + [a]) + [b];
    OneMoreStep(sha, s, steps, a);
    OneMoreStep(sha, s, steps + [a], b);
  }

  /** Among the first k peers, those that will answer yes vote. */
  function VoteSteps(p: nat, r: nat, answers: seq<bool>, k: nat): seq<Step>
    requires k <= |answers|
  {
    if k == 0 then []
    else if answers[k - 1] then VoteSteps(p, r, answers, k - 1) + [Step.Vote(PeerOf(p, k - 1), r)]
    else VoteSteps(p, r, answers, k - 1)
  }

  ghost predicate Cast(s: State, t: State, p: nat, r: nat, answers: seq<bool>, k: nat)
    requires k <= |answers|
  {
    && t.members == s.members && t.rounds == s.rounds
    && forall i :: 0 <= i < k && answers[i] ==> VotedYes(t, r, PeerOf(p, i))
  }

  ghost predicate Willing(sha: Sha, s: State, p: nat, r: nat, answers: seq<bool>)
    requires r < |s.rounds| && |answers| < |s.members|
  {
    forall i :: 0 <= i < |answers| ==> WillingPeer(sha, s, p, r, answers, i)
  }

  predicate WillingPeer(sha: Sha, s: State, p: nat, r: nat, answers: seq<bool>, i: nat)
    requires r < |s.rounds| && i < |answers| < |s.members|
  {
    answers[i] ==> Accepts(sha, s.members[PeerOf(p, i)].chain, s.rounds[r].block)
  }

  lemma CastOne(sha: Sha, t: State, v: nat, r: nat)
    requires v < |t.members| && r < |t.rounds| && t.rounds[r].proposer != v
    requires Accepts(sha, t.members[v].chain, t.rounds[r].block)
    ensures var u := Next(sha, t, Step.Vote(v, r));
      && u.members == t.members && u.rounds == t.rounds && VotedYes(u, r, v)
      && forall j :: VotedYes(t, r, j) ==> VotedYes(u, r, j)
  {
    var u := Next(sha, t, Step.Vote(v, r));
    assert YesVote(r, v, t.members[v].chain) in u.sent;
    forall j | VotedYes(t, r, j)
      ensures VotedYes(u, r, j)
    {
      var m :| m in t.sent && m.YesVote? && m.round == r && m.voter == j;
      assert m in u.sent;
    }
  }

  lemma CastNext(sha: Sha, s: State, t: State, p: nat, r: nat, answers: seq<bool>, k: nat)
    requires r < |s.rounds| && s.rounds[r].proposer == p && k < |answers| < |s.members| && answers[k]
    requires Willing(sha, s, p, r, answers) && Cast(s, t, p, r, answers, k)
    ensures Cast(s, Next(sha, t, Step.Vote(PeerOf(p, k), r)), p, r, answers, k + 1)
  {
    assert WillingPeer(sha, s, p, r, answers, k);
    CastOne(sha, t, PeerOf(p, k), r);
  }

  lemma CastSkip(s: State, t: State, p: nat, r: nat, answers: seq<bool>, k: nat)
    requires k < |answers| && !answers[k] && Cast(s, t, p, r, answers, k)
    ensures Cast(s, t, p, r, answers, k + 1)
  {
  }

  /** The state after those votes. */
  function AfterVotes(sha: Sha, s: State, p: nat, r: nat, answers: seq<bool>, k: nat): State
    requires k <= |answers|
  {
    if k == 0 then s
    else if answers[k - 1] then Next(sha, AfterVotes(sha, s, p, r, answers, k - 1), Step.Vote(PeerOf(p, k - 1), r))
    else AfterVotes(sha, s, p, r, answers, k - 1)
  }

  lemma {:induction false} VoteStepsRun(sha: Sha, s: State, p: nat, r: nat, answers: seq<bool>, k: nat)
    requires k <= |answers|
    ensures Exec(sha, s, VoteSteps(p, r, answers, k)) == AfterVotes(sha, s, p, r, answers, k)
  {
    if k > 0 {
      VoteStepsRun(sha, s, p, r, answers, k - 1);
      OneMoreStep(sha, s, VoteSteps(p, r, answers, k - 1), Step.Vote(PeerOf(p, k - 1), r));
    }
  }

  lemma {:induction false} VotesAreCast(sha: Sha, s: State, p: nat, r: nat, answers: seq<bool>, k: nat)
    requires r < |s.rounds| && s.rounds[r].proposer == p && k <= |answers| < |s.members|
    requires Willing(sha, s, p, r, answers)
    ensures Cast(s, AfterVotes(sha, s, p, r, answers, k), p, r, answers, k)
  {
    if k > 0 {
      VotesAreCast(sha, s, p, r, answers, k - 1);
      if answers[k - 1] {
        CastNext(sha, s, AfterVotes(sha, s, p, r, answers, k - 1), p, r, answers, k - 1);
      } else {
        CastSkip(s, AfterVotes(sha, s, p, r, answers, k - 1), p, r, answers, k - 1);
      }
    }
  }

  /** The position at which the audits of node v's next block will wait for their removal. */
  function LastOf(s: State, v: nat): nat
    requires v < |s.members|
  {
    |s.members[v].pending|
  }

  function DeliverAndCleanUp(sha: Sha, s: State, v: nat, b: Block, w: Write, last: nat): (t: State)
    ensures |t.members| == |s.members|
  {
    Next(sha, Next(sha, s, Deliver(v, b, w)), CleanUp(v, last))
  }

  /** The broadcast to the first k peers, as far as it reaches them. */
  function DeliverySteps(s: State, p: nat, b: Block, w: Weather, k: nat): seq<Step>
    requires k <= |w.broadcast| && k <= |w.writes| && k < |s.members|
  {
    if k == 0 then []
    else
      var steps, v := DeliverySteps(s, p, b, w, k - 1), PeerOf(p, k - 1);
      if w.broadcast[k - 1].reached then steps + [Deliver(v, b, w.writes[k - 1]), CleanUp(v, LastOf(s, v))] else steps
  }

  /** The state after that broadcast. */
  function AfterDeliveries(sha: Sha, s: State, p: nat, b: Block, w: Weather, k: nat): (t: State)
    requires k <= |w.broadcast| && k <= |w.writes| && k < |s.members|
    ensures |t.members| == |s.members|
  {
    if k == 0 then s
    else
      var t, v := AfterDeliveries(sha, s, p, b, w, k - 1), PeerOf(p, k - 1);
      if w.broadcast[k - 1].reached then DeliverAndCleanUp(sha, t, v, b, w.writes[k - 1], LastOf(s, v)) else t
  }

  lemma DeliverAndCleanUpRuns(sha: Sha, s: State, steps: seq<Step>, v: nat, b: Block, w: Write, last: nat)
    ensures Exec(sha, s, steps + [Deliver(v, b, w), CleanUp(v, last)]) ==
      DeliverAndCleanUp(sha, Exec(sha, s, steps), v, b, w, last)
  {
    TwoMoreSteps(sha, s, steps, Deliver(v, b, w), CleanUp(v, last));
  }

  lemma {:induction false} DeliveryStepsRun(sha: Sha, s: State, p: nat, b: Block, w: Weather, k: nat)
    requires k <= |w.broadcast| && k <= |w.writes| && k < |s.members|
    ensures Exec(sha, s, DeliverySteps(s, p, b, w, k)) == AfterDeliveries(sha, s, p, b, w, k)
  {
    if k > 0 {
      DeliveryStepsRun(sha, s, p, b, w, k - 1);
      var v := PeerOf(p, k - 1);
      if w.broadcast[k - 1].reached {
        DeliverAndCleanUpRuns(sha, s, DeliverySteps(s, p, b, w, k - 1), v, b, w.writes[k - 1], LastOf(s, v));
      }
    }
  }

  function AfterDelivery(sha: Sha, l: Ledger, b: Block, w: Weather, i: nat): Ledger
    requires i < |w.broadcast| && i < |w.writes|
  {
    if w.broadcast[i].reached then Receive(sha, l, b, w.writes[i]) else l
  }

  lemma ThreeMoreSteps(sha: Sha, s: State, steps: seq<Step>, a: Step, b: Step, c: Step)
    ensures Exec(sha, s, steps + ([a, b] + [c])) == Next(sha, Next(sha, Next(sha, Exec(sha, s, steps), a), b), c)
  {
    assert steps + ([a, b] + [c]) == (steps + [a, b]) + [c];
    TwoMoreSteps(sha, s, steps, a, b);
    OneMoreStep(sha, s, steps + [a, b], c);
  }

  /** Cleaning up after the block that was just appended, if one was, leaves nothing more to clean up than
      before. */
  lemma CleanUpLast(sha: Sha, s: State, u: State, v: nat, b: Block)
    requires v < |s.members|
    requires u.members == s.members || u.members == s.members[v := Append(s.members[v], b)]
    ensures var t := Next(sha, u, CleanUp(v, LastOf(s, v)));
      && t.sent == u.sent && t.rounds == u.rounds && |t.members| == |s.members|
      && t.members[v].pending == s.members[v].pending
      && LedgerOf(t.members[v]) ==
           (if u.members == s.members then LedgerOf(s.members[v])
            else Ledger(s.members[v].chain + [b], Without(s.members[v].pool, b.audits)))
      && forall j :: 0 <= j < |s.members| && j != v ==> t.members[j] == s.members[j]
  {
  }

  lemma DeliverOne(sha: Sha, s: State, v: nat, b: Block, w: Write)
    requires v < |s.members| && CommitRequest(b) in s.sent
    ensures var t := DeliverAndCleanUp(sha, s, v, b, w, LastOf(s, v));
      && CommitRequest(b) in t.sent
      && Received(sha, s.members[v], t.members[v], b, w)
      && forall j :: 0 <= j < |s.members| && j != v ==> t.members[j] == s.members[j]
  {
    CleanUpLast(sha, s, Next(sha, s, Deliver(v, b, w)), v, b);
  }

  /** The broadcast has reached the first k peers, as far as it will. */
  ghost predicate Delivered(sha: Sha, s: State, t: State, p: nat, b: Block, w: Weather, k: nat)
    requires |s.members| == |t.members| && p < |s.members| && Fits(w, |s.members| - 1) && k <= |s.members| - 1
  {
    && CommitRequest(b) in t.sent && t.members[p] == s.members[p]
    && (forall i :: 0 <= i < k ==> DeliveredTo(sha, s.members[PeerOf(p, i)], t.members[PeerOf(p, i)], b, w, i))
    && (forall i :: k <= i < |s.members| - 1 ==> t.members[PeerOf(p, i)] == s.members[PeerOf(p, i)])
  }

  predicate DeliveredTo(sha: Sha, m: Member, m': Member, b: Block, w: Weather, i: nat)
    requires i < |w.broadcast| && i < |w.writes|
  {
    LedgerOf(m') == AfterDelivery(sha, LedgerOf(m), b, w, i) && m'.pending == m.pending
  }

  lemma DeliveredExtends(sha: Sha, s: State, t: State, u: State, p: nat, b: Block, w: Weather, k: nat)
    requires |s.members| == |t.members| == |u.members| && p < |s.members|
    requires Fits(w, |s.members| - 1) && k < |s.members| - 1
    requires Delivered(sha, s, t, p, b, w, k)
    requires CommitRequest(b) in u.sent
    requires var v := PeerOf(p, k);
      && DeliveredTo(sha, t.members[v], u.members[v], b, w, k)
      && forall j :: 0 <= j < |s.members| && j != v ==> u.members[j] == t.members[j]
    ensures Delivered(sha, s, u, p, b, w, k + 1)
  {
  }

  lemma DeliverNext(sha: Sha, s: State, t: State, p: nat, b: Block, w: Weather, k: nat)
    requires |s.members| == |t.members| && p < |s.members| && Fits(w, |s.members| - 1) && k < |s.members| - 1
    requires Delivered(sha, s, t, p, b, w, k)
    ensures var v := PeerOf(p, k);
      var u := if w.broadcast[k].reached then DeliverAndCleanUp(sha, t, v, b, w.writes[k], LastOf(s, v)) else t;
      |u.members| == |s.members| && Delivered(sha, s, u, p, b, w, k + 1)
  {
    var v := PeerOf(p, k);
    assert LastOf(s, v) == LastOf(t, v);
    if w.broadcast[k].reached {
      DeliverOne(sha, t, v, b, w.writes[k]);
      DeliveredExtends(sha, s, t, DeliverAndCleanUp(sha, t, v, b, w.writes[k], LastOf(t, v)), p, b, w, k);
    } else {
      DeliveredExtends(sha, s, t, t, p, b, w, k);
    }
  }

  lemma {:induction false} DeliverAll(sha: Sha, s: State, p: nat, b: Block, w: Weather, k: nat)
    requires p < |s.members| && Fits(w, |s.members| - 1) && k <= |s.members| - 1
    requires CommitRequest(b) in s.sent
    ensures Delivered(sha, s, AfterDeliveries(sha, s, p, b, w, k), p, b, w, k)
  {
    if k > 0 {
      DeliverAll(sha, s, p, b, w, k - 1);
      DeliverNext(sha, s, AfterDeliveries(sha, s, p, b, w, k - 1), p, b, w, k - 1);
    }
  }

  lemma DecideStep(sha: Sha, s: State, p: nat, r: nat, voters: set<nat>)
    requires p < |s.members| && r < |s.rounds| && s.rounds[r].proposer == p && s.rounds[r].phase.Voting?
    requires VotesArrived(s, r, voters) && Approved(|voters|, |s.members| - 1)
    requires Accepts(sha, s.members[p].chain, s.rounds[r].block)
    ensures var u := Next(sha, s, Decide(r, voters, Done));
      && u.members == s.members[p := Append(s.members[p], s.rounds[r].block)]
      && u.rounds == s.rounds[r := s.rounds[r].(phase := Committed)]
  {
  }

  lemma BroadcastStep(sha: Sha, s: State, r: nat)
    requires r < |s.rounds| && s.rounds[r].phase.Committed?
    ensures var u := Next(sha, s, Broadcast(r));
      u.members == s.members && CommitRequest(s.rounds[r].block) in u.sent
  {
  }

  /** The proposer's part after the vote: commit, clean up, broadcast. */
  lemma DecideAndBroadcast(sha: Sha, s: State, p: nat, r: nat, voters: set<nat>)
    requires p < |s.members| && r < |s.rounds| && s.rounds[r].proposer == p && s.rounds[r].phase.Voting?
    requires VotesArrived(s, r, voters) && Approved(|voters|, |s.members| - 1)
    requires Accepts(sha, s.members[p].chain, s.rounds[r].block)
    ensures var b := s.rounds[r].block;
      var t := Next(sha, Next(sha, Next(sha, s, Decide(r, voters, Done)), CleanUp(p, LastOf(s, p))), Broadcast(r));
      && CommitRequest(b) in t.sent && |t.members| == |s.members|
      && Received(sha, s.members[p], t.members[p], b, Done)
      && forall j :: 0 <= j < |s.members| && j != p ==> t.members[j] == s.members[j]
  {
    DecideStep(sha, s, p, r, voters);
    var u := Next(sha, s, Decide(r, voters, Done));
    CleanUpLast(sha, s, u, p, s.rounds[r].block);
    BroadcastStep(sha, Next(sha, u, CleanUp(p, LastOf(s, p))), r);
  }

  /** The peers whose yes reaches the proposer. */
  function VotersOf(p: nat, answers: seq<bool>): set<nat> {
    set i | i in Yes(answers) :: PeerOf(p, i)
  }

  lemma VotersArrive(s: State, t: State, p: nat, r: nat, answers: seq<bool>)
    requires p < |s.members| && |answers| == |s.members| - 1
    requires r < |s.rounds| && s.rounds[r].proposer == p && Cast(s, t, p, r, answers, |answers|)
    ensures VotesArrived(t, r, VotersOf(p, answers))
    ensures |VotersOf(p, answers)| == CountTrue(answers)
  {
    ShiftedSize(p, Yes(answers));
    CountIsCardinality(answers);
    forall v | v in VotersOf(p, answers)
      ensures v < |t.members| && v != p && VotedYes(t, r, v)
    {
      var i :| i in Yes(answers) && PeerOf(p, i) == v;
    }
  }

  function VotePart(p: nat, r: nat, audits: seq<Audit>, answers: seq<bool>): seq<Step> {
    [Propose(p, audits)] + VoteSteps(p, r, answers, |answers|)
  }

  function CommitPart(p: nat, r: nat, answers: seq<bool>, last: nat): seq<Step> {
    [Decide(r, VotersOf(p, answers), Done), CleanUp(p, last)] + [Broadcast(r)]
  }

  lemma VotePartRuns(sha: Sha, s: State, p: nat, audits: seq<Audit>, links: seq<Link>)
    requires p < |s.members| && |links| == |s.members| - 1 && Enabled(sha, s, Propose(p, audits))
    ensures var b := Created(sha, s.members[p].chain, audits);
      var answers := Answers(sha, PeerLedgers(s, p), links, b);
      var t := Exec(sha, s, VotePart(p, |s.rounds|, audits, answers));
      && t.members == s.members
      && |t.rounds| == |s.rounds| + 1 && t.rounds[|s.rounds|] == Round(p, b, s.members[p].chain, Voting)
      && VotesArrived(t, |s.rounds|, VotersOf(p, answers))
      && |VotersOf(p, answers)| == CountTrue(answers)
  {
    var b, r := Created(sha, s.members[p].chain, audits), |s.rounds|;
    var answers := Answers(sha, PeerLedgers(s, p), links, b);
    var s1 := Next(sha, s, Propose(p, audits));
    VotesAreCast(sha, s1, p, r, answers, |answers|);
    VoteStepsRun(sha, s1, p, r, answers, |answers|);
    VotersArrive(s1, AfterVotes(sha, s1, p, r, answers, |answers|), p, r, answers);
    OneMoreStep(sha, s, [], Propose(p, audits));
    assert [] + [Propose(p, audits)] == [Propose(p, audits)];
    ExecConcat(sha, s, [Propose(p, audits)], VoteSteps(p, r, answers, |answers|));
  }

  lemma CommitPartRuns(sha: Sha, s: State, p: nat, audits: seq<Audit>, w: Weather)
    requires p < |s.members| && Fits(w, |s.members| - 1) && Enabled(sha, s, Propose(p, audits))
    requires RoundCommits(sha, PeerLedgers(s, p), w, Created(sha, s.members[p].chain, audits))
    ensures var b := Created(sha, s.members[p].chain, audits);
      var answers := Answers(sha, PeerLedgers(s, p), w.vote, b);
      var t := Exec(sha, s, VotePart(p, |s.rounds|, audits, answers) + CommitPart(p, |s.rounds|, answers, LastOf(s, p)));
      && CommitRequest(b) in t.sent
      && Received(sha, s.members[p], t.members[p], b, Done)
      && forall j :: 0 <= j < |s.members| && j != p ==> t.members[j] == s.members[j]
  {
    var b, r := Created(sha, s.members[p].chain, audits), |s.rounds|;
    var answers := Answers(sha, PeerLedgers(s, p), w.vote, b);
    var vote := VotePart(p, r, audits, answers);
    VotePartRuns(sha, s, p, audits, w.vote);
    DecideAndBroadcast(sha, Exec(sha, s, vote), p, r, VotersOf(p, answers));
    ThreeMoreSteps(sha, s, vote, Decide(r, VotersOf(p, answers), Done), CleanUp(p, LastOf(s, p)), Broadcast(r));
  }

  /** Every round that ProposeNewBlock can produce is a run of protocol steps: for any network and any
      disks there are steps that take the members' ledgers to exactly the ledgers after the round. */
  lemma RoundIsARun(sha: Sha, s: State, p: nat, audits: seq<Audit>, w: Weather) returns (steps: seq<Step>)
    requires p < |s.members| && Fits(w, |s.members| - 1) && |s.members[p].chain| <= INT64_MAX
    ensures var b := Created(sha, s.members[p].chain, audits);
      var t := Exec(sha, s, steps);
      && LedgerOf(t.members[p]) == ProposerAfter(sha, LedgerOf(s.members[p]), PeerLedgers(s, p), w, b)
      && t.members[p].pending == s.members[p].pending
      && forall i :: 0 <= i < |s.members| - 1 ==>
           LedgerOf(t.members[PeerOf(p, i)]) == PeerAfter(sha, PeerLedgers(s, p), w, b, i) &&
           t.members[PeerOf(p, i)].pending == s.members[PeerOf(p, i)].pending
  {
    var b, r, n := Created(sha, s.members[p].chain, audits), |s.rounds|, |s.members| - 1;
    var peers := PeerLedgers(s, p);
    if !RoundCommits(sha, peers, w, b) {
      return [];
    }
    CommitPartRuns(sha, s, p, audits, w);
    var answers := Answers(sha, peers, w.vote, b);
    var begin := VotePart(p, r, audits, answers) + CommitPart(p, r, answers, LastOf(s, p));
    var committed := Exec(sha, s, begin);
    DeliverAll(sha, committed, p, b, w, n);
    DeliveryStepsRun(sha, committed, p, b, w, n);
    ExecConcat(sha, s, begin, DeliverySteps(committed, p, b, w, n));
    var t := AfterDeliveries(sha, committed, p, b, w, n);
    forall i | 0 <= i < n
      ensures LedgerOf(t.members[PeerOf(p, i)]) == PeerAfter(sha, peers, w, b, i)
      ensures t.members[PeerOf(p, i)].pending == s.members[PeerOf(p, i)].pending
    {
      assert committed.members[PeerOf(p, i)] == s.members[PeerOf(p, i)];
      assert peers[i] == LedgerOf(s.members[PeerOf(p, i)]);
    }
    steps := begin + DeliverySteps(committed, p, b, w, n);
  }

  // ---------- catching up ----------

  lemma ServeAndRecover(sha: Sha, s: State, i: nat, q: nat, w: Write)
    requires i < |s.members| && q < |s.members| && i != q
    requires var id := |s.members[i].chain|;
      0 < id < |s.members[q].chain| && Accepts(sha, s.members[i].chain, s.members[q].chain[id])
    ensures var id := |s.members[i].chain|;
      var b := s.members[q].chain[id];
      Next(sha, Next(sha, s, Step.Serve(q, id)), Recover(i, b, w)).members ==
        if w.Done? then s.members[i := Append(s.members[i], b)] else s.members
  {
  }

  lemma FetchOne(sha: Sha, s: State, i: nat, q: nat, w: Write)
    requires i < |s.members| && q < |s.members| && i != q
    requires var id := |s.members[i].chain|;
      0 < id < |s.members[q].chain| && Accepts(sha, s.members[i].chain, s.members[q].chain[id])
    ensures var b := s.members[q].chain[|s.members[i].chain|];
      var t := Exec(sha, s, [] + ([Step.Serve(q, |s.members[i].chain|), Recover(i, b, w)] + [CleanUp(i, LastOf(s, i))]));
      && Received(sha, s.members[i], t.members[i], b, w)
      && forall j :: 0 <= j < |s.members| && j != i ==> t.members[j] == s.members[j]
  {
    var id := |s.members[i].chain|;
    var b := s.members[q].chain[id];
    ThreeMoreSteps(sha, s, [], Step.Serve(q, id), Recover(i, b, w), CleanUp(i, LastOf(s, i)));
    ServeAndRecover(sha, s, i, q, w);
    CleanUpLast(sha, s, Next(sha, Next(sha, s, Step.Serve(q, id)), Recover(i, b, w)), i, b);
  }

  /** Every catch-up against another node's GetBlock handler, however many calls fail and whatever the disk
      does, is a run of protocol steps that ends in exactly the ledger that syncMissingBlocks leaves. */
  lemma {:induction false} SyncIsARun(sha: Sha, s: State, i: nat, q: nat, target: int, replies: Replies, writes: Writes)
      returns (steps: seq<Step>)
    requires i < |s.members| && q < |s.members| && i != q
    requires forall id :: replies(id).Some? ==> replies(id) == Services.Serve(s.members[q].chain, id)
    ensures var t := Exec(sha, s, steps);
      && LedgerOf(t.members[i]) == Sync(sha, LedgerOf(s.members[i]), target, replies, writes).0
      && t.members[i].pending == s.members[i].pending
      && forall j :: 0 <= j < |s.members| && j != i ==> t.members[j] == s.members[j]
    decreases target - |s.members[i].chain|
  {
    var id := |s.members[i].chain|;
    if id > target || replies(id).None? || !Accepts(sha, s.members[i].chain, replies(id).value) || !writes(id).Done? {
      return [];
    }
    FetchOne(sha, s, i, q, writes(id));
    var fetch := [] + ([Step.Serve(q, id), Recover(i, replies(id).value, writes(id))] + [CleanUp(i, LastOf(s, i))]);
    var more := SyncIsARun(sha, Exec(sha, s, fetch), i, q, target, replies, writes);
    ExecConcat(sha, s, fetch, more);
    return fetch + more;
  }

  // ---------- submitting, and starting again ----------

  /** The Submit step does what AddAudit does, in every state of the node. */
  lemma SubmitIsAddAudit(sha: Sha, s: State, i: nat, a: Audit, hashes: set<string>)
    requires i < |s.members| && Agrees(sha, Index(s.members[i].pool, hashes))
    ensures var (m, m') := (s.members[i], Next(sha, s, Submit(i, a)).members[i]);
      && m'.pool == Insert(sha, Index(m.pool, hashes), a).audits
      && m'.accepted == m.accepted + (if Admits(sha, Index(m.pool, hashes), a) then {a.reqId} else {})
      && m'.chain == m.chain && m'.pending == m.pending
  {
    InsertRefinesScan(sha, Index(s.members[i].pool, hashes), a);
  }

  /** The Restart step does what starting on the directory of the node's chain does: the same chain is
      loaded, and the mempool is empty. */
  lemma RestartIsReload(sha: Sha, s: State, i: nat, disk: Directory, names: seq<string>)
    requires i < |s.members| && Holds(disk, s.members[i].chain)
    requires forall name :: name in names <==> name in disk
    ensures var m' := Next(sha, s, Restart(i)).members[i];
      && MemoryOf(m'.chain) == LoadAll(disk, names) && m'.chain == s.members[i].chain
      && m'.pool == EMPTY_INDEX.audits && m'.pending == []
  {
    RestartRestores(disk, s.members[i].chain, names);
  }
}
