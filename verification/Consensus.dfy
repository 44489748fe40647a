/** What every run of the protocol keeps. */
module Consensus {
  import opened Counting
  import opened Digests
  import opened Records
  import opened HashChain
  import opened Mempools
  import opened Services
  import opened Protocol

  // ---------- the invariant ----------

  /** These votes approve the round. */
  ghost predicate ApprovedBy(s: State, round: nat, voters: set<nat>)
    requires round < |s.rounds|
  {
    s.members != [] && VotesArrived(s, round, voters) && Approved(|voters|, |s.members| - 1)
  }

  /** Some round proposed the block and enough votes for it have been sent. */
  ghost predicate Backed(s: State, b: Block) {
    exists r: nat, voters :: r < |s.rounds| && s.rounds[r].block == b && ApprovedBy(s, r, voters)
  }

  /** A proposer's chain still begins with the chain on which it created the block, and the block is
      committed only when it is backed. */
  ghost predicate RoundOk(sha: Sha, s: State, r: nat)
    requires r < |s.rounds|
  {
    var round := s.rounds[r];
    && round.proposer < |s.members|
    && round.seen <= s.members[round.proposer].chain
    && Accepts(sha, round.seen, round.block)
    && (round.phase.Committed? ==> Backed(s, round.block))
  }

  /** A voter's chain still begins with the chain on which it voted, and the block fits there. Blocks
      that travel are backed. */
  ghost predicate MessageOk(sha: Sha, s: State, m: Message) {
    match m
    case YesVote(r, v, seen) =>
      && r < |s.rounds| && v < |s.members|
      && seen <= s.members[v].chain
      && Accepts(sha, seen, s.rounds[r].block)
    case CommitRequest(b) => Backed(s, b)
    case BlockReply(b) => Backed(s, b)
  }

  ghost predicate ChainBacked(s: State, i: nat)
    requires i < |s.members|
  {
    forall h :: 0 <= h < |s.members[i].chain| ==> Backed(s, s.members[i].chain[h])
  }

  ghost predicate ChainOk(sha: Sha, s: State, i: nat)
    requires i < |s.members|
  {
    WellFormed(sha, s.members[i].chain) && ChainBacked(s, i)
  }

  ghost predicate Inv(sha: Sha, s: State) {
    && (forall i :: 0 <= i < |s.members| ==> ChainOk(sha, s, i))
    && (forall r :: 0 <= r < |s.rounds| ==> RoundOk(sha, s, r))
    && (forall m :: m in s.sent ==> MessageOk(sha, s, m))
  }

  // ---------- every step keeps it ----------

  lemma VotesStay(sha: Sha, s: State, step: Step, round: nat, voters: set<nat>)
    requires round < |s.rounds| && ApprovedBy(s, round, voters)
    ensures var t := Next(sha, s, step); round < |t.rounds| && ApprovedBy(t, round, voters)
  {
    ChainsGrow(sha, s, step);
    var t := Next(sha, s, step);
    forall v | v in voters
      ensures VotedYes(t, round, v)
    {
      assert VotedYes(s, round, v);
      var m :| m in s.sent && m.YesVote? && m.round == round && m.voter == v;
      assert m in t.sent;
    }
  }

  lemma {:induction false} ApprovalStays(sha: Sha, s: State, steps: seq<Step>, round: nat, voters: set<nat>)
    requires round < |s.rounds| && ApprovedBy(s, round, voters)
    ensures var t := Exec(sha, s, steps); round < |t.rounds| && ApprovedBy(t, round, voters)
  {
    if steps != [] {
      ApprovalStays(sha, s, steps[..|steps| - 1], round, voters);
      VotesStay(sha, Exec(sha, s, steps[..|steps| - 1]), steps[|steps| - 1], round, voters);
    }
  }

  lemma BackedStays(sha: Sha, s: State, step: Step, b: Block)
    requires Backed(s, b)
    ensures Backed(Next(sha, s, step), b)
  {
    var r: nat, voters :| r < |s.rounds| && s.rounds[r].block == b && ApprovedBy(s, r, voters);
    VotesStay(sha, s, step, r, voters);
    ChainsGrow(sha, s, step);
  }

  lemma MessagesStay(sha: Sha, s: State, step: Step, m: Message)
    requires MessageOk(sha, s, m)
    ensures MessageOk(sha, Next(sha, s, step), m)
  {
    ChainsGrow(sha, s, step);
    match m
    case YesVote(r, v, seen) =>
    case CommitRequest(b) => BackedStays(sha, s, step, b);
    case BlockReply(b) => BackedStays(sha, s, step, b);
  }

  /** What a step adds: at most one block to one chain, acceptable there and backed. */
  lemma NewBlockIsBacked(sha: Sha, s: State, step: Step, i: nat)
    requires Inv(sha, s) && i < |s.members|
    ensures var (c, d) := (s.members[i].chain, Next(sha, s, step).members[i].chain);
      c == d || (exists b :: d == c + [b] && Accepts(sha, c, b) && Backed(s, b))
  {
    var c, d := s.members[i].chain, Next(sha, s, step).members[i].chain;
    if c != d {
      match step
      case Decide(r, voters, _) =>
        assert ApprovedBy(s, r, voters);
        assert Backed(s, s.rounds[r].block);
      case Deliver(_, b, _) =>
        assert MessageOk(sha, s, CommitRequest(b));
      case Recover(_, b, _) =>
        assert MessageOk(sha, s, BlockReply(b));
    }
  }

  lemma ChainStaysBacked(sha: Sha, s: State, step: Step, i: nat)
    requires Inv(sha, s) && i < |s.members|
    ensures ChainBacked(Next(sha, s, step), i)
  {
    NewBlockIsBacked(sha, s, step, i);
    var t := Next(sha, s, step);
    assert ChainOk(sha, s, i);
    forall h | 0 <= h < |t.members[i].chain|
      ensures Backed(t, t.members[i].chain[h])
    {
      BackedStays(sha, s, step, t.members[i].chain[h]);
    }
  }

  lemma ChainsStayOk(sha: Sha, s: State, step: Step, i: nat)
    requires Inv(sha, s) && i < |s.members|
    ensures ChainOk(sha, Next(sha, s, step), i)
  {
    ChainStaysBacked(sha, s, step, i);
    NewBlockIsBacked(sha, s, step, i);
    var c, d := s.members[i].chain, Next(sha, s, step).members[i].chain;
    assert ChainOk(sha, s, i);
    if c != d {
      var b :| d == c + [b] && Accepts(sha, c, b) && Backed(s, b);
      AcceptedExtends(sha, c, b);
    }
  }

  lemma NewMessageIsOk(sha: Sha, s: State, step: Step, m: Message)
    requires Inv(sha, s) && m in Next(sha, s, step).sent && m !in s.sent
    ensures MessageOk(sha, Next(sha, s, step), m)
  {
    match step
    case Vote(i, r) =>
    case Broadcast(r) =>
      assert RoundOk(sha, s, r);
      BackedStays(sha, s, step, s.rounds[r].block);
    case Serve(i, id) =>
      assert ChainOk(sha, s, i);
      BackedStays(sha, s, step, s.members[i].chain[id]);
  }

  lemma RoundsStayOk(sha: Sha, s: State, step: Step, r: nat)
    requires Inv(sha, s) && r < |Next(sha, s, step).rounds|
    ensures RoundOk(sha, Next(sha, s, step), r)
  {
    ChainsGrow(sha, s, step);
    if r < |s.rounds| {
      assert RoundOk(sha, s, r);
      if step.Decide? && step.round == r && Enabled(sha, s, step) {
        assert ApprovedBy(s, r, step.voters);
      }
      if Backed(s, s.rounds[r].block) {
        BackedStays(sha, s, step, s.rounds[r].block);
      }
    }
  }

  lemma StepKeepsInv(sha: Sha, s: State, step: Step)
    requires Inv(sha, s)
    ensures Inv(sha, Next(sha, s, step))
  {
    ChainsGrow(sha, s, step);
    var t := Next(sha, s, step);
    forall i | 0 <= i < |t.members|
      ensures ChainOk(sha, t, i)
    {
      ChainsStayOk(sha, s, step, i);
    }
    forall r | 0 <= r < |t.rounds|
      ensures RoundOk(sha, t, r)
    {
      RoundsStayOk(sha, s, step, r);
    }
    forall m | m in t.sent
      ensures MessageOk(sha, t, m)
    {
      if m in s.sent {
        MessagesStay(sha, s, step, m);
      } else {
        NewMessageIsOk(sha, s, step, m);
      }
    }
  }

  /** The invariant holds after every run, of any steps in any order. */
  lemma {:induction false} InvHolds(sha: Sha, n: nat, steps: seq<Step>)
    ensures Inv(sha, Run(sha, n, steps))
  {
    if steps != [] {
      InvHolds(sha, n, steps[..|steps| - 1]);
      StepKeepsInv(sha, Run(sha, n, steps[..|steps| - 1]), steps[|steps| - 1]);
    } else {
      forall i | 0 <= i < n
        ensures ChainOk(sha, Init(n), i)
      {
      }
    }
  }

  // ---------- quorums ----------

  /** Every past yes-vote still matches the voter's chain: the voter's chain reaches below the block and
      has the block's previous hash at that height. */
  predicate Matches(chain: seq<Block>, b: Block) {
    0 <= b.id <= |chain| && TipHash(chain[..b.id]) == b.previousHash
  }

  /** The nodes behind a round: those voters and the proposer. */
  function Quorum(s: State, round: nat, voters: set<nat>): set<nat>
    requires round < |s.rounds|
  {
    voters + {s.rounds[round].proposer}
  }

  lemma PrefixMatches(sha: Sha, seen: seq<Block>, chain: seq<Block>, b: Block)
    requires seen <= chain && Accepts(sha, seen, b)
    ensures Matches(chain, b)
  {
    assert chain[..b.id] == seen;
  }

  lemma QuorumMatches(sha: Sha, s: State, r: nat, voters: set<nat>, v: nat)
    requires Inv(sha, s) && r < |s.rounds| && ApprovedBy(s, r, voters) && v in Quorum(s, r, voters)
    ensures v < |s.members| && Matches(s.members[v].chain, s.rounds[r].block)
  {
    if v in voters {
      assert VotedYes(s, r, v);
      var m :| m in s.sent && m.YesVote? && m.round == r && m.voter == v;
      assert MessageOk(sha, s, m);
      PrefixMatches(sha, m.seen, s.members[v].chain, s.rounds[r].block);
    } else {
      assert RoundOk(sha, s, r);
      PrefixMatches(sha, s.rounds[r].seen, s.members[v].chain, s.rounds[r].block);
    }
  }

  lemma QuorumIsMajority(sha: Sha, s: State, r: nat, voters: set<nat>)
    requires Inv(sha, s) && r < |s.rounds| && ApprovedBy(s, r, voters)
    ensures Quorum(s, r, voters) <= UpTo(|s.members|)
    ensures 2 * |Quorum(s, r, voters)| > |s.members|
  {
    assert RoundOk(sha, s, r);
    assert s.rounds[r].proposer !in voters;
    ApprovedIsMajority(|voters|, |s.members| - 1);
  }

  /** Quorum lemma: the votes that approve two rounds for one height have a node in common. Its chain
      matches both blocks, so they carry the same previous hash. */
  lemma QuorumsShareParent(sha: Sha, s: State, q: nat, xs: set<nat>, r: nat, ys: set<nat>) returns (v: nat)
    requires Inv(sha, s) && q < |s.rounds| && ApprovedBy(s, q, xs) && r < |s.rounds| && ApprovedBy(s, r, ys)
    requires s.rounds[q].block.id == s.rounds[r].block.id
    ensures v in Quorum(s, q, xs) && v in Quorum(s, r, ys) && v < |s.members|
    ensures Matches(s.members[v].chain, s.rounds[q].block) && Matches(s.members[v].chain, s.rounds[r].block)
    ensures s.rounds[q].block.previousHash == s.rounds[r].block.previousHash
  {
    QuorumIsMajority(sha, s, q, xs);
    QuorumIsMajority(sha, s, r, ys);
    v := MajoritiesMeet(|s.members|, Quorum(s, q, xs), Quorum(s, r, ys));
    QuorumMatches(sha, s, q, xs, v);
    QuorumMatches(sha, s, r, ys, v);
  }

  lemma BackedBlocksShareParent(sha: Sha, s: State, b: Block, c: Block)
    requires Inv(sha, s) && Backed(s, b) && Backed(s, c) && b.id == c.id
    ensures b.previousHash == c.previousHash
  {
    var q: nat, xs :| q < |s.rounds| && s.rounds[q].block == b && ApprovedBy(s, q, xs);
    var r: nat, ys :| r < |s.rounds| && s.rounds[r].block == c && ApprovedBy(s, r, ys);
    var v := QuorumsShareParent(sha, s, q, xs, r, ys);
  }

  /** After any run, any two rounds that have been approved for the same height, committed or not, have
      a node in common whose chain matches both blocks, and build on the same previous hash. */
  lemma ApprovedRoundsShareParent(sha: Sha, n: nat, steps: seq<Step>, q: nat, xs: set<nat>, r: nat, ys: set<nat>)
    requires var s := Run(sha, n, steps);
      && q < |s.rounds| && ApprovedBy(s, q, xs)
      && r < |s.rounds| && ApprovedBy(s, r, ys)
      && s.rounds[q].block.id == s.rounds[r].block.id
    ensures var s := Run(sha, n, steps);
      && s.rounds[q].block.previousHash == s.rounds[r].block.previousHash
      && (exists v: nat :: v in Quorum(s, q, xs) && v in Quorum(s, r, ys) && v < |s.members| &&
            Matches(s.members[v].chain, s.rounds[q].block) && Matches(s.members[v].chain, s.rounds[r].block))
  {
    InvHolds(sha, n, steps);
    var v := QuorumsShareParent(sha, Run(sha, n, steps), q, xs, r, ys);
  }

  // ---------- forks have depth one ----------

  /** The same headers at every height, or a collision between the header strings of the two chains. */
  ghost predicate SameHistory(sha: Sha, c: seq<Block>, d: seq<Block>) {
    Headers(c) == Headers(d) || CollisionBetween(sha, HeaderInputs(c), HeaderInputs(d))
  }

  /** At every height strictly below both tips, two nodes hold the same block hash; whatever was
      proposed, voted, lost, duplicated, delayed or restarted. */
  lemma DepthOneForks(sha: Sha, n: nat, steps: seq<Step>, i: nat, j: nat, h: nat)
    requires var s := Run(sha, n, steps);
      i < n && j < n && h + 1 < |s.members[i].chain| && h + 1 < |s.members[j].chain|
    ensures var s := Run(sha, n, steps);
      s.members[i].chain[h].hash == s.members[j].chain[h].hash
  {
    var s := Run(sha, n, steps);
    InvHolds(sha, n, steps);
    assert ChainOk(sha, s, i) && ChainOk(sha, s, j);
    LinkAt(sha, s.members[i].chain, h);
    LinkAt(sha, s.members[j].chain, h);
    BackedBlocksShareParent(sha, s, s.members[i].chain[h + 1], s.members[j].chain[h + 1]);
  }

  lemma SameHashSameHistory(sha: Sha, c: seq<Block>, d: seq<Block>, h: nat)
    requires WellFormed(sha, c) && WellFormed(sha, d) && h < |c| && h < |d| && c[h].hash == d[h].hash
    ensures SameHistory(sha, c[..h + 1], d[..h + 1])
  {
    PrefixWellFormed(sha, c[..h + 1], c);
    PrefixWellFormed(sha, d[..h + 1], d);
    ChainBinding(sha, c[..h + 1], d[..h + 1]);
  }

  /** Below both tips the two nodes share their whole history: the same headers at every height up to h,
      unless their header strings contain a collision. */
  lemma SharedHistoryBelowTips(sha: Sha, n: nat, steps: seq<Step>, i: nat, j: nat, h: nat)
    requires var s := Run(sha, n, steps);
      i < n && j < n && h + 1 < |s.members[i].chain| && h + 1 < |s.members[j].chain|
    ensures var s := Run(sha, n, steps);
      SameHistory(sha, s.members[i].chain[..h + 1], s.members[j].chain[..h + 1])
  {
    var s := Run(sha, n, steps);
    DepthOneForks(sha, n, steps, i, j, h);
    InvHolds(sha, n, steps);
    assert ChainOk(sha, s, i) && ChainOk(sha, s, j);
    SameHashSameHistory(sha, s.members[i].chain, s.members[j].chain, h);
  }

  /** The same across time: a block with a child on some node is final. No node, at any later point of
      the run, ever holds another hash at its height below its own tip. */
  lemma ParentsAreFinal(sha: Sha, n: nat, steps: seq<Step>, more: seq<Step>, i: nat, j: nat, h: nat)
    requires i < n && j < n
    requires h + 1 < |Run(sha, n, steps).members[i].chain|
    requires h + 1 < |Run(sha, n, steps + more).members[j].chain|
    ensures Run(sha, n, steps).members[i].chain[h].hash == Run(sha, n, steps + more).members[j].chain[h].hash
  {
    ExecConcat(sha, Init(n), steps, more);
    ChainsGrowOverRun(sha, Run(sha, n, steps), more, i);
    DepthOneForks(sha, n, steps + more, i, j, h);
  }

  /** The losing side of a fork at the tip is stuck. When another node's chain has grown past a tip that it
      does not share, no step can ever extend the chain below that tip. */
  lemma LosingSideIsStuck(sha: Sha, n: nat, steps: seq<Step>, more: seq<Step>, i: nat, j: nat, h: nat)
    requires i < n && j < n
    requires var s := Run(sha, n, steps);
      && |s.members[i].chain| == h + 1 && h + 1 < |s.members[j].chain|
      && s.members[i].chain[h].hash != s.members[j].chain[h].hash
    ensures Run(sha, n, steps + more).members[i].chain == Run(sha, n, steps).members[i].chain
  {
    var s, t := Run(sha, n, steps), Run(sha, n, steps + more);
    ExecConcat(sha, Init(n), steps, more);
    ChainsGrowOverRun(sha, s, more, i);
    ChainsGrowOverRun(sha, s, more, j);
    if |t.members[i].chain| > h + 1 {
      DepthOneForks(sha, n, steps + more, i, j, h);
    }
  }

  // ---------- what a passed vote proves ----------

  lemma VoteProvesHistory(sha: Sha, s: State, r: nat, m: Message)
    requires Inv(sha, s) && r < |s.rounds| && m in s.sent && m.YesVote? && m.round == r
    ensures SameHistory(sha, m.seen, s.rounds[r].seen)
  {
    assert MessageOk(sha, s, m) && RoundOk(sha, s, r);
    assert ChainOk(sha, s, m.voter) && ChainOk(sha, s, s.rounds[r].proposer);
    PrefixWellFormed(sha, m.seen, s.members[m.voter].chain);
    PrefixWellFormed(sha, s.rounds[r].seen, s.members[s.rounds[r].proposer].chain);
    ChainBinding(sha, m.seen, s.rounds[r].seen);
  }

  /** When the votes that arrived approve a round, a strict majority of nodes (the voters and the
      proposer) each had, when voting, the header chain that the proposer had when it created the
      block, unless the header strings hashed for the two chains contain a collision. */
  lemma PassedVoteProvesHistory(sha: Sha, n: nat, steps: seq<Step>, r: nat, voters: set<nat>)
    requires var s := Run(sha, n, steps); r < |s.rounds| && ApprovedBy(s, r, voters)
    ensures var s := Run(sha, n, steps);
      && 2 * |Quorum(s, r, voters)| > |s.members| && Quorum(s, r, voters) <= UpTo(|s.members|)
      && (forall v :: v in voters ==> exists m ::
            m in s.sent && m.YesVote? && m.round == r && m.voter == v && SameHistory(sha, m.seen, s.rounds[r].seen))
      && (forall m :: m in s.sent && m.YesVote? && m.round == r ==> SameHistory(sha, m.seen, s.rounds[r].seen))
  {
    var s := Run(sha, n, steps);
    InvHolds(sha, n, steps);
    QuorumIsMajority(sha, s, r, voters);
    forall m | m in s.sent && m.YesVote? && m.round == r
      ensures SameHistory(sha, m.seen, s.rounds[r].seen)
    {
      VoteProvesHistory(sha, s, r, m);
    }
    forall v | v in voters
      ensures exists m ::
        m in s.sent && m.YesVote? && m.round == r && m.voter == v && SameHistory(sha, m.seen, s.rounds[r].seen)
    {
      assert VotedYes(s, r, v);
    }
  }

  // ---------- a single proposer ----------

  predicate InChain(chain: seq<Block>, b: Block) {
    0 <= b.id < |chain| && chain[b.id] == b
  }

  /** With a single proposer p: every chain is a prefix of p's, and everything that travels or has been
      committed is in p's chain. */
  ghost predicate LedBy(s: State, p: nat)
    requires p < |s.members|
  {
    var chain := s.members[p].chain;
    && (forall i :: 0 <= i < |s.members| ==> s.members[i].chain <= chain)
    && (forall r :: 0 <= r < |s.rounds| ==>
          s.rounds[r].proposer == p && (s.rounds[r].phase.Committed? ==> InChain(chain, s.rounds[r].block)))
    && (forall m :: m in s.sent && !m.YesVote? ==> InChain(chain, m.block))
  }

  lemma PrefixTakesNext(chain: seq<Block>, lead: seq<Block>, b: Block)
    requires chain <= lead && InChain(lead, b) && b.id == |chain|
    ensures chain + [b] <= lead
  {
  }

  lemma LedChains(sha: Sha, s: State, step: Step, p: nat, i: nat)
    requires p < |s.members| && i < |s.members| && LedBy(s, p)
    ensures var t := Next(sha, s, step); |t.members| == |s.members| && t.members[i].chain <= t.members[p].chain
  {
    ChainsGrow(sha, s, step);
    match step
    case Deliver(j, b, _) =>
      if Enabled(sha, s, step) {
        assert CommitRequest(b) in s.sent;
        PrefixTakesNext(s.members[j].chain, s.members[p].chain, b);
      }
    case Recover(j, b, _) =>
      if Enabled(sha, s, step) {
        assert BlockReply(b) in s.sent;
        PrefixTakesNext(s.members[j].chain, s.members[p].chain, b);
      }
    case _ =>
  }

  lemma LedRounds(sha: Sha, s: State, step: Step, p: nat, r: nat)
    requires p < |s.members| && LedBy(s, p)
    requires step.Propose? ==> step.node == p
    requires r < |Next(sha, s, step).rounds|
    ensures var t := Next(sha, s, step);
      |t.members| == |s.members| && t.rounds[r].proposer == p
      && (t.rounds[r].phase.Committed? ==> InChain(t.members[p].chain, t.rounds[r].block))
  {
    ChainsGrow(sha, s, step);
  }

  lemma LedMessages(sha: Sha, s: State, step: Step, p: nat, m: Message)
    requires p < |s.members| && LedBy(s, p) && Inv(sha, s)
    requires m in Next(sha, s, step).sent && !m.YesVote?
    ensures var t := Next(sha, s, step); |t.members| == |s.members| && InChain(t.members[p].chain, m.block)
  {
    ChainsGrow(sha, s, step);
    if m !in s.sent && step.Serve? {
      assert ChainOk(sha, s, step.node) && AcceptedAt(sha, s.members[step.node].chain, step.id);
      assert s.members[step.node].chain <= s.members[p].chain;
    }
  }

  lemma StepKeepsLed(sha: Sha, s: State, step: Step, p: nat)
    requires p < |s.members| && LedBy(s, p) && Inv(sha, s)
    requires step.Propose? ==> step.node == p
    ensures p < |Next(sha, s, step).members| && LedBy(Next(sha, s, step), p)
  {
    ChainsGrow(sha, s, step);
    var t := Next(sha, s, step);
    forall i | 0 <= i < |t.members|
      ensures t.members[i].chain <= t.members[p].chain
    {
      LedChains(sha, s, step, p, i);
    }
    forall r | 0 <= r < |t.rounds|
      ensures t.rounds[r].proposer == p && (t.rounds[r].phase.Committed? ==> InChain(t.members[p].chain, t.rounds[r].block))
    {
      LedRounds(sha, s, step, p, r);
    }
    forall m | m in t.sent && !m.YesVote?
      ensures InChain(t.members[p].chain, m.block)
    {
      LedMessages(sha, s, step, p, m);
    }
  }

  /** Stable leader: in every run where only p proposes, every node's chain is at all times a prefix,
      block for block, of p's chain; p commits before it broadcasts. */
  lemma {:induction false} StableLeader(sha: Sha, n: nat, steps: seq<Step>, p: nat)
    requires p < n
    requires forall k :: 0 <= k < |steps| && steps[k].Propose? ==> steps[k].node == p
    ensures LedBy(Run(sha, n, steps), p)
  {
    if steps != [] {
      var rest := steps[..|steps| - 1];
      StableLeader(sha, n, rest, p);
      InvHolds(sha, n, rest);
      StepKeepsLed(sha, Run(sha, n, rest), steps[|steps| - 1], p);
    }
  }

  // ---------- no accepted audit is lost ----------

  predicate InBlock(chain: seq<Block>, h: nat, id: string) {
    h < |chain| && id in ReqIds(chain[h].audits)
  }

  ghost predicate InSomeBlock(chain: seq<Block>, id: string) {
    exists h :: InBlock(chain, h, id)
  }

  /** Every request id accepted since the last start is pending or committed, and whatever is still to be
      removed from the mempool is committed. */
  ghost predicate Keeps(m: Member) {
    && (forall id :: id in m.accepted ==> id in m.pool || InSomeBlock(m.chain, id))
    && (forall k, id :: 0 <= k < |m.pending| && id in ReqIds(m.pending[k]) ==> InSomeBlock(m.chain, id))
  }

  lemma StaysInBlock(chain: seq<Block>, longer: seq<Block>, id: string)
    requires chain <= longer && InSomeBlock(chain, id)
    ensures InSomeBlock(longer, id)
  {
    var h :| InBlock(chain, h, id);
    assert InBlock(longer, h, id);
  }

  lemma AppendKeeps(m: Member, b: Block)
    requires Keeps(m)
    ensures Keeps(Append(m, b))
  {
    var m' := Append(m, b);
    forall id | InSomeBlock(m.chain, id)
      ensures InSomeBlock(m'.chain, id)
    {
      StaysInBlock(m.chain, m'.chain, id);
    }
    forall id | id in ReqIds(b.audits)
      ensures InSomeBlock(m'.chain, id)
    {
      assert InBlock(m'.chain, |m.chain|, id);
    }
  }

  lemma StepKeepsAudits(sha: Sha, s: State, step: Step, i: nat)
    requires i < |s.members| && Keeps(s.members[i])
    ensures i < |Next(sha, s, step).members| && Keeps(Next(sha, s, step).members[i])
  {
    match step
    case Decide(r, _, _) => if r < |s.rounds| { AppendKeeps(s.members[i], s.rounds[r].block); }
    case Deliver(_, b, _) => AppendKeeps(s.members[i], b);
    case Recover(_, b, _) => AppendKeeps(s.members[i], b);
    case _ =>
  }

  /** In every run, each request id that addAudit has accepted on a node since it last started is in that
      node's mempool or in a committed block of its chain; also while audits keep arriving between a
      snapshot and the removal, and between a commit and the removal. */
  lemma {:induction false} NoAcceptedAuditIsLost(sha: Sha, n: nat, steps: seq<Step>, i: nat)
    requires i < n
    ensures var s := Run(sha, n, steps);
      forall id :: id in s.members[i].accepted ==> id in s.members[i].pool || InSomeBlock(s.members[i].chain, id)
    ensures Keeps(Run(sha, n, steps).members[i])
  {
    if steps != [] {
      var rest := steps[..|steps| - 1];
      NoAcceptedAuditIsLost(sha, n, rest, i);
      StepKeepsAudits(sha, Run(sha, n, rest), steps[|steps| - 1], i);
    }
  }
}
