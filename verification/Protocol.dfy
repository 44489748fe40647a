/** N nodes proposing, voting, committing and recovering over a network that may lose, duplicate, delay
    and reorder every message, with any number of nodes proposing at once. */
module Protocol {
  import opened Decimal
  import opened Digests
  import opened Records
  import opened HashChain
  import opened Disk
  import opened Mempools
  import opened Services

  /** One node. `pending` are audit lists of committed blocks that are still to be removed from the
      mempool, which happens after the commit and not with it. `accepted` is history: the request
      ids that addAudit has accepted here since the node last started. */
  datatype Member = Member(chain: seq<Block>, pool: Pool, pending: seq<seq<Audit>>, accepted: set<string>)

  datatype Phase = Voting | Committed | Closed

  /** A proposal under way. `seen` is history: the proposer's chain when it created the block. */
  datatype Round = Round(proposer: nat, block: Block, seen: seq<Block>, phase: Phase)

  /** Messages that were sent once and may arrive any number of times, or never. In a vote, `seen` is
      history that no step reads: the voter's chain when it voted. */
  datatype Message =
    | YesVote(round: nat, voter: nat, seen: seq<Block>)
    | CommitRequest(block: Block)
    | BlockReply(block: Block)

  datatype State = State(members: seq<Member>, rounds: seq<Round>, sent: set<Message>)

  /** The snapshot of the mempool and the creation of the block take different locks, so a commit may lie
      between them and the audits of a proposal need not be in the mempool any more: they are any list. */
  datatype Step =
    | Submit(node: nat, audit: Audit)                     // addAudit, from a client or a whisper
    | Propose(node: nat, audits: seq<Audit>)              // create a block of a snapshot taken earlier
    | Vote(node: nat, round: nat)                         // verify a proposal and answer yes
    | Decide(round: nat, voters: set<nat>, write: Write)  // count the votes that arrived, commit locally
    | Broadcast(round: nat)                               // ask the peers to commit
    | Deliver(node: nat, block: Block, write: Write)      // a peer handles a commit request
    | Serve(node: nat, id: int)                           // answer a request for a block
    | Recover(node: nat, block: Block, write: Write)      // verify and commit a served block
    | CleanUp(node: nat, k: nat)                          // remove a committed block's audits
    | Restart(node: nat)                                  // reload the chain; the mempool is gone

  function Init(n: nat): State {
    State(seq(n, _ => Member([], map[], [], {})), [], {})
  }

  /** The voters whose yes to this round is on the network. A proposer waits for one answer of each of
      its peers, so it counts a peer once and itself not among them. */
  predicate VotesArrived(s: State, round: nat, voters: set<nat>)
    requires round < |s.rounds|
  {
    forall v :: v in voters ==> v < |s.members| && v != s.rounds[round].proposer && VotedYes(s, round, v)
  }

  predicate VotedYes(s: State, round: nat, v: nat) {
    exists m :: m in s.sent && m.YesVote? && m.round == round && m.voter == v
  }

  predicate Enabled(sha: Sha, s: State, step: Step) {
    match step
    case Submit(i, _) => i < |s.members|
    case Propose(i, _) => i < |s.members| && |s.members[i].chain| <= INT64_MAX
    case Vote(i, r) =>
      i < |s.members| && r < |s.rounds| && i != s.rounds[r].proposer && Accepts(sha, s.members[i].chain, s.rounds[r].block)
    case Decide(r, voters, w) =>
      && r < |s.rounds| && s.rounds[r].phase.Voting? && s.rounds[r].proposer < |s.members|
      && VotesArrived(s, r, voters) && Approved(|voters|, |s.members| - 1)
      && Accepts(sha, s.members[s.rounds[r].proposer].chain, s.rounds[r].block) && w.Done?
    case Broadcast(r) => r < |s.rounds| && s.rounds[r].phase.Committed?
    case Deliver(i, b, w) =>
      i < |s.members| && CommitRequest(b) in s.sent && Accepts(sha, s.members[i].chain, b) && w.Done?
    case Serve(i, id) => i < |s.members| && Services.Serve(s.members[i].chain, id).Some?
    case Recover(i, b, w) =>
      i < |s.members| && BlockReply(b) in s.sent && Accepts(sha, s.members[i].chain, b) && w.Done?
    case CleanUp(i, k) => i < |s.members| && k < |s.members[i].pending|
    case Restart(i) => i < |s.members|
  }

  function Append(m: Member, b: Block): Member {
    m.(chain := m.chain + [b], pending := m.pending + [b.audits])
  }

  function WithMember(s: State, i: nat, m: Member): State
    requires i < |s.members|
  {
    s.(members := s.members[i := m])
  }

  /** A proposer that restarts forgets the rounds it had under way. */
  function CloseRounds(rounds: seq<Round>, node: nat): seq<Round> {
    seq(|rounds|, r requires 0 <= r < |rounds| =>
      if rounds[r].proposer == node then rounds[r].(phase := Closed) else rounds[r])
  }

  /** One step. A step whose guard fails (a rejected vote, a failed verification, a lost race, a failed
      write) changes nothing, so that every sequence of steps is a run. */
  function Next(sha: Sha, s: State, step: Step): State {
    if !Enabled(sha, s, step) then s
    else
      match step
      case Submit(i, a) =>
        var m := s.members[i];
        if ScanAdmits(sha, m.pool, a) then
          WithMember(s, i, m.(pool := ScanAdd(sha, m.pool, a), accepted := m.accepted + {a.reqId}))
        else s
      case Propose(i, audits) =>
        var chain := s.members[i].chain;
        s.(rounds := s.rounds + [Round(i, Created(sha, chain, audits), chain, Voting)])
      case Vote(i, r) =>
        s.(sent := s.sent + {YesVote(r, i, s.members[i].chain)})
      case Decide(r, _, _) =>
        var p := s.rounds[r].proposer;
        WithMember(s, p, Append(s.members[p], s.rounds[r].block))
          .(rounds := s.rounds[r := s.rounds[r].(phase := Committed)])
      case Broadcast(r) =>
        s.(sent := s.sent + {CommitRequest(s.rounds[r].block)})
      case Deliver(i, b, _) => WithMember(s, i, Append(s.members[i], b))
      case Serve(i, id) => s.(sent := s.sent + {BlockReply(s.members[i].chain[id])})
      case Recover(i, b, _) => WithMember(s, i, Append(s.members[i], b))
      case CleanUp(i, k) =>
        var m := s.members[i];
        WithMember(s, i, m.(pool := Without(m.pool, m.pending[k]), pending := m.pending[..k] + m.pending[k + 1..]))
      case Restart(i) =>
        WithMember(s, i, s.members[i].(pool := map[], pending := [], accepted := {}))
          .(rounds := CloseRounds(s.rounds, i))
  }

  /** The state that a sequence of steps leads to. */
  function Exec(sha: Sha, s: State, steps: seq<Step>): (t: State)
    ensures |t.members| == |s.members|
  {
    if steps == [] then s
    else Next(sha, Exec(sha, s, steps[..|steps| - 1]), steps[|steps| - 1])
  }

  /** The state after a run of n nodes. */
  function Run(sha: Sha, n: nat, steps: seq<Step>): (s: State)
    ensures |s.members| == n
  {
    Exec(sha, Init(n), steps)
  }

  /** Delivering a block and then cleaning up after it has the effect of the CommitBlock handler, whatever
      else is still to be cleaned up. */
  lemma DeliverThenCleanUpIsReceive(sha: Sha, s: State, i: nat, b: Block, w: Write)
    requires i < |s.members| && CommitRequest(b) in s.sent
    ensures var m := s.members[i];
      var m' := Next(sha, Next(sha, s, Deliver(i, b, w)), CleanUp(i, |m.pending|)).members[i];
      Ledger(m'.chain, m'.pool) == Receive(sha, Ledger(m.chain, m.pool), b, w) && m'.pending == m.pending
  {
  }

  /** Chains are append-only. */
  lemma ChainsGrow(sha: Sha, s: State, step: Step)
    ensures var t := Next(sha, s, step);
      && |t.members| == |s.members|
      && (forall i :: 0 <= i < |s.members| ==> s.members[i].chain <= t.members[i].chain)
      && s.sent <= t.sent && |s.rounds| <= |t.rounds|
      && (forall r :: 0 <= r < |s.rounds| ==> t.rounds[r] == s.rounds[r].(phase := t.rounds[r].phase))
  {
  }

  lemma OneMoreStep(sha: Sha, s: State, steps: seq<Step>, a: Step)
    ensures Exec(sha, s, steps + [a]) == Next(sha, Exec(sha, s, steps), a)
  {
    assert (steps + [a])[..|steps + [a]| - 1] == steps;
  }

  lemma {:induction false} ExecConcat(sha: Sha, s: State, steps: seq<Step>, more: seq<Step>)
    ensures Exec(sha, s, steps + more) == Exec(sha, Exec(sha, s, steps), more)
    decreases |more|
  {
    if more == [] {
      assert steps + more == steps;
    } else {
      ExecConcat(sha, s, steps, more[..|more| - 1]);
      assert (steps + more)[..|steps + more| - 1] == steps + more[..|more| - 1];
    }
  }

  lemma {:induction false} ChainsGrowOverRun(sha: Sha, s: State, steps: seq<Step>, i: nat)
    requires i < |s.members|
    ensures s.members[i].chain <= Exec(sha, s, steps).members[i].chain
  {
    if steps != [] {
      ChainsGrowOverRun(sha, s, steps[..|steps| - 1], i);
      var middle := Exec(sha, s, steps[..|steps| - 1]);
      ChainsGrow(sha, middle, steps[|steps| - 1]);
      assert middle.members[i].chain <= Exec(sha, s, steps).members[i].chain;
    }
  }
}
