/** The blockchain service of one node: voting, committing, serving blocks, and a whole proposal round. */
module Services {
  import opened Options
  import opened Counting
  import opened Decimal
  import opened Digests
  import opened Records
  import opened HashChain
  import opened Disk
  import opened Mempools
  import opened BlockManagers

  // ---------- one node and one round as values ----------

  /** What a node holds: its chain and its pending audits. */
  datatype Ledger = Ledger(chain: seq<Block>, pool: Pool)

  /** The CommitBlock handler: commit, then drop the committed audits. */
  function Receive(sha: Sha, l: Ledger, b: Block, w: Write): Ledger {
    if Accepts(sha, l.chain, b) && w.Done? then Ledger(l.chain + [b], Without(l.pool, b.audits)) else l
  }

  /** The GetBlock handler: only ids above 0 are ever served. */
  function Serve(chain: seq<Block>, id: int): Option<Block> {
    if 0 < id < |chain| then Some(chain[id]) else None
  }

  /** One remote call: did the request arrive, and did the answer come back? */
  datatype Link = Link(reached: bool, answered: bool)

  predicate AnswersYes(sha: Sha, l: Ledger, link: Link, b: Block) {
    link.reached && link.answered && Accepts(sha, l.chain, b)
  }

  function Answers(sha: Sha, peers: seq<Ledger>, links: seq<Link>, b: Block): seq<bool>
    requires |links| == |peers|
  {
    seq(|peers|, i requires 0 <= i < |peers| => AnswersYes(sha, peers[i], links[i], b))
  }

  function YesVotes(sha: Sha, peers: seq<Ledger>, links: seq<Link>, b: Block): nat
    requires |links| == |peers|
  {
    CountTrue(Answers(sha, peers, links, b))
  }

  /** The proposer's own vote is added, and the sum must exceed half of all nodes, rounded down. */
  predicate Approved(yesVotes: nat, peers: nat) {
    yesVotes + 1 > (peers + 1) / 2
  }

  /** That is a strict majority. */
  lemma ApprovedIsMajority(yesVotes: nat, peers: nat)
    ensures Approved(yesVotes, peers) <==> 2 * (yesVotes + 1) > peers + 1
  {
  }

  /** The network and disks of one round: links for the vote and for the broadcast, and the outcomes of
      the proposer's and the peers' writes. */
  datatype Weather = Weather(vote: seq<Link>, broadcast: seq<Link>, own: Write, writes: seq<Write>)

  predicate Fits(weather: Weather, peers: nat) {
    |weather.vote| == |weather.broadcast| == |weather.writes| == peers
  }

  /** The proposer commits and empties its mempool of the block's audits; each reached peer receives. */
  predicate RoundCommits(sha: Sha, peers: seq<Ledger>, weather: Weather, b: Block)
    requires Fits(weather, |peers|)
  {
    Approved(YesVotes(sha, peers, weather.vote, b), |peers|) && weather.own.Done?
  }

  function ProposerAfter(sha: Sha, proposer: Ledger, peers: seq<Ledger>, weather: Weather, b: Block): Ledger
    requires Fits(weather, |peers|)
  {
    if RoundCommits(sha, peers, weather, b) then Receive(sha, proposer, b, weather.own) else proposer
  }

  function PeerAfter(sha: Sha, peers: seq<Ledger>, weather: Weather, b: Block, i: nat): Ledger
    requires Fits(weather, |peers|) && i < |peers|
  {
    if RoundCommits(sha, peers, weather, b) && weather.broadcast[i].reached
    then Receive(sha, peers[i], b, weather.writes[i])
    else peers[i]
  }

  /** What the proposer may put into its block: the mempool in timestamp order, on top of its chain. */
  predicate Proposal(sha: Sha, proposer: Ledger, b: Block) {
    && Lists(proposer.pool, b.audits)
    && SortedByTime(b.audits)
    && Accepts(sha, proposer.chain, b)
  }

  lemma SameTipAccepts(sha: Sha, c: seq<Block>, d: seq<Block>, b: Block)
    requires |c| == |d| && TipHash(c) == TipHash(d)
    ensures Accepts(sha, c, b) == Accepts(sha, d, b)
  {
  }

  /** A peer of the round's majority: it shares the proposer's tip, all calls to it succeed and its
      write succeeds. */
  predicate InStep(proposer: Ledger, peers: seq<Ledger>, weather: Weather, i: nat)
    requires Fits(weather, |peers|)
  {
    && i < |peers|
    && |peers[i].chain| == |proposer.chain| && TipHash(peers[i].chain) == TipHash(proposer.chain)
    && weather.vote[i] == Link(true, true) && weather.broadcast[i].reached
    && weather.writes[i].Done?
  }

  /** Full round: when the proposer and the peers in step with it are a strict majority, the block is
      approved, the proposer and all those peers append this same block, the proposer's mempool is
      empty, and none of the block's request ids is left in those peers' mempools. */
  lemma FullRound(sha: Sha, proposer: Ledger, peers: seq<Ledger>, weather: Weather, b: Block, inStep: set<nat>)
    requires Fits(weather, |peers|) && weather.own.Done?
    requires KeyedByReqId(proposer.pool) && Proposal(sha, proposer, b)
    requires forall i :: i in inStep ==> InStep(proposer, peers, weather, i)
    requires 2 * (|inStep| + 1) > |peers| + 1
    ensures ProposerAfter(sha, proposer, peers, weather, b) == Ledger(proposer.chain + [b], map[])
    ensures forall i :: i in inStep ==>
      i < |peers| && var after := PeerAfter(sha, peers, weather, b, i);
      && after.chain == peers[i].chain + [b]
      && (forall id :: id in proposer.pool ==> id !in after.pool)
      && (forall id :: id in peers[i].pool && id !in proposer.pool ==>
            id in after.pool && after.pool[id] == peers[i].pool[id])
  {
    var answers := Answers(sha, peers, weather.vote, b);
    forall i | i in inStep
      ensures i in Yes(answers) && Accepts(sha, peers[i].chain, b)
    {
      assert InStep(proposer, peers, weather, i);
      SameTipAccepts(sha, proposer.chain, peers[i].chain, b);
    }
    SubsetSize(inStep, Yes(answers));
    CountIsCardinality(answers);
    ApprovedIsMajority(YesVotes(sha, peers, weather.vote, b), |peers|);
    ListedReqIds(proposer.pool, b.audits);
  }

  /** The yes votes are those of the peers that the call reached, whose answer came back, and on whose
      chain the block is acceptable. */
  lemma VotesAreReturnedAnswers(sha: Sha, peers: seq<Ledger>, links: seq<Link>, b: Block)
    requires |links| == |peers|
    ensures YesVotes(sha, peers, links, b) ==
      |set i | 0 <= i < |peers| && links[i] == Link(true, true) && Accepts(sha, peers[i].chain, b)|
  {
    CountIsCardinality(Answers(sha, peers, links, b));
    assert Yes(Answers(sha, peers, links, b)) ==
      set i | 0 <= i < |peers| && links[i] == Link(true, true) && Accepts(sha, peers[i].chain, b);
  }

  /** A round commits exactly when the proposer, together with the peers that accept the block and whose
      calls went through both ways, is a strict majority and the proposer's own write is done. */
  lemma RoundCommitsIff(sha: Sha, peers: seq<Ledger>, weather: Weather, b: Block)
    requires Fits(weather, |peers|)
    ensures RoundCommits(sha, peers, weather, b) <==>
      weather.own.Done? &&
      2 * (|set i | 0 <= i < |peers| && weather.vote[i] == Link(true, true) && Accepts(sha, peers[i].chain, b)| + 1) >
        |peers| + 1
  {
    VotesAreReturnedAnswers(sha, peers, weather.vote, b);
  }

  /** The other way round: when the proposer and these peers are no strict majority, no disk makes the
      round change any chain or any mempool. */
  lemma RoundWithoutMajority(sha: Sha, proposer: Ledger, peers: seq<Ledger>, weather: Weather, b: Block)
    requires Fits(weather, |peers|)
    requires
      2 * (|set i | 0 <= i < |peers| && weather.vote[i] == Link(true, true) && Accepts(sha, peers[i].chain, b)| + 1) <=
        |peers| + 1
    ensures ProposerAfter(sha, proposer, peers, weather, b) == proposer
    ensures forall i: nat :: i < |peers| ==> PeerAfter(sha, peers, weather, b, i) == peers[i]
  {
    RoundCommitsIff(sha, peers, weather, b);
  }

  // ---------- the class ----------

  class Service {
    const sha: Sha
    const mempool: Mempool
    const store: BlockManager

    constructor (mempool: Mempool, store: BlockManager)
      requires mempool.sha == store.sha && mempool.Valid() && store.Valid()
      ensures Valid() && this.mempool == mempool && this.store == store
    {
      this.sha, this.mempool, this.store := mempool.sha, mempool, store;
    }

    ghost predicate Valid()
      reads mempool, store
    {
      && mempool.sha == sha && store.sha == sha
      && mempool.Valid() && store.Valid()
    }

    ghost function View(): Ledger
      reads mempool, store
    {
      Ledger(store.chain, mempool.audits)
    }

    /** What the node says about itself: its tip id and the size of its mempool. */
    method Numbers() returns (latestBlockId: int, mempoolSize: nat)
      requires Valid()
      ensures latestBlockId == |View().chain| - 1 && mempoolSize == |View().pool|
    {
      latestBlockId := store.GetLatestBlockId();
      mempoolSize := mempool.Size();
    }

    /** The ProposeBlock handler. It changes nothing: a voter keeps no record of its vote. */
    method ProposeBlock(block: Block) returns (vote: bool)
      requires Valid()
      ensures vote == Accepts(sha, View().chain, block)
    {
      vote := store.VerifyBlock(block);
    }

    method CommitBlock(block: Block, w: Write) returns (committed: bool)
      requires Valid()
      modifies mempool, store
      ensures Valid()
      ensures committed == (Accepts(sha, old(View()).chain, block) && w.Done?)
      ensures View() == Receive(sha, old(View()), block, w)
    {
      committed := store.CommitBlock(block, w);
      if committed {
        mempool.RemoveAudits(block.audits);
      }
    }

    method GetBlock(id: Int64) returns (reply: Option<Block>)
      requires Valid()
      ensures reply == Serve(View().chain, id)
      ensures reply.Some? <==> 0 < id < |View().chain|
      ensures reply.Some? ==> reply.value == View().chain[id]
    {
      var block := store.GetBlock(id);
      if 0 <= id < |store.chain| {
        assert AcceptedAt(sha, store.chain, id);
      }
      reply := if block.id > 0 then Some(block) else None;
    }

    // ---------- a proposal round, run by one node ----------
    // The peers are other processes: a call to one of them has the effect that its handler, above, is
    // proved to have, so here they are values.

    method CollectVotes(block: Block, peers: seq<Ledger>, links: seq<Link>) returns (approved: bool)
      requires |links| == |peers|
      ensures approved == Approved(YesVotes(sha, peers, links, block), |peers|)
      ensures approved <==>
        2 * (|set i | 0 <= i < |peers| && links[i] == Link(true, true) && Accepts(sha, peers[i].chain, block)| + 1) >
          |peers| + 1
    {
      var answers: seq<bool> := [];
      for i := 0 to |peers|
        invariant |answers| == i
        invariant forall k :: 0 <= k < i ==> answers[k] == AnswersYes(sha, peers[k], links[k], block)
      {
        answers := answers + [AnswersYes(sha, peers[i], links[i], block)];
      }
      assert answers == Answers(sha, peers, links, block);
      var yesVotes := Tally(answers);
      yesVotes := yesVotes + 1;
      var totalVotes := |peers| + 1;
      approved := yesVotes > totalVotes / 2;
      VotesAreReturnedAnswers(sha, peers, links, block);
    }

    /** One commit request, and whether its success was reported back. */
    method SendCommit(block: Block, peer: Ledger, link: Link, w: Write) returns (after: Ledger, success: bool)
      ensures after == if link.reached then Receive(sha, peer, block, w) else peer
      ensures success <==> link == Link(true, true) && Accepts(sha, peer.chain, block) && w.Done?
    {
      after := if link.reached then Receive(sha, peer, block, w) else peer;
      success := link.reached && link.answered && Accepts(sha, peer.chain, block) && w.Done?;
    }

    method BroadcastBlock(block: Block, peers: seq<Ledger>, links: seq<Link>, writes: seq<Write>)
        returns (after: seq<Ledger>, successCount: nat)
      requires |links| == |writes| == |peers|
      ensures |after| == |peers|
      ensures forall i :: 0 <= i < |peers| ==>
        after[i] == if links[i].reached then Receive(sha, peers[i], block, writes[i]) else peers[i]
      ensures successCount ==
        |set i | 0 <= i < |peers| && links[i] == Link(true, true) && Accepts(sha, peers[i].chain, block) && writes[i].Done?|
    {
      after := [];
      var successes: seq<bool> := [];
      for i := 0 to |peers|
        invariant |after| == |successes| == i
        invariant forall k :: 0 <= k < i ==>
          after[k] == if links[k].reached then Receive(sha, peers[k], block, writes[k]) else peers[k]
        invariant forall k :: 0 <= k < i ==>
          (successes[k] <==> links[k] == Link(true, true) && Accepts(sha, peers[k].chain, block) && writes[k].Done?)
      {
        var ledger, success := SendCommit(block, peers[i], links[i], writes[i]);
        after, successes := after + [ledger], successes + [success];
      }
      successCount := Tally(successes);
      CountIsCardinality(successes);
      assert Yes(successes) ==
        set i | 0 <= i < |peers| && links[i] == Link(true, true) && Accepts(sha, peers[i].chain, block) && writes[i].Done?;
    }

    /** The approved half of a round: commit locally, clean up, and only then broadcast. */
    method CommitAndBroadcast(block: Block, peers: seq<Ledger>, weather: Weather) returns (after: seq<Ledger>)
      requires Fits(weather, |peers|) && Valid()
      modifies mempool, store
      ensures Valid() && |after| == |peers|
      ensures View() == Receive(sha, old(View()), block, weather.own)
      ensures forall i :: 0 <= i < |peers| ==>
        (after[i] ==
          if Accepts(sha, old(View()).chain, block) && weather.own.Done? && weather.broadcast[i].reached then
            Receive(sha, peers[i], block, weather.writes[i])
          else peers[i])
    {
      after := peers;
      var committed := store.CommitBlock(block, weather.own);
      if committed {
        mempool.RemoveAudits(block.audits);
        var count: nat;
        after, count := BroadcastBlock(block, peers, weather.broadcast, weather.writes);
      }
    }

    /** One undisturbed proposal round. None means that the mempool was empty. */
    method ProposeNewBlock(peers: seq<Ledger>, weather: Weather)
        returns (proposal: Option<Block>, after: seq<Ledger>)
      requires Fits(weather, |peers|)
      requires Valid() && store.latestBlockId < INT64_MAX
      modifies mempool, store
      ensures Valid() && |after| == |peers|
      ensures proposal.None? <==> old(View()).pool == map[]
      ensures proposal.None? ==> View() == old(View()) && after == peers
      ensures proposal.Some? ==>
        && Proposal(sha, old(View()), proposal.value)
        && (forall i, j :: 0 <= i < j < |proposal.value.audits| ==>
              proposal.value.audits[i].timestamp <= proposal.value.audits[j].timestamp)
        && View() == ProposerAfter(sha, old(View()), peers, weather, proposal.value)
        && forall i :: 0 <= i < |peers| ==> after[i] == PeerAfter(sha, peers, weather, proposal.value, i)
    {
      var audits := mempool.GetSortedAudits();
      ListedReqIds(mempool.audits, audits);
      if |audits| == 0 {
        return None, peers;
      }
      var block := store.CreateBlock(audits);
      proposal, after := Some(block), peers;
      var approved := CollectVotes(block, peers, weather.vote);
      if approved {
        after := CommitAndBroadcast(block, peers, weather);
      }
    }
  }
}
