/** A node: catching up with a peer, the heartbeat table, voting and standing in elections. */
module Nodes {
  import opened Options
  import opened Counting
  import opened Decimal
  import opened Digests
  import opened Records
  import opened HashChain
  import opened Disk
  import opened Mempools
  import opened Services
  import opened Elections

  // ---------- catching up, as a function ----------

  /** A peer's answers by block id (None: the call or the lookup failed), and the outcome of the write
      of each block. */
  type Replies = int -> Option<Block>
  type Writes = int -> Write

  /** syncMissingBlocks once the peer is known: fetch, verify, commit and clean up, one id at a time. */
  function Sync(sha: Sha, l: Ledger, target: int, replies: Replies, writes: Writes): (Ledger, bool)
    decreases target - |l.chain|
  {
    var id := |l.chain|;
    if id > target then (l, true)
    else
      match replies(id)
      case None => (l, false)
      case Some(b) =>
        if Accepts(sha, l.chain, b) && writes(id).Done? then
          Sync(sha, Receive(sha, l, b, writes(id)), target, replies, writes)
        else (l, false)
  }

  function AuditsOf(blocks: seq<Block>): seq<Audit> {
    if blocks == [] then [] else blocks[0].audits + AuditsOf(blocks[1..])
  }

  function Max(a: int, b: int): int {
    if a >= b then a else b
  }

  lemma WithoutTwice(pool: Pool, xs: seq<Audit>, ys: seq<Audit>)
    ensures Without(Without(pool, xs), ys) == Without(pool, xs + ys)
  {
    assert ReqIds(xs + ys) == ReqIds(xs) + ReqIds(ys);
  }

  lemma {:induction false} SyncExtends(sha: Sha, l: Ledger, target: int, replies: Replies, writes: Writes)
    requires WellFormed(sha, l.chain)
    ensures var (after, ok) := Sync(sha, l, target, replies, writes);
      && l.chain <= after.chain && WellFormed(sha, after.chain)
      && (if ok then |after.chain| - 1 == Max(|l.chain| - 1, target)
          else |l.chain| - 1 <= |after.chain| - 1 < target)
    decreases target - |l.chain|
  {
    var id := |l.chain|;
    if id <= target && replies(id).Some? {
      var b := replies(id).value;
      if Accepts(sha, l.chain, b) && writes(id).Done? {
        AcceptedExtends(sha, l.chain, b);
        SyncExtends(sha, Receive(sha, l, b, writes(id)), target, replies, writes);
      }
    }
  }

  lemma NothingNew(pool: Pool, chain: seq<Block>)
    ensures Without(pool, AuditsOf(chain[|chain|..])) == pool
  {
    assert AuditsOf(chain[|chain|..]) == [];
    assert ReqIds([]) == {};
  }

  lemma OneBlockMore(pool: Pool, chain: seq<Block>, b: Block, after: seq<Block>)
    requires chain + [b] <= after
    ensures Without(Without(pool, b.audits), AuditsOf(after[|chain + [b]|..])) == Without(pool, AuditsOf(after[|chain|..]))
  {
    var rest := after[|chain| + 1..];
    assert after[|chain|..] == [b] + rest;
    WithoutTwice(pool, b.audits, AuditsOf(rest));
  }

  lemma {:induction false} SyncCleansUp(sha: Sha, l: Ledger, target: int, replies: Replies, writes: Writes)
    requires WellFormed(sha, l.chain)
    ensures var (after, ok) := Sync(sha, l, target, replies, writes);
      l.chain <= after.chain && after.pool == Without(l.pool, AuditsOf(after.chain[|l.chain|..]))
    decreases target - |l.chain|
  {
    var id := |l.chain|;
    NothingNew(l.pool, l.chain);
    if id <= target && replies(id).Some? {
      var b := replies(id).value;
      if Accepts(sha, l.chain, b) && writes(id).Done? {
        var next := Receive(sha, l, b, writes(id));
        AcceptedExtends(sha, l.chain, b);
        SyncCleansUp(sha, next, target, replies, writes);
        OneBlockMore(l.pool, l.chain, b, Sync(sha, next, target, replies, writes).0.chain);
      }
    }
  }

  /** Against any answers whatever: success means that the tip is the greater of old tip and target,
      failure that it is at least the old tip and below the target; the result is always a well-formed
      extension of the old chain; and exactly the new blocks' audits have left the mempool. */
  lemma SyncIsSafe(sha: Sha, l: Ledger, target: int, replies: Replies, writes: Writes)
    requires WellFormed(sha, l.chain)
    ensures var (after, ok) := Sync(sha, l, target, replies, writes);
      && l.chain <= after.chain
      && WellFormed(sha, after.chain)
      && (if ok then |after.chain| - 1 == Max(|l.chain| - 1, target)
          else |l.chain| - 1 <= |after.chain| - 1 < target)
      && after.pool == Without(l.pool, AuditsOf(after.chain[|l.chain|..]))
  {
    SyncExtends(sha, l, target, replies, writes);
    SyncCleansUp(sha, l, target, replies, writes);
  }

  /** What a catch-up that stops early has kept. Suppose every id up to the end of some well-formed chain
      is answered with that chain's block and written, and the chain reaches the target or the next id is
      not answered, not acceptable or not written. Then the node ends exactly on that chain, without the
      audits of its blocks, and reports success exactly when it has reached the target. */
  lemma {:induction false} SyncFollowsAnswers(
    sha: Sha, l: Ledger, lead: seq<Block>, target: int, replies: Replies, writes: Writes)
    requires WellFormed(sha, lead) && l.chain <= lead && |lead| <= Max(|l.chain|, target + 1)
    requires forall id :: |l.chain| <= id < |lead| ==> replies(id) == Some(lead[id]) && writes(id).Done?
    requires var id := |lead|;
      id > target || replies(id).None? || !Accepts(sha, lead, replies(id).value) || !writes(id).Done?
    ensures var (after, ok) := Sync(sha, l, target, replies, writes);
      && (ok <==> |lead| > target)
      && after == Ledger(lead, Without(l.pool, AuditsOf(lead[|l.chain|..])))
    decreases |lead| - |l.chain|
  {
    var id := |l.chain|;
    NothingNew(l.pool, l.chain);
    if id == |lead| {
      assert l.chain == lead;
    } else {
      assert l.chain == lead[..id];
      assert AcceptedAt(sha, lead, id);
      var next := Receive(sha, l, lead[id], writes(id));
      assert next.chain == lead[..id + 1];
      SyncFollowsAnswers(sha, next, lead, target, replies, writes);
      OneBlockMore(l.pool, l.chain, lead[id], lead);
    }
  }

  /** Catch-up. Against a peer whose well-formed chain extends ours and reaches the target, with every
      call answered and every write done, the node ends exactly on the peer's chain up to the target,
      if and only if it holds a block already or has nothing to fetch: block 0 is never served. */
  lemma CatchUp(sha: Sha, l: Ledger, peer: seq<Block>, target: int, replies: Replies, writes: Writes)
    requires WellFormed(sha, peer) && l.chain <= peer && target < |peer|
    requires forall id :: replies(id) == Serve(peer, id)
    requires forall id :: |l.chain| <= id <= target ==> writes(id).Done?
    ensures var (after, ok) := Sync(sha, l, target, replies, writes);
      && (ok <==> l.chain != [] || target < 0)
      && (ok ==> after.chain == peer[..Max(|l.chain|, target + 1)])
      && (!ok ==> after == l)
  {
    if l.chain != [] {
      var lead := peer[..Max(|l.chain|, target + 1)];
      PrefixWellFormed(sha, lead, peer);
      SyncFollowsAnswers(sha, l, lead, target, replies, writes);
    } else {
      assert replies(0) == None;
    }
  }

  // ---------- the class ----------

  datatype PeerInfo = PeerInfo(latestBlockId: int, mempoolSize: int)

  /** Every server but the node itself, in the configuration's order. */
  function Others(servers: seq<string>, address: string): seq<string> {
    if servers == [] then []
    else
      var rest, last := Others(servers[..|servers| - 1], address), servers[|servers| - 1];
      if last != address then rest + [last] else rest
  }

  lemma {:induction false} OthersJoined(xs: seq<string>, ys: seq<string>, address: string)
    ensures Others(xs + ys, address) == Others(xs, address) + Others(ys, address)
    decreases |ys|
  {
    if ys == [] {
      assert xs + ys == xs;
    } else {
      OthersJoined(xs, ys[..|ys| - 1], address);
      assert (xs + ys)[..|xs + ys| - 1] == xs + ys[..|ys| - 1];
    }
  }

  lemma {:induction false} OthersOfOthers(servers: seq<string>, address: string)
    requires address !in servers
    ensures Others(servers, address) == servers
  {
    if servers != [] {
      OthersOfOthers(servers[..|servers| - 1], address);
    }
  }

  lemma OthersAround(xs: seq<string>, own: string, ys: seq<string>)
    requires own !in xs && own !in ys
    ensures Others(xs + ([own] + ys), own) == xs + ys
  {
    OthersJoined(xs, [own] + ys, own);
    OthersJoined([own], ys, own);
    OthersOfOthers(xs, own);
    OthersOfOthers(ys, own);
  }

  /** When the configuration lists every server once, the peers of server c are all the others, once each
      and in the configuration's order. */
  lemma PeersInOrder(servers: seq<string>, c: nat)
    requires c < |servers| && forall i, j :: 0 <= i < j < |servers| ==> servers[i] != servers[j]
    ensures |Others(servers, servers[c])| == |servers| - 1
    ensures forall i :: 0 <= i < |servers| - 1 ==> Others(servers, servers[c])[i] == servers[if i < c then i else i + 1]
  {
    var xs, ys := servers[..c], servers[c + 1..];
    assert servers == xs + ([servers[c]] + ys);
    OthersAround(xs, servers[c], ys);
  }

  class Node {
    const address: string
    const servers: seq<string>
    const service: Service
    var currentLeader: string
    var currentTerm: int
    var isInElection: bool
    var peerHeartbeats: map<string, PeerInfo>

    constructor (address: string, servers: seq<string>, service: Service)
      ensures this.address == address && this.servers == servers && this.service == service
      ensures currentLeader == "" && currentTerm == 0 && !isInElection && peerHeartbeats == map[]
    {
      this.address, this.servers, this.service := address, servers, service;
      currentLeader, currentTerm, isInElection, peerHeartbeats := "", 0, false, map[];
    }

    method GetPeerAddresses() returns (peers: seq<string>)
      ensures peers == Others(servers, address)
      ensures address !in peers
      ensures forall s :: s in servers && s != address ==> s in peers
    {
      peers := [];
      for i := 0 to |servers|
        invariant peers == Others(servers[..i], address)
        invariant address !in peers
        invariant forall k :: 0 <= k < i && servers[k] != address ==> servers[k] in peers
      {
        assert servers[..i + 1][..i] == servers[..i];
        if servers[i] != address {
          peers := peers + [servers[i]];
        }
      }
      assert servers[..|servers|] == servers;
    }

    // ---------- heartbeats ----------

    method HandleHeartbeat(from: string, leader: string, latestBlockId: int, mempoolSize: int)
      modifies this
      ensures currentLeader == if leader == "" then old(currentLeader) else leader
      ensures peerHeartbeats == old(peerHeartbeats)[from := PeerInfo(latestBlockId, mempoolSize)]
      ensures currentTerm == old(currentTerm) && isInElection == old(isInElection)
    {
      if leader != "" {
        if currentLeader == "" || currentLeader != leader {
          currentLeader := leader;
        }
      }
      peerHeartbeats := peerHeartbeats[from := PeerInfo(latestBlockId, mempoolSize)];
    }

    /** After a heartbeat has been sent, the receiver's entry is overwritten with the sender's numbers. The
        sender then sees the receiver as high as itself, so that in an election its vote for the receiver
        depends on the two addresses alone. */
    method HeartbeatSent(peer: string)
      requires service.Valid()
      modifies this`peerHeartbeats
      ensures peerHeartbeats ==
        old(peerHeartbeats)[peer := PeerInfo(|service.View().chain| - 1, |service.View().pool|)]
      ensures Below(Own(), Figure(peer)) <==> StringLess(address, peer)
    {
      var id, size := service.Numbers();
      ghost var own := Own();
      peerHeartbeats := peerHeartbeats[peer := PeerInfo(id, size)];
      assert Own() == own;
      LevelVote(own, peer);
      assert Figure(peer) == own.(address := peer);
    }

    // ---------- elections ----------

    ghost function Own(): Standing
      reads service.mempool, service.store
    {
      Standing(|service.View().chain| - 1, |service.View().pool|, address)
    }

    /** The standing that this node believes a candidate to have; zeros when it knows nothing. */
    function Figure(candidate: string): Standing
      reads this
    {
      if candidate in peerHeartbeats then
        Standing(peerHeartbeats[candidate].latestBlockId, peerHeartbeats[candidate].mempoolSize, candidate)
      else Standing(0, 0, candidate)
    }

    /** The term is ignored and no vote is recorded. */
    method VoteInElection(candidate: string, term: int) returns (vote: bool)
      requires service.Valid()
      ensures vote == Below(Own(), Figure(candidate))
      ensures candidate in peerHeartbeats ==>
        var (info, tip, size) := (peerHeartbeats[candidate], |service.View().chain| - 1, |service.View().pool|);
        vote <==>
          || info.latestBlockId > tip
          || (info.latestBlockId == tip && info.mempoolSize > size)
          || (info.latestBlockId == tip && info.mempoolSize == size && StringLess(address, candidate))
      ensures candidate !in peerHeartbeats ==>
        (vote <==>
          || service.View().chain == []
          || (|service.View().chain| == 1 && service.View().pool == map[] && StringLess(address, candidate)))
    {
      var candidateBlockId, candidateSize := 0, 0;
      if candidate in peerHeartbeats {
        candidateBlockId := peerHeartbeats[candidate].latestBlockId;
        candidateSize := peerHeartbeats[candidate].mempoolSize;
      }
      var ourBlockId, ourSize := service.Numbers();
      vote := false;
      if candidateBlockId > ourBlockId {
        vote := true;
      } else if candidateBlockId == ourBlockId {
        if candidateSize > ourSize {
          vote := true;
        } else if candidateSize == ourSize {
          if StringLess(address, candidate) {
            vote := true;
          }
        }
      }
    }

    /** Runs an election with the given replies of the peers, unless one is running already. */
    method TriggerElection(replies: seq<Reply>)
      modifies this
      ensures old(isInElection) ==> currentTerm == old(currentTerm) && currentLeader == old(currentLeader) && isInElection
      ensures !old(isInElection) ==>
        && currentTerm == old(currentTerm) + 1
        && currentLeader == (if Won(replies) then address else old(currentLeader))
        && (Won(replies) <==>
              2 * (|set i | 0 <= i < |replies| && replies[i] == Answered(true)| + 1) >
                |replies| + 1 - |set i | 0 <= i < |replies| && replies[i].Threw?|)
        && !isInElection
      ensures peerHeartbeats == old(peerHeartbeats)
    {
      if isInElection {
        return;
      }
      isInElection := true;
      currentTerm := currentTerm + 1;
      var voteCount, respondedPeers := 1, 0;
      for i := 0 to |replies|
        invariant voteCount == CountTrue(Granted(replies)[..i]) + 1
        invariant respondedPeers == CountTrue(Responded(replies)[..i])
        invariant currentTerm == old(currentTerm) + 1 && currentLeader == old(currentLeader)
        invariant peerHeartbeats == old(peerHeartbeats)
      {
        CountNext(Granted(replies), i);
        CountNext(Responded(replies), i);
        if !replies[i].Threw? {
          if replies[i] == Answered(true) {
            voteCount := voteCount + 1;
          }
          respondedPeers := respondedPeers + 1;
        }
      }
      assert Granted(replies)[..|replies|] == Granted(replies);
      assert Responded(replies)[..|replies|] == Responded(replies);
      WonIsMajority(replies);
      var effectiveTotalVotes := respondedPeers + 1;
      if voteCount >= effectiveTotalVotes / 2 + 1 {
        currentLeader := address;
        isInElection := false;
      } else {
        isInElection := false;
      }
    }

    // ---------- recovery ----------

    /** The recovery loop's choice: a peer with the highest figure above our own tip, if there is one. */
    method SelectRecoveryPeer() returns (highest: int, peer: Option<string>)
      requires service.Valid()
      ensures forall p :: p in peerHeartbeats ==> peerHeartbeats[p].latestBlockId <= highest
      ensures peer.None? <==> forall p :: p in peerHeartbeats ==> peerHeartbeats[p].latestBlockId < |service.View().chain|
      ensures peer.None? ==> highest == |service.View().chain| - 1
      ensures peer.Some? ==>
        peer.value in peerHeartbeats && peerHeartbeats[peer.value].latestBlockId == highest >= |service.View().chain|
    {
      var ours := service.store.GetLatestBlockId();
      highest, peer := ours, None;
      var rest := peerHeartbeats.Keys;
      while rest != {}
        invariant rest <= peerHeartbeats.Keys && highest >= ours
        invariant forall p :: p in peerHeartbeats && p !in rest ==> peerHeartbeats[p].latestBlockId <= highest
        invariant peer.None? ==> highest == ours
        invariant peer.Some? ==>
          peer.value in peerHeartbeats && peerHeartbeats[peer.value].latestBlockId == highest > ours
        decreases rest
      {
        var p :| p in rest;
        if peerHeartbeats[p].latestBlockId > highest {
          highest, peer := peerHeartbeats[p].latestBlockId, Some(p);
        }
        rest := rest - {p};
      }
    }

    /** Fetches the missing blocks from a peer, one by one. An unknown address changes nothing. */
    method SyncMissingBlocks(target: Int64, peerAddress: string, replies: Replies, writes: Writes) returns (success: bool)
      requires service.Valid()
      modifies service.mempool, service.store
      ensures service.Valid()
      ensures peerAddress !in Others(servers, address) ==> !success && service.View() == old(service.View())
      ensures peerAddress in Others(servers, address) ==>
        (service.View(), success) == Sync(service.sha, old(service.View()), target, replies, writes)
    {
      var peerAddresses := GetPeerAddresses();
      var peerIndex := -1;
      for i := 0 to |peerAddresses|
        invariant peerIndex == -1
        invariant forall k :: 0 <= k < i ==> peerAddresses[k] != peerAddress
      {
        if peerAddresses[i] == peerAddress {
          peerIndex := i;
          break;
        }
      }
      if peerIndex == -1 {
        return false;
      }
      success := FetchBlocks(target, replies, writes);
    }

    method FetchBlocks(target: Int64, replies: Replies, writes: Writes) returns (success: bool)
      requires service.Valid()
      modifies service.mempool, service.store
      ensures service.Valid()
      ensures (service.View(), success) == Sync(service.sha, old(service.View()), target, replies, writes)
    {
      var latest := service.store.GetLatestBlockId();
      success := true;
      var blockId := latest + 1;
      ghost var goal := Sync(service.sha, service.View(), target, replies, writes);
      while blockId <= target
        invariant service.Valid() && blockId == |service.View().chain|
        invariant success && Sync(service.sha, service.View(), target, replies, writes) == goal
        decreases target - blockId
      {
        var reply := replies(blockId);
        if reply.None? {
          success := false;
          break;
        }
        var verified := service.store.VerifyBlock(reply.value);
        if !verified {
          success := false;
          break;
        }
        var committed := service.store.CommitBlock(reply.value, writes(blockId));
        if !committed {
          success := false;
          break;
        }
        service.mempool.RemoveAudits(reply.value.audits);
        blockId := blockId + 1;
      }
    }
  }
}
