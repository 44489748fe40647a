/** What an election says about the chains: a winner's history, in runs of the protocol. */
module Leadership {
  import opened Counting
  import opened Digests
  import opened Records
  import opened Elections
  import opened Protocol
  import opened Consensus

  /** A node's chain after the first k steps of a run. */
  function ChainAt(sha: Sha, n: nat, steps: seq<Step>, k: nat, i: nat): seq<Block>
    requires i < n && k <= |steps|
  {
    Run(sha, n, steps[..k]).members[i].chain
  }

  lemma ChainAtGrows(sha: Sha, n: nat, steps: seq<Step>, j: nat, k: nat, i: nat)
    requires i < n && j <= k <= |steps|
    ensures ChainAt(sha, n, steps, j, i) <= ChainAt(sha, n, steps, k, i)
  {
    assert steps[..k] == steps[..j] + steps[j..k];
    ExecConcat(sha, Init(n), steps[..j], steps[j..k]);
    ChainsGrowOverRun(sha, Run(sha, n, steps[..j]), steps[j..k], i);
  }

  /** One yes vote: the voter's own standing, the figure it held for the candidate, and the steps of the
      run before which the figure was reported and the vote was cast. */
  datatype Ballot = Ballot(own: Standing, figure: Standing, reported: nat, cast: nat)

  /** Voter v voted by the rule, on its true height, after step `start`; and it held for candidate c what
      c once reported, or knew nothing of c and held zeros. */
  ghost predicate Grounded(sha: Sha, n: nat, steps: seq<Step>, start: nat, c: nat, v: nat, b: Ballot)
    requires c < n && v < n
  {
    && start <= b.cast <= |steps| && b.reported <= |steps|
    && b.own.latestBlockId == |ChainAt(sha, n, steps, b.cast, v)| - 1
    && (b.figure.latestBlockId == 0 || b.figure.latestBlockId == |ChainAt(sha, n, steps, b.reported, c)| - 1)
    && Below(b.own, b.figure)
  }

  /** A voter that had height h + 1 or more when the vote began votes only for a candidate that ends at
      least as high. */
  lemma VoteNeedsHeight(sha: Sha, n: nat, steps: seq<Step>, start: nat, c: nat, v: nat, b: Ballot, h: nat)
    requires c < n && v < n && start <= |steps| && Grounded(sha, n, steps, start, c, v, b)
    requires h + 1 < |ChainAt(sha, n, steps, start, v)|
    ensures h + 1 < |ChainAt(sha, n, steps, |steps|, c)|
  {
    ChainAtGrows(sha, n, steps, start, b.cast, v);
    ChainAtGrows(sha, n, steps, b.reported, |steps|, c);
  }

  lemma WinnerIsHigh(sha: Sha, n: nat, steps: seq<Step>, start: nat, c: nat,
      replies: seq<Reply>, ballots: seq<Ballot>, reached: set<nat>, h: nat)
    requires c < n && start <= |steps| && |replies| == |ballots| == n - 1
    requires Won(replies) && MajoritySafe(n, Thrown(replies))
    requires forall i :: 0 <= i < n - 1 && replies[i] == Answered(true) ==>
      Grounded(sha, n, steps, start, c, PeerOf(c, i), ballots[i])
    requires reached <= UpTo(n) && 2 * |reached| > n
    requires forall v :: v in reached ==> v < n && h + 1 < |ChainAt(sha, n, steps, start, v)|
    ensures h + 1 < |ChainAt(sha, n, steps, |steps|, c)|
  {
    var v := SupporterAmong(n, c, replies, reached);
    if v == c {
      ChainAtGrows(sha, n, steps, start, |steps|, c);
    } else {
      var i :| 0 <= i < n - 1 && replies[i] == Answered(true) && PeerOf(c, i) == v;
      VoteNeedsHeight(sha, n, steps, start, c, v, ballots[i], h);
    }
  }

  /** Elections in runs. Suppose a strict majority of nodes held a child of height h when an election began,
      and every yes vote was cast by the rule on a figure that the candidate had reported, or on none.
      Then the winner, too, holds a child of height h, and now and at every later time it shares the
      history up to h with every node whose chain reaches above h. */
  lemma ElectedLeaderHoldsHistory(sha: Sha, n: nat, steps: seq<Step>, start: nat, c: nat,
      replies: seq<Reply>, ballots: seq<Ballot>, reached: set<nat>, h: nat, later: seq<Step>, j: nat)
    requires c < n && j < n && start <= |steps| && |replies| == |ballots| == n - 1
    requires Won(replies) && MajoritySafe(n, Thrown(replies))
    requires forall i :: 0 <= i < n - 1 && replies[i] == Answered(true) ==>
      Grounded(sha, n, steps, start, c, PeerOf(c, i), ballots[i])
    requires reached <= UpTo(n) && 2 * |reached| > n
    requires forall v :: v in reached ==> v < n && h + 1 < |ChainAt(sha, n, steps, start, v)|
    ensures var s := Run(sha, n, steps + later);
      && h + 1 < |s.members[c].chain|
      && (h + 1 < |s.members[j].chain| ==>
            s.members[j].chain[h].hash == s.members[c].chain[h].hash &&
            SameHistory(sha, s.members[j].chain[..h + 1], s.members[c].chain[..h + 1]))
  {
    WinnerIsHigh(sha, n, steps, start, c, replies, ballots, reached, h);
    assert steps[..|steps|] == steps;
    ExecConcat(sha, Init(n), steps, later);
    ChainsGrowOverRun(sha, Run(sha, n, steps), later, c);
    if h + 1 < |Run(sha, n, steps + later).members[j].chain| {
      DepthOneForks(sha, n, steps + later, j, c, h);
      SharedHistoryBelowTips(sha, n, steps + later, j, c, h);
    }
  }
}
