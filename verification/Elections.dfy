/** The vote rule of a leader election, who wins, and what winning says about heights. */
module Elections {
  import opened Counting

  /** std::string's order: byte by byte, a proper prefix first. */
  predicate StringLess(a: string, b: string) {
    b != [] && (a == [] || a[0] < b[0] || (a[0] == b[0] && StringLess(a[1..], b[1..])))
  }

  datatype Standing = Standing(latestBlockId: int, mempoolSize: int, address: string)

  /** The vote rule: a voter with standing x votes for a candidate that it sees at y. */
  predicate Below(x: Standing, y: Standing) {
    || x.latestBlockId < y.latestBlockId
    || (x.latestBlockId == y.latestBlockId &&
        (x.mempoolSize < y.mempoolSize || (x.mempoolSize == y.mempoolSize && StringLess(x.address, y.address))))
  }

  lemma {:induction false} StringOrder(a: string, b: string, c: string)
    ensures !StringLess(a, a)
    ensures StringLess(a, b) && StringLess(b, c) ==> StringLess(a, c)
    ensures a == b || StringLess(a, b) || StringLess(b, a)
  {
    if a != [] && b != [] && c != [] {
      StringOrder(a[1..], b[1..], c[1..]);
      if a[0] == b[0] && a[1..] == b[1..] {
        assert a == [a[0]] + a[1..] && b == [b[0]] + b[1..];
      }
    } else if a != [] {
      StringOrder(a[1..], if b == [] then [] else b[1..], []);
      if b != [] && a[0] == b[0] && a[1..] == b[1..] {
        assert a == [a[0]] + a[1..] && b == [b[0]] + b[1..];
      }
    }
  }

  /** The vote rule is a strict total order on standings with distinct addresses. */
  lemma VoteRuleIsStrictTotalOrder(x: Standing, y: Standing, z: Standing)
    ensures !Below(x, x)
    ensures Below(x, y) && Below(y, z) ==> Below(x, z)
    ensures x.address != y.address ==> (Below(x, y) <==> !Below(y, x))
  {
    StringOrder(x.address, y.address, z.address);
    StringOrder(y.address, x.address, y.address);
  }

  /** The order on addresses is the dictionary order: at the first difference the smaller character
      decides, and a proper prefix comes first. */
  lemma {:induction false} StringLessIsDictionaryOrder(a: string, b: string)
    ensures StringLess(a, b) <==>
      exists k :: 0 <= k <= |a| && k < |b| && a[..k] == b[..k] && (k == |a| || a[k] < b[k])
  {
    if StringLess(a, b) {
      var k := FirstDifference(a, b);
    }
    if k :| 0 <= k <= |a| && k < |b| && a[..k] == b[..k] && (k == |a| || a[k] < b[k]) {
      DifferenceDecides(a, b, k);
    }
  }

  lemma {:induction false} FirstDifference(a: string, b: string) returns (k: nat)
    requires StringLess(a, b)
    ensures k <= |a| && k < |b| && a[..k] == b[..k] && (k == |a| || a[k] < b[k])
  {
    k := 0;
    if a != [] && a[0] == b[0] {
      var rest := FirstDifference(a[1..], b[1..]);
      k := rest + 1;
      assert a[..k] == [a[0]] + a[1..][..rest] && b[..k] == [b[0]] + b[1..][..rest];
    }
  }

  lemma {:induction false} DifferenceDecides(a: string, b: string, k: nat)
    requires k <= |a| && k < |b| && a[..k] == b[..k] && (k == |a| || a[k] < b[k])
    ensures StringLess(a, b)
  {
    if k > 0 {
      assert a[0] == a[..k][0] && b[0] == b[..k][0];
      assert a[1..][..k - 1] == a[..k][1..] && b[1..][..k - 1] == b[..k][1..];
      DifferenceDecides(a[1..], b[1..], k - 1);
    }
  }

  /** How a vote falls: the higher candidate gets it; at one height the one with the larger mempool; and
      with equal mempools the one whose address comes later in the dictionary. */
  lemma VoteFalls(x: Standing, y: Standing)
    ensures x.latestBlockId < y.latestBlockId ==> Below(x, y) && !Below(y, x)
    ensures x.latestBlockId == y.latestBlockId && x.mempoolSize < y.mempoolSize ==> Below(x, y) && !Below(y, x)
    ensures x.latestBlockId == y.latestBlockId && x.mempoolSize == y.mempoolSize ==>
      (Below(x, y) <==> exists k ::
        0 <= k <= |x.address| && k < |y.address| && x.address[..k] == y.address[..k] &&
        (k == |x.address| || x.address[k] < y.address[k]))
  {
    StringLessIsDictionaryOrder(x.address, y.address);
  }

  lemma LevelVote(x: Standing, address: string)
    ensures Below(x, x.(address := address)) <==> StringLess(x.address, address)
  {
  }

  // ---------- counting the votes ----------

  /** A peer's part in an election: it answered, its call failed, or waiting for it threw. */
  datatype Reply = Answered(vote: bool) | Failed | Threw

  function Granted(replies: seq<Reply>): seq<bool> {
    seq(|replies|, i requires 0 <= i < |replies| => replies[i] == Answered(true))
  }

  function Responded(replies: seq<Reply>): seq<bool> {
    seq(|replies|, i requires 0 <= i < |replies| => !replies[i].Threw?)
  }

  /** The candidate's votes, its own included. */
  function Votes(replies: seq<Reply>): nat {
    CountTrue(Granted(replies)) + 1
  }

  predicate Won(replies: seq<Reply>) {
    Votes(replies) >= (CountTrue(Responded(replies)) + 1) / 2 + 1
  }

  /** The peers that dropped out of the count because waiting for them threw. */
  function Thrown(replies: seq<Reply>): nat {
    |replies| - CountTrue(Responded(replies))
  }

  lemma CountsAreSets(replies: seq<Reply>)
    ensures Votes(replies) == |set i | 0 <= i < |replies| && replies[i] == Answered(true)| + 1
    ensures Thrown(replies) == |set i | 0 <= i < |replies| && replies[i].Threw?|
  {
    var thrown: set<nat> := set i | 0 <= i < |replies| && replies[i].Threw?;
    CountIsCardinality(Granted(replies));
    assert Yes(Granted(replies)) == set i | 0 <= i < |replies| && replies[i] == Answered(true);
    CountIsCardinality(Responded(replies));
    assert Yes(Responded(replies)) + thrown == UpTo(|replies|);
    assert Yes(Responded(replies)) !! thrown;
  }

  /** Winning is a strict majority of the nodes whose waits did not throw. A failed call is not a vote, and
      still counts as a response. */
  lemma WonIsMajority(replies: seq<Reply>)
    ensures Won(replies) <==>
      2 * (|set i | 0 <= i < |replies| && replies[i] == Answered(true)| + 1) >
        |replies| + 1 - |set i | 0 <= i < |replies| && replies[i].Threw?|
  {
    CountsAreSets(replies);
  }

  /** Among n nodes, every win with so many thrown waits is a strict majority of all nodes. */
  predicate MajoritySafe(n: nat, thrown: nat) {
    thrown == 0 || (thrown == 1 && n % 2 == 1)
  }

  /** The win with the fewest votes: just enough yes votes first, then failed calls, then thrown waits. */
  function NarrowWin(n: nat, thrown: nat): seq<Reply>
    requires thrown < n
  {
    seq(n - 1, i requires 0 <= i < n - 1 =>
      if i < (n - thrown) / 2 then Answered(true) else if i < n - 1 - thrown then Failed else Threw)
  }

  lemma NarrowWinWins(n: nat, thrown: nat)
    requires thrown < n
    ensures var replies := NarrowWin(n, thrown);
      Won(replies) && Thrown(replies) == thrown && Votes(replies) == (n - thrown) / 2 + 1
  {
    CountOfFirst(Granted(NarrowWin(n, thrown)), (n - thrown) / 2);
    CountOfFirst(Responded(NarrowWin(n, thrown)), n - 1 - thrown);
  }

  lemma SafeWin(n: nat, replies: seq<Reply>)
    requires |replies| == n - 1 && MajoritySafe(n, Thrown(replies)) && Won(replies)
    ensures 2 * Votes(replies) > n
  {
  }

  /** Winning means a strict majority of all n nodes, whatever the other replies are, exactly when no wait
      threw, or a single one did and n is odd. */
  lemma WinsAreMajoritiesIff(n: nat, thrown: nat)
    requires thrown < n
    ensures
      (forall replies: seq<Reply> ::
         |replies| == n - 1 && |set i | 0 <= i < n - 1 && replies[i].Threw?| == thrown && Won(replies) ==>
           2 * (|set i | 0 <= i < n - 1 && replies[i] == Answered(true)| + 1) > n)
      <==> thrown == 0 || (thrown == 1 && n % 2 == 1)
  {
    if MajoritySafe(n, thrown) {
      forall replies: seq<Reply> |
          |replies| == n - 1 && |set i | 0 <= i < n - 1 && replies[i].Threw?| == thrown && Won(replies)
        ensures 2 * (|set i | 0 <= i < n - 1 && replies[i] == Answered(true)| + 1) > n
      {
        CountsAreSets(replies);
        SafeWin(n, replies);
      }
    } else {
      NarrowWinWins(n, thrown);
      CountsAreSets(NarrowWin(n, thrown));
      assert 2 * Votes(NarrowWin(n, thrown)) <= n;
    }
  }

  // ---------- elected height ----------

  /** The number of the i-th peer of node c: everyone but c, in order. */
  function PeerOf(c: nat, i: nat): nat {
    if i < c then i else i + 1
  }

  /** The nodes that voted for c: c itself and the peers whose reply was yes. */
  function Supporters(c: nat, replies: seq<Reply>): set<nat> {
    {c} + set i | i in Yes(Granted(replies)) :: PeerOf(c, i)
  }

  lemma {:induction false} ShiftedSize(c: nat, s: set<nat>)
    ensures |set i | i in s :: PeerOf(c, i)| == |s|
    ensures c !in set i | i in s :: PeerOf(c, i)
  {
    var image := set i | i in s :: PeerOf(c, i);
    if s == {} {
      assert image == {};
    } else {
      var x :| x in s;
      ShiftedSize(c, s - {x});
      var rest := set i | i in s - {x} :: PeerOf(c, i);
      assert image == rest + {PeerOf(c, x)};
      assert PeerOf(c, x) !in rest;
    }
  }

  lemma SupportersCount(n: nat, c: nat, replies: seq<Reply>)
    requires c < n && |replies| == n - 1
    ensures Supporters(c, replies) <= UpTo(n)
    ensures |Supporters(c, replies)| == Votes(replies)
  {
    CountIsCardinality(Granted(replies));
    ShiftedSize(c, Yes(Granted(replies)));
  }

  /** A winner is supported by some member of every strict majority. */
  lemma SupporterAmong(n: nat, c: nat, replies: seq<Reply>, reached: set<nat>) returns (v: nat)
    requires c < n && |replies| == n - 1
    requires Won(replies) && MajoritySafe(n, Thrown(replies))
    requires reached <= UpTo(n) && 2 * |reached| > n
    ensures v in reached
    ensures v == c || exists i :: 0 <= i < n - 1 && replies[i] == Answered(true) && PeerOf(c, i) == v
  {
    SafeWin(n, replies);
    SupportersCount(n, c, replies);
    v := MajoritiesMeet(n, Supporters(c, replies), reached);
    if v != c {
      var i :| i in Yes(Granted(replies)) && PeerOf(c, i) == v;
      assert replies[i] == Answered(true);
    }
  }

  /** Elected height. Heights only grow, and suppose each supporter's figure for the candidate was no
      higher than the candidate's true height. Then the winner is at least as high as every height
      that a strict majority of nodes had reached before the election. */
  lemma ElectedHeight(
    n: nat, c: nat, before: seq<int>, atVote: seq<Standing>, figures: seq<Standing>, height: int,
    replies: seq<Reply>, reached: set<nat>, h: int)
    requires c < n && |before| == |atVote| == |figures| == n && |replies| == n - 1
    requires MajoritySafe(n, Thrown(replies))
    requires forall v :: 0 <= v < n ==> before[v] <= atVote[v].latestBlockId
    requires before[c] <= height
    requires forall i :: 0 <= i < n - 1 && replies[i] == Answered(true) ==>
      Below(atVote[PeerOf(c, i)], figures[PeerOf(c, i)]) && figures[PeerOf(c, i)].latestBlockId <= height
    requires Won(replies)
    requires reached <= UpTo(n) && 2 * |reached| > n && forall v :: v in reached ==> before[v] >= h
    ensures height >= h
  {
    var v := SupporterAmong(n, c, replies, reached);
  }

  // ---------- rank ----------

  ghost predicate DistinctAddresses(nodes: seq<Standing>) {
    forall i, j :: 0 <= i < j < |nodes| ==> nodes[i].address != nodes[j].address
  }

  function BelowSet(nodes: seq<Standing>, c: nat): set<nat>
    requires c < |nodes|
  {
    set v | v in UpTo(|nodes|) && Below(nodes[v], nodes[c])
  }

  /** The candidate's rank from the bottom, counted from 1. */
  function Rank(nodes: seq<Standing>, c: nat): nat
    requires c < |nodes|
  {
    |BelowSet(nodes, c)| + 1
  }

  /** All peers answer, and each sees the candidate's true standing. */
  function AccurateReplies(nodes: seq<Standing>, c: nat): seq<Reply>
    requires c < |nodes|
  {
    seq(|nodes| - 1, i requires 0 <= i < |nodes| - 1 => Answered(Below(nodes[PeerOf(c, i)], nodes[c])))
  }

  lemma SupportersAreBelow(nodes: seq<Standing>, c: nat)
    requires c < |nodes|
    ensures (set i | i in Yes(Granted(AccurateReplies(nodes, c))) :: PeerOf(c, i)) == BelowSet(nodes, c)
  {
    var yes := Yes(Granted(AccurateReplies(nodes, c)));
    VoteRuleIsStrictTotalOrder(nodes[c], nodes[c], nodes[c]);
    forall v | v in BelowSet(nodes, c)
      ensures exists i :: i in yes && PeerOf(c, i) == v
    {
      var i := if v < c then v else v - 1;
      assert i in yes && PeerOf(c, i) == v;
    }
  }

  /** With accurate figures and everyone answering, a candidate gets exactly as many votes as its rank,
      and wins if and only if its rank is at least N/2 + 1. */
  lemma VotesAreRank(nodes: seq<Standing>, c: nat)
    requires c < |nodes|
    ensures Votes(AccurateReplies(nodes, c)) == Rank(nodes, c)
    ensures Won(AccurateReplies(nodes, c)) <==> Rank(nodes, c) >= |nodes| / 2 + 1
  {
    var replies := AccurateReplies(nodes, c);
    CountIsCardinality(Granted(replies));
    ShiftedSize(c, Yes(Granted(replies)));
    SupportersAreBelow(nodes, c);
    CountOfFirst(Responded(replies), |replies|);
  }

  lemma RankIsMonotone(nodes: seq<Standing>, c: nat, d: nat)
    requires c < |nodes| && d < |nodes| && Below(nodes[c], nodes[d])
    ensures Rank(nodes, c) < Rank(nodes, d)
  {
    forall v | v in BelowSet(nodes, c)
      ensures v in BelowSet(nodes, d)
    {
      VoteRuleIsStrictTotalOrder(nodes[v], nodes[c], nodes[d]);
    }
    VoteRuleIsStrictTotalOrder(nodes[c], nodes[c], nodes[c]);
    SubsetSize(BelowSet(nodes, c) + {c}, BelowSet(nodes, d));
  }

  lemma RankInRange(nodes: seq<Standing>, c: nat)
    requires c < |nodes|
    ensures 1 <= Rank(nodes, c) <= |nodes|
  {
    VoteRuleIsStrictTotalOrder(nodes[c], nodes[c], nodes[c]);
    SubsetSize(BelowSet(nodes, c) + {c}, UpTo(|nodes|));
  }

  function RanksOf(nodes: seq<Standing>, s: set<nat>): set<nat>
    requires forall c :: c in s ==> c < |nodes|
  {
    set c | c in s :: Rank(nodes, c)
  }

  lemma {:induction false} RanksAreDistinct(nodes: seq<Standing>, s: set<nat>)
    requires DistinctAddresses(nodes)
    requires forall c :: c in s ==> c < |nodes|
    ensures |RanksOf(nodes, s)| == |s|
  {
    if s == {} {
      assert RanksOf(nodes, s) == {};
    } else {
      var x :| x in s;
      RanksAreDistinct(nodes, s - {x});
      forall c | c in s - {x}
        ensures Rank(nodes, c) != Rank(nodes, x)
      {
        VoteRuleIsStrictTotalOrder(nodes[c], nodes[x], nodes[c]);
        if Below(nodes[c], nodes[x]) {
          RankIsMonotone(nodes, c, x);
        } else {
          RankIsMonotone(nodes, x, c);
        }
      }
      assert RanksOf(nodes, s) == RanksOf(nodes, s - {x}) + {Rank(nodes, x)};
    }
  }

  lemma RanksInRange(nodes: seq<Standing>)
    ensures RanksOf(nodes, UpTo(|nodes|)) <= FromTo(1, |nodes| + 1)
  {
    forall k | k in RanksOf(nodes, UpTo(|nodes|))
      ensures 1 <= k < |nodes| + 1
    {
      var c :| c in UpTo(|nodes|) && Rank(nodes, c) == k;
      RankInRange(nodes, c);
    }
  }

  lemma FullSubset<T>(a: set<T>, b: set<T>)
    requires a <= b && |a| == |b|
    ensures a == b
  {
    if x :| x in b && x !in a {
      SubsetSize(a + {x}, b);
    }
  }

  lemma RanksAreOneToN(nodes: seq<Standing>, r: nat)
    requires DistinctAddresses(nodes) && 1 <= r <= |nodes|
    ensures exists c :: c in UpTo(|nodes|) && Rank(nodes, c) == r
  {
    RanksAreDistinct(nodes, UpTo(|nodes|));
    RanksInRange(nodes);
    FullSubset(RanksOf(nodes, UpTo(|nodes|)), FromTo(1, |nodes| + 1));
    assert r in RanksOf(nodes, UpTo(|nodes|));
  }

  function Winners(nodes: seq<Standing>): set<nat> {
    set c | c in UpTo(|nodes|) && Won(AccurateReplies(nodes, c))
  }

  lemma WinnersByRank(nodes: seq<Standing>, c: nat)
    ensures c in Winners(nodes) <==> c < |nodes| && Rank(nodes, c) >= |nodes| / 2 + 1
  {
    if c < |nodes| {
      VotesAreRank(nodes, c);
    }
  }

  lemma WinningRanks(nodes: seq<Standing>)
    requires DistinctAddresses(nodes) && nodes != []
    ensures RanksOf(nodes, Winners(nodes)) == FromTo(|nodes| / 2 + 1, |nodes| + 1)
  {
    var n := |nodes|;
    forall r | r in RanksOf(nodes, Winners(nodes))
      ensures n / 2 + 1 <= r < n + 1
    {
      var c :| c in Winners(nodes) && Rank(nodes, c) == r;
      WinnersByRank(nodes, c);
      RankInRange(nodes, c);
    }
    forall r: nat | n / 2 + 1 <= r < n + 1
      ensures r in RanksOf(nodes, Winners(nodes))
    {
      RanksAreOneToN(nodes, r);
      var c :| c in UpTo(n) && Rank(nodes, c) == r;
      WinnersByRank(nodes, c);
    }
  }

  /** Exactly the upper half of the ranks win when everyone runs, so a single winner is certain only
      among one or two nodes. */
  lemma UpperHalfWins(nodes: seq<Standing>)
    requires DistinctAddresses(nodes) && nodes != []
    ensures |Winners(nodes)| == |nodes| - |nodes| / 2
    ensures |Winners(nodes)| == 1 <==> |nodes| <= 2
  {
    RanksAreDistinct(nodes, Winners(nodes));
    WinningRanks(nodes);
  }

  /** The greatest node always wins. */
  lemma GreatestWins(nodes: seq<Standing>, c: nat)
    requires c < |nodes| && forall v :: v in UpTo(|nodes|) && v != c ==> Below(nodes[v], nodes[c])
    ensures Won(AccurateReplies(nodes, c)) && Votes(AccurateReplies(nodes, c)) == |nodes|
  {
    VoteRuleIsStrictTotalOrder(nodes[c], nodes[c], nodes[c]);
    assert BelowSet(nodes, c) == UpTo(|nodes|) - {c};
    assert UpTo(|nodes|) == (UpTo(|nodes|) - {c}) + {c};
    VotesAreRank(nodes, c);
  }

  // ---------- overwritten figures ----------

  /** All peers answer, and each has overwritten its figures for the candidate with its own. */
  function OverwrittenReplies(nodes: seq<Standing>, c: nat): seq<Reply>
    requires c < |nodes|
  {
    seq(|nodes| - 1, i requires 0 <= i < |nodes| - 1 =>
      Answered(Below(nodes[PeerOf(c, i)], nodes[PeerOf(c, i)].(address := nodes[c].address))))
  }

  /** The same nodes, all at one height. */
  function Level(nodes: seq<Standing>): seq<Standing> {
    seq(|nodes|, i requires 0 <= i < |nodes| => Standing(0, 0, nodes[i].address))
  }

  /** Then the heights play no part: the votes are those of an accurate election among equally high nodes,
      and the rank of the addresses decides. So the premise of ElectedHeight on the figures is needed. */
  lemma OverwrittenFiguresIgnoreHeights(nodes: seq<Standing>, c: nat)
    requires c < |nodes|
    ensures Votes(OverwrittenReplies(nodes, c)) == Rank(Level(nodes), c)
    ensures Won(OverwrittenReplies(nodes, c)) <==> Rank(Level(nodes), c) >= |nodes| / 2 + 1
  {
    assert OverwrittenReplies(nodes, c) == AccurateReplies(Level(nodes), c);
    VotesAreRank(Level(nodes), c);
  }
}
