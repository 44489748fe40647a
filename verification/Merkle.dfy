/** The level-by-level Merkle fold, the perfect tree it computes, and what a root commits to. */
module Merkle {
  import opened Digests
  import opened Text

  // ---------- the fold, as the code does it ----------

  /** The node that is hashed together with node i: its right neighbour, or itself at the end. */
  function Mate(n: nat, i: nat): nat {
    if i + 1 < n then i + 1 else i
  }

  function PairString(hs: seq<string>, j: nat): string
    requires 2 * j < |hs|
  {
    hs[2 * j] + hs[Mate(|hs|, 2 * j)]
  }

  function PairUp(sha: Sha, hs: seq<string>): seq<string> {
    seq((|hs| + 1) / 2, j requires 0 <= j < (|hs| + 1) / 2 => sha(PairString(hs, j)))
  }

  function Fold(sha: Sha, hs: seq<string>): string
    decreases |hs|
  {
    if hs == [] then sha("")
    else if |hs| == 1 then hs[0]
    else Fold(sha, PairUp(sha, hs))
  }

  /** crypto::computeMerkleRoot: fill the next level in steps of two, then recurse on it. */
  method ComputeMerkleRoot(sha: Sha, hashes: seq<string>) returns (root: string)
    ensures root == Fold(sha, hashes)
    decreases |hashes|
  {
    if |hashes| == 0 {
      return sha("");
    }
    if |hashes| == 1 {
      return hashes[0];
    }
    var nextLevel: seq<string> := [];
    var i := 0;
    while i < |hashes|
      invariant i == 2 * |nextLevel| <= |hashes| + 1
      invariant forall j :: 0 <= j < |nextLevel| ==> nextLevel[j] == PairUp(sha, hashes)[j]
    {
      assert PairUp(sha, hashes)[|nextLevel|] == sha(PairString(hashes, |nextLevel|));
      if i + 1 < |hashes| {
        nextLevel := nextLevel + [sha(hashes[i] + hashes[i + 1])];
      } else {
        nextLevel := nextLevel + [sha(hashes[i] + hashes[i])];
      }
      i := i + 2;
    }
    assert nextLevel == PairUp(sha, hashes);
    root := ComputeMerkleRoot(sha, nextLevel);
  }

  /** Every string that the fold hashes. */
  function FoldInputs(sha: Sha, hs: seq<string>): set<string>
    decreases |hs|
  {
    if hs == [] then {""}
    else if |hs| == 1 then {}
    else (set j | 0 <= j < (|hs| + 1) / 2 :: PairString(hs, j)) + FoldInputs(sha, PairUp(sha, hs))
  }

  // ---------- the padding that the duplication amounts to ----------

  function Pow2(d: nat): (p: nat)
    ensures p >= 1
  {
    if d == 0 then 1 else 2 * Pow2(d - 1)
  }

  /** The number of levels above n leaves. */
  function Depth(n: nat): nat {
    if n <= 1 then 0 else 1 + Depth((n + 1) / 2)
  }

  /** Which of n leaves stands at position k of the padded row: below parent p there are
      2p and 2p + 1, and a missing right child repeats the left one. */
  function Source(n: nat, k: nat): (i: nat)
    requires n >= 1
    ensures i < n
    decreases n
  {
    if n == 1 then 0
    else
      var p := Source((n + 1) / 2, k / 2);
      if 2 * p + k % 2 < n then 2 * p + k % 2 else 2 * p
  }

  function Padded<T>(s: seq<T>): seq<T> {
    if s == [] then []
    else seq(Pow2(Depth(|s|)), k requires 0 <= k < Pow2(Depth(|s|)) => s[Source(|s|, k)])
  }

  /** The depth is the base-2 logarithm, rounded up. */
  lemma {:induction false} DepthIsCeilLog2(n: nat)
    requires n >= 1
    ensures n <= Pow2(Depth(n))
    ensures n >= 2 ==> Pow2(Depth(n) - 1) < n
  {
    if n >= 2 {
      DepthIsCeilLog2((n + 1) / 2);
    }
  }

  /** The padding only appends: the list itself comes first. */
  lemma {:induction false} SourceOfOwnIndex(n: nat, k: nat)
    requires k < n
    ensures Source(n, k) == k
  {
    if n >= 2 {
      SourceOfOwnIndex((n + 1) / 2, k / 2);
    }
  }

  lemma PaddedExtends<T>(s: seq<T>)
    ensures s <= Padded(s)
    ensures forall x :: x in Padded(s) <==> x in s
  {
    if s != [] {
      DepthIsCeilLog2(|s|);
      forall k | 0 <= k < |s|
        ensures Padded(s)[k] == s[k]
      {
        SourceOfOwnIndex(|s|, k);
      }
      assert s == Padded(s)[..|s|];
    }
  }

  // ---------- the perfect tree ----------

  datatype Tree = Leaf(text: string) | Node(left: Tree, right: Tree)

  function Hash(sha: Sha, t: Tree): Digest {
    match t
    case Leaf(text) => sha(text)
    case Node(l, r) => sha(Hash(sha, l) + Hash(sha, r))
  }

  /** Every string hashed for the tree. */
  function TreeInputs(sha: Sha, t: Tree): set<string> {
    match t
    case Leaf(text) => {text}
    case Node(l, r) => {Hash(sha, l) + Hash(sha, r)} + TreeInputs(sha, l) + TreeInputs(sha, r)
  }

  /** The perfect tree over a row of 2^d subtrees: split the row in the middle, at every level. */
  function PerfectTree(d: nat, row: seq<Tree>): Tree
    requires |row| == Pow2(d)
  {
    if d == 0 then row[0]
    else Node(PerfectTree(d - 1, row[..Pow2(d - 1)]), PerfectTree(d - 1, row[Pow2(d - 1)..]))
  }

  function LeafRow(leaves: seq<string>): seq<Tree> {
    seq(|leaves|, i requires 0 <= i < |leaves| => Leaf(leaves[i]))
  }

  /** One level of the fold, on trees instead of digests. */
  function PairTrees(row: seq<Tree>): seq<Tree> {
    seq((|row| + 1) / 2, j requires 0 <= j < (|row| + 1) / 2 => Node(row[2 * j], row[Mate(|row|, 2 * j)]))
  }

  function FoldTree(row: seq<Tree>): Tree
    requires row != []
    decreases |row|
  {
    if |row| == 1 then row[0] else FoldTree(PairTrees(row))
  }

  function Hashes(sha: Sha, row: seq<Tree>): seq<string> {
    seq(|row|, i requires 0 <= i < |row| => Hash(sha, row[i]))
  }

  lemma PairTreesSplits(l: seq<Tree>, r: seq<Tree>)
    requires |l| % 2 == 0
    ensures PairTrees(l + r) == PairTrees(l) + PairTrees(r)
  {
    var h := l + r;
    assert (|h| + 1) / 2 == |l| / 2 + (|r| + 1) / 2;
    forall j | 0 <= j < |l| / 2
      ensures PairTrees(h)[j] == PairTrees(l)[j]
    {
    }
    forall j | 0 <= j < (|r| + 1) / 2
      ensures PairTrees(h)[|l| / 2 + j] == PairTrees(r)[j]
    {
      assert 2 * (|l| / 2 + j) == |l| + 2 * j;
    }
  }

  /** On a perfect row, pairing up the bottom first or splitting at the top first is the same. */
  lemma {:induction false} BottomUpIsTopDown(d: nat, row: seq<Tree>)
    requires d >= 1 && |row| == Pow2(d)
    ensures |PairTrees(row)| == Pow2(d - 1)
    ensures PerfectTree(d, row) == PerfectTree(d - 1, PairTrees(row))
  {
    if d == 1 {
      var l, r := row[..1], row[1..];
      assert Pow2(0) == 1;
      assert PerfectTree(0, l) == row[0] && PerfectTree(0, r) == row[1];
    } else {
      var m := Pow2(d - 1);
      var l, r := row[..m], row[m..];
      assert m == 2 * Pow2(d - 2);
      assert row == l + r;
      PairTreesSplits(l, r);
      BottomUpIsTopDown(d - 1, l);
      BottomUpIsTopDown(d - 1, r);
      var up := PairTrees(row);
      assert up[..Pow2(d - 2)] == PairTrees(l) && up[Pow2(d - 2)..] == PairTrees(r);
    }
  }

  lemma PaddedHalves(n: nat, j: nat)
    requires n >= 2 && j < Pow2(Depth((n + 1) / 2))
    ensures Source(n, 2 * j) == 2 * Source((n + 1) / 2, j)
    ensures Source(n, 2 * j + 1) == Mate(n, 2 * Source((n + 1) / 2, j))
  {
    assert (2 * j) / 2 == j && (2 * j) % 2 == 0;
    assert (2 * j + 1) / 2 == j && (2 * j + 1) % 2 == 1;
  }

  /** Padding and then pairing up equals pairing up with the odd-node rule and then padding. */
  lemma PairTreesOfPadded(row: seq<Tree>)
    requires |row| >= 2
    ensures PairTrees(Padded(row)) == Padded(PairTrees(row))
  {
    var n, m := |row|, (|row| + 1) / 2;
    var up, wide := PairTrees(row), Padded(row);
    assert |wide| == 2 * Pow2(Depth(m));
    forall j | 0 <= j < Pow2(Depth(m))
      ensures PairTrees(wide)[j] == Padded(up)[j]
    {
      PaddedHalves(n, j);
      assert wide[2 * j] == row[Source(n, 2 * j)] && wide[2 * j + 1] == row[Source(n, 2 * j + 1)];
    }
  }

  /** Folding with the odd-node rule builds the perfect tree over the padded row. */
  lemma {:induction false} FoldTreeIsPerfect(row: seq<Tree>)
    requires row != []
    ensures FoldTree(row) == PerfectTree(Depth(|row|), Padded(row))
    decreases |row|
  {
    if |row| > 1 {
      FoldTreeIsPerfect(PairTrees(row));
      PairTreesOfPadded(row);
      BottomUpIsTopDown(Depth(|row|), Padded(row));
    }
  }

  lemma HashesOfPairs(sha: Sha, row: seq<Tree>)
    ensures Hashes(sha, PairTrees(row)) == PairUp(sha, Hashes(sha, row))
  {
    var hs, up := Hashes(sha, row), PairTrees(row);
    forall j | 0 <= j < |up|
      ensures Hash(sha, up[j]) == sha(PairString(hs, j))
    {
    }
  }

  /** The fold on digests computes the hash of the folded tree and hashes all its strings. */
  lemma {:induction false} FoldHashesTree(sha: Sha, row: seq<Tree>, inputs: set<string>)
    requires row != []
    requires forall i :: 0 <= i < |row| ==> TreeInputs(sha, row[i]) <= inputs
    requires FoldInputs(sha, Hashes(sha, row)) <= inputs
    ensures Fold(sha, Hashes(sha, row)) == Hash(sha, FoldTree(row))
    ensures TreeInputs(sha, FoldTree(row)) <= inputs
    decreases |row|
  {
    if |row| > 1 {
      var hs, up := Hashes(sha, row), PairTrees(row);
      HashesOfPairs(sha, row);
      forall j | 0 <= j < |up|
        ensures TreeInputs(sha, up[j]) <= inputs
      {
        assert PairString(hs, j) in FoldInputs(sha, hs);
        assert PairString(hs, j) == Hash(sha, up[j].left) + Hash(sha, up[j].right);
      }
      FoldHashesTree(sha, up, inputs);
    }
  }

  // ---------- what a root commits to ----------

  function LeafDigests(sha: Sha, leaves: seq<string>): seq<string> {
    seq(|leaves|, i requires 0 <= i < |leaves| => sha(leaves[i]))
  }

  /** BlockManager::computeMerkleRoot on the leaf strings. */
  function Root(sha: Sha, leaves: seq<string>): string {
    Fold(sha, LeafDigests(sha, leaves))
  }

  /** Every string hashed on the way to the root. */
  function RootInputs(sha: Sha, leaves: seq<string>): set<string> {
    (set s | s in leaves) + FoldInputs(sha, LeafDigests(sha, leaves))
  }

  function PaddedTree(leaves: seq<string>): Tree
    requires leaves != []
  {
    PerfectTree(Depth(|leaves|), LeafRow(Padded(leaves)))
  }

  /** The code's recursive fold with last-node duplication is the root of the perfect tree of
      2^ceil(log2 n) leaves over the padded row, and it hashes every string of that tree. */
  lemma FoldIsPerfectRoot(sha: Sha, leaves: seq<string>)
    requires leaves != []
    ensures Root(sha, leaves) == Hash(sha, PaddedTree(leaves))
    ensures TreeInputs(sha, PaddedTree(leaves)) <= RootInputs(sha, leaves)
  {
    var row := LeafRow(leaves);
    assert Hashes(sha, row) == LeafDigests(sha, leaves);
    assert Padded(row) == LeafRow(Padded(leaves));
    FoldTreeIsPerfect(row);
    FoldHashesTree(sha, row, RootInputs(sha, leaves));
  }

  lemma {:induction false} DepthOfPow2(d: nat)
    ensures Depth(Pow2(d)) == d
  {
    if d > 0 {
      DepthOfPow2(d - 1);
    }
  }

  lemma RootOfFullRow(sha: Sha, d: nat, row: seq<string>)
    requires |row| == Pow2(d)
    ensures Root(sha, row) == Hash(sha, PerfectTree(d, LeafRow(row)))
  {
    DepthOfPow2(d);
    PaddedExtends(row);
    assert Padded(row) == row;
    FoldIsPerfectRoot(sha, row);
  }

  /** The root of a full row of leaves is the digest of the roots of its halves, left before right. */
  lemma RootOfHalves(sha: Sha, d: nat, left: seq<string>, right: seq<string>)
    requires |left| == |right| == Pow2(d)
    ensures Root(sha, left + right) == sha(Root(sha, left) + Root(sha, right))
  {
    RootOfFullRow(sha, d, left);
    RootOfFullRow(sha, d, right);
    RootOfFullRow(sha, d + 1, left + right);
    var row := LeafRow(left + right);
    assert row[..Pow2(d)] == LeafRow(left) && row[Pow2(d)..] == LeafRow(right);
  }

  /** The root of any other list is that of its padded row: none at all, one leaf, and a full row. */
  lemma RootOfPadded(sha: Sha, leaves: seq<string>)
    ensures leaves == [] ==> Root(sha, leaves) == sha("")
    ensures |leaves| == 1 ==> Root(sha, leaves) == sha(leaves[0])
    ensures Root(sha, leaves) == Root(sha, Padded(leaves))
  {
    if leaves != [] {
      FoldIsPerfectRoot(sha, leaves);
      RootOfFullRow(sha, Depth(|leaves|), Padded(leaves));
    }
  }

  function Leaves(t: Tree): seq<string> {
    match t
    case Leaf(text) => [text]
    case Node(l, r) => Leaves(l) + Leaves(r)
  }

  lemma {:induction false} LeavesOfPerfect(d: nat, leaves: seq<string>)
    requires |leaves| == Pow2(d)
    ensures Leaves(PerfectTree(d, LeafRow(leaves))) == leaves
  {
    if d > 0 {
      var m := Pow2(d - 1);
      assert LeafRow(leaves)[..m] == LeafRow(leaves[..m]) && LeafRow(leaves)[m..] == LeafRow(leaves[m..]);
      LeavesOfPerfect(d - 1, leaves[..m]);
      LeavesOfPerfect(d - 1, leaves[m..]);
      assert leaves == leaves[..m] + leaves[m..];
    } else {
      assert leaves == [leaves[0]];
    }
  }

  ghost predicate IsLeafRow(leaves: seq<string>) {
    forall i :: 0 <= i < |leaves| ==> !ColonFree(leaves[i])
  }

  /** Trees of any shape over leaf strings: equal hashes mean equal trees, or a collision between
      strings hashed in the two trees. A leaf has ':' and an inner string has none, so no leaf can
      stand for an inner node; digests have a fixed width, so no pair can be cut elsewhere. */
  lemma {:induction false} TreeBinding(sha: Sha, t: Tree, u: Tree)
    requires IsLeafRow(Leaves(t)) && IsLeafRow(Leaves(u))
    requires Hash(sha, t) == Hash(sha, u)
    ensures t == u || CollisionBetween(sha, TreeInputs(sha, t), TreeInputs(sha, u))
  {
    match (t, u)
    case (Leaf(x), Leaf(y)) =>
      SameDigest(sha, x, y, {x}, {y});
    case (Leaf(x), Node(l, r)) =>
      assert !ColonFree(Leaves(t)[0]);
      SameDigest(sha, x, Hash(sha, l) + Hash(sha, r), TreeInputs(sha, t), TreeInputs(sha, u));
    case (Node(l, r), Leaf(y)) =>
      assert !ColonFree(Leaves(u)[0]);
      SameDigest(sha, Hash(sha, l) + Hash(sha, r), y, TreeInputs(sha, t), TreeInputs(sha, u));
    case (Node(l, r), Node(m, s)) =>
      SameDigest(sha, Hash(sha, l) + Hash(sha, r), Hash(sha, m) + Hash(sha, s), TreeInputs(sha, t), TreeInputs(sha, u));
      if Hash(sha, l) + Hash(sha, r) == Hash(sha, m) + Hash(sha, s) {
        PairSplits(Hash(sha, l), Hash(sha, r), Hash(sha, m), Hash(sha, s));
        LeafRowParts(Leaves(l), Leaves(r));
        LeafRowParts(Leaves(m), Leaves(s));
        TreeBinding(sha, l, m);
        TreeBinding(sha, r, s);
        if CollisionBetween(sha, TreeInputs(sha, l), TreeInputs(sha, m)) {
          CollisionGrows(sha, TreeInputs(sha, l), TreeInputs(sha, m), TreeInputs(sha, t), TreeInputs(sha, u));
        } else if CollisionBetween(sha, TreeInputs(sha, r), TreeInputs(sha, s)) {
          CollisionGrows(sha, TreeInputs(sha, r), TreeInputs(sha, s), TreeInputs(sha, t), TreeInputs(sha, u));
        }
      }
  }

  lemma LeafRowParts(a: seq<string>, b: seq<string>)
    requires IsLeafRow(a + b)
    ensures IsLeafRow(a) && IsLeafRow(b)
  {
    assert forall i :: 0 <= i < |a| ==> a[i] == (a + b)[i];
    assert forall i :: 0 <= i < |b| ==> b[i] == (a + b)[|a| + i];
  }

  lemma PaddedLeafRow(leaves: seq<string>)
    requires leaves != [] && IsLeafRow(leaves)
    ensures Leaves(PaddedTree(leaves)) == Padded(leaves) && IsLeafRow(Padded(leaves))
  {
    LeavesOfPerfect(Depth(|leaves|), Padded(leaves));
  }

  /** The empty list's root is sha(""), and every other root is the digest of a non-empty string. */
  lemma EmptyRoot(sha: Sha, leaves: seq<string>)
    requires leaves != [] && IsLeafRow(leaves)
    requires Root(sha, leaves) == sha("")
    ensures CollisionBetween(sha, {""}, RootInputs(sha, leaves))
    ensures CollisionBetween(sha, RootInputs(sha, leaves), {""})
  {
    FoldIsPerfectRoot(sha, leaves);
    PaddedLeafRow(leaves);
    var x := match PaddedTree(leaves) case Leaf(text) => text case Node(l, r) => Hash(sha, l) + Hash(sha, r);
    assert x in RootInputs(sha, leaves) && sha(x) == sha("");
    assert x != "" by {
      if PaddedTree(leaves).Leaf? {
        assert Leaves(PaddedTree(leaves))[0] == x;
      }
    }
  }

  /** The root commits to the padded row of leaves and to nothing more: equal padded rows give equal
      roots, and equal roots give equal padded rows or a collision between hashed strings. */
  lemma MerkleBinding(sha: Sha, a: seq<string>, b: seq<string>)
    requires IsLeafRow(a) && IsLeafRow(b)
    ensures Padded(a) == Padded(b) ==> Root(sha, a) == Root(sha, b)
    ensures Root(sha, a) == Root(sha, b) ==>
      Padded(a) == Padded(b) || CollisionBetween(sha, RootInputs(sha, a), RootInputs(sha, b))
  {
    if a == [] || b == [] {
      PaddedExtends(a);
      PaddedExtends(b);
      if Root(sha, a) == Root(sha, b) && a != b {
        EmptyRoot(sha, if a == [] then b else a);
      }
    } else {
      FoldIsPerfectRoot(sha, a);
      FoldIsPerfectRoot(sha, b);
      PaddedLeafRow(a);
      PaddedLeafRow(b);
      var t, u := PaddedTree(a), PaddedTree(b);
      if Padded(a) == Padded(b) {
        Pow2Injective(Depth(|a|), Depth(|b|));
      }
      if Root(sha, a) == Root(sha, b) {
        TreeBinding(sha, t, u);
        if t != u {
          CollisionGrows(sha, TreeInputs(sha, t), TreeInputs(sha, u), RootInputs(sha, a), RootInputs(sha, b));
        }
      }
    }
  }

  lemma {:induction false} Pow2Injective(d: nat, e: nat)
    requires Pow2(d) == Pow2(e)
    ensures d == e
  {
    if d > 0 && e > 0 {
      Pow2Injective(d - 1, e - 1);
    }
  }

  ghost predicate Distinct<T(!new)>(s: seq<T>) {
    forall i, j :: 0 <= i < j < |s| ==> s[i] != s[j]
  }

  /** What an equal padded row says about the lists: always the same set of leaves; the same list when
      the lengths agree or when neither list repeats a leaf. */
  lemma EqualPaddedRows<T(!new)>(a: seq<T>, b: seq<T>)
    requires Padded(a) == Padded(b)
    ensures forall x :: x in a <==> x in b
    ensures |a| == |b| || (Distinct(a) && Distinct(b)) ==> a == b
  {
    PaddedExtends(a);
    PaddedExtends(b);
    if |a| < |b| && Distinct(b) {
      LongerRepeats(a, b);
    } else if |b| < |a| && Distinct(a) {
      LongerRepeats(b, a);
    } else if |a| == |b| {
      assert a == Padded(a)[..|a|] == Padded(b)[..|b|] == b;
    }
  }

  lemma LongerRepeats<T(!new)>(a: seq<T>, b: seq<T>)
    requires Padded(a) == Padded(b) && |a| < |b|
    ensures !Distinct(b)
  {
    PaddedExtends(a);
    PaddedExtends(b);
    var i, j := Source(|a|, |a|), |a|;
    assert b[j] == Padded(b)[j] == Padded(a)[j] == a[i] == Padded(a)[i] == b[i];
  }

  /** Repeating the last of an odd number of leaves leaves the root as it was, so the root alone does
      not decide the list. */
  lemma RepeatedLastLeafIsInvisible(sha: Sha, a: seq<string>)
    requires |a| >= 3 && |a| % 2 == 1
    ensures Root(sha, a + [a[|a| - 1]]) == Root(sha, a)
  {
    var hs, b := LeafDigests(sha, a), a + [a[|a| - 1]];
    var gs := LeafDigests(sha, b);
    forall j | 0 <= j < (|a| + 1) / 2
      ensures PairString(gs, j) == PairString(hs, j)
    {
    }
    assert PairUp(sha, gs) == PairUp(sha, hs);
  }

  lemma RootOfTwo(sha: Sha, x: string, y: string)
    ensures Root(sha, [x, y]) == sha(sha(x) + sha(y))
  {
    RootOfPadded(sha, [x]);
    RootOfPadded(sha, [y]);
    RootOfHalves(sha, 0, [x], [y]);
    assert [x] + [y] == [x, y];
  }

  lemma RootOfThree(sha: Sha, x: string, y: string, z: string)
    ensures Root(sha, [x, y]) == sha(sha(x) + sha(y))
    ensures Root(sha, [x, y, z]) == sha(sha(sha(x) + sha(y)) + sha(sha(z) + sha(z)))
  {
    RootOfTwo(sha, x, y);
    RootOfTwo(sha, z, z);
    RootOfHalves(sha, 1, [x, y], [z, z]);
    var three := [x, y, z];
    assert three + [three[2]] == [x, y] + [z, z];
    RepeatedLastLeafIsInvisible(sha, three);
  }
}
