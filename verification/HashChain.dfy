/** The hash chain: which block may follow a chain, and what the tip hash commits to. */
module HashChain {
  import opened Digests
  import opened Text
  import opened Decimal
  import opened Records
  import opened Merkle

  function MerkleRoot(sha: Sha, audits: seq<Audit>): string {
    Root(sha, LeafStrings(audits))
  }

  /** Which strings are hashed for no, one, two and three audits: leaves in the order of the audits, left
      before right, and the third leaf twice. */
  lemma SmallRoots(sha: Sha, a: Audit, b: Audit, c: Audit)
    ensures MerkleRoot(sha, []) == sha("")
    ensures MerkleRoot(sha, [a]) == sha(LeafString(a))
    ensures MerkleRoot(sha, [a, b]) == sha(sha(LeafString(a)) + sha(LeafString(b)))
    ensures MerkleRoot(sha, [a, b, c]) ==
      sha(sha(sha(LeafString(a)) + sha(LeafString(b))) + sha(sha(LeafString(c)) + sha(LeafString(c))))
  {
    var x, y, z := LeafString(a), LeafString(b), LeafString(c);
    assert LeafStrings([]) == [];
    assert LeafStrings([a]) == [x];
    assert LeafStrings([a, b]) == [x, y];
    assert LeafStrings([a, b, c]) == [x, y, z];
    RootOfPadded(sha, []);
    RootOfPadded(sha, [x]);
    RootOfThree(sha, x, y, z);
  }

  /** The four checks of verifyBlock and verifyBlockNoLock, against a chain whose tip id is
      one below its length. */
  predicate Accepts(sha: Sha, chain: seq<Block>, b: Block) {
    && b.id == |chain|
    && b.previousHash == TipHash(chain)
    && b.merkleRoot == MerkleRoot(sha, b.audits)
    && b.hash == BlockHash(sha, b)
  }

  /** The block that createBlock makes. */
  function Created(sha: Sha, chain: seq<Block>, audits: seq<Audit>): (b: Block)
    requires |chain| <= INT64_MAX
    ensures Accepts(sha, chain, b) && b.audits == audits
  {
    var b := Block(|chain|, "", TipHash(chain), audits, MerkleRoot(sha, audits));
    b.(hash := BlockHash(sha, b))
  }

  /** Nothing else is acceptable with these audits, so this is the block that CreateBlock returns. */
  lemma CreatedIsUnique(sha: Sha, chain: seq<Block>, b: Block)
    requires Accepts(sha, chain, b)
    ensures |chain| <= INT64_MAX && b == Created(sha, chain, b.audits)
  {
  }

  predicate AcceptedAt(sha: Sha, chain: seq<Block>, h: nat)
    requires h < |chain|
  {
    Accepts(sha, chain[..h], chain[h])
  }

  /** Every block was acceptable where it stands: ids count from 0, previous hashes are linked, roots
      and hashes can be recomputed. */
  ghost predicate WellFormed(sha: Sha, chain: seq<Block>) {
    forall h :: 0 <= h < |chain| ==> AcceptedAt(sha, chain, h)
  }

  lemma AcceptedExtends(sha: Sha, chain: seq<Block>, b: Block)
    requires WellFormed(sha, chain) && Accepts(sha, chain, b)
    ensures WellFormed(sha, chain + [b])
  {
    var longer := chain + [b];
    forall h | 0 <= h < |longer|
      ensures AcceptedAt(sha, longer, h)
    {
      if h < |chain| {
        assert AcceptedAt(sha, chain, h);
        assert longer[..h] == chain[..h];
      } else {
        assert longer[..h] == chain;
      }
    }
  }

  lemma PrefixWellFormed(sha: Sha, prefix: seq<Block>, chain: seq<Block>)
    requires WellFormed(sha, chain) && prefix <= chain
    ensures WellFormed(sha, prefix)
  {
    forall h | 0 <= h < |prefix|
      ensures AcceptedAt(sha, prefix, h)
    {
      assert AcceptedAt(sha, chain, h);
      assert prefix[..h] == chain[..h];
    }
  }

  /** In a well-formed chain the block above height h names the hash at height h. */
  lemma LinkAt(sha: Sha, chain: seq<Block>, h: nat)
    requires WellFormed(sha, chain) && h + 1 < |chain|
    ensures chain[h + 1].previousHash == chain[h].hash
    ensures chain[h + 1].id == h + 1
  {
    assert AcceptedAt(sha, chain, h + 1);
  }

  lemma TipHashShape(sha: Sha, chain: seq<Block>)
    requires WellFormed(sha, chain)
    ensures ColonFree(TipHash(chain))
    ensures chain == [] <==> TipHash(chain) == ""
  {
    if chain != [] {
      assert AcceptedAt(sha, chain, |chain| - 1);
    }
  }

  // ---------- what a tip hash commits to ----------

  /** A block without its audits. */
  datatype Header = Header(id: int, previousHash: string, merkleRoot: string, hash: string)

  function HeaderOf(b: Block): Header {
    Header(b.id, b.previousHash, b.merkleRoot, b.hash)
  }

  function Headers(chain: seq<Block>): seq<Header> {
    seq(|chain|, i requires 0 <= i < |chain| => HeaderOf(chain[i]))
  }

  /** The strings hashed for the block hashes of a chain. */
  function HeaderInputs(chain: seq<Block>): set<string> {
    set i | 0 <= i < |chain| :: HeaderString(chain[i])
  }

  lemma HeaderInputsGrow(prefix: seq<Block>, chain: seq<Block>)
    requires prefix <= chain
    ensures HeaderInputs(prefix) <= HeaderInputs(chain)
  {
    forall s | s in HeaderInputs(prefix)
      ensures s in HeaderInputs(chain)
    {
      var i :| 0 <= i < |prefix| && s == HeaderString(prefix[i]);
      assert s == HeaderString(chain[i]);
    }
  }

  lemma TipParts(sha: Sha, chain: seq<Block>, prefix: seq<Block>, tip: Block)
    requires WellFormed(sha, chain) && chain == prefix + [tip]
    ensures WellFormed(sha, prefix)
    ensures TipHash(chain) == sha(HeaderString(tip)) && tip.previousHash == TipHash(prefix)
    ensures ColonFree(tip.previousHash)
    ensures HeaderString(tip) in HeaderInputs(chain) && HeaderInputs(prefix) <= HeaderInputs(chain)
    ensures Headers(chain) == Headers(prefix) + [HeaderOf(tip)]
  {
    assert prefix == chain[..|chain| - 1] && tip == chain[|chain| - 1];
    assert AcceptedAt(sha, chain, |chain| - 1);
    PrefixWellFormed(sha, prefix, chain);
    TipHashShape(sha, prefix);
    HeaderInputsGrow(prefix, chain);
  }

  lemma SameTipHash(sha: Sha, c: seq<Block>, x: Block, d: seq<Block>, y: Block)
    requires WellFormed(sha, c + [x]) && WellFormed(sha, d + [y])
    requires x.hash == y.hash
    ensures (HeaderOf(x) == HeaderOf(y) && TipHash(c) == TipHash(d)) ||
      CollisionBetween(sha, HeaderInputs(c + [x]), HeaderInputs(d + [y]))
  {
    TipParts(sha, c + [x], c, x);
    TipParts(sha, d + [y], d, y);
    SameDigest(sha, HeaderString(x), HeaderString(y), HeaderInputs(c + [x]), HeaderInputs(d + [y]));
    if HeaderString(x) == HeaderString(y) {
      HeaderInjective(x, y);
    }
  }

  /** Two well-formed chains with one tip hash have the same length and the same header at every
      height, or a collision is found between the header strings hashed for them. */
  lemma {:induction false} ChainBinding(sha: Sha, c: seq<Block>, d: seq<Block>)
    requires WellFormed(sha, c) && WellFormed(sha, d)
    requires TipHash(c) == TipHash(d)
    ensures Headers(c) == Headers(d) || CollisionBetween(sha, HeaderInputs(c), HeaderInputs(d))
    decreases |c|
  {
    TipHashShape(sha, c);
    TipHashShape(sha, d);
    if c != [] {
      var c', d' := c[..|c| - 1], d[..|d| - 1];
      var x, y := c[|c| - 1], d[|d| - 1];
      assert c == c' + [x] && d == d' + [y];
      TipParts(sha, c, c', x);
      TipParts(sha, d, d', y);
      SameTipHash(sha, c', x, d', y);
      if !CollisionBetween(sha, HeaderInputs(c), HeaderInputs(d)) {
        ChainBinding(sha, c', d');
        if CollisionBetween(sha, HeaderInputs(c'), HeaderInputs(d')) {
          CollisionGrows(sha, HeaderInputs(c'), HeaderInputs(d'), HeaderInputs(c), HeaderInputs(d));
        }
      }
    }
  }

  function AuditInputs(sha: Sha, chain: seq<Block>): set<string> {
    set i, s | 0 <= i < |chain| && s in RootInputs(sha, LeafStrings(chain[i].audits)) :: s
  }

  /** Every string hashed while the chain was verified. */
  function ChainInputs(sha: Sha, chain: seq<Block>): set<string> {
    HeaderInputs(chain) + AuditInputs(sha, chain)
  }

  lemma LeafStringsAreLeafRow(audits: seq<Audit>)
    ensures IsLeafRow(LeafStrings(audits))
  {
    forall i | 0 <= i < |audits|
      ensures !ColonFree(LeafStrings(audits)[i])
    {
      LeafHasColon(audits[i]);
    }
  }

  /** Tamper evidence. If two well-formed chains end in the same hash and the strings hashed for them
      contain no collision, they have the same headers and, at every height, the same padded row of
      audit leaves; where neither block repeats a leaf, or both hold equally many audits, the leaves
      are the same list. */
  lemma TamperEvidence(sha: Sha, c: seq<Block>, d: seq<Block>)
    requires WellFormed(sha, c) && WellFormed(sha, d)
    requires TipHash(c) == TipHash(d)
    requires !CollisionBetween(sha, ChainInputs(sha, c), ChainInputs(sha, d))
    ensures Headers(c) == Headers(d)
    ensures |c| == |d|
    ensures forall h :: 0 <= h < |c| ==>
      var (x, y) := (LeafStrings(c[h].audits), LeafStrings(d[h].audits));
      Padded(x) == Padded(y) && (|x| == |y| || (Distinct(x) && Distinct(y)) ==> x == y)
  {
    ChainBinding(sha, c, d);
    if CollisionBetween(sha, HeaderInputs(c), HeaderInputs(d)) {
      CollisionGrows(sha, HeaderInputs(c), HeaderInputs(d), ChainInputs(sha, c), ChainInputs(sha, d));
    }
    assert |c| == |Headers(c)| == |Headers(d)| == |d|;
    forall h | 0 <= h < |c|
      ensures var (x, y) := (LeafStrings(c[h].audits), LeafStrings(d[h].audits));
        Padded(x) == Padded(y) && (|x| == |y| || (Distinct(x) && Distinct(y)) ==> x == y)
    {
      var x, y := LeafStrings(c[h].audits), LeafStrings(d[h].audits);
      assert Headers(c)[h] == Headers(d)[h];
      assert AcceptedAt(sha, c, h) && AcceptedAt(sha, d, h);
      LeafStringsAreLeafRow(c[h].audits);
      LeafStringsAreLeafRow(d[h].audits);
      MerkleBinding(sha, x, y);
      if CollisionBetween(sha, RootInputs(sha, x), RootInputs(sha, y)) {
        CollisionGrows(sha, RootInputs(sha, x), RootInputs(sha, y), ChainInputs(sha, c), ChainInputs(sha, d));
      }
      EqualPaddedRows(x, y);
    }
  }

  // ---------- which alterations a block's checks let through ----------

  /** Put other audits into an accepted block. It is still accepted when the padded rows of leaf strings
      agree, and when it is still accepted they agree, or a collision lies between the strings hashed
      for the two lists. */
  lemma AlteredAudits(sha: Sha, chain: seq<Block>, b: Block, xs: seq<Audit>)
    requires Accepts(sha, chain, b)
    ensures var (x, y) := (LeafStrings(b.audits), LeafStrings(xs));
      && (Padded(x) == Padded(y) ==> Accepts(sha, chain, b.(audits := xs)))
      && (Accepts(sha, chain, b.(audits := xs)) ==>
           Padded(x) == Padded(y) || CollisionBetween(sha, RootInputs(sha, x), RootInputs(sha, y)))
  {
    LeafStringsAreLeafRow(b.audits);
    LeafStringsAreLeafRow(xs);
    MerkleBinding(sha, LeafStrings(b.audits), LeafStrings(xs));
  }

  /** Three alterations that are always let through: a new signature and key on any audit, ... */
  lemma SignaturesAreNotCovered(sha: Sha, chain: seq<Block>, b: Block, i: nat, signature: string, publicKey: string)
    requires Accepts(sha, chain, b) && i < |b.audits|
    ensures var a := b.audits[i].(signature := signature, publicKey := publicKey);
      Accepts(sha, chain, b.(audits := b.audits[i := a]))
  {
    var xs := b.audits[i := b.audits[i].(signature := signature, publicKey := publicKey)];
    assert LeafStrings(xs) == LeafStrings(b.audits);
    AlteredAudits(sha, chain, b, xs);
  }

  /** ... a ':' in an audit's text field, which lets text move into a neighbouring field, ... */
  lemma ShiftedTextIsAccepted(sha: Sha, chain: seq<Block>, b: Block, i: nat) returns (a: Audit)
    requires Accepts(sha, chain, b) && i < |b.audits|
    requires !PlainContent(b.audits[i]) || !ColonFree(b.audits[i].reqId)
    ensures Accepts(sha, chain, b.(audits := b.audits[i := a]))
    ensures !(a.reqId == b.audits[i].reqId && SameContent(b.audits[i], a))
  {
    a := ColonBlursLeaf(b.audits[i]);
    assert LeafStrings(b.audits[i := a]) == LeafStrings(b.audits);
    AlteredAudits(sha, chain, b, b.audits[i := a]);
  }

  /** ... and a second copy of the last of an odd number of audits, three or more. */
  lemma RepeatedLastAuditIsAccepted(sha: Sha, chain: seq<Block>, b: Block)
    requires Accepts(sha, chain, b) && |b.audits| >= 3 && |b.audits| % 2 == 1
    ensures Accepts(sha, chain, b.(audits := b.audits + [b.audits[|b.audits| - 1]]))
  {
    var xs := b.audits + [b.audits[|b.audits| - 1]];
    var leaves := LeafStrings(b.audits);
    assert LeafStrings(xs) == leaves + [leaves[|leaves| - 1]];
    RepeatedLastLeafIsInvisible(sha, leaves);
  }
}
