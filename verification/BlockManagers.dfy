/** The block manager: creates, verifies, commits and reloads blocks. */
module BlockManagers {
  import opened Options
  import opened Decimal
  import opened Digests
  import opened Records
  import opened Merkle
  import opened HashChain
  import opened Disk

  // ---------- one node's store as a value ----------

  datatype Store = Store(memory: Memory, disk: Directory)

  /** The four checks against the tip fields. */
  predicate Verifies(sha: Sha, m: Memory, b: Block) {
    && b.id == m.latestId + 1
    && b.previousHash == m.latestHash
    && b.merkleRoot == MerkleRoot(sha, b.audits)
    && b.hash == BlockHash(sha, b)
  }

  /** The part of commitBlock that runs under the lock. */
  function Apply(s: Store, b: Block, w: Write): Store {
    var disk := Saved(s.disk, b, w);
    if w.Done? then Store(Memory(s.memory.blocks[b.id := b], b.id, b.hash), disk)
    else Store(s.memory, disk)
  }

  /** commitBlock, with verification and update as one step. */
  function Commit(sha: Sha, s: Store, b: Block, w: Write): Store {
    if Verifies(sha, s.memory, b) then Apply(s, b, w) else s
  }

  datatype Attempt = Attempt(block: Block, write: Write)

  /** A run of commit attempts on a directory that holds no block yet. */
  function CommitRun(sha: Sha, disk: Directory, attempts: seq<Attempt>): Store {
    if attempts == [] then Store(EMPTY_MEMORY, disk)
    else
      var last := attempts[|attempts| - 1];
      Commit(sha, CommitRun(sha, disk, attempts[..|attempts| - 1]), last.block, last.write)
  }

  /** The blocks that a run of attempts has committed, in order. */
  function Committed(sha: Sha, attempts: seq<Attempt>): seq<Block> {
    if attempts == [] then []
    else
      var chain, last := Committed(sha, attempts[..|attempts| - 1]), attempts[|attempts| - 1];
      if Accepts(sha, chain, last.block) && last.write.Done? then chain + [last.block] else chain
  }

  /** What every state of a node's store satisfies. */
  ghost predicate Consistent(sha: Sha, s: Store, chain: seq<Block>) {
    && WellFormed(sha, chain)
    && s.memory == MemoryOf(chain)
    && Holds(s.disk, chain)
  }

  lemma MemoryOfLonger(chain: seq<Block>, b: Block)
    requires b.id == |chain|
    ensures MemoryOf(chain + [b]) == Memory(MemoryOf(chain).blocks[b.id := b], b.id, b.hash)
  {
    assert MemoryOf(chain + [b]).blocks == MemoryOf(chain).blocks[b.id := b];
  }

  lemma VerifiesIsAccepts(sha: Sha, chain: seq<Block>, b: Block)
    ensures Verifies(sha, MemoryOf(chain), b) == Accepts(sha, chain, b)
  {
  }

  /** The block made from the tip fields. */
  function NextBlock(sha: Sha, m: Memory, audits: seq<Audit>): Block
    requires -1 <= m.latestId < INT64_MAX
  {
    var b := Block(m.latestId + 1, "", m.latestHash, audits, MerkleRoot(sha, audits));
    b.(hash := BlockHash(sha, b))
  }

  lemma NextBlockIsCreated(sha: Sha, s: Store, chain: seq<Block>, audits: seq<Audit>)
    requires Consistent(sha, s, chain) && s.memory.latestId < INT64_MAX
    ensures s.memory.latestId == |chain| - 1
    ensures NextBlock(sha, s.memory, audits) == Created(sha, chain, audits)
  {
  }

  lemma CommitKeepsConsistent(sha: Sha, s: Store, chain: seq<Block>, b: Block, w: Write)
    requires Consistent(sha, s, chain)
    ensures Consistent(sha, Commit(sha, s, b, w), if Accepts(sha, chain, b) && w.Done? then chain + [b] else chain)
  {
    VerifiesIsAccepts(sha, chain, b);
    if Accepts(sha, chain, b) {
      SaveKeepsCopy(s.disk, chain, b, w);
      AcceptedExtends(sha, chain, b);
      MemoryOfLonger(chain, b);
    }
  }

  /** Chain invariant: after any run of accepted, rejected and failed commits, the store is that of a
      well-formed chain (contiguous ids from 0, linked, recomputable), the tip fields are the last
      block's, and the directory is a copy of memory. */
  lemma {:induction false} RunIsConsistent(sha: Sha, disk: Directory, attempts: seq<Attempt>)
    requires Holds(disk, [])
    ensures Consistent(sha, CommitRun(sha, disk, attempts), Committed(sha, attempts))
  {
    if attempts == [] {
      assert MemoryOf([]).blocks == map[];
    } else {
      var rest, last := attempts[..|attempts| - 1], attempts[|attempts| - 1];
      RunIsConsistent(sha, disk, rest);
      CommitKeepsConsistent(sha, CommitRun(sha, disk, rest), Committed(sha, rest), last.block, last.write);
    }
  }

  /** A committed block is never changed: more attempts only append. */
  lemma {:induction false} CommittedOnlyGrows(sha: Sha, attempts: seq<Attempt>, more: seq<Attempt>)
    ensures Committed(sha, attempts) <= Committed(sha, attempts + more)
    decreases |more|
  {
    if more == [] {
      assert attempts + more == attempts;
    } else {
      CommittedOnlyGrows(sha, attempts, more[..|more| - 1]);
      assert (attempts + more)[..|attempts + more| - 1] == attempts + more[..|more| - 1];
    }
  }

  /** Restart: after any run of commits, loading the directory with its entries in any order gives the
      same blocks, tip id and tip hash as before. */
  lemma RestartAfterRun(sha: Sha, disk: Directory, attempts: seq<Attempt>, names: seq<string>)
    requires Holds(disk, [])
    requires forall name :: name in names <==> name in CommitRun(sha, disk, attempts).disk
    ensures LoadAll(CommitRun(sha, disk, attempts).disk, names) == CommitRun(sha, disk, attempts).memory
  {
    RunIsConsistent(sha, disk, attempts);
    RestartRestores(CommitRun(sha, disk, attempts).disk, Committed(sha, attempts), names);
  }

  // ---------- the gap between verification and the lock ----------

  lemma ApplyAgain(sha: Sha, s: Store, chain: seq<Block>, b: Block)
    requires Consistent(sha, s, chain) && chain != [] && b == chain[|chain| - 1] && b.id == |chain| - 1
    ensures Consistent(sha, Apply(s, b, Done), chain)
  {
    SaveAgainKeepsCopy(s.disk, chain, b);
    assert MemoryOf(chain).blocks[b.id := b] == MemoryOf(chain).blocks;
  }

  lemma ApplyFirst(sha: Sha, s: Store, chain: seq<Block>, b: Block, w: Write)
    requires Consistent(sha, s, chain) && Accepts(sha, chain, b)
    ensures Consistent(sha, Apply(s, b, w), if w.Done? then chain + [b] else chain)
  {
    VerifiesIsAccepts(sha, chain, b);
    CommitKeepsConsistent(sha, s, chain, b, w);
  }

  lemma TooLate(s: Store, verifiedOn: seq<Block>, chain: seq<Block>, longer: seq<Block>, b: Block)
    requires s.memory == MemoryOf(chain) && b.id == |verifiedOn|
    requires verifiedOn <= chain <= longer && Apply(s, b, Done).memory == MemoryOf(longer)
    ensures chain == verifiedOn || chain == verifiedOn + [b]
  {
    assert MemoryOf(longer).latestId == b.id;
    assert MemoryOf(longer).blocks[b.id] == b;
  }

  lemma TornBlockIsOutside(disk: Directory, longer: seq<Block>, id: nat)
    requires Holds(disk, longer) && FileName(id) in disk && disk[FileName(id)].Torn?
    ensures id >= |longer|
  {
    assert LoadBlock(disk, id).None?;
  }

  /** The code verifies before it takes the lock. Suppose a block was verified on one chain and is applied
      when the chain may have grown. The result is again the store of an extension of the grown chain
      if and only if nothing was committed in between, or the write is refused, or the very same block
      was committed in between and is written again in full. */
  lemma GapIsHarmlessIff(sha: Sha, s: Store, verifiedOn: seq<Block>, chain: seq<Block>, b: Block, w: Write)
    requires Consistent(sha, s, chain) && verifiedOn <= chain && Accepts(sha, verifiedOn, b)
    ensures (exists longer :: chain <= longer && Consistent(sha, Apply(s, b, w), longer)) <==>
      chain == verifiedOn || w.Refused? || (w.Done? && chain == verifiedOn + [b])
  {
    if chain == verifiedOn {
      ApplyFirst(sha, s, chain, b, w);
      assert chain <= if w.Done? then chain + [b] else chain;
    } else if w.Refused? {
      assert chain <= chain && Apply(s, b, w) == s;
    } else if w.Done? && chain == verifiedOn + [b] {
      ApplyAgain(sha, s, chain, b);
      assert chain <= chain;
    } else if longer :| chain <= longer && Consistent(sha, Apply(s, b, w), longer) {
      if w.Done? {
        TooLate(s, verifiedOn, chain, longer, b);
      } else {
        TornBlockIsOutside(Apply(s, b, w).disk, longer, b.id);
      }
    }
  }

  /** So two callers that verify different blocks on one chain, and then take the lock one after the
      other, lose the first block: the second takes its place in memory and on disk, and the store is
      no longer that of any chain that holds the first. */
  lemma RacingCommitsLoseABlock(sha: Sha, s: Store, chain: seq<Block>, b: Block, c: Block)
    requires Consistent(sha, s, chain) && Accepts(sha, chain, b) && Accepts(sha, chain, c) && b != c
    ensures var t := Apply(Apply(s, b, Done), c, Done);
      && t.memory.blocks[|chain|] == c && LoadBlock(t.disk, |chain|) == Some(c)
      && !exists longer :: chain + [b] <= longer && Consistent(sha, t, longer)
  {
    ApplyFirst(sha, s, chain, b, Done);
    SaveLoadRoundTrip(c);
    GapIsHarmlessIff(sha, Apply(s, b, Done), chain, chain + [b], c, Done);
  }

  /** Any two different lists of audits give two such blocks on any chain. */
  lemma RacingBlocksExist(sha: Sha, chain: seq<Block>, xs: seq<Audit>, ys: seq<Audit>) returns (b: Block, c: Block)
    requires |chain| <= INT64_MAX && xs != ys
    ensures Accepts(sha, chain, b) && Accepts(sha, chain, c) && b != c && b.audits == xs && c.audits == ys
  {
    b, c := Created(sha, chain, xs), Created(sha, chain, ys);
  }

  // ---------- the class ----------

  class BlockManager {
    const sha: Sha
    var blocks: map<int, Block>
    var latestBlockId: int
    var latestBlockHash: string
    var disk: Directory
    ghost var chain: seq<Block>

    function Fields(): Memory
      reads this
    {
      Memory(blocks, latestBlockId, latestBlockHash)
    }

    function State(): Store
      reads this
    {
      Store(Fields(), disk)
    }

    ghost predicate Valid()
      reads this
    {
      Consistent(sha, State(), chain)
    }

    /** Starting on any directory loads what it can; on the directory of a chain it resumes the chain. */
    constructor (sha: Sha, disk: Directory, names: seq<string>, ghost chain: seq<Block>)
      ensures this.sha == sha && State() == Store(LoadAll(disk, names), disk) && this.chain == chain
      ensures WellFormed(sha, chain) && Holds(disk, chain) && (forall name :: name in names <==> name in disk) ==>
        Valid()
    {
      this.sha, this.disk, this.chain := sha, disk, chain;
      blocks, latestBlockId, latestBlockHash := map[], -1, "";
      new;
      LoadBlocks(names);
      if Holds(disk, chain) && (forall name :: name in names <==> name in disk) {
        RestartRestores(disk, chain, names);
      }
    }

    method LoadBlocks(names: seq<string>)
      requires Fields() == EMPTY_MEMORY
      modifies this
      ensures State() == Store(LoadAll(disk, names), old(disk))
      ensures chain == old(chain)
    {
      for i := 0 to |names|
        invariant disk == old(disk) && chain == old(chain)
        invariant Fields() == AbsorbAll(Entries(disk, names)[..i])
      {
        AbsorbNext(Entries(disk, names), i);
        var entry := LoadNamed(names[i]);
        if entry.Some? {
          AddLoaded(entry.value.0, entry.value.1);
        }
      }
      assert Entries(disk, names)[..|names|] == Entries(disk, names);
    }

    method AddLoaded(id: int, block: Block)
      modifies this
      ensures Fields() == Absorb(old(Fields()), Some((id, block)))
      ensures disk == old(disk) && chain == old(chain)
    {
      blocks := blocks[id := block];
      if id > latestBlockId {
        latestBlockId := id;
        latestBlockHash := block.hash;
      }
    }

    method LoadNamed(name: string) returns (entry: Option<(int, Block)>)
      ensures entry == LoadEntry(disk, name)
    {
      var id := ParseFileName(name);
      if id.None? {
        return None;
      }
      var block := LoadBlockFromDisk(id.value);
      entry := if block.Some? then Some((id.value, block.value)) else None;
    }

    method LoadBlockFromDisk(id: int) returns (block: Option<Block>)
      ensures block == LoadBlock(disk, id)
    {
      if FileName(id) !in disk || disk[FileName(id)].Torn? {
        return None;
      }
      var j := disk[FileName(id)].json;
      var number := AsInt64(Member(j, "id"));
      var hash, prev, root := Member(j, "hash"), Member(j, "previous_hash"), Member(j, "merkle_root");
      var list := Member(j, "audits");
      if number.None? || !hash.JStr? || !prev.JStr? || !root.JStr? || !(list.JArr? || list.JNull?) {
        return None;
      }
      var audits := ReadAudits(if list.JArr? then list.items else []);
      block := if audits.Some? then Some(Block(number.value, hash.s, prev.s, audits.value, root.s)) else None;
    }

    method ReadAudits(items: seq<Json>) returns (list: Option<seq<Audit>>)
      ensures list == AuditsFromJson(items)
    {
      var audits: seq<Audit> := [];
      for i := 0 to |items|
        invariant |audits| == i
        invariant forall k :: 0 <= k < i ==> AuditFromJson(items[k]) == Some(audits[k])
      {
        var audit := AuditFromJson(items[i]);
        if audit.None? {
          return None;
        }
        audits := audits + [audit.value];
      }
      assert AuditsFromJson(items).Some?;
      assert AuditsFromJson(items).value == audits;
      list := Some(audits);
    }

    method SaveBlockToDisk(block: Block, w: Write) returns (saved: bool)
      modifies this`disk
      ensures saved == w.Done?
      ensures disk == Saved(old(disk), block, w)
      ensures w.Done? ==>
        var name := "block_" + ToString(block.id) + ".json"; name in disk && disk[name] == Whole(BlockToJson(block))
    {
      var items: seq<Json> := [];
      for i := 0 to |block.audits|
        invariant |items| == i
        invariant forall k :: 0 <= k < i ==> items[k] == AuditToJson(block.audits[k])
      {
        items := items + [AuditToJson(block.audits[i])];
      }
      assert items == AuditsToJson(block.audits);
      var j := JObj(map[
        "id" := JInt(block.id),
        "hash" := JStr(block.hash),
        "previous_hash" := JStr(block.previousHash),
        "merkle_root" := JStr(block.merkleRoot),
        "audits" := JArr(items)]);
      match w {
        case Done => disk := disk[FileName(block.id) := Whole(j)];
        case Refused =>
        case Cut => disk := disk[FileName(block.id) := Torn];
      }
      saved := w.Done?;
    }

    method LeafHashes(audits: seq<Audit>) returns (hashes: seq<string>)
      ensures hashes == LeafDigests(sha, LeafStrings(audits))
    {
      hashes := [];
      for i := 0 to |audits|
        invariant |hashes| == i
        invariant forall k :: 0 <= k < i ==> hashes[k] == sha(LeafString(audits[k]))
      {
        hashes := hashes + [sha(LeafString(audits[i]))];
      }
      assert hashes == LeafDigests(sha, LeafStrings(audits));
    }

    method ComputeRoot(audits: seq<Audit>) returns (root: string)
      ensures root == MerkleRoot(sha, audits)
    {
      if |audits| == 0 {
        return sha("");
      }
      var hashes := LeafHashes(audits);
      root := ComputeMerkleRoot(sha, hashes);
    }

    /** A created block carries the given audits and is acceptable on the creator's chain. */
    method CreateBlock(audits: seq<Audit>) returns (block: Block)
      requires Valid() && latestBlockId < INT64_MAX
      ensures block.audits == audits
      ensures Accepts(sha, chain, block)
    {
      NextBlockIsCreated(sha, State(), chain, audits);
      block := FillBlock(audits);
    }

    method FillBlock(audits: seq<Audit>) returns (block: Block)
      requires -1 <= latestBlockId < INT64_MAX
      ensures block == NextBlock(sha, Fields(), audits)
    {
      var copy: seq<Audit> := [];
      for i := 0 to |audits|
        invariant copy == audits[..i]
      {
        copy := copy + [audits[i]];
      }
      assert copy == audits;
      var root := ComputeRoot(audits);
      block := Block(latestBlockId + 1, "", latestBlockHash, copy, root);
      block := block.(hash := BlockHash(sha, block));
    }

    method VerifyBlock(block: Block) returns (valid: bool)
      requires Valid()
      ensures valid == Accepts(sha, chain, block)
    {
      if block.id != latestBlockId + 1 {
        return false;
      }
      if block.previousHash != latestBlockHash {
        return false;
      }
      var root := ComputeRoot(block.audits);
      if root != block.merkleRoot {
        return false;
      }
      return BlockHash(sha, block) == block.hash;
    }

    /** The part under the lock: write the file, then update the fields. */
    method ApplyBlock(block: Block, w: Write) returns (saved: bool)
      modifies this
      ensures saved == w.Done? && chain == old(chain)
      ensures State() == Apply(old(State()), block, w)
    {
      saved := SaveBlockToDisk(block, w);
      if saved {
        blocks := blocks[block.id := block];
        latestBlockId := block.id;
        latestBlockHash := block.hash;
      }
    }

    method CommitBlock(block: Block, w: Write) returns (committed: bool)
      requires Valid()
      modifies this
      ensures Valid()
      ensures committed == (Accepts(sha, old(chain), block) && w.Done?)
      ensures chain == if committed then old(chain) + [block] else old(chain)
      ensures State() == Commit(sha, old(State()), block, w)
    {
      CommitKeepsConsistent(sha, State(), chain, block, w);
      VerifiesIsAccepts(sha, chain, block);
      var verified := VerifyBlock(block);
      if !verified {
        return false;
      }
      committed := ApplyBlock(block, w);
      chain := if committed then chain + [block] else chain;
    }

    /** Ids outside the chain give the default block: no file stands for them either. */
    method GetBlock(id: Int64) returns (block: Block)
      requires Valid()
      ensures block == if 0 <= id < |chain| then chain[id] else DEFAULT_BLOCK
    {
      if id in blocks {
        return blocks[id];
      }
      var loaded := LoadBlockFromDisk(id);
      NoStrayBlock(disk, chain, id);
      block := match loaded case Some(b) => b case None => DEFAULT_BLOCK;
    }

    method GetLatestBlockId() returns (id: int)
      requires Valid()
      ensures id == |chain| - 1
    {
      id := latestBlockId;
    }
  }
}
