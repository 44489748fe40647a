# Verification of the replicated audit ledger

This project models a replicated ledger of file-access audits in Dafny and proves what it promises: nodes keep
pending audits in a mempool, a proposer packs them into a block, a majority of nodes votes on it, and the block is
appended to a hash chain that every node stores on disk.

The model has three layers.

* **Hashing.** `Hex`, `Decimal`, `Text` and `Records` give the exact strings that are hashed. `Merkle` relates the
  level-by-level Merkle fold to a perfect tree, and `HashChain` says what a tip hash commits to. SHA-256 itself is
  foreign code: it is a parameter `sha` of every definition, any function from strings to 64 lowercase hex
  characters. Tamper evidence is stated as collision extraction. `CollisionBetween(sha, xs, ys)` asks for two
  different strings with one digest, one among the strings hashed for the first object and one among those hashed
  for the second; it is not the (always true) statement that some collision exists.
* **One node.** `Mempools`, `Disk`, `BlockManagers`, `Services` and `Nodes` follow the classes of the source. Each
  class has the source's fields, and its methods are proved against functions on values (`Insert`, `Commit`,
  `Receive`, `Sync`, ...), about which the lemmas are proved. I/O is a parameter: a disk write is done, refused or cut
  short; a remote call reaches its peer or not and is answered or not.
* **Many nodes.** `Protocol` is a step relation over N nodes and a network that loses, duplicates, delays and
  reorders messages, with any number of proposers. A step whose guard fails changes nothing, so every sequence of
  steps is a run and every theorem about `Run` holds for all of them. `Consensus` proves the safety properties,
  `Simulation` shows that the code's own operations (a whole proposal round, a whole catch-up) are runs of this
  protocol, and `Forks` says exactly when agreement holds at the tips as well. `Elections` covers the vote rule,
  and `Leadership` what winning an election says about the winner's chain in such runs.

Where the code and its documentation differ, and what the model does about it:

* The documentation says that verification runs inside the commit mutex (README.md:157, README.md:231); the code
  verifies at src/block_manager.cc:139 and locks at line 145. Here the model follows the documentation: `Commit` and
  `Protocol` take the two as one step. `BlockManagers.GapIsHarmlessIff` says exactly when the gap in the code does no
  harm, for every outcome of the write, and `BlockManagers.RacingCommitsLoseABlock` what it does otherwise. In the
  points below the model follows the code.
* "Altering any audit" (README.md:31, README.md:117-121) is not always noticed. `HashChain.AlteredAudits` says which
  altered blocks are still accepted; three cases are repeating the last of three, five, ... audits
  (`HashChain.RepeatedLastAuditIsAccepted`), moving text across a ':' from field to field
  (`HashChain.ShiftedTextIsAccepted`), and changing a signature or public key (`HashChain.SignaturesAreNotCovered`).
* A comment at src/node.cc:343-344 speaks of a majority of responding peers. A failed call counts as a response, and
  only a wait that throws does not. `Elections.WinsAreMajoritiesIff` says for how many thrown waits a win is still a
  majority of all nodes.
* Catching up (README.md:123-128) never fetches block 0, because `GetBlock` answers only for ids above 0.

## Model

| member | source | states |
|---|---|---|
| Hex.BytesToHex | src/crypto_utils.cc:106-115 | two lowercase digits per byte, in order |
| Hex.HexToBytes | src/crypto_utils.cc:94-104 | succeeds exactly when each chunk of one or two characters is readable by stoi in base 16, and gives those bytes |
| Hex.HexDigits | src/crypto_utils.cc:94-104 | the value of a hex digit is its position among the digits of either case |
| Hex.ParseByteIsStoi | src/crypto_utils.cc:98-100 | a chunk is read as stoi in base 16 reads any text (white space, sign, 0x, digits), cut down to a byte |
| Hex.DecodeEncode | src/crypto_utils.cc:94-115 | decoding an encoded byte sequence gives it back, for all bytes |
| Hex.EncodeDecode | src/crypto_utils.cc:94-115 | decoding and re-encoding gives the text back if and only if it is even-length lowercase hex |
| Hex.DigestsAreHexOf32Bytes | src/crypto_utils.cc:15-23 | the 64-character digests are exactly the encodings of 32 bytes, one for each |
| Digests.PairSplits | src/crypto_utils.cc:38-42 | a concatenated pair of digests splits in one way only |
| Decimal.ParsePrinted | src/block_manager.cc:38 | reading back a printed 64-bit number gives it back |
| Decimal.PrintInjective | src/block_manager.cc:201-204 | printed numbers are one-to-one |
| Decimal.PrintIsDecimal | src/block_manager.cc:201-204 | a printed number is a minus sign if negative and its decimal digits by weight, without leading zeros |
| Decimal.StollReads | src/block_manager.cc:38 | reading skips spaces, takes one sign and the digits, ignores the rest, and fails only outside 64 bits |
| Records.LeafInjective | src/block_manager.cc:225-232 | when one audit has ':'-free text fields, only an audit equal in request id, file, user, access type and timestamp shares its leaf string, whatever the other's fields contain |
| Records.LeafDecidesIff | src/block_manager.cc:225-232 | a leaf string decides these fields among all audits if and only if no text field has ':' |
| Records.ContentInjective | src/mempool.cc:86-92 | the same as LeafInjective for the mempool's content string and the six content fields |
| Records.ContentDecidesIff | src/mempool.cc:86-92 | a content string decides the content among all audits if and only if no text field of the content has ':' |
| Records.HeaderInjective | src/block_manager.cc:201-204 | the string hashed for a block decides id, previous hash and Merkle root |
| Records.ContentFields | src/mempool.cc:86-92 | between its colons the content string has file id, file name, user id, user name, access type and timestamp, in this order |
| Records.LeafFields | src/block_manager.cc:225-232 | the leaf string has the request id and then these fields, in this order |
| Records.HeaderFields | src/block_manager.cc:201-204 | the header string has id, previous hash and Merkle root, in this order |
| Merkle.ComputeMerkleRoot | src/crypto_utils.cc:25-47 | the recursive level pass, with its inner loop, computes the fold |
| Merkle.DepthIsCeilLog2 | src/crypto_utils.cc:25-47 | the number of levels is the base-2 logarithm of the leaf count, rounded up |
| Merkle.PaddedExtends | src/crypto_utils.cc:40-43 | duplication only appends repeated leaves after the list itself |
| Merkle.BottomUpIsTopDown | src/crypto_utils.cc:34-46 | on a full row, pairing from the bottom and splitting from the top build the same tree |
| Merkle.FoldIsPerfectRoot | src/crypto_utils.cc:25-47 | for every non-empty list the fold is the root of the perfect tree over the padded leaves, and hashes all its strings |
| Merkle.RootOfHalves | src/crypto_utils.cc:34-46 | the root of a full row is the digest of the root of its left half followed by that of its right half |
| Merkle.RootOfPadded | src/crypto_utils.cc:25-47 | the root of no leaf is the digest of the empty string, of one leaf its digest, and of any list that of its padded row |
| Merkle.TreeBinding | src/crypto_utils.cc:34-44 | trees of any shape with equal hash are equal, or a collision lies between their strings |
| Merkle.MerkleBinding | src/block_manager.cc:214-243 | equal padded rows give equal roots; equal roots give equal padded rows or a collision between strings hashed for them |
| Merkle.EqualPaddedRows | src/block_manager.cc:214-243 | equal padded rows mean the same leaves; the same list when lengths agree or leaves are distinct |
| Merkle.RepeatedLastLeafIsInvisible | src/crypto_utils.cc:40-43 | repeating the last of an odd number of leaves, three or more, does not change the root |
| HashChain.ChainBinding | src/block_manager.cc:198-212 | well-formed chains with one tip hash have the same length and headers at every height, or a collision between header strings |
| HashChain.TamperEvidence | src/block_manager.cc:389-433 | without a collision, one tip hash fixes the headers and the padded audit leaves of every block, and the audit leaves themselves when none repeats or their number agrees |
| HashChain.SmallRoots | src/block_manager.cc:214-243 | exactly which digests are taken for no, one, two and three audits, in the order of the audits |
| HashChain.CreatedIsUnique | src/block_manager.cc:61-83 | the block that createBlock makes is the only one acceptable with its audits |
| HashChain.AlteredAudits | src/block_manager.cc:389-433 | an accepted block with other audits put in is still accepted if the padded leaf rows agree, and only if they agree or a collision lies between the strings hashed for the two lists |
| HashChain.SignaturesAreNotCovered | src/block_manager.cc:225-232 | a changed signature or public key is never noticed |
| HashChain.ShiftedTextIsAccepted | src/block_manager.cc:225-232 | for every audit with a ':' in a text field there is a different one that can take its place |
| HashChain.RepeatedLastAuditIsAccepted | src/crypto_utils.cc:40-43 | a second copy of the last of an odd number of audits, three or more, is never noticed |
| HashChain.AcceptedExtends | src/block_manager.cc:389-433 | a chain stays well-formed when an accepted block is appended |
| Mempools.InsertRefinesScan | src/mempool.cc:10-32 | addAudit accepts if and only if a plain scan finds neither the request id nor the content hash; the index stays in agreement |
| Mempools.EraseAllRefinesWithout | src/mempool.cc:58-73 | removing any list, with repeats and unknown ids, restricts the map and keeps the index in agreement |
| Mempools.IndexRefinesScan | src/mempool.cc:10-73 | after any run of operations the hash set is the image of the stored audits, and the mempool has answered like one without an index |
| Mempools.SameContentIsRefused | src/mempool.cc:18-23 | an audit with the content of a stored one is refused under any request id |
| Mempools.NewContentIsAdmitted | src/mempool.cc:10-32 | a new request id with ':'-free new content is accepted, or the content strings hold a collision |
| Mempools.ListedReqIds | src/mempool.cc:34-45 | removing a full snapshot empties the mempool, and a snapshot is empty only for an empty mempool |
| Mempools.ListedAudits | src/mempool.cc:34-45 | a snapshot holds exactly the stored audits, and as many entries as there are audits |
| Mempools.SortByTimestamp | src/mempool.cc:50-53 | a timestamp-ordered permutation |
| Mempools.Mempool.AddAudit | src/mempool.cc:10-32 | answers like the plain scan, refuses a known request id or known content, accepts new ':'-free content unless there is a collision, and adds exactly the accepted audit |
| Mempools.Mempool.GetAllAudits | src/mempool.cc:34-45 | lists every stored audit once |
| Mempools.Mempool.GetSortedAudits | src/mempool.cc:47-56 | lists every stored audit once, earlier timestamps first |
| Mempools.Mempool.RemoveAudits | src/mempool.cc:58-73 | keeps exactly the stored audits whose request id is not listed, with the index in agreement |
| Disk.SaveLoadRoundTrip | src/block_manager.cc:271-300 | loading a saved block gives the same block |
| Disk.AuditKeys | src/block_manager.cc:278-297 | what stands under each key of a saved audit, and no other key |
| Disk.BlockKeys | src/block_manager.cc:271-300 | what stands under each key of a saved block, audits in order, and no other key |
| Disk.NumbersAreRead | src/block_manager.cc:355-375 | an integer read keeps its low 64 or 32 bits, a fractional number loses its fraction |
| Disk.FileNameRoundTrip | src/block_manager.cc:33-38 | the id parsed from a block's file name is the block's id |
| Disk.NameIsParsed | src/block_manager.cc:33-38 | of a name block_X.json the X is read as a number |
| Disk.SaveKeepsCopy | src/block_manager.cc:245-340 | a successful save makes the directory a copy of the longer chain; a failed one, torn file included, keeps it a copy of the old chain |
| Disk.NoStrayBlock | src/block_manager.cc:180-185 | no file stands for an id outside the chain |
| Disk.LoadAllTracks | src/block_manager.cc:25-59 | loading any directory in any order: exactly the ids that a listed name stands for and whose block can be read, each with that block, and the greatest of them as tip |
| Disk.RestartRestores | src/block_manager.cc:25-59 | reading the directory in any order rebuilds blocks, tip id and tip hash |
| BlockManagers.RunIsConsistent | src/block_manager.cc:135-170 | after any run of accepted, rejected and failed commits: contiguous ids from 0, links, recomputable roots and hashes, tip fields of the last block, directory equal to memory |
| BlockManagers.CommittedOnlyGrows | src/block_manager.cc:156-158 | committed blocks never change |
| BlockManagers.RestartAfterRun | src/block_manager.cc:25-59 | after any run of commits, reloading in any order gives the same memory |
| BlockManagers.GapIsHarmlessIff | src/block_manager.cc:139-158 | applying a block verified before the lock keeps the store that of an extension of the present chain if and only if nothing was committed in between, or the write is refused, or the same block was committed in between and is written in full again |
| BlockManagers.RacingCommitsLoseABlock | src/block_manager.cc:139-158 | two different blocks accepted on one chain and both applied: the second replaces the first in memory and on disk, and no chain with the first is stored any more |
| BlockManagers.RacingBlocksExist | src/block_manager.cc:61-83 | any two different audit lists make two such blocks on any chain |
| BlockManagers.BlockManager.constructor | src/block_manager.cc:10-23 | loads any directory; resumes the chain that a directory holds |
| BlockManagers.BlockManager.LoadBlocks | src/block_manager.cc:25-59 | absorbs the entries in the order listed, skipping unreadable ones |
| BlockManagers.BlockManager.LoadBlockFromDisk | src/block_manager.cc:342-383 | the file's block, or nothing when the file is missing, torn or ill-typed |
| BlockManagers.BlockManager.SaveBlockToDisk | src/block_manager.cc:245-340 | writes the block's JSON into the file block_<id>.json, or reports failure |
| BlockManagers.BlockManager.ComputeRoot | src/block_manager.cc:214-243 | the Merkle root of the audits' leaf strings |
| BlockManagers.BlockManager.CreateBlock | src/block_manager.cc:61-83 | the created block carries the audits and passes verification on the creator's chain |
| BlockManagers.BlockManager.VerifyBlock | src/block_manager.cc:85-133 | accepts exactly the blocks that continue the chain with right root and hash |
| BlockManagers.BlockManager.CommitBlock | src/block_manager.cc:135-170 | appends exactly the accepted and saved block, and otherwise changes nothing but possibly a torn file |
| BlockManagers.BlockManager.GetBlock | src/block_manager.cc:172-186 | the chain's block at that height, and the default block outside the chain |
| Services.ApprovedIsMajority | src/blockchain_service.cc:296-299 | the integer comparison is a strict majority of all nodes, own vote included |
| Services.FullRound | src/blockchain_service.cc:192-310 | if the proposer and the peers in step with it are a strict majority, all of them append the same block and none of its request ids stays in their mempools |
| Services.RoundCommitsIff | src/blockchain_service.cc:204-229 | a round commits if and only if the own write is done and the proposer plus the peers that accept the block over calls that went through both ways are a strict majority |
| Services.RoundWithoutMajority | src/blockchain_service.cc:204-229 | if these nodes are no strict majority, no chain and no mempool changes, whatever the broadcast and the disks do |
| Services.Service.CollectVotes | src/blockchain_service.cc:265-310 | approves exactly when the peers that were reached, whose answer came back and on whose chain the block is acceptable are, with the proposer, a strict majority |
| Services.Service.BroadcastBlock | src/blockchain_service.cc:232-263 | each reached peer handles the commit request, the others are unchanged, and exactly the commits reported back are counted |
| Services.Service.CommitAndBroadcast | src/blockchain_service.cc:204-226 | commits locally and drops the audits; peers are reached only after a successful local commit |
| Services.Service.ProposeNewBlock | src/blockchain_service.cc:192-230 | proposes a timestamp-sorted permutation of the mempool on the own chain; commits locally, cleans up and broadcasts; without approval or without its own write no chain and no mempool changes |
| Services.Service.ProposeBlock | src/blockchain_service.cc:50-71 | votes yes exactly for blocks acceptable on the own chain and changes nothing |
| Services.Service.CommitBlock | src/blockchain_service.cc:73-98 | appends an accepted block and drops its audits from the mempool |
| Services.Service.GetBlock | src/blockchain_service.cc:100-120 | serves exactly the held blocks with id above 0 |
| Nodes.SyncIsSafe | src/node.cc:507-567 | against arbitrary answers: success means tip max(old, target), failure old tip <= tip < target; always a well-formed extension; exactly the new blocks' audits leave the mempool |
| Nodes.SyncFollowsAnswers | src/node.cc:524-564 | a catch-up ends exactly on the chain up to which ids were answered acceptably and written, without its audits in the mempool, and succeeds exactly when that reaches the target |
| Nodes.CatchUp | src/node.cc:507-567 | against a peer that extends our chain and reaches the target, ends exactly at its chain up to the target if and only if we hold a block or have nothing to fetch |
| Nodes.Node.SyncMissingBlocks | src/node.cc:507-567 | computes that catch-up for a known peer and changes nothing for an unknown one |
| Nodes.Node.GetPeerAddresses | src/node.cc:269-279 | all servers except the node itself |
| Nodes.PeersInOrder | src/node.cc:269-279 | for distinct servers the peers are all the others, once each and in the configuration's order |
| Nodes.Node.SelectRecoveryPeer | src/node.cc:467-480 | a peer with the greatest figure above the own tip, if there is one |
| Nodes.Node.HandleHeartbeat | src/node.cc:119-139 | records the sender's figures and a non-empty leader address |
| Nodes.Node.HeartbeatSent | src/node.cc:178-185 | overwrites the receiver's entry with the sender's own figures, after which the sender's vote for it depends on the two addresses alone |
| Nodes.Node.VoteInElection | src/node.cc:360-401 | votes yes exactly when the candidate is known to be higher, or equally high with a larger mempool, or equal in both with a later address; an unknown candidate counts as height 0 with an empty mempool |
| Nodes.Node.TriggerElection | src/node.cc:281-358 | takes a new term and becomes leader exactly when yes-answers and own vote are a strict majority of the nodes whose waits did not throw, failed calls included |
| Elections.VoteRuleIsStrictTotalOrder | src/node.cc:383-395 | the vote rule is a strict total order on block id, mempool size and address |
| Elections.StringLessIsDictionaryOrder | src/node.cc:390-393 | addresses compare at their first difference, a proper prefix first |
| Elections.VoteFalls | src/node.cc:383-395 | the higher candidate gets the vote, at one height the one with the larger mempool, and with equal mempools the one with the later address |
| Elections.WonIsMajority | src/node.cc:328-345 | winning is having a strict majority of the nodes whose waits did not throw, own vote included; a failed call is no vote but counts as a response |
| Elections.WinsAreMajoritiesIff | src/node.cc:328-345 | with a given number of thrown waits, every win is a strict majority of all n nodes if and only if none threw, or one did and n is odd |
| Elections.ElectedHeight | src/node.cc:341-401 | under that condition, a winner whose supporters did not overrate it is at least as high as every height a strict majority had reached |
| Elections.OverwrittenFiguresIgnoreHeights | src/node.cc:178-185 | when the voters have overwritten their figures for the candidate, the rank of its address alone decides and heights play no part |
| Elections.VotesAreRank | src/node.cc:301-345 | with accurate figures and all answering, the candidate of rank r gets r votes and wins if and only if r >= N/2 + 1 |
| Elections.RanksAreOneToN | src/node.cc:383-395 | the ranks are exactly 1 to N |
| Elections.GreatestWins | src/node.cc:378-395 | the greatest node gets every vote and wins |
| Elections.UpperHalfWins | src/node.cc:341-345 | exactly the upper half of the ranks would win, so a single winner is certain only for one or two nodes |
| Protocol.DeliverThenCleanUpIsReceive | src/blockchain_service.cc:73-98 | the two protocol steps for a commit request have the handler's effect, whatever else waits to be cleaned up |
| Protocol.ChainsGrow | src/block_manager.cc:156-158 | no step shortens or changes a chain or unsends a message |
| Consensus.InvHolds | src/blockchain_service.cc:192-310 | the inductive invariant over all nodes: chains well-formed and backed by quorums, every past vote and proposal still matching its node's chain |
| Consensus.ApprovedRoundsShareParent | src/blockchain_service.cc:289-299 | two rounds approved for one height share a node that matches both and carry the same previous hash |
| Consensus.DepthOneForks | src/blockchain_service.cc:192-310 | in every run two nodes hold the same block hash at every height strictly below both tips |
| Consensus.SharedHistoryBelowTips | src/block_manager.cc:389-433 | below both tips two nodes have the same headers at every height, or a collision |
| Consensus.ParentsAreFinal | src/block_manager.cc:135-170 | a block with a child is final: no node holds another hash there below its tip at any later point |
| Consensus.LosingSideIsStuck | src/block_manager.cc:389-433 | a node whose tip differs from the block that a longer chain has there never commits anything again, whatever happens |
| Consensus.PassedVoteProvesHistory | src/blockchain_service.cc:265-310 | when the votes approve, a strict majority each had, when voting, the header chain the proposer had when creating the block, or a collision |
| Consensus.StableLeader | src/blockchain_service.cc:204-221 | in every run with one proposer, every chain is at all times a prefix of the proposer's, block for block |
| Consensus.NoAcceptedAuditIsLost | src/mempool.cc:10-73 | in every run each request id accepted since the node's last start is in its mempool or in a block of its chain |
| Simulation.RoundIsARun | src/blockchain_service.cc:192-310 | from every state, every proposal round, for any network and disks, is a run of protocol steps with the same resulting ledgers |
| Simulation.SyncIsARun | src/node.cc:524-564 | from every state, every catch-up with another node is a run of protocol steps with the same resulting ledgers |
| Simulation.SubmitIsAddAudit | src/mempool.cc:10-32 | the protocol's Submit step does what addAudit does |
| Simulation.RestartIsReload | src/block_manager.cc:10-59 | the protocol's Restart step leaves the chain that loading its directory gives, and an empty mempool |
| Forks.TwoProposersFork | src/blockchain_service.cc:50-71 | among any number of nodes, any two that propose their mempools can both be approved by everybody and commit different first blocks |
| Forks.AgreementIff | src/blockchain_service.cc:192-310 | in every run in which only given nodes propose all chains continue one another, if and only if these are at most one node; also when every proposal is the whole mempool in time order |
| Leadership.ElectedLeaderHoldsHistory | src/node.cc:281-401 | if a strict majority held a child of height h when the election began and votes were cast on figures the candidate had reported, the winner holds one too and shares the history up to h, then and later, with every node that reaches above h |

## Left out

- gRPC transport, server lifecycle, threads, sleeps, clocks, heartbeat timeouts and logging: they appear as steps that may or may not happen.
- OpenSSL internals, RSA signature verification (src/crypto_utils.cc:49-92) and base64: foreign calls.
- The field checks of `SubmitAudit` and its signed JSON text (src/file_audit_service.cc): an accepted `addAudit` is the entry event.
- The Python clients: their leaves, empty root and first block id differ from the node's, and their direct calls are outside the node protocol.
- Exactly-once commit, one leader per term and mempool survival across a restart: the code does not promise or keep them.
- Leadership as a guard of proposals, the threshold of five audits (src/node.cc:248-250) and the mempool as the origin of a proposal's audits: the protocol lets every node propose any audits at any time, which only adds runs; the origin is stated at Services.Service.ProposeNewBlock.
- Leader notification (src/node.cc:403-458): it changes one field and no chain or mempool.
- nlohmann's text form: `Disk` works on JSON values, so that dumping and parsing are taken to be inverse; an "audits" member that is an object or a scalar, which saveBlockToDisk never writes, counts as ill-typed, and so does a fractional number outside the integer's range, whose conversion is undefined.
- Unflushed buffers: a write that reports success is taken to be complete.
- Block ids beyond 64 bits: ids are 64-bit integers, and the signed overflow of the next id after 2^63 - 1 blocks is undefined behaviour in the source.
- BlockManagers.BlockManager.CreateBlock: does not model the overflow of the next id, so it asks for a tip id below 2^63 - 1.
- BlockManagers.BlockManager.LoadBlocks: models the one call from the constructor, on empty fields.
- BlockManagers.BlockManager.CommitBlock: takes verification and update as one step; the gap between them is the subject of GapIsHarmlessIff.
- Mempools.SortByTimestamp: stands for std::sort, of which only the specification is used; it returns a new list instead of sorting in place.
- Services.Service.ProposeNewBlock: peers are other processes and therefore values; a remote call has the effect that the handler methods of Service are proved to have.
- Services.Service.CollectVotes: one vote per peer in some order; the concurrency of the futures has no effect that the count could see.
- Nodes.Node.TriggerElection: runs without interleaved heartbeats or notifications, and the unused counter that several threads update is not modelled.
- Elections.ElectedHeight: takes the quality of the heartbeat figures as a hypothesis, because sending a heartbeat overwrites the receiver's entry; OverwrittenFiguresIgnoreHeights is what happens then.
- Leadership.ElectedLeaderHoldsHistory: heartbeats are not steps of `Protocol`; each ballot names the step of the run at which its figure was reported.
