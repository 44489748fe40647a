/** The data directory: block files, their names and their JSON, and loading all of them. */
module Disk {
  import opened Options
  import opened Decimal
  import opened Records

  // ---------- JSON values; dump and parse are library code ----------

  /** An integer in a JSON text is kept as such when it fits 64 bits, signed or unsigned. */
  type JsonInt = n: int | INT64_MIN <= n <= 0xFFFF_FFFF_FFFF_FFFF

  datatype Json =
    | JNull
    | JInt(n: JsonInt)
    | JReal(r: real)
    | JStr(s: string)
    | JArr(items: seq<Json>)
    | JObj(members: map<string, Json>)

  function Member(j: Json, key: string): Json {
    if j.JObj? && key in j.members then j.members[key] else JNull
  }

  function Truncated(r: real): int {
    if r >= 0.0 then r.Floor else -(-r).Floor
  }

  /** A number read into a 64-bit field: unsigned ones wrap around, fractional ones are truncated. */
  function AsInt64(j: Json): Option<Int64> {
    match j
    case JInt(n) => Some(if n <= INT64_MAX then n else n - 0x1_0000_0000_0000_0000)
    case JReal(r) => if INT64_MIN <= Truncated(r) <= INT64_MAX then Some(Truncated(r)) else None
    case _ => None
  }

  /** The same for the 32 bits of an enumeration. */
  function AsInt32(j: Json): Option<Int32> {
    match j
    case JInt(n) => Some(Wrap32(n))
    case JReal(r) => if Truncated(r) == Wrap32(Truncated(r)) then Some(Truncated(r)) else None
    case _ => None
  }

  function AuditToJson(a: Audit): Json {
    JObj(map[
      "req_id" := JStr(a.reqId),
      "file_info" := JObj(map["file_id" := JStr(a.fileId), "file_name" := JStr(a.fileName)]),
      "user_info" := JObj(map["user_id" := JStr(a.userId), "user_name" := JStr(a.userName)]),
      "access_type" := JInt(a.accessType),
      "timestamp" := JInt(a.timestamp),
      "signature" := JStr(a.signature),
      "public_key" := JStr(a.publicKey)])
  }

  /** None stands for the type error that a missing or ill-typed member causes. */
  function AuditFromJson(j: Json): Option<Audit> {
    var reqId, access, time := Member(j, "req_id"), AsInt32(Member(j, "access_type")), AsInt64(Member(j, "timestamp"));
    var file, user := Member(j, "file_info"), Member(j, "user_info");
    var fileId, fileName := Member(file, "file_id"), Member(file, "file_name");
    var userId, userName := Member(user, "user_id"), Member(user, "user_name");
    var signature, publicKey := Member(j, "signature"), Member(j, "public_key");
    if reqId.JStr? && fileId.JStr? && fileName.JStr? && userId.JStr? && userName.JStr? &&
       access.Some? && time.Some? && signature.JStr? && publicKey.JStr?
    then
      Some(Audit(reqId.s, fileId.s, fileName.s, userId.s, userName.s, access.value, time.value, signature.s, publicKey.s))
    else None
  }

  function AuditsToJson(audits: seq<Audit>): seq<Json> {
    seq(|audits|, i requires 0 <= i < |audits| => AuditToJson(audits[i]))
  }

  function AuditsFromJson(items: seq<Json>): Option<seq<Audit>> {
    if forall i :: 0 <= i < |items| ==> AuditFromJson(items[i]).Some? then
      Some(seq(|items|, i requires 0 <= i < |items| => AuditFromJson(items[i]).value))
    else None
  }

  function BlockToJson(b: Block): Json {
    JObj(map[
      "id" := JInt(b.id),
      "hash" := JStr(b.hash),
      "previous_hash" := JStr(b.previousHash),
      "merkle_root" := JStr(b.merkleRoot),
      "audits" := JArr(AuditsToJson(b.audits))])
  }

  /** A missing "audits" member is null and iterates over nothing. */
  function BlockFromJson(j: Json): Option<Block> {
    var id, hash, prev, root, audits :=
      AsInt64(Member(j, "id")), Member(j, "hash"), Member(j, "previous_hash"), Member(j, "merkle_root"), Member(j, "audits");
    if id.Some? && hash.JStr? && prev.JStr? && root.JStr? && (audits.JArr? || audits.JNull?) then
      match AuditsFromJson(if audits.JArr? then audits.items else [])
      case None => None
      case Some(list) => Some(Block(id.value, hash.s, prev.s, list, root.s))
    else None
  }

  /** An integer keeps its low 64 or 32 bits; a fractional number loses its fraction. */
  lemma NumbersAreRead(j: Json)
    ensures j.JInt? ==> AsInt64(j).Some? && (j.n - AsInt64(j).value) % 0x1_0000_0000_0000_0000 == 0
    ensures j.JInt? ==> AsInt32(j).Some? && (j.n - AsInt32(j).value) % 0x1_0000_0000 == 0
    ensures j.JReal? && j.r >= 0.0 ==> Truncated(j.r) as real <= j.r < Truncated(j.r) as real + 1.0
    ensures j.JReal? && j.r < 0.0 ==> Truncated(j.r) as real - 1.0 < j.r <= Truncated(j.r) as real
    ensures j.JReal? && AsInt64(j).Some? ==> AsInt64(j).value == Truncated(j.r)
    ensures j.JReal? && AsInt32(j).Some? ==> AsInt32(j).value == Truncated(j.r)
  {
  }

  /** What stands under which key of an audit and of a block, whatever order they are written in. */
  lemma AuditKeys(a: Audit)
    ensures AuditToJson(a).JObj? && AuditToJson(a).members.Keys ==
      {"req_id", "file_info", "user_info", "access_type", "timestamp", "signature", "public_key"}
    ensures var m := AuditToJson(a).members;
      && m["req_id"] == JStr(a.reqId)
      && m["file_info"] == JObj(map["file_id" := JStr(a.fileId), "file_name" := JStr(a.fileName)])
      && m["user_info"] == JObj(map["user_id" := JStr(a.userId), "user_name" := JStr(a.userName)])
      && m["access_type"] == JInt(a.accessType) && m["timestamp"] == JInt(a.timestamp)
      && m["signature"] == JStr(a.signature) && m["public_key"] == JStr(a.publicKey)
  {
  }

  lemma BlockKeys(b: Block)
    ensures BlockToJson(b).JObj? && BlockToJson(b).members.Keys == {"id", "hash", "previous_hash", "merkle_root", "audits"}
    ensures var m := BlockToJson(b).members;
      && m["id"] == JInt(b.id) && m["hash"] == JStr(b.hash) && m["previous_hash"] == JStr(b.previousHash)
      && m["merkle_root"] == JStr(b.merkleRoot) && m["audits"].JArr? && |m["audits"].items| == |b.audits|
      && forall i :: 0 <= i < |b.audits| ==> m["audits"].items[i] == AuditToJson(b.audits[i])
  {
  }

  lemma AuditRoundTrip(a: Audit)
    ensures AuditFromJson(AuditToJson(a)) == Some(a)
  {
  }

  /** Loading what was saved gives the same block, for every block. */
  lemma SaveLoadRoundTrip(b: Block)
    ensures BlockFromJson(BlockToJson(b)) == Some(b)
  {
    var items := AuditsToJson(b.audits);
    forall i | 0 <= i < |items|
      ensures AuditFromJson(items[i]) == Some(b.audits[i])
    {
      AuditRoundTrip(b.audits[i]);
    }
    assert AuditsFromJson(items).value == b.audits;
  }

  // ---------- file names ----------

  function FileName(id: int): string {
    "block_" + ToString(id) + ".json"
  }

  predicate JsonAt(name: string, i: nat) {
    i + 5 <= |name| && name[i..i + 5] == ".json"
  }

  /** filename.find(".json"), or the length when there is none. */
  function FindJson(name: string, from: nat): (i: nat)
    requires from <= |name|
    ensures from <= i <= |name|
    ensures i < |name| ==> JsonAt(name, i)
    ensures forall j :: from <= j < i ==> !JsonAt(name, j)
    decreases |name| - from
  {
    if from == |name| || JsonAt(name, from) then from else FindJson(name, from + 1)
  }

  /** The id that loadBlocks reads out of a directory entry's name: the extension must be ".json", the
      name must begin with "block_", and the number runs up to the first ".json". */
  function ParseFileName(name: string): Option<Int64> {
    if |name| >= 6 && JsonAt(name, |name| - 5) && name[..6] == "block_" then
      var dot := FindJson(name, 0);
      if 6 <= dot then Stoll(name[6..dot]) else None
    else None
  }

  lemma NotJsonAt(name: string, i: nat)
    requires i < |name| && name[i] != '.'
    ensures !JsonAt(name, i)
  {
    if i + 5 <= |name| {
      assert name[i..i + 5][0] == name[i];
    }
  }

  /** Of a name made like a block's file name, the part in the middle is read as a number. */
  lemma NameIsParsed(number: string)
    requires forall i :: 0 <= i < |number| ==> number[i] != '.'
    ensures ParseFileName("block_" + number + ".json") == Stoll(number)
  {
    var name := "block_" + number + ".json";
    var end := 6 + |number|;
    assert name[..6] == "block_" && name[6..end] == number && name[end..] == ".json";
    assert JsonAt(name, end);
    forall i | 0 <= i < end
      ensures !JsonAt(name, i)
    {
      assert name[i] == if i < 6 then "block_"[i] else number[i - 6];
      NotJsonAt(name, i);
    }
    assert FindJson(name, 0) == end;
  }

  lemma NoDotInNumber(id: int)
    ensures forall i :: 0 <= i < |ToString(id)| ==> ToString(id)[i] != '.'
  {
    PrintShape(id);
    if id < 0 {
      assert ToString(id) == ['-'] + ToString(id)[1..];
    }
  }

  /** Printing a block's file name and parsing it gives the id back. */
  lemma FileNameRoundTrip(id: Int64)
    ensures ParseFileName(FileName(id)) == Some(id)
  {
    NoDotInNumber(id);
    NameIsParsed(ToString(id));
    ParsePrinted(id);
  }

  // ---------- the directory ----------

  /** A file holds a JSON text, or bytes that do not parse because a write was cut short. */
  datatype File = Whole(json: Json) | Torn

  type Directory = map<string, File>

  /** What happens to one attempt to write a file: written in full and reported so; refused before the
      file was touched; or failed after the file was opened, which leaves a torn file. */
  datatype Write = Done | Refused | Cut

  function Saved(disk: Directory, b: Block, w: Write): Directory {
    match w
    case Done => disk[FileName(b.id) := Whole(BlockToJson(b))]
    case Refused => disk
    case Cut => disk[FileName(b.id) := Torn]
  }

  /** loadBlockFromDisk; None stands for its exceptions. */
  function LoadBlock(disk: Directory, id: int): Option<Block> {
    if FileName(id) in disk && disk[FileName(id)].Whole? then BlockFromJson(disk[FileName(id)].json) else None
  }

  /** One directory entry in loadBlocks: the id from its name, the block from that id's file. */
  function LoadEntry(disk: Directory, name: string): Option<(int, Block)> {
    match ParseFileName(name)
    case None => None
    case Some(id) =>
      match LoadBlock(disk, id)
      case None => None
      case Some(b) => Some((id, b))
  }

  /** The fields blocks_, latestBlockId_ and latestBlockHash_. */
  datatype Memory = Memory(blocks: map<int, Block>, latestId: int, latestHash: string)

  const EMPTY_MEMORY := Memory(map[], -1, "")

  function Absorb(m: Memory, entry: Option<(int, Block)>): Memory {
    match entry
    case None => m
    case Some((id, b)) =>
      var blocks := m.blocks[id := b];
      if id > m.latestId then Memory(blocks, id, b.hash) else Memory(blocks, m.latestId, m.latestHash)
  }

  function AbsorbAll(entries: seq<Option<(int, Block)>>): Memory {
    if entries == [] then EMPTY_MEMORY
    else Absorb(AbsorbAll(entries[..|entries| - 1]), entries[|entries| - 1])
  }

  lemma AbsorbNext(entries: seq<Option<(int, Block)>>, i: nat)
    requires i < |entries|
    ensures AbsorbAll(entries[..i + 1]) == Absorb(AbsorbAll(entries[..i]), entries[i])
  {
    assert entries[..i + 1][..i] == entries[..i];
  }

  function Entries(disk: Directory, names: seq<string>): seq<Option<(int, Block)>> {
    seq(|names|, i requires 0 <= i < |names| => LoadEntry(disk, names[i]))
  }

  /** loadBlocks over the directory entries in the order they are listed. */
  function LoadAll(disk: Directory, names: seq<string>): Memory {
    AbsorbAll(Entries(disk, names))
  }

  /** The memory of a node that holds this chain. */
  function MemoryOf(chain: seq<Block>): Memory {
    Memory(
      map i: int | 0 <= i < |chain| :: chain[i],
      |chain| - 1,
      TipHash(chain))
  }

  /** The directory is a copy of the chain: every block is in its file, and no entry loads anything
      else. Torn files and foreign files may lie beside the blocks. */
  ghost predicate Holds(disk: Directory, chain: seq<Block>) {
    && |chain| <= INT64_MAX + 1
    && (forall i :: 0 <= i < |chain| ==> LoadBlock(disk, i) == Some(chain[i]) && FileName(i) in disk)
    && (forall name :: name in disk ==>
         LoadEntry(disk, name).None? || EntryOf(chain, LoadEntry(disk, name).value))
  }

  predicate EntryOf(chain: seq<Block>, entry: (int, Block)) {
    0 <= entry.0 < |chain| && entry.1 == chain[entry.0]
  }

  /** No file stands for a block outside the chain. */
  lemma NoStrayBlock(disk: Directory, chain: seq<Block>, id: Int64)
    requires Holds(disk, chain) && !(0 <= id < |chain|)
    ensures LoadBlock(disk, id).None?
  {
    FileNameRoundTrip(id);
    assert FileName(id) in disk ==> LoadEntry(disk, FileName(id)).None?;
  }

  lemma FileNameInjective(m: int, n: int)
    requires FileName(m) == FileName(n)
    ensures m == n
  {
    var x, y := FileName(m), FileName(n);
    assert x[6..|x| - 5] == ToString(m) && y[6..|y| - 5] == ToString(n);
    PrintInjective(m, n);
  }

  lemma OtherFileUntouched(disk: Directory, b: Block, w: Write, id: Int64)
    requires id != b.id
    ensures LoadBlock(Saved(disk, b, w), id) == LoadBlock(disk, id)
  {
    if FileName(id) == FileName(b.id) {
      FileNameInjective(id, b.id);
    }
  }

  /** After a save, full or cut short, no entry loads anything outside a chain that has the saved block. */
  lemma SaveKeepsEntries(disk: Directory, chain: seq<Block>, b: Block, w: Write, after: seq<Block>)
    requires Holds(disk, chain) && chain <= after && |after| <= INT64_MAX + 1
    requires w.Done? ==> EntryOf(after, (b.id, b))
    ensures forall name :: name in Saved(disk, b, w) ==>
      LoadEntry(Saved(disk, b, w), name).None? || EntryOf(after, LoadEntry(Saved(disk, b, w), name).value)
  {
    var disk' := Saved(disk, b, w);
    SaveLoadRoundTrip(b);
    forall name | name in disk'
      ensures LoadEntry(disk', name).None? || EntryOf(after, LoadEntry(disk', name).value)
    {
      var id := ParseFileName(name);
      if id.Some? && id.value != b.id {
        OtherFileUntouched(disk, b, w, id.value);
        if name !in disk {
          FileNameRoundTrip(b.id);
        }
      }
    }
  }

  /** Saving the next block makes the directory a copy of the longer chain; a failed save keeps it a
      copy of the old one, even when it leaves a torn file. */
  lemma SaveKeepsCopy(disk: Directory, chain: seq<Block>, b: Block, w: Write)
    requires Holds(disk, chain) && b.id == |chain|
    ensures Holds(Saved(disk, b, w), if w.Done? then chain + [b] else chain)
  {
    var disk', chain' := Saved(disk, b, w), if w.Done? then chain + [b] else chain;
    SaveLoadRoundTrip(b);
    forall i | 0 <= i < |chain'|
      ensures LoadBlock(disk', i) == Some(chain'[i]) && FileName(i) in disk'
    {
      if i < |chain| {
        OtherFileUntouched(disk, b, w, i);
      }
    }
    SaveKeepsEntries(disk, chain, b, w, chain');
  }

  /** Saving a block of the chain a second time changes nothing that is loaded. */
  lemma SaveAgainKeepsCopy(disk: Directory, chain: seq<Block>, b: Block)
    requires Holds(disk, chain) && 0 <= b.id < |chain| && chain[b.id] == b
    ensures Holds(Saved(disk, b, Done), chain)
  {
    var disk' := Saved(disk, b, Done);
    SaveLoadRoundTrip(b);
    forall i | 0 <= i < |chain| && i != b.id
      ensures LoadBlock(disk', i) == Some(chain[i])
    {
      OtherFileUntouched(disk, b, Done, i);
    }
    SaveKeepsEntries(disk, chain, b, Done, chain);
  }

  // ---------- restart ----------

  /** Which heights the entries read so far have loaded. */
  ghost function LoadedHeights(entries: seq<Option<(int, Block)>>): set<int> {
    set i | 0 <= i < |entries| && entries[i].Some? :: entries[i].value.0
  }

  /** Memory holds exactly these ids, each with its block on disk, and the tip fields are those of the
      greatest id, or initial when there is none above -1. */
  ghost predicate Tracks(m: Memory, disk: Directory, ids: set<int>) {
    && m.blocks.Keys == ids
    && (forall id :: id in ids ==> id <= m.latestId && LoadBlock(disk, id) == Some(m.blocks[id]))
    && TipIsStored(m)
  }

  predicate TipIsStored(m: Memory) {
    if m.latestId == -1 then m.latestHash == ""
    else m.latestId > -1 && m.latestId in m.blocks && m.latestHash == m.blocks[m.latestId].hash
  }

  lemma AbsorbTracks(m: Memory, disk: Directory, ids: set<int>, entry: (int, Block))
    requires Tracks(m, disk, ids) && LoadBlock(disk, entry.0) == Some(entry.1)
    ensures Tracks(Absorb(m, Some(entry)), disk, ids + {entry.0})
  {
  }

  lemma OneMoreEntry(rest: seq<Option<(int, Block)>>, entry: Option<(int, Block)>)
    ensures LoadedHeights(rest + [entry]) == LoadedHeights(rest) + if entry.Some? then {entry.value.0} else {}
  {
    var entries := rest + [entry];
    forall h | h in LoadedHeights(rest)
      ensures h in LoadedHeights(entries)
    {
      var i :| 0 <= i < |rest| && rest[i].Some? && rest[i].value.0 == h;
      assert entries[i] == rest[i];
    }
    if entry.Some? {
      assert entries[|rest|] == entry;
    }
  }

  lemma {:induction false} AbsorbAllTracks(disk: Directory, entries: seq<Option<(int, Block)>>)
    requires forall i :: 0 <= i < |entries| && entries[i].Some? ==>
      LoadBlock(disk, entries[i].value.0) == Some(entries[i].value.1)
    ensures Tracks(AbsorbAll(entries), disk, LoadedHeights(entries))
  {
    if entries != [] {
      var rest, entry := entries[..|entries| - 1], entries[|entries| - 1];
      assert entries == rest + [entry];
      AbsorbAllTracks(disk, rest);
      OneMoreEntry(rest, entry);
      if entry.Some? {
        AbsorbTracks(AbsorbAll(rest), disk, LoadedHeights(rest), entry.value);
      } else {
        assert LoadedHeights(entries) == LoadedHeights(rest);
      }
    }
  }

  /** Loading any directory whatever, in any order: memory holds exactly the ids that some listed name
      stands for and whose block can be read, each with that block; the tip is the greatest of them,
      unless all are negative. */
  lemma LoadAllTracks(disk: Directory, names: seq<string>)
    ensures Tracks(LoadAll(disk, names), disk,
      set name | name in names && LoadEntry(disk, name).Some? :: LoadEntry(disk, name).value.0)
  {
    var entries := Entries(disk, names);
    AbsorbAllTracks(disk, entries);
    var ids := set name | name in names && LoadEntry(disk, name).Some? :: LoadEntry(disk, name).value.0;
    forall id | id in LoadedHeights(entries)
      ensures id in ids
    {
      var i :| 0 <= i < |entries| && entries[i].Some? && entries[i].value.0 == id;
      assert names[i] in names;
    }
    forall id | id in ids
      ensures id in LoadedHeights(entries)
    {
      var name :| name in names && LoadEntry(disk, name).Some? && LoadEntry(disk, name).value.0 == id;
      var i :| 0 <= i < |names| && names[i] == name;
      assert entries[i] == LoadEntry(disk, name);
    }
    assert LoadedHeights(entries) == ids;
  }

  lemma HeightsAreLoaded(disk: Directory, chain: seq<Block>, names: seq<string>, ids: set<int>)
    requires Holds(disk, chain)
    requires forall name :: name in names <==> name in disk
    requires ids == set name | name in names && LoadEntry(disk, name).Some? :: LoadEntry(disk, name).value.0
    ensures forall h :: h in ids <==> 0 <= h < |chain|
  {
    forall h | 0 <= h < |chain|
      ensures h in ids
    {
      FileNameRoundTrip(h);
      assert LoadEntry(disk, FileName(h)) == Some((h, chain[h]));
    }
    forall h | h in ids
      ensures 0 <= h < |chain|
    {
      var name :| name in names && LoadEntry(disk, name).Some? && LoadEntry(disk, name).value.0 == h;
      assert LoadEntry(disk, name).None? || EntryOf(chain, LoadEntry(disk, name).value);
    }
  }

  predicate StoredAt(m: Memory, chain: seq<Block>, h: nat) {
    h < |chain| && h in m.blocks && m.blocks[h] == chain[h] && h <= m.latestId
  }

  lemma TracksChainAt(m: Memory, disk: Directory, chain: seq<Block>, ids: set<int>, h: nat)
    requires Tracks(m, disk, ids) && Holds(disk, chain) && h < |chain| && h in ids
    ensures StoredAt(m, chain, h)
  {
    assert LoadBlock(disk, h) == Some(chain[h]);
  }

  lemma FullIsWhole(m: Memory, chain: seq<Block>, ids: set<int>)
    requires m.blocks.Keys == ids && forall h :: h in ids <==> 0 <= h < |chain|
    requires forall h :: 0 <= h < |chain| ==> StoredAt(m, chain, h)
    requires TipIsStored(m)
    ensures m == MemoryOf(chain)
  {
    var whole := MemoryOf(chain).blocks;
    assert ids == whole.Keys;
    forall h | h in ids
      ensures m.blocks[h] == whole[h]
    {
      assert StoredAt(m, chain, h);
    }
    assert m.blocks == whole;
    if chain != [] {
      assert StoredAt(m, chain, |chain| - 1);
    }
  }

  lemma TracksWhole(m: Memory, disk: Directory, chain: seq<Block>, ids: set<int>)
    requires Tracks(m, disk, ids) && Holds(disk, chain)
    requires forall h :: h in ids <==> 0 <= h < |chain|
    ensures m == MemoryOf(chain)
  {
    forall h | 0 <= h < |chain|
      ensures StoredAt(m, chain, h)
    {
      TracksChainAt(m, disk, chain, ids, h);
    }
    FullIsWhole(m, chain, ids);
  }

  /** Restart: reading the directory in any order rebuilds exactly the chain's memory. */
  lemma RestartRestores(disk: Directory, chain: seq<Block>, names: seq<string>)
    requires Holds(disk, chain)
    requires forall name :: name in names <==> name in disk
    ensures LoadAll(disk, names) == MemoryOf(chain)
  {
    var ids := set name | name in names && LoadEntry(disk, name).Some? :: LoadEntry(disk, name).value.0;
    LoadAllTracks(disk, names);
    HeightsAreLoaded(disk, chain, names, ids);
    TracksWhole(LoadAll(disk, names), disk, chain, ids);
  }
}
