/** The mempool: pending audits by request id, and an index of content hashes beside them. */
module Mempools {
  import opened Digests
  import opened Records

  type Pool = map<string, Audit>

  /** The two fields audits_ and auditHashes_. */
  datatype Index = Index(audits: Pool, hashes: set<string>)

  const EMPTY_INDEX := Index(map[], {})

  function ContentHash(sha: Sha, a: Audit): string {
    sha(ContentString(a))
  }

  predicate KeyedByReqId(pool: Pool) {
    forall k :: k in pool ==> pool[k].reqId == k
  }

  function HashesOf(sha: Sha, pool: Pool): set<string> {
    set k | k in pool :: ContentHash(sha, pool[k])
  }

  predicate UniqueContent(sha: Sha, pool: Pool) {
    forall j, k :: j in pool && k in pool && ContentHash(sha, pool[j]) == ContentHash(sha, pool[k]) ==> j == k
  }

  /** The index agrees with the audits: keys are request ids, the hash set is exactly the image of the
      stored audits, and no two stored audits share a content hash. */
  predicate Agrees(sha: Sha, ix: Index) {
    && KeyedByReqId(ix.audits)
    && ix.hashes == HashesOf(sha, ix.audits)
    && UniqueContent(sha, ix.audits)
  }

  // ---------- the indexed operations ----------

  predicate Admits(sha: Sha, ix: Index, a: Audit) {
    a.reqId !in ix.audits && ContentHash(sha, a) !in ix.hashes
  }

  function Insert(sha: Sha, ix: Index, a: Audit): Index {
    if Admits(sha, ix, a) then Index(ix.audits[a.reqId := a], ix.hashes + {ContentHash(sha, a)}) else ix
  }

  function Erase(sha: Sha, ix: Index, a: Audit): Index {
    if a.reqId in ix.audits then
      Index(ix.audits - {a.reqId}, ix.hashes - {ContentHash(sha, ix.audits[a.reqId])})
    else ix
  }

  function EraseAll(sha: Sha, ix: Index, audits: seq<Audit>): Index {
    if audits == [] then ix
    else Erase(sha, EraseAll(sha, ix, audits[..|audits| - 1]), audits[|audits| - 1])
  }

  // ---------- the same without an index ----------

  /** A plain scan finds neither the request id nor the content hash. */
  predicate ScanAdmits(sha: Sha, pool: Pool, a: Audit) {
    forall k :: k in pool ==> k != a.reqId && ContentHash(sha, pool[k]) != ContentHash(sha, a)
  }

  function ScanAdd(sha: Sha, pool: Pool, a: Audit): Pool {
    if ScanAdmits(sha, pool, a) then pool[a.reqId := a] else pool
  }

  function ReqIds(audits: seq<Audit>): set<string> {
    set a | a in audits :: a.reqId
  }

  function Without(pool: Pool, audits: seq<Audit>): Pool {
    pool - ReqIds(audits)
  }

  lemma AdmitsByScan(sha: Sha, ix: Index, a: Audit)
    requires Agrees(sha, ix)
    ensures Admits(sha, ix, a) <==> ScanAdmits(sha, ix.audits, a)
  {
  }

  lemma HashesWithOneMore(sha: Sha, pool: Pool, a: Audit)
    requires a.reqId !in pool
    ensures HashesOf(sha, pool[a.reqId := a]) == HashesOf(sha, pool) + {ContentHash(sha, a)}
  {
    var longer := pool[a.reqId := a];
    assert a.reqId in longer;
    forall k | k in pool
      ensures ContentHash(sha, pool[k]) in HashesOf(sha, longer)
    {
      assert k in longer && longer[k] == pool[k];
    }
  }

  lemma HashesWithoutOne(sha: Sha, pool: Pool, id: string)
    requires id in pool && UniqueContent(sha, pool)
    ensures HashesOf(sha, pool - {id}) == HashesOf(sha, pool) - {ContentHash(sha, pool[id])}
  {
    forall k | k in pool && k != id
      ensures ContentHash(sha, pool[k]) in HashesOf(sha, pool - {id})
    {
      assert k in pool - {id} && (pool - {id})[k] == pool[k];
    }
  }

  lemma InsertKeepsUnique(sha: Sha, pool: Pool, a: Audit)
    requires UniqueContent(sha, pool) && ScanAdmits(sha, pool, a)
    ensures UniqueContent(sha, pool[a.reqId := a])
  {
  }

  lemma InsertRefinesScan(sha: Sha, ix: Index, a: Audit)
    requires Agrees(sha, ix)
    ensures Admits(sha, ix, a) <==> ScanAdmits(sha, ix.audits, a)
    ensures Insert(sha, ix, a).audits == ScanAdd(sha, ix.audits, a)
    ensures Agrees(sha, Insert(sha, ix, a))
  {
    AdmitsByScan(sha, ix, a);
    if Admits(sha, ix, a) {
      HashesWithOneMore(sha, ix.audits, a);
      InsertKeepsUnique(sha, ix.audits, a);
    }
  }

  lemma EraseAgrees(sha: Sha, ix: Index, a: Audit)
    requires Agrees(sha, ix)
    ensures Agrees(sha, Erase(sha, ix, a))
    ensures Erase(sha, ix, a).audits == ix.audits - {a.reqId}
  {
    if a.reqId in ix.audits {
      HashesWithoutOne(sha, ix.audits, a.reqId);
    }
  }

  lemma {:induction false} EraseAllRefinesWithout(sha: Sha, ix: Index, audits: seq<Audit>)
    requires Agrees(sha, ix)
    ensures Agrees(sha, EraseAll(sha, ix, audits))
    ensures EraseAll(sha, ix, audits).audits == Without(ix.audits, audits)
  {
    if audits != [] {
      var n := |audits| - 1;
      EraseAllRefinesWithout(sha, ix, audits[..n]);
      EraseAgrees(sha, EraseAll(sha, ix, audits[..n]), audits[n]);
      assert ReqIds(audits) == ReqIds(audits[..n]) + {audits[n].reqId} by {
        assert audits == audits[..n] + [audits[n]];
      }
    } else {
      assert ReqIds(audits) == {};
    }
  }

  // ---------- runs ----------

  datatype Op = Add(audit: Audit) | Remove(audits: seq<Audit>)

  /** The index after a run of calls, with the answers of the addAudit calls. */
  function RunIndexed(sha: Sha, ops: seq<Op>): (Index, seq<bool>) {
    if ops == [] then (EMPTY_INDEX, [])
    else
      var (ix, answers) := RunIndexed(sha, ops[..|ops| - 1]);
      match ops[|ops| - 1]
      case Add(a) => (Insert(sha, ix, a), answers + [Admits(sha, ix, a)])
      case Remove(audits) => (EraseAll(sha, ix, audits), answers)
  }

  function RunScan(sha: Sha, ops: seq<Op>): (Pool, seq<bool>) {
    if ops == [] then (map[], [])
    else
      var (pool, answers) := RunScan(sha, ops[..|ops| - 1]);
      match ops[|ops| - 1]
      case Add(a) => (ScanAdd(sha, pool, a), answers + [ScanAdmits(sha, pool, a)])
      case Remove(audits) => (Without(pool, audits), answers)
  }

  /** After any run of operations the index agrees with the audits, and the mempool has given the same
      answers and holds the same audits as one that scans and restricts a plain map. */
  lemma {:induction false} IndexRefinesScan(sha: Sha, ops: seq<Op>)
    ensures Agrees(sha, RunIndexed(sha, ops).0)
    ensures RunIndexed(sha, ops).0.audits == RunScan(sha, ops).0
    ensures RunIndexed(sha, ops).1 == RunScan(sha, ops).1
  {
    if ops != [] {
      IndexRefinesScan(sha, ops[..|ops| - 1]);
      var ix := RunIndexed(sha, ops[..|ops| - 1]).0;
      match ops[|ops| - 1]
      case Add(a) => InsertRefinesScan(sha, ix, a);
      case Remove(audits) => EraseAllRefinesWithout(sha, ix, audits);
    }
  }

  // ---------- what the answers mean for the audits themselves ----------

  /** The same content under any request id is refused. */
  lemma SameContentIsRefused(sha: Sha, pool: Pool, a: Audit, k: string)
    requires k in pool && SameContent(pool[k], a)
    ensures !ScanAdmits(sha, pool, a)
  {
  }

  /** A new request id and content that is not stored are accepted, when the content's text fields have no
      ':', unless a collision is found between the content strings. */
  lemma NewContentIsAdmitted(sha: Sha, pool: Pool, a: Audit)
    requires PlainContent(a) && a.reqId !in pool
    requires forall k :: k in pool ==> !SameContent(pool[k], a)
    ensures ScanAdmits(sha, pool, a) ||
      CollisionBetween(sha, {ContentString(a)}, set k | k in pool :: ContentString(pool[k]))
  {
    if !ScanAdmits(sha, pool, a) {
      var k :| k in pool && ContentHash(sha, pool[k]) == ContentHash(sha, a);
      ContentInjective(a, pool[k]);
      assert ContentString(pool[k]) in set j | j in pool :: ContentString(pool[j]);
    }
  }

  // ---------- snapshots ----------

  predicate SortedByTime(audits: seq<Audit>) {
    forall i, j :: 0 <= i < j < |audits| ==> audits[i].timestamp <= audits[j].timestamp
  }

  function AuditsAt(pool: Pool, keys: set<string>): set<Audit>
    requires keys <= pool.Keys
  {
    set k | k in keys :: pool[k]
  }

  /** The list holds every audit of the pool, once. */
  predicate Lists(pool: Pool, audits: seq<Audit>) {
    multiset(audits) == multiset(AuditsAt(pool, pool.Keys))
  }

  lemma OneMoreKey(pool: Pool, keys: set<string>, k: string)
    requires KeyedByReqId(pool) && keys <= pool.Keys && k in pool && k !in keys
    ensures multiset(AuditsAt(pool, keys + {k})) == multiset(AuditsAt(pool, keys)) + multiset{pool[k]}
  {
    assert pool[k] !in AuditsAt(pool, keys);
    assert AuditsAt(pool, keys + {k}) == AuditsAt(pool, keys) + {pool[k]};
  }

  lemma ListedReqIds(pool: Pool, audits: seq<Audit>)
    requires KeyedByReqId(pool) && Lists(pool, audits)
    ensures ReqIds(audits) == pool.Keys
    ensures Without(pool, audits) == map[]
    ensures audits == [] <==> pool == map[]
  {
    forall a | a in audits
      ensures a.reqId in pool
    {
      assert a in multiset(audits);
    }
    forall k | k in pool
      ensures k in ReqIds(audits)
    {
      assert pool[k] in multiset(audits);
    }
  }

  lemma {:induction false} AuditsAtSize(pool: Pool, keys: set<string>)
    requires KeyedByReqId(pool) && keys <= pool.Keys
    ensures |AuditsAt(pool, keys)| == |keys|
  {
    if keys == {} {
      assert AuditsAt(pool, keys) == {};
    } else {
      var k :| k in keys;
      AuditsAtSize(pool, keys - {k});
      assert keys == keys - {k} + {k};
      assert AuditsAt(pool, keys) == AuditsAt(pool, keys - {k}) + {pool[k]};
      assert pool[k] !in AuditsAt(pool, keys - {k});
    }
  }

  /** A listing holds the stored audits and no others, and as many entries as there are audits, so each
      of them once. */
  lemma ListedAudits(pool: Pool, audits: seq<Audit>)
    requires KeyedByReqId(pool) && Lists(pool, audits)
    ensures |audits| == |pool|
    ensures forall a :: a in audits <==> a.reqId in pool && pool[a.reqId] == a
  {
    AuditsAtSize(pool, pool.Keys);
    assert |audits| == |multiset(audits)| == |AuditsAt(pool, pool.Keys)|;
    forall a
      ensures a in audits <==> a.reqId in pool && pool[a.reqId] == a
    {
      assert a in audits <==> a in multiset(audits);
      assert a in multiset(audits) <==> a in AuditsAt(pool, pool.Keys);
    }
  }

  lemma InsertedStaysSorted(sorted: seq<Audit>, p: nat, a: Audit)
    requires SortedByTime(sorted) && p <= |sorted|
    requires forall j :: 0 <= j < p ==> sorted[j].timestamp <= a.timestamp
    requires forall j :: p <= j < |sorted| ==> a.timestamp <= sorted[j].timestamp
    ensures SortedByTime(sorted[..p] + [a] + sorted[p..])
    ensures multiset(sorted[..p] + [a] + sorted[p..]) == multiset(sorted) + multiset{a}
  {
    assert sorted == sorted[..p] + sorted[p..];
  }

  method InsertByTimestamp(sorted: seq<Audit>, a: Audit) returns (longer: seq<Audit>)
    requires SortedByTime(sorted)
    ensures SortedByTime(longer) && multiset(longer) == multiset(sorted) + multiset{a}
  {
    var p := |sorted|;
    while p > 0 && a.timestamp < sorted[p - 1].timestamp
      invariant 0 <= p <= |sorted|
      invariant forall j :: p <= j < |sorted| ==> a.timestamp <= sorted[j].timestamp
    {
      p := p - 1;
    }
    InsertedStaysSorted(sorted, p, a);
    longer := sorted[..p] + [a] + sorted[p..];
  }

  lemma ListGrows(pool: Pool, keys: set<string>, k: string, list: seq<Audit>)
    requires KeyedByReqId(pool) && keys <= pool.Keys && k in pool && k !in keys
    requires multiset(list) == multiset(AuditsAt(pool, keys))
    ensures multiset(list + [pool[k]]) == multiset(AuditsAt(pool, keys + {k}))
  {
    OneMoreKey(pool, keys, k);
  }

  /** std::sort by timestamp; which order equal timestamps get is not specified. */
  method SortByTimestamp(audits: seq<Audit>) returns (sorted: seq<Audit>)
    ensures multiset(sorted) == multiset(audits)
    ensures SortedByTime(sorted)
  {
    sorted := [];
    for i := 0 to |audits|
      invariant multiset(sorted) == multiset(audits[..i])
      invariant SortedByTime(sorted)
    {
      assert audits[..i + 1] == audits[..i] + [audits[i]];
      sorted := InsertByTimestamp(sorted, audits[i]);
    }
    assert audits[..|audits|] == audits;
  }

  class Mempool {
    const sha: Sha
    var audits: map<string, Audit>
    var auditHashes: set<string>

    function Contents(): Index
      reads this
    {
      Index(audits, auditHashes)
    }

    predicate Valid()
      reads this
    {
      Agrees(sha, Contents())
    }

    constructor (sha: Sha)
      ensures Valid() && this.sha == sha && Contents() == EMPTY_INDEX
    {
      this.sha := sha;
      audits, auditHashes := map[], {};
    }

    method AddAudit(audit: Audit) returns (added: bool)
      requires Valid()
      modifies this
      ensures Valid()
      ensures added == ScanAdmits(sha, old(audits), audit)
      ensures audit.reqId in old(audits) ==> !added
      ensures forall k :: k in old(audits) && SameContent(old(audits)[k], audit) ==> !added
      ensures
        PlainContent(audit) && audit.reqId !in old(audits) &&
        (forall k :: k in old(audits) ==> !SameContent(old(audits)[k], audit)) ==>
          added ||
          CollisionBetween(sha, {ContentString(audit)}, set k | k in old(audits) :: ContentString(old(audits)[k]))
      ensures audits == if added then old(audits)[audit.reqId := audit] else old(audits)
      ensures Contents() == Insert(sha, old(Contents()), audit)
    {
      InsertRefinesScan(sha, Contents(), audit);
      forall k | k in audits && SameContent(audits[k], audit)
        ensures !ScanAdmits(sha, audits, audit)
      {
        SameContentIsRefused(sha, audits, audit, k);
      }
      if PlainContent(audit) && audit.reqId !in audits &&
         forall k :: k in audits ==> !SameContent(audits[k], audit) {
        NewContentIsAdmitted(sha, audits, audit);
      }
      if audit.reqId in audits {
        return false;
      }
      var auditHash := ContentHash(sha, audit);
      if auditHash in auditHashes {
        return false;
      }
      audits := audits[audit.reqId := audit];
      auditHashes := auditHashes + {auditHash};
      return true;
    }

    /** The order of an unordered map is not specified. */
    method GetAllAudits() returns (result: seq<Audit>)
      requires Valid()
      ensures Lists(audits, result)
      ensures |result| == |audits| && forall a :: a in result <==> a.reqId in audits && audits[a.reqId] == a
    {
      result := [];
      var rest := audits.Keys;
      ghost var done: set<string> := {};
      assert multiset(result) == multiset(AuditsAt(audits, done));
      while rest != {}
        invariant done !! rest && done + rest == audits.Keys
        invariant multiset(result) == multiset(AuditsAt(audits, done))
        decreases rest
      {
        var k :| k in rest;
        ListGrows(audits, done, k, result);
        result := result + [audits[k]];
        rest := rest - {k};
        done := done + {k};
      }
      assert done == audits.Keys;
      ListedAudits(audits, result);
    }

    method GetSortedAudits() returns (result: seq<Audit>)
      requires Valid()
      ensures Lists(audits, result) && SortedByTime(result)
      ensures |result| == |audits| && forall a :: a in result <==> a.reqId in audits && audits[a.reqId] == a
      ensures forall i, j :: 0 <= i < j < |result| ==> result[i].timestamp <= result[j].timestamp
    {
      var all := GetAllAudits();
      result := SortByTimestamp(all);
      ListedAudits(audits, result);
    }

    method RemoveAudits(removed: seq<Audit>)
      requires Valid()
      modifies this
      ensures Valid()
      ensures audits == Without(old(audits), removed)
      ensures forall k :: k in audits <==> k in old(audits) && forall a :: a in removed ==> a.reqId != k
      ensures forall k :: k in audits ==> audits[k] == old(audits)[k]
      ensures Contents() == EraseAll(sha, old(Contents()), removed)
    {
      for i := 0 to |removed|
        invariant Contents() == EraseAll(sha, old(Contents()), removed[..i])
      {
        assert removed[..i + 1][..i] == removed[..i];
        var id := removed[i].reqId;
        if id in audits {
          var auditHash := ContentHash(sha, audits[id]);
          auditHashes := auditHashes - {auditHash};
          audits := audits - {id};
        }
      }
      assert removed[..|removed|] == removed;
      EraseAllRefinesWithout(sha, old(Contents()), removed);
    }

    method ContainsAudit(reqId: string) returns (found: bool)
      ensures found <==> reqId in audits
    {
      found := reqId in audits;
    }

    method Size() returns (n: nat)
      ensures n == |audits|
    {
      n := |audits|;
    }
  }
}
