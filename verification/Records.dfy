/** Audits, blocks, and the strings that are hashed for them. */
module Records {
  import opened Text
  import opened Decimal
  import opened Digests

  datatype Audit = Audit(
    reqId: string,
    fileId: string,
    fileName: string,
    userId: string,
    userName: string,
    accessType: Int32,
    timestamp: Int64,
    signature: string,
    publicKey: string)

  datatype Block = Block(
    id: Int64,
    hash: string,
    previousHash: string,
    audits: seq<Audit>,
    merkleRoot: string)

  /** The message type's default value, which getBlock returns for an unknown id. */
  const DEFAULT_BLOCK := Block(0, "", "", [], "")

  /** latestBlockHash_: empty before the first block. */
  function TipHash(chain: seq<Block>): string {
    if chain == [] then "" else chain[|chain| - 1].hash
  }

  /** What Mempool hashes: the audit without its request id. */
  function ContentString(a: Audit): string {
    a.fileId + ":" + (a.fileName + ":" + (a.userId + ":" + (a.userName + ":" +
    (ToString(a.accessType) + ":" + ToString(a.timestamp)))))
  }

  /** What a Merkle leaf hashes. */
  function LeafString(a: Audit): string {
    a.reqId + ":" + ContentString(a)
  }

  function LeafStrings(audits: seq<Audit>): seq<string> {
    seq(|audits|, i requires 0 <= i < |audits| => LeafString(audits[i]))
  }

  /** What a block hash covers. */
  function HeaderString(b: Block): string {
    ToString(b.id) + ":" + (b.previousHash + ":" + b.merkleRoot)
  }

  function BlockHash(sha: Sha, b: Block): Digest {
    sha(HeaderString(b))
  }

  predicate PlainContent(a: Audit) {
    ColonFree(a.fileId) && ColonFree(a.fileName) && ColonFree(a.userId) && ColonFree(a.userName)
  }

  predicate SameContent(a: Audit, b: Audit) {
    a.fileId == b.fileId && a.fileName == b.fileName && a.userId == b.userId &&
    a.userName == b.userName && a.accessType == b.accessType && a.timestamp == b.timestamp
  }

  lemma LeafHasColon(a: Audit)
    ensures !ColonFree(LeafString(a))
  {
    assert LeafString(a)[|a.reqId|] == ':';
  }

  lemma ColonsInContent(a: Audit)
    ensures CountColons(ContentString(a)) ==
      5 + CountColons(a.fileId) + CountColons(a.fileName) + CountColons(a.userId) + CountColons(a.userName)
  {
    var a4 := ToString(a.accessType) + ":" + ToString(a.timestamp);
    var a3 := a.userName + ":" + a4;
    var a2 := a.userId + ":" + a3;
    PrintShape(a.accessType);
    PrintShape(a.timestamp);
    CountColonsJoined(ToString(a.accessType), ToString(a.timestamp));
    CountColonsJoined(a.userName, a4);
    CountColonsJoined(a.userId, a3);
    CountColonsJoined(a.fileName, a2);
    CountColonsJoined(a.fileId, a.fileName + ":" + a2);
  }

  lemma PlainContentSplits(a: Audit, b: Audit)
    requires PlainContent(a) && PlainContent(b) && ContentString(a) == ContentString(b)
    ensures SameContent(a, b)
  {
    var a4 := ToString(a.accessType) + ":" + ToString(a.timestamp);
    var b4 := ToString(b.accessType) + ":" + ToString(b.timestamp);
    var a3, b3 := a.userName + ":" + a4, b.userName + ":" + b4;
    var a2, b2 := a.userId + ":" + a3, b.userId + ":" + b3;
    var a1, b1 := a.fileName + ":" + a2, b.fileName + ":" + b2;
    JoinSplits(a.fileId, a1, b.fileId, b1);
    JoinSplits(a.fileName, a2, b.fileName, b2);
    JoinSplits(a.userId, a3, b.userId, b3);
    JoinSplits(a.userName, a4, b.userName, b4);
    PrintShape(a.accessType);
    PrintShape(b.accessType);
    JoinSplits(ToString(a.accessType), ToString(a.timestamp), ToString(b.accessType), ToString(b.timestamp));
    PrintInjective(a.accessType, b.accessType);
    PrintInjective(a.timestamp, b.timestamp);
  }

  /** When the text fields of one audit have no ':', its content string decides the six content fields,
      against any other audit: a ':' in the other's fields would be one too many. */
  lemma ContentInjective(a: Audit, b: Audit)
    requires PlainContent(a)
    ensures ContentString(a) == ContentString(b) <==> SameContent(a, b)
  {
    if ContentString(a) == ContentString(b) {
      ColonsInContent(a);
      ColonsInContent(b);
      PlainContentSplits(a, b);
    }
  }

  /** The same for the leaf string and every audited field. */
  lemma LeafInjective(a: Audit, b: Audit)
    requires PlainContent(a) && ColonFree(a.reqId)
    ensures LeafString(a) == LeafString(b) <==> a.reqId == b.reqId && SameContent(a, b)
  {
    if LeafString(a) == LeafString(b) {
      ColonsInContent(a);
      ColonsInContent(b);
      CountColonsJoined(a.reqId, ContentString(a));
      CountColonsJoined(b.reqId, ContentString(b));
      JoinSplits(a.reqId, ContentString(a), b.reqId, ContentString(b));
      ContentInjective(a, b);
    }
  }

  // ---------- what stands where ----------

  /** The fields of the three hashed strings, between the colons and in order. */
  lemma ContentFields(a: Audit)
    requires PlainContent(a)
    ensures Fields(ContentString(a)) ==
      [a.fileId, a.fileName, a.userId, a.userName, ToString(a.accessType), ToString(a.timestamp)]
  {
    PrintShape(a.accessType);
    PrintShape(a.timestamp);
    SixFields(a.fileId, a.fileName, a.userId, a.userName, ToString(a.accessType), ToString(a.timestamp));
  }

  lemma LeafFields(a: Audit)
    requires PlainContent(a) && ColonFree(a.reqId)
    ensures Fields(LeafString(a)) ==
      [a.reqId, a.fileId, a.fileName, a.userId, a.userName, ToString(a.accessType), ToString(a.timestamp)]
  {
    var content := ContentString(a);
    ContentFields(a);
    FieldsJoined(a.reqId, content);
    assert LeafString(a) == a.reqId + ":" + content;
  }

  lemma HeaderFields(b: Block)
    requires ColonFree(b.previousHash) && ColonFree(b.merkleRoot)
    ensures Fields(HeaderString(b)) == [ToString(b.id), b.previousHash, b.merkleRoot]
  {
    PrintShape(b.id);
    FieldsJoined(ToString(b.id), b.previousHash + ":" + b.merkleRoot);
    FieldsJoined(b.previousHash, b.merkleRoot);
  }

  // ---------- and no further: a ':' in a field makes the strings ambiguous ----------

  lemma JoinedThrice(x: string, y: string, next: string, rest: string)
    ensures (x + ":" + y) + ":" + (next + ":" + rest) == x + ":" + ((y + ":" + next) + ":" + rest)
  {
  }

  /** The text after a ':' can move into the next field (of the user name, the text before it into the
      user id): another audit with the same content string. */
  lemma ColonBlursContent(a: Audit) returns (b: Audit)
    requires !PlainContent(a)
    ensures b.reqId == a.reqId && ContentString(a) == ContentString(b) && !SameContent(a, b)
  {
    var a4 := ToString(a.accessType) + ":" + ToString(a.timestamp);
    var a3 := a.userName + ":" + a4;
    if !ColonFree(a.fileId) {
      var x, y := SplitAtColon(a.fileId);
      JoinedThrice(x, y, a.fileName, a.userId + ":" + a3);
      b := a.(fileId := x, fileName := y + ":" + a.fileName);
    } else if !ColonFree(a.fileName) {
      var x, y := SplitAtColon(a.fileName);
      JoinedThrice(x, y, a.userId, a3);
      b := a.(fileName := x, userId := y + ":" + a.userId);
    } else if !ColonFree(a.userId) {
      var x, y := SplitAtColon(a.userId);
      JoinedThrice(x, y, a.userName, a4);
      b := a.(userId := x, userName := y + ":" + a.userName);
    } else {
      var x, y := SplitAtColon(a.userName);
      JoinedThrice(a.userId, x, y, a4);
      b := a.(userId := a.userId + ":" + x, userName := y);
    }
  }

  lemma ColonBlursLeaf(a: Audit) returns (b: Audit)
    requires !PlainContent(a) || !ColonFree(a.reqId)
    ensures LeafString(a) == LeafString(b) && !(a.reqId == b.reqId && SameContent(a, b))
  {
    if !PlainContent(a) {
      b := ColonBlursContent(a);
    } else {
      var x, y := SplitAtColon(a.reqId);
      JoinedThrice(x, y, a.fileId, ContentString(a)[|a.fileId| + 1..]);
      b := a.(reqId := x, fileId := y + ":" + a.fileId);
      assert ContentString(a) == a.fileId + ":" + ContentString(a)[|a.fileId| + 1..];
      assert ContentString(b) == y + ":" + a.fileId + ":" + ContentString(a)[|a.fileId| + 1..];
    }
  }

  /** The content string decides the content of an audit, among all audits, exactly when none of its
      text fields has ':'. */
  lemma ContentDecidesIff(a: Audit)
    ensures (forall b :: ContentString(a) == ContentString(b) ==> SameContent(a, b)) <==> PlainContent(a)
  {
    if PlainContent(a) {
      forall b | ContentString(a) == ContentString(b)
        ensures SameContent(a, b)
      {
        ContentInjective(a, b);
      }
    } else {
      var b := ColonBlursContent(a);
    }
  }

  /** The leaf string decides every audited field exactly when neither these nor the request id has ':'. */
  lemma LeafDecidesIff(a: Audit)
    ensures (forall b :: LeafString(a) == LeafString(b) ==> a.reqId == b.reqId && SameContent(a, b)) <==>
      PlainContent(a) && ColonFree(a.reqId)
  {
    if PlainContent(a) && ColonFree(a.reqId) {
      forall b | LeafString(a) == LeafString(b)
        ensures a.reqId == b.reqId && SameContent(a, b)
      {
        LeafInjective(a, b);
      }
    } else {
      var b := ColonBlursLeaf(a);
    }
  }

  /** A header string decides its three parts. */
  lemma HeaderInjective(b: Block, c: Block)
    requires ColonFree(b.previousHash) && ColonFree(c.previousHash)
    requires HeaderString(b) == HeaderString(c)
    ensures b.id == c.id && b.previousHash == c.previousHash && b.merkleRoot == c.merkleRoot
  {
    PrintShape(b.id);
    PrintShape(c.id);
    JoinSplits(ToString(b.id), b.previousHash + ":" + b.merkleRoot, ToString(c.id), c.previousHash + ":" + c.merkleRoot);
    PrintInjective(b.id, c.id);
    JoinSplits(b.previousHash, b.merkleRoot, c.previousHash, c.merkleRoot);
  }
}
