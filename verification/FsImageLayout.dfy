/** Every byte of a file-system image, by its place: what an accepted image holds where, what the exporter
    writes where, and what the importer reads from there (kernel/runtime_fs_image.c). */
module FsImageLayout {
  import opened FsModel
  import opened FsSound
  import opened FsValidate
  import opened FsHash
  import opened FsImage
  import opened FsImageBytes
  import opened FsImageTrips

  // ---------------------------------------------------------------- words and hashes

  /** The little-endian word at `at`. */
  function Le(b: seq<Byte>, at: nat): nat
    requires at + 4 <= |b|
  {
    b[at] as int + 0x100 * (b[at + 1] as int) + 0x1_0000 * (b[at + 2] as int) + 0x100_0000 * (b[at + 3] as int)
  }

  lemma WordIsLittleEndian(v: U32)
    ensures Le(Word(v), 0) == v && Word(0x31465354) == [0x54, 0x53, 0x46, 0x31]
  {
    LoadUndoesWord(v);
  }

  /** A hash takes the bytes from the first to the last, each into what the ones before it have given. */
  lemma {:induction false} HashTakesBytes(mix: Mix, hash: U32, bytes: seq<Byte>)
    ensures HashFrom(mix, hash, bytes) == if bytes == [] then hash else HashFrom(mix, mix(hash, bytes[0]), bytes[1..])
    ensures HashBytes(mix, bytes) == HashFrom(mix, 0x811C9DC5, bytes)
  {
    if bytes != [] {
      assert bytes == [bytes[0]] + bytes[1..];
      HashAppend(mix, hash, [bytes[0]], bytes[1..]);
      assert [bytes[0]][..0] == [];
      assert HashFrom(mix, hash, []) == hash;
    }
  }

  /** A tree hash takes the left child first: with a mixing step that keeps only its last byte, it is the top
      byte of the right child. */
  lemma TreeHashIs(mix: Mix, left: U32, right: U32)
    ensures TreeHash(mix, left, right) == HashFrom(mix, HashFrom(mix, 0x811C9DC5, Word(left)), Word(right))
    ensures TreeHash((h: U32, b: Byte) => b, left, right) == right / 0x100_0000
  {
    HashAppend(mix, 0x811C9DC5, Word(left), Word(right));
  }

  /** A single leaf is its own root; of more, the root is the hash of the root of the first half and then that of
      the second. */
  lemma MerkleRootIs(mix: Mix, leaves: seq<U32>)
    requires IsPow2(|leaves|)
    ensures |leaves| == 1 ==> MerkleRoot(mix, leaves) == leaves[0]
    ensures |leaves| > 1 ==>
      var half := |leaves| / 2;
      && IsPow2(half) && half == |leaves| - half
      && MerkleRoot(mix, leaves) == HashFrom(mix, HashFrom(mix, 0x811C9DC5, Word(MerkleRoot(mix, leaves[..half]))),
                                             Word(MerkleRoot(mix, leaves[half..])))
  {
    hide HashFrom, TreeHash;
    if |leaves| > 1 {
      TreeHashIs(mix, MerkleRoot(mix, leaves[..|leaves| / 2]), MerkleRoot(mix, leaves[|leaves| / 2..]));
    }
  }

  // ---------------------------------------------------------------- an accepted image

  /** Where the hash tree begins, and where the payloads do. */
  function TreeAt(b: seq<Byte>): nat
    requires |b| >= 40
  {
    40 + 56 * Le(b, 12)
  }

  function DataAt(b: seq<Byte>): nat
    requires |b| >= 40
  {
    TreeAt(b) + 4 * Le(b, 24)
  }

  /** The header: the magic bytes, the version, the sizes of header and record, how many records, leaves and
      hashes there are, how many bytes of payload, and the size of it all. */
  ghost predicate HeaderLaidOut(b: seq<Byte>) {
    && |b| >= 40 && b[..4] == [0x54, 0x53, 0x46, 0x31] && Le(b, 4) == 1 && Le(b, 8) == 40 && Le(b, 16) == 56
    && 1 <= Le(b, 12) <= Le(b, 20) && Le(b, 20) in {1, 2, 4, 8, 16} && Le(b, 24) == 2 * Le(b, 20) - 1
    && Le(b, 36) == |b| == DataAt(b) + Le(b, 28)
  }

  /** The hash of the payload of record `k`, and that of the record: of all its bytes but the hash itself. */
  ghost predicate RecordLaidOut(mix: Mix, b: seq<Byte>, k: nat)
    requires HeaderLaidOut(b) && k < Le(b, 12)
  {
    var at := 40 + 56 * k;
    && Le(b, at + 24) + Le(b, at + 28) <= Le(b, 28)
    && Le(b, at + 32) == HashFrom(mix, 0x811C9DC5, b[DataAt(b) + Le(b, at + 24)..DataAt(b) + Le(b, at + 24) + Le(b, at + 28)])
    && Le(b, at + 36) == HashFrom(mix, 0x811C9DC5, b[at..at + 36] + b[at + 40..at + 56])
  }

  /** The leaves are the hashes of the records, and the empty hash after them. Every inner word is the hash of the
      eight bytes of its two children, the left ones first. The root is in the header too. */
  ghost predicate TreeLaidOut(mix: Mix, b: seq<Byte>)
    requires HeaderLaidOut(b)
  {
    var t, leaves := TreeAt(b), Le(b, 20);
    && (forall j :: 0 <= j < leaves ==> Le(b, t + 4 * (leaves - 1 + j)) == if j < Le(b, 12) then Le(b, 40 + 56 * j + 36) else 0x811C9DC5)
    && (forall p :: 0 <= p < leaves - 1 ==> Le(b, t + 4 * p) == HashFrom(mix, 0x811C9DC5, b[t + 8 * p + 4..t + 8 * p + 12]))
    && Le(b, 32) == Le(b, t)
  }

  ghost predicate LaidOut(mix: Mix, b: seq<Byte>) {
    && HeaderLaidOut(b) && TreeLaidOut(mix, b)
    && forall k :: 0 <= k < Le(b, 12) ==> RecordLaidOut(mix, b, k)
  }

  lemma HeaderIsLaidOut(b: seq<Byte>)
    requires HeaderOk(b)
    ensures HeaderLaidOut(b)
  {
    hide IsPow2, NextPow2;
    WordUndoesLoad(b, 0);
    assert b[0..4] == b[..4];
    OwnPowerIsPow2(Le(b, 20));
    SmallPowers(Le(b, 20));
  }

  lemma SmallPowers(n: nat)
    ensures IsPow2(n) && n <= 16 ==> n in {1, 2, 4, 8, 16}
  {
    if IsPow2(n) && 1 < n <= 16 { SmallPowers(n / 2); }
  }

  lemma {:induction false} RecordAt(b: seq<Byte>, n: nat, k: nat)
    requires 40 + 56 * n <= |b| && k < n
    ensures ReadRecords(b, 40, n)[k] == ReadRecord(b, 40 + 56 * k)
    decreases n
  {
    hide ReadRecord;
    if k < n - 1 { RecordAt(b, n - 1, k); }
  }

  lemma StatusGivesHashes(mix: Mix, img: Image, k: nat)
    requires k < |img.records| && RecordStatus(mix, img, k) == OK
    ensures var r := img.records[k];
      && r.dataOffset + r.dataSize <= |img.data| && r.objectHash == ObjectHash(mix, r)
      && r.dataHash == HashBytes(mix, img.data[r.dataOffset..r.dataOffset + r.dataSize])
  {
    hide HashFrom, NameOf, DataEnd, Words;
  }

  /** The hash of a record is taken over its bytes without the word of the hash itself. */
  lemma ObjectHashAt(mix: Mix, b: seq<Byte>, at: nat)
    requires at + 56 <= |b|
    ensures ObjectHash(mix, ReadRecord(b, at)) == HashFrom(mix, 0x811C9DC5, b[at..at + 36] + b[at + 40..at + 56])
  {
    hide HashFrom, Load, Words;
    WordsUndoesLoadWords(b, at, 9);
    FieldsAt(b, at);
  }

  lemma RecordIsLaidOut(mix: Mix, b: seq<Byte>, k: nat)
    requires HeaderOk(b) && HeaderLaidOut(b) && k < Le(b, 12) && k < |Parse(b).records| && RecordStatus(mix, Parse(b), k) == OK
    ensures RecordLaidOut(mix, b, k)
  {
    hide HashFrom, Load, Le, ReadRecord, HeaderOk, HeaderLaidOut, RecordStatus, ObjectHash;
    var at, r := 40 + 56 * k, Parse(b).records[k];
    WordsAreLoads(b);
    TreeFits(b);
    RecordAt(b, Le(b, 12), k);
    StatusGivesHashes(mix, Parse(b), k);
    ObjectHashAt(mix, b, at);
    RecordWords(b, at);
    SliceOfRest(b, DataAt(b), r.dataOffset, r.dataSize);
  }

  lemma RecordWords(b: seq<Byte>, at: nat)
    requires at + 56 <= |b|
    ensures var r := ReadRecord(b, at);
      && Le(b, at) == r.node && Le(b, at + 4) == r.kind && Le(b, at + 8) == r.parent && Le(b, at + 12) == r.owner
      && Le(b, at + 16) == r.mode && Le(b, at + 20) == r.size && Le(b, at + 24) == r.dataOffset && Le(b, at + 28) == r.dataSize
      && Le(b, at + 32) == r.dataHash && Le(b, at + 36) == r.objectHash && b[at + 40..at + 56] == r.name
  {
  }

  lemma SliceOfRest(b: seq<Byte>, start: nat, offset: nat, size: nat)
    requires start + offset + size <= |b|
    ensures b[start..][offset..offset + size] == b[start + offset..start + offset + size]
  {
  }

  lemma LoadIsLe(b: seq<Byte>, at: nat)
    requires at + 4 <= |b|
    ensures Load(b, at) == Le(b, at)
  {
  }

  /** The words of the header are what they were loaded as. */
  lemma WordsAreLoads(b: seq<Byte>)
    requires HeaderOk(b)
    ensures |b| >= 40 && Load(b, 12) == Le(b, 12) && Load(b, 20) == Le(b, 20) && Load(b, 24) == Le(b, 24) && Load(b, 28) == Le(b, 28)
    ensures Load(b, 32) == Le(b, 32) && TreeOffset(b) == TreeAt(b) && DataOffset(b) == DataAt(b)
    ensures DataOffset(b) + Le(b, 28) == |b| && |Parse(b).data| == Le(b, 28) && |Parse(b).records| == Le(b, 12)
  {
  }

  lemma FieldsAt(b: seq<Byte>, at: nat)
    requires at + 56 <= |b|
    ensures LoadWords(b, at, 9) == Fields(ReadRecord(b, at))
  {
    hide Load;
    var loaded, fields := LoadWords(b, at, 9), Fields(ReadRecord(b, at));
    assert loaded[0] == Load(b, at + 4 * 0) && loaded[1] == Load(b, at + 4 * 1) && loaded[2] == Load(b, at + 4 * 2);
    assert loaded[3] == Load(b, at + 4 * 3) && loaded[4] == Load(b, at + 4 * 4) && loaded[5] == Load(b, at + 4 * 5);
    assert loaded[6] == Load(b, at + 4 * 6) && loaded[7] == Load(b, at + 4 * 7) && loaded[8] == Load(b, at + 4 * 8);
  }

  lemma TreeIsLaidOut(mix: Mix, b: seq<Byte>)
    requires HeaderOk(b) && HeaderLaidOut(b) && TreeOk(mix, b)
    ensures TreeLaidOut(mix, b)
  {
    hide HashFrom, Load, Le, HeaderOk, HeaderLaidOut, ReadRecord;
    WordsAreLoads(b);
    var t, leaves, heap := TreeAt(b), Le(b, 20), LoadWords(b, TreeAt(b), Le(b, 24));
    TreeFits(b);
    forall j | 0 <= j < leaves ensures Le(b, t + 4 * (leaves - 1 + j)) == if j < Le(b, 12) then Le(b, 40 + 56 * j + 36) else 0x811C9DC5 {
      LeafWord(b, heap, j);
    }
    forall p | 0 <= p < leaves - 1 ensures Le(b, t + 4 * p) == HashFrom(mix, 0x811C9DC5, b[t + 8 * p + 4..t + 8 * p + 12]) {
      InnerWord(mix, b, t, leaves, p);
    }
    assert Le(b, 32) == Le(b, t) by {
      LoadIsLe(b, t);
      assert heap[0] == Load(b, t + 4 * 0);
    }
  }

  lemma TreeFits(b: seq<Byte>)
    requires HeaderLaidOut(b)
    ensures Le(b, 20) >= 1 && Le(b, 12) <= Le(b, 20) && Le(b, 24) == 2 * Le(b, 20) - 1
    ensures TreeAt(b) == 40 + 56 * Le(b, 12) && TreeAt(b) + 4 * (2 * Le(b, 20) - 1) <= |b|
  {
  }

  lemma LeafWord(b: seq<Byte>, heap: seq<U32>, j: nat)
    requires HeaderOk(b) && HeaderLaidOut(b) && j < Le(b, 20) && heap == LoadWords(b, TreeAt(b), Le(b, 24))
    requires Parse(b).leafCount == Le(b, 20) && heap[Le(b, 20) - 1..] == Leaves(Parse(b))
    ensures TreeAt(b) + 4 * (Le(b, 20) - 1 + j) + 4 <= |b| && (j < Le(b, 12) ==> 40 + 56 * j + 40 <= |b|)
    ensures Le(b, TreeAt(b) + 4 * (Le(b, 20) - 1 + j)) == if j < Le(b, 12) then Le(b, 40 + 56 * j + 36) else 0x811C9DC5
  {
    hide Load, Le, HeaderOk, HeaderLaidOut, ReadRecord;
    WordsAreLoads(b);
    TreeFits(b);
    assert heap[Le(b, 20) - 1..][j] == heap[Le(b, 20) - 1 + j];
    LoadIsLe(b, TreeAt(b) + 4 * (Le(b, 20) - 1 + j));
    if j < Le(b, 12) {
      RecordAt(b, Le(b, 12), j);
      RecordWords(b, 40 + 56 * j);
    }
  }

  lemma InnerWord(mix: Mix, b: seq<Byte>, t: nat, leaves: nat, p: nat)
    requires p + 1 < leaves && t + 4 * (2 * leaves - 1) <= |b|
    requires var heap := LoadWords(b, t, 2 * leaves - 1); heap[p] == TreeHash(mix, heap[2 * p + 1], heap[2 * p + 2])
    ensures Le(b, t + 4 * p) == HashFrom(mix, 0x811C9DC5, b[t + 8 * p + 4..t + 8 * p + 12])
  {
    hide HashFrom, Load, Le, Word;
    var a := t + 8 * p + 4;
    LoadIsLe(b, t + 4 * p);
    assert a == t + 4 * (2 * p + 1) && a + 4 == t + 4 * (2 * p + 2);
    WordUndoesLoad(b, a);
    WordUndoesLoad(b, a + 4);
    assert b[a..a + 4] + b[a + 4..a + 8] == b[a..a + 8];
  }

  /** Every image that is accepted is laid out like this, and so every image that the exporter writes. */
  lemma AcceptedIsLaidOut(mix: Mix, b: seq<Byte>)
    requires Checked(mix, b) == OK
    ensures LaidOut(mix, b)
  {
    hide Load, ParentOk, AnyClash, TreeOk, HeaderOk, HeaderLaidOut, TreeLaidOut, RecordLaidOut, Checked, RecordStatus, Parse;
    CheckedParts(mix, b);
    HeaderIsLaidOut(b);
    TreeIsLaidOut(mix, b);
    WordsAreLoads(b);
    RecordsStatusIs(mix, Parse(b), 0);
    forall k | 0 <= k < Le(b, 12) ensures RecordLaidOut(mix, b, k) { RecordIsLaidOut(mix, b, k); }
  }

  // ---------------------------------------------------------------- an exported image

  /** How many of the first `n` nodes are in use, and how many bytes the files among them hold. */
  function UsedBefore(nodes: seq<Node>, n: nat): nat
    requires n <= |nodes|
  {
    if n == 0 then 0 else UsedBefore(nodes, n - 1) + if nodes[n - 1].used then 1 else 0
  }

  function BytesBefore(nodes: seq<Node>, n: nat): nat
    requires n <= |nodes|
  {
    if n == 0 then 0
    else BytesBefore(nodes, n - 1) + if nodes[n - 1].used && nodes[n - 1].kind == 1 then nodes[n - 1].size else 0
  }

  lemma {:induction false} ExportCounts(mix: Mix, nodes: seq<Node>, k: nat)
    requires Exportable(nodes) && k <= |nodes|
    ensures |RecordsOf(mix, nodes, k)| == UsedBefore(nodes, k) && |Payloads(nodes, k)| == BytesBefore(nodes, k)
    decreases k
  {
    hide RecordOf;
    if k > 0 {
      ExportCounts(mix, nodes, k - 1);
      if nodes[k - 1].used { PayloadLength(nodes[k - 1]); }
    }
  }

  lemma PayloadLength(node: Node)
    requires SizeFits(node)
    ensures PayloadOf(node) == FileBytes(node) && |PayloadOf(node)| == if node.kind == 1 then node.size else 0
  {
  }

  /** The record of node `i` has its place among the nodes in use, and its payload behind those before it. */
  lemma {:induction false} ExportedAt(mix: Mix, nodes: seq<Node>, k: nat, i: nat)
    requires Exportable(nodes) && i < k <= |nodes| && nodes[i].used
    ensures |Payloads(nodes, i)| < UINT32 && UsedBefore(nodes, i) < |RecordsOf(mix, nodes, k)|
    ensures RecordsOf(mix, nodes, k)[UsedBefore(nodes, i)] == RecordOf(mix, nodes[i], i, |Payloads(nodes, i)|)
    ensures |Payloads(nodes, i)| + |PayloadOf(nodes[i])| <= |Payloads(nodes, k)|
    ensures Payloads(nodes, k)[|Payloads(nodes, i)|..|Payloads(nodes, i)| + |PayloadOf(nodes[i])|] == PayloadOf(nodes[i])
    decreases k
  {
    hide RecordOf, PayloadOf;
    ExportCounts(mix, nodes, i);
    if i < k - 1 { ExportedAt(mix, nodes, k - 1, i); }
  }

  /** The contents of a file; a directory has none. */
  function FileBytes(node: Node): seq<Byte>
    requires node.kind == 1 ==> node.size <= |node.data|
  {
    if node.kind == 1 then node.data[..node.size] else []
  }

  /** The 56 bytes of the record of node `i`: its fields, the place and the hash of its payload, and its name with
      zeros behind it. */
  ghost predicate HoldsNode(mix: Mix, b: seq<Byte>, at: nat, node: Node, i: nat, offset: nat)
    requires node.kind == 1 ==> node.size <= |node.data|
  {
    && at + 56 <= |b| && Le(b, at) == i && Le(b, at + 4) == node.kind && Le(b, at + 8) == node.parent && Le(b, at + 12) == node.owner
    && Le(b, at + 16) == node.mode && Le(b, at + 20) == node.size && Le(b, at + 24) == offset && Le(b, at + 28) == |FileBytes(node)|
    && Le(b, at + 32) == HashFrom(mix, 0x811C9DC5, FileBytes(node))
    && |node.name| < 16 && forall j :: 0 <= j < 16 ==> b[at + 40 + j] as int == if j < |node.name| then node.name[j] as int else 0
  }

  ghost predicate HoldsBytes(b: seq<Byte>, at: nat, bytes: seq<Byte>) {
    at + |bytes| <= |b| && b[at..at + |bytes|] == bytes
  }

  /** The records follow the header in the order of the nodes in use, and the payloads the hash tree likewise. */
  ghost predicate NodeLaidOut(mix: Mix, b: seq<Byte>, nodes: seq<Node>, i: nat)
    requires i < |nodes| && (nodes[i].kind == 1 ==> nodes[i].size <= |nodes[i].data|)
  {
    && |b| >= 40
    && HoldsNode(mix, b, 40 + 56 * UsedBefore(nodes, i), nodes[i], i, BytesBefore(nodes, i))
    && HoldsBytes(b, DataAt(b) + BytesBefore(nodes, i), FileBytes(nodes[i]))
  }

  /** Every byte that the exporter writes for a file system. */
  lemma ExportIsLaidOut(mix: Mix, fs: Fs, i: nat)
    requires Sound(fs) && |fs.nodes| == 16 && i < 16
    ensures Exportable(fs.nodes) && Sized(ExportedImage(mix, fs.nodes))
    ensures fs.nodes[i].size <= |fs.nodes[i].data|
    ensures var b := Serialize(mix, ExportedImage(mix, fs.nodes));
      && LaidOut(mix, b) && Le(b, 12) == UsedBefore(fs.nodes, 16) && Le(b, 28) == BytesBefore(fs.nodes, 16)
      && Le(b, 12) <= Le(b, 20) < 2 * Le(b, 12)
      && (fs.nodes[i].used ==> NodeLaidOut(mix, b, fs.nodes, i))
  {
    hide Sound, LaidOut, Serialize, WellFormedImage, Checked, RecordsOf, Payloads, Exportable, NodeLaidOut, Parse, HeaderOk, Le, NextPow2;
    ExportIsWellFormed(mix, fs);
    NodeSizes(fs, i);
    var img := ExportedImage(mix, fs.nodes);
    WellFormedIsSized(mix, img);
    SerializedIsAccepted(mix, img);
    AcceptedIsLaidOut(mix, Serialize(mix, img));
    ExportCounts(mix, fs.nodes, 16);
    WordsAreLoads(Serialize(mix, img));
    LeafCountIs(Serialize(mix, img), |img.records|);
    if fs.nodes[i].used { NodeIsLaidOut(mix, fs.nodes, i); }
  }

  lemma LeafCountIs(b: seq<Byte>, n: nat)
    requires HeaderOk(b) && Parse(b).leafCount == NextPow2(n) && Le(b, 12) == n
    ensures n <= Le(b, 20) < 2 * n
  {
    hide Load, ReadRecords;
    WordsAreLoads(b);
    PowerIsClose(n, 1);
  }

  lemma {:induction false} PowerIsClose(value: nat, power: nat)
    requires power > 0 && (power < 2 * value)
    ensures NextPow2From(value, power) < 2 * value
    decreases value - power
  {
    if power < value { PowerIsClose(value, 2 * power); }
  }

  lemma NodeSizes(fs: Fs, i: nat)
    requires Sound(fs) && i < |fs.nodes|
    ensures fs.nodes[i].size <= |fs.nodes[i].data|
  {
    assert NodeOk(fs.nodes[i]);
  }

  lemma NodeIsLaidOut(mix: Mix, nodes: seq<Node>, i: nat)
    requires Exportable(nodes) && |nodes| == 16 && i < 16 && nodes[i].used && nodes[i].size <= |nodes[i].data|
    requires var img := ExportedImage(mix, nodes); Sized(img) && IsPow2(img.leafCount)
    ensures NodeLaidOut(mix, Serialize(mix, ExportedImage(mix, nodes)), nodes, i)
  {
    hide Serialize, RecordsOf, Payloads, Parse, HeaderOk, Le, NextPow2, RecordOf, ReadRecord, Load, IsPow2, HoldsNode, PayloadOf;
    var img := ExportedImage(mix, nodes);
    var b, k := Serialize(mix, img), UsedBefore(nodes, i);
    ParseOfSerialized(mix, img);
    WordsAreLoads(b);
    ParsedRecords(b);
    ExportedAt(mix, nodes, 16, i);
    ExportCounts(mix, nodes, i);
    RecordAt(b, |img.records|, k);
    PayloadLength(nodes[i]);
    RecordHoldsNode(mix, b, 40 + 56 * k, nodes[i], i, |Payloads(nodes, i)|);
    SliceOfRest(b, DataAt(b), |Payloads(nodes, i)|, |PayloadOf(nodes[i])|);
  }

  lemma RecordHoldsNode(mix: Mix, b: seq<Byte>, at: nat, node: Node, i: U32, offset: U32)
    requires at + 56 <= |b| && SizeFits(node) && |node.name| < NAME_CAPACITY && |node.data| < UINT32
    requires ReadRecord(b, at) == RecordOf(mix, node, i, offset)
    ensures HoldsNode(mix, b, at, node, i, offset)
  {
    hide ReadRecord, RecordOf, HashFrom, Le;
    RecordOfHas(mix, node, i, offset);
    RecordWords(b, at);
    PayloadLength(node);
    forall j | 0 <= j < 16 ensures b[at + 40 + j] as int == if j < |node.name| then node.name[j] as int else 0 {
      assert b[at + 40 + j] == b[at + 40..at + 56][j];
    }
  }

  lemma ParsedRecords(b: seq<Byte>)
    requires HeaderOk(b)
    ensures |b| >= 40 && 40 + 56 * Le(b, 12) <= DataAt(b) <= |b|
    ensures Parse(b).records == ReadRecords(b, 40, Le(b, 12)) && Parse(b).data == b[DataAt(b)..]
  {
    hide ReadRecords;
    WordsAreLoads(b);
  }

  // ---------------------------------------------------------------- names in their fields

  /** A name field holds the bytes up to its first zero; a node takes fifteen of them at the most. */
  lemma {:induction false} NameEndsAtZero(b: seq<Byte>)
    ensures var name := NameOf(b);
      && |name| <= |b| && (|name| < |b| ==> b[|name|] == 0) && forall k :: 0 <= k < |name| ==> b[k] != 0 && name[k] as int == b[k] as int
  {
    if b != [] && b[0] != 0 { NameEndsAtZero(b[1..]); }
  }

  lemma CopyTakesFifteen(field: NameField)
    ensures CopiedName(field) == if |NameOf(field)| > 15 then NameOf(field)[..15] else NameOf(field)
  {
  }

  /** Two names are one when they agree up to a zero that both have. */
  lemma SameNameIs(a: NameField, b: NameField)
    ensures SameName(a, b) <==> exists n :: 0 <= n < 16 && a[n] == b[n] == 0 && forall k :: 0 <= k < n ==> a[k] == b[k] != 0
  {
    NameEndsAtZero(a);
    NameEndsAtZero(b);
    if SameName(a, b) {
      var n := |NameOf(a)|;
      NameOfFull(a);
      assert a[n] == b[n] == 0;
    }
    if n :| 0 <= n < 16 && a[n] == b[n] == 0 && forall k :: 0 <= k < n ==> a[k] == b[k] != 0 {
      assert |NameOf(a)| == n && |NameOf(b)| == n;
    }
  }

  // ---------------------------------------------------------------- the answers of the image validator

  /** The fault of record `i`: EINVAL for a node that is none, EEXIST for one that had a record, EINVAL out of
      order, for an unknown kind or a payload of another size than the file, ENOSPC for a file too large, EINVAL
      for a payload out of place, a root that is not one, an entry without a proper name, or a wrong hash. */
  ghost function RecordFault(mix: Mix, img: Image, i: nat): Status
    requires i < |img.records|
  {
    var r, rs := img.records[i], img.records;
    if r.node >= 16 then EINVAL
    else if exists j :: 0 <= j < i && rs[j].node == r.node then EEXIST
    else if (if i == 0 then r.node != 0 else r.node <= rs[i - 1].node) then EINVAL
    else if r.kind !in {1, 2} || r.dataSize != (if r.kind == 1 then r.size else 0) then EINVAL
    else if r.size > 256 then ENOSPC
    else if r.dataOffset != SizesBefore(rs, i) || r.dataOffset + r.dataSize > |img.data| then EINVAL
    else if i == 0 && !(r.parent == 0 && r.kind == 2 && r.name[0] == 47 && r.name[1] == 0) then EINVAL
    else if i > 0 && (r.name[0] == 0 || (r.name[0] == 47 && r.name[1] == 0)) then EINVAL
    else if r.dataHash != HashFrom(mix, 0x811C9DC5, img.data[r.dataOffset..r.dataOffset + r.dataSize]) then EINVAL
    else if r.objectHash != HashFrom(mix, 0x811C9DC5, RecordBytes(r)[..36] + r.name) then EINVAL
    else OK
  }

  /** The payload bytes of the first `n` records. */
  function SizesBefore(rs: seq<Record>, n: nat): nat
    requires n <= |rs|
  {
    if n == 0 then 0 else SizesBefore(rs, n - 1) + rs[n - 1].dataSize
  }

  lemma {:induction false} SizesAreDataEnd(rs: seq<Record>, n: nat)
    requires n <= |rs|
    ensures DataEnd(rs[..n]) == SizesBefore(rs, n)
    decreases n
  {
    if n > 0 {
      SizesAreDataEnd(rs, n - 1);
      assert rs[..n][..n - 1] == rs[..n - 1];
    }
  }

  lemma RecordFaultIs(mix: Mix, img: Image, i: nat)
    requires i < |img.records|
    ensures RecordStatus(mix, img, i) == RecordFault(mix, img, i)
  {
    hide HashFrom, NameOf, DataEnd, Words;
    SizesAreDataEnd(img.records, i);
    var r := img.records[i];
    FieldsComeFirst(r);
  }

  lemma FieldsComeFirst(r: Record)
    ensures RecordBytes(r)[..36] == Words(Fields(r))
  {
    var vs := Fields(r) + [r.objectHash];
    assert vs[..|vs| - 1] == Fields(r);
  }

  /** The header is legal exactly when it is laid out, and so is the hash tree. */
  lemma HeaderExactly(b: seq<Byte>)
    ensures HeaderOk(b) <==> HeaderLaidOut(b)
  {
    hide IsPow2, NextPow2;
    if HeaderOk(b) { HeaderIsLaidOut(b); }
    if HeaderLaidOut(b) {
      assert b[0] == b[..4][0] && b[1] == b[..4][1] && b[2] == b[..4][2] && b[3] == b[..4][3];
      PowersAreSmall();
      OwnPowerIsPow2(Le(b, 20));
    }
  }

  lemma PowersAreSmall()
    ensures IsPow2(1) && IsPow2(2) && IsPow2(4) && IsPow2(8) && IsPow2(16)
  {
  }

  lemma TreeExactly(mix: Mix, b: seq<Byte>)
    requires HeaderOk(b) && HeaderLaidOut(b)
    ensures TreeOk(mix, b) <==> TreeLaidOut(mix, b)
  {
    hide HashFrom, Load, Le, HeaderOk, HeaderLaidOut, ReadRecord, TreeHash;
    if TreeOk(mix, b) { TreeIsLaidOut(mix, b); }
    if TreeLaidOut(mix, b) {
      WordsAreLoads(b);
      TreeFits(b);
      var t, leaves, heap := TreeAt(b), Le(b, 20), LoadWords(b, TreeAt(b), Le(b, 24));
      forall j | 0 <= j < leaves ensures heap[leaves - 1..][j] == Leaves(Parse(b))[j] { LeafIs(b, heap, j); }
      forall p | 0 <= p < leaves - 1 ensures heap[p] == TreeHash(mix, heap[2 * p + 1], heap[2 * p + 2]) { InnerIs(mix, b, t, leaves, p); }
      LoadIsLe(b, t);
      assert heap[0] == Load(b, t + 4 * 0);
    }
  }

  lemma LeafIs(b: seq<Byte>, heap: seq<U32>, j: nat)
    requires HeaderOk(b) && HeaderLaidOut(b) && j < Le(b, 20) && heap == LoadWords(b, TreeAt(b), Le(b, 24))
    requires Parse(b).leafCount == Le(b, 20)
    requires TreeAt(b) + 4 * (Le(b, 20) - 1 + j) + 4 <= |b| && (j < Le(b, 12) ==> 40 + 56 * j + 40 <= |b|)
    requires Le(b, TreeAt(b) + 4 * (Le(b, 20) - 1 + j)) == if j < Le(b, 12) then Le(b, 40 + 56 * j + 36) else 0x811C9DC5
    ensures heap[Le(b, 20) - 1..][j] == Leaves(Parse(b))[j]
  {
    hide Load, Le, HeaderOk, HeaderLaidOut, ReadRecord;
    WordsAreLoads(b);
    TreeFits(b);
    assert heap[Le(b, 20) - 1..][j] == heap[Le(b, 20) - 1 + j];
    LoadIsLe(b, TreeAt(b) + 4 * (Le(b, 20) - 1 + j));
    if j < Le(b, 12) {
      RecordAt(b, Le(b, 12), j);
      RecordWords(b, 40 + 56 * j);
    }
  }

  lemma InnerIs(mix: Mix, b: seq<Byte>, t: nat, leaves: nat, p: nat)
    requires p + 1 < leaves && t + 4 * (2 * leaves - 1) <= |b|
    requires Le(b, t + 4 * p) == HashFrom(mix, 0x811C9DC5, b[t + 8 * p + 4..t + 8 * p + 12])
    ensures var heap := LoadWords(b, t, 2 * leaves - 1); heap[p] == TreeHash(mix, heap[2 * p + 1], heap[2 * p + 2])
  {
    hide HashFrom, Load, Le, Word;
    var a := t + 8 * p + 4;
    LoadIsLe(b, t + 4 * p);
    assert a == t + 4 * (2 * p + 1) && a + 4 == t + 4 * (2 * p + 2);
    WordUndoesLoad(b, a);
    WordUndoesLoad(b, a + 4);
    assert b[a..a + 4] + b[a + 4..a + 8] == b[a..a + 8];
  }

  lemma {:induction false} FirstRecordFault(mix: Mix, img: Image, from: nat, k: nat)
    requires from <= k <= |img.records| && (forall j :: from <= j < k ==> RecordFault(mix, img, j) == OK)
    requires k < |img.records| ==> RecordFault(mix, img, k) != OK
    ensures RecordsStatus(mix, img, from) == if k < |img.records| then RecordFault(mix, img, k) else OK
    decreases k - from
  {
    hide RecordFault, RecordStatus;
    if from < |img.records| { RecordFaultIs(mix, img, from); }
    if from < k { FirstRecordFault(mix, img, from + 1, k); }
  }

  /** Two siblings have one name. */
  ghost predicate Clashes(img: Image) {
    exists i, j :: 0 <= i < j < |img.records| && img.records[i].parent == img.records[j].parent
                   && SameName(img.records[i].name, img.records[j].name)
  }

  /** The answer when no record has a fault. */
  ghost function AfterRecords(mix: Mix, b: seq<Byte>): Status
    requires HeaderOk(b)
  {
    var img := Parse(b);
    if SizesBefore(img.records, |img.records|) != |img.data| then EINVAL
    else if !RecordsFit(img) || exists i :: 0 <= i < |img.records| && !Hangs(img, i) then EINVAL
    else if Clashes(img) then EEXIST
    else if !HeaderLaidOut(b) || !TreeLaidOut(mix, b) then EINVAL
    else OK
  }

  lemma AfterRecordsIs(mix: Mix, b: seq<Byte>)
    requires HeaderOk(b) && RecordsStatus(mix, Parse(b), 0) == OK
    ensures Checked(mix, b) == AfterRecords(mix, b)
  {
    hide Parse, HeaderOk, HeaderLaidOut, RecordsStatus, ParentOk, Hangs, TreeOk, TreeLaidOut, SameName, RecordFits, RecordsFit;
    var img := Parse(b);
    HeaderExactly(b);
    SizesAreDataEnd(img.records, |img.records|);
    assert img.records[..|img.records|] == img.records;
    TreeExactly(mix, b);
    CheckedRecordsFit(mix, img);
    RecordsStatusIsFits(mix, img);
    HasRecords(b);
    ParentsAreExact(mix, img);
    assert AnyClash(img) <==> Clashes(img) by {
      forall i, j | 0 <= i < |img.records| && 0 <= j < |img.records|
        ensures Clash(img, i, j) <==>
          img.records[i].parent == img.records[j].parent && SameName(img.records[i].name, img.records[j].name) {}
    }
  }

  /** The image validator answers EINVAL for an illegal header, then the fault of the first record that has one,
      EINVAL for payload bytes that no record has, EINVAL for a record that does not hang from the root, EEXIST for
      siblings of one name, and EINVAL for a wrong hash tree. `k` is the first record with a fault. */
  lemma ImageAnswers(mix: Mix, b: seq<Byte>, k: nat)
    requires HeaderOk(b) ==>
      && k <= |Parse(b).records| && (forall j :: 0 <= j < k ==> RecordFault(mix, Parse(b), j) == OK)
      && (k < |Parse(b).records| ==> RecordFault(mix, Parse(b), k) != OK)
    ensures HeaderLaidOut(b) <==> HeaderOk(b)
    ensures !HeaderOk(b) ==> Checked(mix, b) == EINVAL
    ensures HeaderOk(b) && k < |Parse(b).records| ==> Checked(mix, b) == RecordFault(mix, Parse(b), k)
    ensures HeaderOk(b) && k == |Parse(b).records| ==> Checked(mix, b) == AfterRecords(mix, b)
  {
    hide Parse, HeaderOk, HeaderLaidOut, RecordFault, RecordsStatus, AfterRecords;
    HeaderExactly(b);
    if HeaderOk(b) {
      FirstRecordFault(mix, Parse(b), 0, k);
      if k == |Parse(b).records| { AfterRecordsIs(mix, b); }
    }
  }

  lemma HasRecords(b: seq<Byte>)
    requires HeaderOk(b)
    ensures |Parse(b).records| > 0
  {
  }

  // ---------------------------------------------------------------- import

  /** What the importer makes of record `k`: a node in use with its fields, up to fifteen letters of its name, and
      its payload with zeros behind it; and of a node without a record, a blank one. */
  lemma ImportPlaces(mix: Mix, b: seq<Byte>, slotCount: nat, k: nat, n: nat)
    requires slotCount < UINT32 && Imported(mix, b, slotCount).Ok? && n < 16
    ensures HeaderOk(b) && k < |Parse(b).records| ==> Parse(b).records[k].node < 16
    ensures HeaderOk(b) && (k < |Parse(b).records| ==> Parse(b).records[k].dataOffset + Parse(b).records[k].dataSize <= |Parse(b).data|)
    ensures var fs, img := Imported(mix, b, slotCount).value, Parse(b);
      && |fs.nodes| == 16 && fs.slots == seq(slotCount, _ => OpenFile(false, 0, 0, 0, 0, 0))
      && ((forall j :: 0 <= j < |img.records| ==> img.records[j].node != n) ==>
            fs.nodes[n] == Node(false, 0, 0, 0, 0, 0, [], seq(256, _ => 0)))
      && (k < |img.records| ==>
            var r := img.records[k];
            var node, payload := fs.nodes[r.node], img.data[r.dataOffset..r.dataOffset + r.dataSize];
            && |payload| <= 256 && node.data == payload + seq(256 - |payload|, _ => 0)
            && node == Node(true, r.kind, r.parent, r.owner, r.mode, r.size, CopiedName(r.name), node.data))
  {
    hide Parse, HeaderOk, Checked, Validated, CopiedName, RecordFits;
    AcceptedIsSerialized(mix, b);
    var img := Parse(b);
    CheckedRecordsFit(mix, img) by { CheckedParts(mix, b); }
    FitsIncreasing(mix, img);
    TableHas(img, n);
    if k < |img.records| { TableHas(img, img.records[k].node); }
  }
}
