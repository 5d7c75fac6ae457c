/** The code of the image validator and importer (kernel/runtime_fs_image.c), proved to do what FsImage
    says. */
module FsImageCheck {
  import opened FsModel
  import opened FsValidate
  import opened FsHash
  import opened FsImage
  import opened FsImageBytes
  import opened FsImageTrips
  import opened FileSystem
  import opened FsImageCode

  /** struct runtime_fs_image_header, without the fields that only have one legal value. */
  datatype Layout = Layout(count: U32, leafCount: U32, hashCount: U32, dataBytes: U32, root: U32, size: U32)

  /** The sum in the header check, without wrap-around. */
  function HeaderSum(b: seq<Byte>): nat
    requires |b| >= HEADER_BYTES
  {
    HEADER_BYTES + RECORD_BYTES * Load(b, 12) + 4 * Load(b, 24) + Load(b, 28)
  }

  /** A header whose counts are legal has a sum that does not wrap. */
  predicate HeaderSumFits(b: seq<Byte>) {
    |b| >= HEADER_BYTES && Load(b, 12) <= MAX_NODES && Load(b, 24) < 2 * MAX_NODES ==> HeaderSum(b) < UINT32
  }

  /** runtime_fs_image_parse_header. */
  method ParseHeader(b: seq<Byte>) returns (ok: bool, h: Layout)
    requires HeaderSumFits(b)
    ensures ok == HeaderOk(b)
    ensures ok ==> h == Layout(Load(b, 12), Load(b, 20), Load(b, 24), Load(b, 28), Load(b, 32), Load(b, 36))
  {
    hide NextPow2, Load;
    h := Layout(0, 0, 0, 0, 0, 0);
    if |b| < HEADER_BYTES { return false, h; }
    h := Layout(Load(b, 12), Load(b, 20), Load(b, 24), Load(b, 28), Load(b, 32), Load(b, 36));
    if Load(b, 0) != MAGIC || Load(b, 4) != VERSION || Load(b, 8) != HEADER_BYTES || Load(b, 16) != RECORD_BYTES {
      return false, h;
    }
    if h.count == 0 || h.count > MAX_NODES || h.leafCount == 0 || h.leafCount > MAX_NODES { return false, h; }
    if h.hashCount != 2 * h.leafCount - 1 || h.leafCount < h.count { return false, h; }
    var power := RoundUp(h.leafCount);
    if power != h.leafCount { return false, h; }
    var sum := (HEADER_BYTES + h.count * RECORD_BYTES + h.hashCount * 4 + h.dataBytes) % UINT32;
    if h.size != sum { return false, h; }
    return h.size == |b|, h;
  }

  /** One turn of the first loop of runtime_fs_image_validate. The set holds the nodes seen so far, and
      `expected` is where the payload must begin. */
  method CheckRecord(mix: Mix, ghost img: Image, i: nat, r: Record, data: seq<Byte>, seen: set<U32>, previous: U32, expected: nat)
    returns (status: Status)
    requires i < |img.records| && img.records[i] == r && img.data == data
    requires forall n: U32 :: n in seen <==> Seen(img.records, i, n)
    requires expected == DataEnd(img.records[..i]) && (i > 0 ==> previous == img.records[i - 1].node)
    ensures status == RecordStatus(mix, img, i)
  {
    hide HashBytes, ObjectHash, Seen;
    if r.node >= MAX_NODES { return EINVAL; }
    if r.node in seen { return EEXIST; }
    if i == 0 && r.node != 0 { return EINVAL; }
    if i > 0 && r.node <= previous { return EINVAL; }
    if r.kind != DIRECTORY && r.kind != REGULAR { return EINVAL; }
    if r.kind == DIRECTORY && r.dataSize != 0 { return EINVAL; }
    if r.kind == REGULAR && r.dataSize != r.size { return EINVAL; }
    if r.size > FILE_CAPACITY { return ENOSPC; }
    if r.dataOffset != expected { return EINVAL; }
    if r.dataOffset + r.dataSize > |data| { return EINVAL; }
    if i == 0 && r.parent != 0 { return EINVAL; }
    if i == 0 && r.kind != DIRECTORY { return EINVAL; }
    if i == 0 && (r.name[0] != SLASH || r.name[1] != 0) { return EINVAL; }
    if i != 0 && (r.name[0] == 0 || (r.name[0] == SLASH && r.name[1] == 0)) { return EINVAL; }
    var dataHash := MixBytes(mix, HASH_EMPTY, data[r.dataOffset..r.dataOffset + r.dataSize]);
    assert dataHash == HashBytes(mix, data[r.dataOffset..r.dataOffset + r.dataSize]) by { HashOfBytes(mix, data, r); }
    if dataHash != r.dataHash { return EINVAL; }
    var objectHash := HashRecord(mix, r);
    if objectHash != r.objectHash { return EINVAL; }
    return OK;
  }

  lemma HashOfBytes(mix: Mix, data: seq<Byte>, r: Record)
    requires r.dataOffset + r.dataSize <= |data|
    ensures var s := data[r.dataOffset..r.dataOffset + r.dataSize]; HashBytes(mix, s) == HashFrom(mix, HASH_EMPTY, s)
  {
  }

  lemma {:induction false} RecordAt(b: seq<Byte>, at: nat, n: nat, i: nat)
    requires at + RECORD_BYTES * n <= |b| && i < n
    ensures ReadRecords(b, at, n)[i] == ReadRecord(b, at + RECORD_BYTES * i)
    decreases n
  {
    hide ReadRecord;
    if i < n - 1 { RecordAt(b, at, n - 1, i); }
  }

  lemma SeenStep(rs: seq<Record>, i: nat)
    requires i < |rs|
    ensures forall n: U32 :: Seen(rs, i + 1, n) <==> Seen(rs, i, n) || n == rs[i].node
    ensures DataEnd(rs[..i + 1]) == DataEnd(rs[..i]) + rs[i].dataSize
  {
    assert rs[..i + 1][..i] == rs[..i];
    assert Seen(rs, i + 1, rs[i].node);
  }

  lemma HeaderBounds(b: seq<Byte>)
    requires HeaderOk(b)
    ensures HEADER_BYTES + RECORD_BYTES * Load(b, 12) + 4 * Load(b, 24) <= |b|
    ensures var img := Parse(b);
      && img.records == ReadRecords(b, HEADER_BYTES, Load(b, 12)) && |img.records| == Load(b, 12)
      && img.data == b[HEADER_BYTES + RECORD_BYTES * Load(b, 12) + 4 * Load(b, 24)..]
  {
    hide Load, ReadRecords, NextPow2;
  }

  /** The first loop of runtime_fs_image_validate. */
  method CheckRecords(mix: Mix, b: seq<Byte>, h: Layout) returns (status: Status, records: seq<Record>, total: nat)
    requires HeaderOk(b) && h.count == Load(b, 12) && h.hashCount == Load(b, 24)
    ensures status == RecordsStatus(mix, Parse(b), 0)
    ensures status == OK ==> records == Parse(b).records && total == DataEnd(records)
  {
    hide Load, ReadRecord, ReadRecords, RecordStatus, HeaderOk, Parse;
    HeaderBounds(b);
    ghost var img := Parse(b);
    records, total, status := [], 0, OK;
    var data := b[HEADER_BYTES + h.count * RECORD_BYTES + h.hashCount * 4..];
    assert data == img.data;
    var seen: set<U32>, index := {}, 0;
    while index < h.count
      invariant 0 <= index <= h.count == |img.records| && records == img.records[..index]
      invariant forall n: U32 :: n in seen <==> Seen(img.records, index, n)
      invariant total == DataEnd(img.records[..index])
      invariant RecordsStatus(mix, img, 0) == RecordsStatus(mix, img, index) && status == OK
    {
      RecordAt(b, HEADER_BYTES, h.count, index);
      var r := ReadRecord(b, HEADER_BYTES + index * RECORD_BYTES);
      assert r == img.records[index];
      var previous := if index > 0 then records[index - 1].node else 0;
      status := CheckRecord(mix, img, index, r, data, seen, previous, total);
      if status != OK { return; }
      SeenStep(img.records, index);
      records := records + [r];
      total := total + r.dataSize;
      seen := seen + {r.node};
      index := index + 1;
    }
    assert img.records[..index] == img.records;
  }

  /** runtime_fs_image_find_record. */
  method FindRecord(records: seq<Record>, node: U32) returns (found: int)
    ensures found == -1 || 0 <= found < |records|
    ensures if found >= 0 then records[found].node == node else forall j :: 0 <= j < |records| ==> records[j].node != node
  {
    var index := 0;
    while index < |records|
      invariant 0 <= index <= |records| && forall j :: 0 <= j < index ==> records[j].node != node
    {
      if records[index].node == node { return index; }
      index := index + 1;
    }
    return -1;
  }

  /** The parent checks for one record; the walk looks each node up among the records. */
  method CheckParent(mix: Mix, ghost img: Image, records: seq<Record>, seen: set<U32>, index: nat) returns (ok: bool)
    requires records == img.records && index < |records| && RecordsFit(img)
    requires forall i :: 0 <= i < |img.records| ==> RecordFits(mix, img, i)
    requires forall n: U32 :: n in seen <==> Seen(records, |records|, n)
    ensures ok == ParentOk(img, index)
  {
    hide RecordFits, TableOf, ChainOk, NodeOf;
    ghost var table := TableOf(img);
    FitsIncreasing(mix, img);
    RecordOfRoot(mix, img);
    var r := records[index];
    TableHas(img, r.node);
    if r.parent < MAX_NODES { TableHas(img, r.parent); }
    if r.node != 0 && r.parent !in seen { return false; }
    var parent := FindRecord(records, r.parent);
    // The first record is the root's and its own parent, so the check that says so cannot fail here.
    RootIsFirst(mix, img, index);
    assert r.node == 0 ==> parent >= 0;
    if r.node != 0 && (parent < 0 || records[parent].kind != DIRECTORY) {
      if parent >= 0 { RecordParent(img, parent); }
      return false;
    }
    RecordParent(img, parent);
    var current: U32, depth := r.node, 0;
    while current != 0
      invariant 0 <= depth <= MAX_NODES
      invariant ChainOk(table, r.node, 0) <==> current < MAX_NODES && table[current].used && ChainOk(table, current, depth)
      decreases MAX_NODES - depth
    {
      var node := FindRecord(records, current);
      if current < MAX_NODES { TableHas(img, current); }
      if node < 0 { return false; }
      RecordParent(img, node);
      ChainStep(table, current, depth);
      current := records[node].parent;
      depth := depth + 1;
      if depth > MAX_NODES { return false; }
    }
    TableHas(img, 0);
    ChainEnd(table, depth);
    return true;
  }

  lemma ChainStep(table: seq<Node>, at: nat, depth: nat)
    requires 0 < at < |table| && depth <= |table|
    ensures var next := table[at].parent;
      ChainOk(table, at, depth) <==> next < |table| && depth < |table| && table[next].used && ChainOk(table, next, depth + 1)
  {
  }

  lemma ChainEnd(table: seq<Node>, depth: nat)
    requires table != [] && depth <= |table|
    ensures ChainOk(table, 0, depth)
  {
  }

  // ---------------------------------------------------------------- names

  lemma {:induction false} NameOfPrefix(b: seq<Byte>, k: nat)
    requires k <= |b| && 0 !in b[..k]
    ensures NameOf(b) == b[..k] + NameOf(b[k..])
    decreases k
  {
    if k > 0 {
      assert b[..k][0] == b[0];
      assert b[1..][..k - 1] == b[..k][1..] && b[1..][k - 1..] == b[k..];
      NameOfPrefix(b[1..], k - 1);
    }
  }

  /** runtime_fs_image_name_equals_bounded. */
  method NamesEqual(left: NameField, right: NameField) returns (same: bool)
    ensures same == SameName(left, right)
  {
    hide NameOf;
    var index := 0;
    while index < NAME_CAPACITY && left[index] != 0 && right[index] != 0
      invariant 0 <= index <= NAME_CAPACITY
      invariant 0 !in left[..index] && 0 !in right[..index] && left[..index] == right[..index]
    {
      if left[index] != right[index] {
        FirstDifference(left, right, index);
        return false;
      }
      index := index + 1;
    }
    NameOfPrefix(left, index);
    NameOfPrefix(right, index);
    if index < NAME_CAPACITY && right[index] != 0 {
      LetterOrEnd(left[index..]);
      LetterOrEnd(right[index..]);
      return false;
    }
    if index < NAME_CAPACITY {
      LetterOrEnd(left[index..]);
      LetterOrEnd(right[index..]);
      assert left[index] == 0 ==> Terminated(left) && Terminated(right);
    } else {
      assert left[..index] == left;
    }
    return index < NAME_CAPACITY && left[index] == 0;
  }

  lemma LetterOrEnd(b: seq<Byte>)
    requires b != []
    ensures if b[0] == 0 then NameOf(b) == [] else NameOf(b) != [] && NameOf(b)[0] == b[0]
  {
  }

  lemma FirstDifference(left: NameField, right: NameField, k: nat)
    requires k < NAME_CAPACITY && 0 !in left[..k] && 0 !in right[..k] && left[..k] == right[..k]
    requires left[k] != 0 && right[k] != 0 && left[k] != right[k]
    ensures NameOf(left) != NameOf(right)
  {
    hide NameOf;
    NameOfPrefix(left, k);
    NameOfPrefix(right, k);
    LetterOrEnd(left[k..]);
    LetterOrEnd(right[k..]);
    assert NameOf(left)[k] == left[k] && NameOf(right)[k] == right[k];
  }

  /** The loop of the validator over all pairs of records. */
  method FindClash(records: seq<Record>, ghost img: Image) returns (clash: bool)
    requires records == img.records
    ensures clash == AnyClash(img)
  {
    hide SameName;
    var index := 0;
    while index < |records|
      invariant 0 <= index <= |records|
      invariant forall i, j :: 0 <= i < index && i < j < |records| ==> !Clash(img, i, j)
    {
      var other := index + 1;
      while other < |records|
        invariant index < other <= |records| && forall j :: index < j < other ==> !Clash(img, index, j)
      {
        if records[index].parent == records[other].parent {
          var same := NamesEqual(records[index].name, records[other].name);
          if same {
            assert Clash(img, index, other);
            return true;
          }
        }
        other := other + 1;
      }
      index := index + 1;
    }
    return false;
  }

  // ---------------------------------------------------------------- the hash tree

  method LoadTree(b: seq<Byte>, at: nat, n: nat) returns (tree: seq<U32>)
    requires at + 4 * n <= |b|
    ensures tree == LoadWords(b, at, n)
  {
    hide Load;
    tree := [];
    var index := 0;
    while index < n
      invariant 0 <= index <= n && tree == LoadWords(b, at, index)
    {
      tree := tree + [Load(b, at + index * 4)];
      index := index + 1;
    }
  }

  /** The last three checks of runtime_fs_image_validate. */
  method CheckTree(mix: Mix, b: seq<Byte>, h: Layout, records: seq<Record>) returns (ok: bool)
    requires HeaderOk(b) && records == Parse(b).records
    requires h == Layout(Load(b, 12), Load(b, 20), Load(b, 24), Load(b, 28), Load(b, 32), Load(b, 36))
    ensures ok == TreeOk(mix, b)
  {
    hide Load, TreeHash, ReadRecords, NextPow2, HashesOf, PaddedLeaves, Leaves;
    var tree := LoadTree(b, HEADER_BYTES + h.count * RECORD_BYTES, h.hashCount);
    assert tree == LoadWords(b, TreeOffset(b), Load(b, 24));
    LeavesArePadded(Parse(b));
    ok := LeavesMatch(tree, h.leafCount, records);
    if !ok { return; }
    ok := ParentsMatch(mix, tree, h.leafCount);
    return ok && tree[0] == h.root;
  }

  /** The leaves are the object hashes, and the empty hash after them. */
  method LeavesMatch(tree: seq<U32>, leafCount: nat, records: seq<Record>) returns (ok: bool)
    requires 0 < |records| <= leafCount && |tree| == 2 * leafCount - 1
    ensures ok <==> tree[leafCount - 1..] == PaddedLeaves(HashesOf(records), leafCount)
  {
    ghost var leaves := PaddedLeaves(HashesOf(records), leafCount);
    var inner := leafCount - 1;
    var index := 0;
    while index < leafCount
      invariant 0 <= index <= leafCount && forall k :: 0 <= k < index ==> tree[inner..][k] == leaves[k]
    {
      var expected := if index < |records| then records[index].objectHash else HASH_EMPTY;
      if tree[inner + index] != expected {
        assert tree[inner..][index] != leaves[index];
        return false;
      }
      index := index + 1;
    }
    return true;
  }

  /** Every inner node is the hash of its two children. */
  method ParentsMatch(mix: Mix, tree: seq<U32>, leafCount: nat) returns (ok: bool)
    requires 0 < leafCount && |tree| == 2 * leafCount - 1
    ensures ok <==> forall p :: 0 <= p < leafCount - 1 ==> tree[p] == TreeHash(mix, tree[2 * p + 1], tree[2 * p + 2])
  {
    hide TreeHash;
    var index := leafCount - 1;
    while index > 0
      invariant 0 <= index <= leafCount - 1
      invariant forall p :: index <= p < leafCount - 1 ==> tree[p] == TreeHash(mix, tree[2 * p + 1], tree[2 * p + 2])
    {
      var parent := index - 1;
      var expected := HashPair(mix, tree[parent * 2 + 1], tree[parent * 2 + 2]);
      if tree[parent] != expected { return false; }
      index := parent;
    }
    return true;
  }

  // ---------------------------------------------------------------- validate and import

  /** runtime_fs_image_validate. */
  method Validate(mix: Mix, b: seq<Byte>) returns (status: Status)
    requires HeaderSumFits(b)
    ensures status == Checked(mix, b)
  {
    hide Load, HeaderOk, Parse, TreeOk, AnyClash, ParentOk, RecordFits, HeaderSumFits, RecordsFit, RecordsStatus;
    var ok, h := ParseHeader(b);
    if !ok { return EINVAL; }
    var records, total;
    status, records, total := CheckRecords(mix, b, h);
    if status != OK { return; }
    DataLength(b);
    if total != h.dataBytes { return EINVAL; }
    ghost var img := Parse(b);
    CheckedRecordsFit(mix, img);
    RecordsStatusIsFits(mix, img);
    var hung := CheckParents(mix, img, records);
    if !hung { return EINVAL; }
    var clash := FindClash(records, img);
    if clash { return EEXIST; }
    var sound := CheckTree(mix, b, h, records);
    return if sound then OK else EINVAL;
  }

  lemma DataLength(b: seq<Byte>)
    requires HeaderOk(b)
    ensures |Parse(b).data| == Load(b, 28)
  {
    hide Load, NextPow2;
  }

  /** The second loop of runtime_fs_image_validate. */
  method CheckParents(mix: Mix, ghost img: Image, records: seq<Record>) returns (ok: bool)
    requires records == img.records && RecordsFit(img)
    requires forall i :: 0 <= i < |img.records| ==> RecordFits(mix, img, i)
    ensures ok == !(exists i :: 0 <= i < |img.records| && !ParentOk(img, i))
  {
    hide RecordFits, ParentOk, RecordsFit;
    var seen: set<U32> := set r | r in records :: r.node;
    assert forall n: U32 :: n in seen <==> Seen(records, |records|, n);
    var index := 0;
    while index < |records|
      invariant 0 <= index <= |records| && forall i :: 0 <= i < index ==> ParentOk(img, i)
    {
      var fine := CheckParent(mix, img, records, seen, index);
      if !fine { return false; }
      index := index + 1;
    }
    return true;
  }

  /** The table that an accepted image gives can be walked. */
  lemma TableIsWalkable(mix: Mix, img: Image)
    requires WellFormedImage(mix, img)
    ensures Walkable(TableOf(img))
  {
    hide TableOf, RecordFits, Rooted;
    forall i | 0 < i < |img.records|
      ensures exists j :: 0 <= j < |img.records| && img.records[j].node == img.records[i].parent && img.records[j].kind == DIRECTORY
    {
      assert Hangs(img, i);
    }
    TableParentsInUse(mix, img);
  }

  /** runtime_fs_image_import. A buffer that the validator refuses leaves the file system as it was; any
      other replaces it, and the runtime validator has the last word on the status. */
  method Import(store: Store, mix: Mix, b: seq<Byte>) returns (status: Status)
    requires HeaderSumFits(b) && store.nodes.Length == MAX_NODES && store.slots.Length < UINT32
    modifies store.nodes, store.slots
    ensures Checked(mix, b) != OK ==> status == EINVAL && store.Value() == old(store.Value())
    ensures Checked(mix, b) == OK ==> (
      && HeaderOk(b) && RecordsFit(Parse(b))
      && store.Value() == Fs(TableOf(Parse(b)), FreeSlots(store.slots.Length)) && status == Validated(store.Value())
      && (if status == OK then Imported(mix, b, store.slots.Length) == Ok(store.Value())
          else Imported(mix, b, store.slots.Length) == Err(status)))
  {
    hide Load, HeaderOk, HeaderSumFits, Checked, Walkable, TableOf, Validated, WellFormed;
    var checked := Validate(mix, b);
    if checked != OK { return EINVAL; }
    var ok, h := ParseHeader(b);
    AcceptedIsSerialized(mix, b);
    if !ok { return EINVAL; }
    TableIsWalkable(mix, Parse(b));
    AcceptedRecords(mix, b);
    CheckedRecordsFit(mix, Parse(b));
    Clear(store);
    Place(store, b, h);
    status := store.Validate();
  }

  lemma AcceptedRecords(mix: Mix, b: seq<Byte>)
    requires Checked(mix, b) == OK
    ensures HeaderOk(b) && RecordsStatus(mix, Parse(b), 0) == OK
  {
    hide Load, RecordsStatus, HeaderOk, Parse, RecordsFit;
  }

  method Clear(store: Store)
    modifies store.nodes, store.slots
    ensures store.nodes[..] == seq(store.nodes.Length, _ => FreeNode()) && store.slots[..] == FreeSlots(store.slots.Length)
  {
    var index := 0;
    while index < store.nodes.Length
      invariant 0 <= index <= store.nodes.Length && forall k :: 0 <= k < index ==> store.nodes[k] == FreeNode()
    {
      store.nodes[index] := FreeNode();
      index := index + 1;
    }
    index := 0;
    while index < store.slots.Length
      invariant 0 <= index <= store.slots.Length && forall k :: 0 <= k < index ==> store.slots[k] == FreeSlot()
      invariant forall k :: 0 <= k < store.nodes.Length ==> store.nodes[k] == FreeNode()
    {
      store.slots[index] := FreeSlot();
      index := index + 1;
    }
  }

  /** The last loop of runtime_fs_image_import. */
  method Place(store: Store, b: seq<Byte>, h: Layout)
    requires HeaderOk(b) && RecordsFit(Parse(b)) && h.count == Load(b, 12) && h.hashCount == Load(b, 24)
    requires store.nodes[..] == seq(MAX_NODES, _ => FreeNode())
    modifies store.nodes
    ensures store.nodes[..] == TableOf(Parse(b))
  {
    hide Load, ReadRecord, NextPow2, NodeOf;
    ghost var img := Parse(b);
    var dataOffset := HEADER_BYTES + h.count * RECORD_BYTES + h.hashCount * 4;
    assert b[dataOffset..] == img.data;
    var index := 0;
    while index < h.count
      invariant 0 <= index <= h.count == |img.records| && store.nodes[..] == Placed(img, index)
    {
      RecordAt(b, HEADER_BYTES, h.count, index);
      var r := ReadRecord(b, HEADER_BYTES + index * RECORD_BYTES);
      assert r == img.records[index];
      var payload := b[dataOffset..][r.dataOffset..r.dataOffset + r.dataSize];
      var node := BuildNode(img, r, payload);
      store.nodes[r.node] := node;
      index := index + 1;
    }
  }

  /** One node of the importer: the payload over the zeroed data. */
  method BuildNode(ghost img: Image, r: Record, payload: seq<Byte>) returns (node: Node)
    requires r.dataSize <= FILE_CAPACITY && r.dataOffset + r.dataSize <= |img.data|
    requires payload == img.data[r.dataOffset..r.dataOffset + r.dataSize]
    ensures node == NodeOf(img, r)
  {
    var data, index := Zeros(FILE_CAPACITY), 0;
    while index < r.dataSize
      invariant 0 <= index <= r.dataSize && data == payload[..index] + Zeros(FILE_CAPACITY - index)
    {
      data := data[index := payload[index]];
      index := index + 1;
    }
    return Node(true, r.kind, r.parent, r.owner, r.mode, r.size, CopiedName(r.name), data);
  }
}
