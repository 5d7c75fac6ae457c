/** The file-system image (kernel/runtime_fs_image.c): its bytes, what the validator checks, what the
    exporter writes and what the importer builds. */
module FsImage {
  import opened FsModel
  import opened FsValidate
  import opened FsHash

  const MAX_NODES: nat := 16
  const MAGIC: U32 := 0x31465354
  const VERSION: U32 := 1
  const HEADER_BYTES: nat := 40
  const RECORD_BYTES: nat := 56

  /** The name field of a record. */
  type NameField = s: seq<Byte> | |s| == NAME_CAPACITY witness Zeros(NAME_CAPACITY)

  /** struct runtime_fs_image_record. */
  datatype Record = Record(node: U32, kind: U32, parent: U32, owner: U32, mode: U32, size: U32, dataOffset: U32,
                           dataSize: U32, dataHash: U32, objectHash: U32, name: NameField)

  /** What determines an image: its records, the size of its hash tree, and the payloads. */
  datatype Image = Image(records: seq<Record>, leafCount: nat, data: seq<Byte>)

  // ---------------------------------------------------------------- records

  function Fields(r: Record): seq<U32> {
    [r.node, r.kind, r.parent, r.owner, r.mode, r.size, r.dataOffset, r.dataSize, r.dataHash]
  }

  /** runtime_fs_image_object_hash. */
  function ObjectHash(mix: Mix, r: Record): U32 {
    HashBytes(mix, Words(Fields(r)) + r.name)
  }

  /** runtime_fs_image_write_record. */
  function RecordBytes(r: Record): (b: seq<Byte>)
    ensures |b| == RECORD_BYTES
  {
    Words(Fields(r) + [r.objectHash]) + r.name
  }

  /** runtime_fs_image_read_record. */
  function ReadRecord(b: seq<Byte>, at: nat): Record
    requires at + RECORD_BYTES <= |b|
  {
    Record(Load(b, at), Load(b, at + 4), Load(b, at + 8), Load(b, at + 12), Load(b, at + 16), Load(b, at + 20),
           Load(b, at + 24), Load(b, at + 28), Load(b, at + 32), Load(b, at + 36), b[at + 40..at + 56])
  }

  function RecordsBytes(rs: seq<Record>): (b: seq<Byte>)
    ensures |b| == RECORD_BYTES * |rs|
  {
    if rs == [] then [] else RecordsBytes(rs[..|rs| - 1]) + RecordBytes(rs[|rs| - 1])
  }

  function ReadRecords(b: seq<Byte>, at: nat, n: nat): (rs: seq<Record>)
    requires at + RECORD_BYTES * n <= |b|
    ensures |rs| == n
  {
    if n == 0 then [] else ReadRecords(b, at, n - 1) + [ReadRecord(b, at + RECORD_BYTES * (n - 1))]
  }

  // ---------------------------------------------------------------- names

  /** The C string in a name field: what precedes its first NUL. */
  function NameOf(b: seq<Byte>): (name: Name)
    ensures |name| <= |b|
  {
    if b == [] || b[0] == 0 then [] else [b[0]] + NameOf(b[1..])
  }

  predicate Terminated(field: NameField) { 0 in field }

  /** runtime_fs_image_copy_name into a node: at most fifteen characters. */
  function CopiedName(field: NameField): Name {
    var name := NameOf(field);
    if |name| < NAME_CAPACITY then name else name[..NAME_CAPACITY - 1]
  }

  /** runtime_fs_image_copy_name into a record. */
  function PaddedName(name: Name): NameField
    requires |name| < NAME_CAPACITY
  {
    name + Zeros(NAME_CAPACITY - |name|)
  }

  /** runtime_fs_image_name_equals_bounded: a name without a NUL equals no other. */
  predicate SameName(a: NameField, b: NameField) {
    Terminated(a) && Terminated(b) && NameOf(a) == NameOf(b)
  }

  // ---------------------------------------------------------------- the whole image

  function TreeBytes(img: Image): nat
    requires img.leafCount > 0
  {
    4 * (2 * img.leafCount - 1)
  }

  predicate Sized(img: Image) {
    0 < |img.records| <= img.leafCount <= MAX_NODES && |img.data| <= MAX_NODES * FILE_CAPACITY
  }

  /** The number of bytes of an image. */
  function ImageSize(img: Image): nat
    requires img.leafCount > 0
  {
    HEADER_BYTES + RECORD_BYTES * |img.records| + TreeBytes(img) + |img.data|
  }

  function Leaves(img: Image): (leaves: seq<U32>)
    requires |img.records| <= img.leafCount
    ensures |leaves| == img.leafCount
  {
    seq(img.leafCount, i requires 0 <= i < img.leafCount => if i < |img.records| then img.records[i].objectHash else HASH_EMPTY)
  }

  function HeaderWords(img: Image, root: U32): (ws: seq<U32>)
    requires Sized(img)
    ensures |ws| == 10
  {
    [MAGIC, VERSION, HEADER_BYTES, |img.records|, RECORD_BYTES, img.leafCount, 2 * img.leafCount - 1, |img.data|, root,
     ImageSize(img)]
  }

  function Serialize(mix: Mix, img: Image): (b: seq<Byte>)
    requires Sized(img)
    ensures |b| == ImageSize(img)
  {
    var heap := Heap(mix, Leaves(img));
    Words(HeaderWords(img, heap[0])) + RecordsBytes(img.records) + Words(heap) + img.data
  }

  /** runtime_fs_image_parse_header, when its sum does not wrap. */
  predicate HeaderOk(b: seq<Byte>) {
    && |b| >= HEADER_BYTES
    && Load(b, 0) == MAGIC && Load(b, 4) == VERSION && Load(b, 8) == HEADER_BYTES && Load(b, 16) == RECORD_BYTES
    && 0 < Load(b, 12) <= Load(b, 20) <= MAX_NODES && Load(b, 24) == 2 * Load(b, 20) - 1
    && NextPow2(Load(b, 20)) == Load(b, 20)
    && Load(b, 36) == HEADER_BYTES + RECORD_BYTES * Load(b, 12) + 4 * Load(b, 24) + Load(b, 28)
    && Load(b, 36) == |b|
  }

  function TreeOffset(b: seq<Byte>): nat
    requires HeaderOk(b)
  {
    HEADER_BYTES + RECORD_BYTES * Load(b, 12)
  }

  function DataOffset(b: seq<Byte>): nat
    requires HeaderOk(b)
  {
    TreeOffset(b) + 4 * Load(b, 24)
  }

  function Parse(b: seq<Byte>): Image
    requires HeaderOk(b)
  {
    Image(ReadRecords(b, HEADER_BYTES, Load(b, 12)), Load(b, 20), b[DataOffset(b)..])
  }

  // ---------------------------------------------------------------- the checks of the validator

  /** Where the payload of the next record begins. */
  function DataEnd(rs: seq<Record>): nat {
    if rs == [] then 0 else DataEnd(rs[..|rs| - 1]) + rs[|rs| - 1].dataSize
  }

  predicate Seen(rs: seq<Record>, i: nat, node: U32)
    requires i <= |rs|
  {
    exists j :: 0 <= j < i && rs[j].node == node
  }

  function RecordStatus(mix: Mix, img: Image, i: nat): Status
    requires i < |img.records|
  {
    var r, rs := img.records[i], img.records;
    if r.node >= MAX_NODES then EINVAL
    else if Seen(rs, i, r.node) then EEXIST
    else if i == 0 && r.node != 0 then EINVAL
    else if i > 0 && r.node <= rs[i - 1].node then EINVAL
    else if r.kind != DIRECTORY && r.kind != REGULAR then EINVAL
    else if r.kind == DIRECTORY && r.dataSize != 0 then EINVAL
    else if r.kind == REGULAR && r.dataSize != r.size then EINVAL
    else if r.size > FILE_CAPACITY then ENOSPC
    else if r.dataOffset != DataEnd(rs[..i]) then EINVAL
    else if r.dataOffset + r.dataSize > |img.data| then EINVAL
    else if i == 0 && (r.parent != 0 || r.kind != DIRECTORY || r.name[0] != SLASH || r.name[1] != 0) then EINVAL
    else if i != 0 && (r.name[0] == 0 || (r.name[0] == SLASH && r.name[1] == 0)) then EINVAL
    else if HashBytes(mix, img.data[r.dataOffset..r.dataOffset + r.dataSize]) != r.dataHash then EINVAL
    else if ObjectHash(mix, r) != r.objectHash then EINVAL
    else OK
  }

  function RecordsStatus(mix: Mix, img: Image, from: nat): Status
    requires from <= |img.records|
    decreases |img.records| - from
  {
    if from == |img.records| then OK
    else if RecordStatus(mix, img, from) != OK then RecordStatus(mix, img, from)
    else RecordsStatus(mix, img, from + 1)
  }

  /** The records name nodes of the table and payloads of the image. */
  predicate RecordsFit(img: Image) {
    forall i :: 0 <= i < |img.records| ==>
      img.records[i].node < MAX_NODES && img.records[i].dataSize <= FILE_CAPACITY
      && img.records[i].dataOffset + img.records[i].dataSize <= |img.data|
  }

  /** What the importer makes of a record. */
  function NodeOf(img: Image, r: Record): Node
    requires r.dataSize <= FILE_CAPACITY && r.dataOffset + r.dataSize <= |img.data|
  {
    Node(true, r.kind, r.parent, r.owner, r.mode, r.size, CopiedName(r.name),
         img.data[r.dataOffset..r.dataOffset + r.dataSize] + Zeros(FILE_CAPACITY - r.dataSize))
  }

  /** The node table after the importer has placed the first `k` records. */
  function Placed(img: Image, k: nat): (nodes: seq<Node>)
    requires RecordsFit(img) && k <= |img.records|
    ensures |nodes| == MAX_NODES
  {
    if k == 0 then seq(MAX_NODES, _ => FreeNode())
    else Placed(img, k - 1)[img.records[k - 1].node := NodeOf(img, img.records[k - 1])]
  }

  function TableOf(img: Image): (nodes: seq<Node>)
    requires RecordsFit(img)
    ensures |nodes| == MAX_NODES
  {
    Placed(img, |img.records|)
  }

  /** The record's parent is a directory of the image, and the walk from the record ends at the root. */
  predicate ParentOk(img: Image, i: nat)
    requires RecordsFit(img) && i < |img.records|
  {
    var r, table := img.records[i], TableOf(img);
    && (r.node != 0 ==> r.parent < MAX_NODES && table[r.parent].used && table[r.parent].kind == DIRECTORY)
    && ChainOk(table, r.node, 0)
  }

  predicate Clash(img: Image, i: nat, j: nat)
    requires i < |img.records| && j < |img.records|
  {
    img.records[i].parent == img.records[j].parent && SameName(img.records[i].name, img.records[j].name)
  }

  predicate AnyClash(img: Image) {
    exists i, j :: 0 <= i < j < |img.records| && Clash(img, i, j)
  }

  predicate TreeOk(mix: Mix, b: seq<Byte>)
    requires HeaderOk(b)
  {
    var img, heap := Parse(b), LoadWords(b, TreeOffset(b), Load(b, 24));
    && heap[img.leafCount - 1..] == Leaves(img)
    && (forall p :: 0 <= p < img.leafCount - 1 ==> heap[p] == TreeHash(mix, heap[2 * p + 1], heap[2 * p + 2]))
    && heap[0] == Load(b, 32)
  }

  lemma {:induction false} RecordsStatusIs(mix: Mix, img: Image, from: nat)
    requires from <= |img.records|
    ensures RecordsStatus(mix, img, from) == OK <==> forall i :: from <= i < |img.records| ==> RecordStatus(mix, img, i) == OK
    decreases |img.records| - from
  {
    hide RecordStatus;
    if from < |img.records| { RecordsStatusIs(mix, img, from + 1); }
  }

  lemma CheckedRecordsFit(mix: Mix, img: Image)
    requires RecordsStatus(mix, img, 0) == OK
    ensures RecordsFit(img)
  {
    RecordsStatusIs(mix, img, 0);
    forall i | 0 <= i < |img.records|
      ensures img.records[i].node < MAX_NODES && img.records[i].dataSize <= FILE_CAPACITY
      ensures img.records[i].dataOffset + img.records[i].dataSize <= |img.data|
    {
      assert RecordStatus(mix, img, i) == OK;
    }
  }

  /** runtime_fs_image_validate. */
  function Checked(mix: Mix, b: seq<Byte>): Status {
    if !HeaderOk(b) then EINVAL
    else
      var img := Parse(b);
      if RecordsStatus(mix, img, 0) != OK then RecordsStatus(mix, img, 0)
      else if DataEnd(img.records) != |img.data| then EINVAL
      else
        CheckedRecordsFit(mix, img);
        if exists i :: 0 <= i < |img.records| && !ParentOk(img, i) then EINVAL
        else if AnyClash(img) then EEXIST
        else if !TreeOk(mix, b) then EINVAL
        else OK
  }

  // ---------------------------------------------------------------- import and export

  function FreeSlots(slotCount: nat): seq<OpenFile> {
    seq(slotCount, _ => FreeSlot())
  }

  /** runtime_fs_image_import into a file system of the given number of open slots. */
  function Imported(mix: Mix, b: seq<Byte>, slotCount: nat): Result<Fs>
    requires slotCount < UINT32
  {
    if Checked(mix, b) != OK then Err(EINVAL)
    else
      CheckedRecordsFit(mix, Parse(b));
      var fs := Fs(TableOf(Parse(b)), FreeSlots(slotCount));
      if Validated(fs) == OK then Ok(fs) else Err(Validated(fs))
  }

  /** The payload of a regular file lies in its data; a directory has none, whatever its size. */
  predicate SizeFits(node: Node) {
    node.kind == REGULAR ==> node.size <= |node.data|
  }

  function PayloadOf(node: Node): seq<Byte>
    requires SizeFits(node)
  {
    if node.kind == REGULAR then node.data[..node.size] else []
  }

  /** The record that the exporter writes for a node. */
  function RecordOf(mix: Mix, node: Node, i: U32, offset: U32): Record
    requires SizeFits(node) && |node.name| < NAME_CAPACITY
  {
    var payload := PayloadOf(node);
    var r := Record(i, node.kind, node.parent, node.owner, node.mode, node.size, offset, |payload|,
                    HashBytes(mix, payload), 0, PaddedName(node.name));
    r.(objectHash := ObjectHash(mix, r))
  }

  /** Names and data have the sizes of their fields. */
  predicate FieldsFit(nodes: seq<Node>) {
    && 0 < |nodes| <= MAX_NODES
    && forall i :: 0 <= i < |nodes| ==> |nodes[i].name| < NAME_CAPACITY && |nodes[i].data| == FILE_CAPACITY
  }

  /** The nodes can be exported: no file in use is larger than its data. */
  predicate Exportable(nodes: seq<Node>) {
    FieldsFit(nodes) && forall i :: 0 <= i < |nodes| && nodes[i].used ==> SizeFits(nodes[i])
  }

  /** The payloads of the first `k` nodes. */
  function Payloads(nodes: seq<Node>, k: nat): (data: seq<Byte>)
    requires Exportable(nodes) && k <= |nodes|
    ensures |data| <= k * FILE_CAPACITY
  {
    if k == 0 then []
    else Payloads(nodes, k - 1) + if nodes[k - 1].used then PayloadOf(nodes[k - 1]) else []
  }

  /** The records of the first `k` nodes. */
  function RecordsOf(mix: Mix, nodes: seq<Node>, k: nat): (rs: seq<Record>)
    requires Exportable(nodes) && k <= |nodes|
    ensures |rs| <= k
  {
    if k == 0 then []
    else
      RecordsOf(mix, nodes, k - 1)
      + if nodes[k - 1].used then [RecordOf(mix, nodes[k - 1], k - 1, |Payloads(nodes, k - 1)|)] else []
  }

  function ExportedImage(mix: Mix, nodes: seq<Node>): Image
    requires Exportable(nodes)
  {
    var rs := RecordsOf(mix, nodes, |nodes|);
    Image(rs, NextPow2(|rs|), Payloads(nodes, |nodes|))
  }
}
