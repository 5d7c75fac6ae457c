/** The code of the image exporter (kernel/runtime_fs_image.c), proved to do
    what FsImage says. */
module FsImageCode {
  import opened FsModel
  import opened FsValidate
  import opened FsHash
  import opened FsImage
  import opened FsImageTrips
  import opened FileSystem

  // ---------------------------------------------------------------- hashing

  /** runtime_fs_image_hash_mix over a stretch of bytes. */
  method MixBytes(mix: Mix, start: U32, bytes: seq<Byte>) returns (hash: U32)
    ensures hash == HashFrom(mix, start, bytes)
  {
    hash := start;
    var index := 0;
    while index < |bytes|
      invariant 0 <= index <= |bytes| && hash == HashFrom(mix, start, bytes[..index])
    {
      assert bytes[..index + 1][..index] == bytes[..index];
      hash := mix(hash, bytes[index]);
      index := index + 1;
    }
    assert bytes[..index] == bytes;
  }

  /** runtime_fs_image_hash_u32, for one word after the other. */
  method MixWords(mix: Mix, start: U32, words: seq<U32>) returns (hash: U32)
    ensures hash == HashFrom(mix, start, Words(words))
  {
    hash := start;
    var index := 0;
    while index < |words|
      invariant 0 <= index <= |words| && hash == HashFrom(mix, start, Words(words[..index]))
    {
      assert words[..index + 1][..index] == words[..index];
      HashAppend(mix, start, Words(words[..index]), Word(words[index]));
      hash := MixBytes(mix, hash, Word(words[index]));
      index := index + 1;
    }
    assert words[..index] == words;
  }

  /** runtime_fs_image_object_hash. */
  method HashRecord(mix: Mix, r: Record) returns (hash: U32)
    ensures hash == ObjectHash(mix, r)
  {
    HashAppend(mix, HASH_EMPTY, Words(Fields(r)), r.name);
    hash := MixWords(mix, HASH_EMPTY, Fields(r));
    hash := MixBytes(mix, hash, r.name);
  }

  method HashPair(mix: Mix, left: U32, right: U32) returns (hash: U32)
    ensures hash == TreeHash(mix, left, right)
  {
    HashAppend(mix, HASH_EMPTY, Word(left), Word(right));
    hash := MixBytes(mix, HASH_EMPTY, Word(left));
    hash := MixBytes(mix, hash, Word(right));
  }

  /** runtime_fs_image_next_pow2. */
  method RoundUp(value: nat) returns (power: nat)
    ensures power == NextPow2(value)
  {
    power := 1;
    while power < value
      invariant power > 0 && NextPow2From(value, 1) == NextPow2From(value, power)
      decreases value - power
    {
      power := 2 * power;
    }
  }

  /** The heap-ordered hashes over the object hashes, padded with the empty hash. */
  method BuildTree(mix: Mix, hashes: seq<U32>, leafCount: nat) returns (tree: array<U32>)
    requires 0 < |hashes| <= leafCount
    ensures fresh(tree) && tree[..] == Heap(mix, PaddedLeaves(hashes, leafCount))
  {
    hide TreeHash, PaddedLeaves, HeapFrom;
    var leaves := PaddedLeaves(hashes, leafCount);
    LeafAt(hashes, leafCount);
    tree := new U32[2 * leafCount - 1](_ => HASH_EMPTY);
    var index := 0;
    while index < leafCount
      invariant 0 <= index <= leafCount
      invariant forall k :: 0 <= k < index ==> tree[leafCount - 1 + k] == leaves[k]
    {
      tree[leafCount - 1 + index] := if index < |hashes| then hashes[index] else HASH_EMPTY;
      index := index + 1;
    }
    index := leafCount - 1;
    assert tree[index..] == leaves;
    HeapStart(mix, leaves);
    while index > 0
      invariant 0 <= index <= leafCount - 1
      invariant tree[index..] == HeapFrom(mix, leaves, index)
    {
      var parent := index - 1;
      ghost var rest := tree[index..];
      HeapStep(mix, leaves, parent);
      assert rest[parent] == tree[2 * parent + 1] && rest[parent + 1] == tree[2 * parent + 2];
      var hash := HashPair(mix, tree[2 * parent + 1], tree[2 * parent + 2]);
      tree[parent] := hash;
      assert tree[index..] == rest;
      assert tree[parent..] == [hash] + rest;
      index := parent;
    }
    assert tree[0..] == tree[..];
  }

  function PaddedLeaves(hashes: seq<U32>, leafCount: nat): (leaves: seq<U32>)
    requires |hashes| <= leafCount
    ensures |leaves| == leafCount
  {
    seq(leafCount, i requires 0 <= i < leafCount => if i < |hashes| then hashes[i] else HASH_EMPTY)
  }

  lemma LeafAt(hashes: seq<U32>, leafCount: nat)
    requires |hashes| <= leafCount
    ensures forall k :: 0 <= k < leafCount ==> PaddedLeaves(hashes, leafCount)[k] == if k < |hashes| then hashes[k] else HASH_EMPTY
  {
  }

  lemma HeapStart(mix: Mix, leaves: seq<U32>)
    requires leaves != []
    ensures HeapFrom(mix, leaves, |leaves| - 1) == leaves
  {
  }

  lemma HeapStep(mix: Mix, leaves: seq<U32>, parent: nat)
    requires parent + 1 < |leaves|
    ensures var rest := HeapFrom(mix, leaves, parent + 1);
      HeapFrom(mix, leaves, parent) == [TreeHash(mix, rest[parent], rest[parent + 1])] + rest
  {
    hide TreeHash;
  }

  function HashesOf(rs: seq<Record>): (hs: seq<U32>)
    ensures |hs| == |rs|
  {
    seq(|rs|, i requires 0 <= i < |rs| => rs[i].objectHash)
  }

  lemma LeavesArePadded(img: Image)
    requires |img.records| <= img.leafCount
    ensures Leaves(img) == PaddedLeaves(HashesOf(img.records), img.leafCount)
  {
  }

  // ---------------------------------------------------------------- writing bytes

  lemma PatchedSlices(b: seq<Byte>, at: nat, s: seq<Byte>, lo: nat, hi: nat)
    requires at + |s| <= |b| && lo <= hi <= |b| && (hi <= at || at + |s| <= lo)
    ensures |Patched(b, at, s)| == |b|
    ensures Patched(b, at, s)[lo..hi] == b[lo..hi] && Patched(b, at, s)[at..at + |s|] == s
  {
  }

  lemma PatchedTail(b: seq<Byte>, at: nat, s: seq<Byte>, lo: nat)
    requires at + |s| <= lo <= |b|
    ensures |Patched(b, at, s)| == |b| && Patched(b, at, s)[lo..] == b[lo..]
  {
  }

  lemma PatchedTwice(b: seq<Byte>, at: nat, s: seq<Byte>, t: seq<Byte>)
    requires at + |s| + |t| <= |b|
    ensures Patched(Patched(b, at, s), at + |s|, t) == Patched(b, at, s + t)
  {
  }

  method StoreBytes(buffer: array<Byte>, at: nat, bytes: seq<Byte>)
    requires at + |bytes| <= buffer.Length
    modifies buffer
    ensures buffer[..] == Patched(old(buffer[..]), at, bytes)
  {
    var index := 0;
    PatchedStart(buffer[..], at, bytes);
    while index < |bytes|
      invariant 0 <= index <= |bytes| && buffer[..] == Patched(old(buffer[..]), at, bytes[..index])
    {
      PatchedStep(old(buffer[..]), at, bytes, index);
      buffer[at + index] := bytes[index];
      index := index + 1;
    }
    assert bytes[..index] == bytes;
  }

  /** runtime_fs_image_store_u32, for one word after the other. */
  method StoreWords(buffer: array<Byte>, at: nat, words: seq<U32>)
    requires at + 4 * |words| <= buffer.Length
    modifies buffer
    ensures buffer[..] == Patched(old(buffer[..]), at, Words(words))
  {
    hide Patched, Word;
    var index := 0;
    PatchedStart(buffer[..], at, []);
    while index < |words|
      invariant 0 <= index <= |words| && buffer[..] == Patched(old(buffer[..]), at, Words(words[..index]))
    {
      assert words[..index + 1][..index] == words[..index];
      PatchedTwice(old(buffer[..]), at, Words(words[..index]), Word(words[index]));
      StoreBytes(buffer, at + 4 * index, Word(words[index]));
      index := index + 1;
    }
    assert words[..index] == words;
  }

  /** runtime_fs_image_write_record. */
  method WriteRecord(buffer: array<Byte>, at: nat, r: Record)
    requires at + RECORD_BYTES <= buffer.Length
    modifies buffer
    ensures buffer[..] == Patched(old(buffer[..]), at, RecordBytes(r))
  {
    hide Patched, Words;
    PatchedTwice(buffer[..], at, Words(Fields(r) + [r.objectHash]), r.name);
    StoreWords(buffer, at, Fields(r) + [r.objectHash]);
    StoreBytes(buffer, at + 40, r.name);
  }

  // ---------------------------------------------------------------- export

  method RecordCount(store: Store) returns (count: nat)
    requires Exportable(store.nodes[..])
    ensures forall mix :: count == |RecordsOf(mix, store.nodes[..], store.nodes.Length)|
  {
    count := 0;
    var index := 0;
    while index < store.nodes.Length
      invariant 0 <= index <= store.nodes.Length
      invariant forall mix :: count == |RecordsOf(mix, store.nodes[..], index)|
    {
      if store.nodes[index].used { count := count + 1; }
      index := index + 1;
    }
  }

  method DataBytes(store: Store) returns (total: nat)
    requires Exportable(store.nodes[..])
    ensures total == |Payloads(store.nodes[..], store.nodes.Length)|
  {
    total := 0;
    var index := 0;
    while index < store.nodes.Length
      invariant 0 <= index <= store.nodes.Length && total == |Payloads(store.nodes[..], index)|
    {
      if store.nodes[index].used && store.nodes[index].kind == REGULAR { total := total + store.nodes[index].size; }
      index := index + 1;
    }
  }

  method HasOpenFiles(store: Store) returns (yes: bool)
    ensures yes <==> exists k :: 0 <= k < store.slots.Length && store.slots[k].used
  {
    var index := 0;
    while index < store.slots.Length
      invariant 0 <= index <= store.slots.Length && forall k :: 0 <= k < index ==> !store.slots[k].used
    {
      if store.slots[index].used { return true; }
      index := index + 1;
    }
    return false;
  }

  /** The validator refuses every table that the exporter could not copy. */
  lemma ValidIsExportable(fs: Fs)
    requires FieldsFit(fs.nodes) && Validated(fs) == OK
    ensures Exportable(fs.nodes)
  {
    hide Validated, Rooted;
    ValidatorIsExact(fs);
    forall i | 0 < i < |fs.nodes| && fs.nodes[i].used ensures SizeFits(fs.nodes[i]) { assert EntryFits(fs.nodes, fs.nodes[i]); }
  }

  /** A table that passes the validator has something to export. */
  lemma ValidHasRecords(mix: Mix, fs: Fs)
    requires Exportable(fs.nodes) && Validated(fs) == OK
    ensures Sized(ExportedImage(mix, fs.nodes))
  {
    hide NextPow2;
    EveryNodeIsWritten(mix, fs.nodes, |fs.nodes|, 0);
    LeafCountFits(|RecordsOf(mix, fs.nodes, |fs.nodes|)|);
  }

  /** runtime_fs_image_required_bytes. */
  method RequiredBytes(store: Store, ghost mix: Mix) returns (bytes: nat)
    requires InRange(store.Value()) && Walkable(store.nodes[..]) && FieldsFit(store.nodes[..])
    ensures Validated(store.Value()) != OK ==> bytes == 0
    ensures Validated(store.Value()) == OK ==> (
      && Exportable(store.nodes[..]) && Sized(ExportedImage(mix, store.nodes[..]))
      && bytes == |Serialize(mix, ExportedImage(mix, store.nodes[..]))|)
  {
    hide Serialize, Validated, Walkable, NextPow2;
    var status := store.Validate();
    if status != OK { return 0; }
    ValidIsExportable(store.Value());
    ValidHasRecords(mix, store.Value());
    var count := RecordCount(store);
    var leafCount := RoundUp(count);
    var total := DataBytes(store);
    assert count == |RecordsOf(mix, store.nodes[..], store.nodes.Length)|;
    SerializedSize(mix, ExportedImage(mix, store.nodes[..]));
    return HEADER_BYTES + count * RECORD_BYTES + (leafCount * 2 - 1) * 4 + total;
  }

  lemma SerializedSize(mix: Mix, img: Image)
    requires Sized(img)
    ensures |Serialize(mix, img)| == ImageSize(img)
  {
  }

  /** runtime_fs_image_export. A refusal writes nothing; success writes the image and nothing after it. */
  method Export(store: Store, mix: Mix, buffer: array<Byte>) returns (status: Status, written: nat)
    requires InRange(store.Value()) && Walkable(store.nodes[..]) && FieldsFit(store.nodes[..])
    modifies buffer
    ensures store.Value() == old(store.Value())
    ensures status == OK || status == EINVAL || status == EBUSY || status == ENOSPC
    ensures status == EINVAL <==> Validated(store.Value()) != OK
    ensures status == EBUSY <==> Validated(store.Value()) == OK && exists k :: 0 <= k < store.slots.Length && store.slots[k].used
    ensures status == EINVAL || (Exportable(store.nodes[..]) && Sized(ExportedImage(mix, store.nodes[..])))
    ensures status == ENOSPC ==> buffer.Length < ImageSize(ExportedImage(mix, store.nodes[..]))
    ensures status != OK ==> buffer[..] == old(buffer[..])
    ensures status == OK ==> (
      var image := Serialize(mix, ExportedImage(mix, store.nodes[..]));
      written == |image| <= buffer.Length && buffer[..] == image + old(buffer[..])[written..])
  {
    hide Serialize, Validated, Walkable, NextPow2, Exportable, ExportedImage, Patched, Words, Heap, Leaves, RecordsBytes, HashesOf,
         PaddedLeaves, RecordsOf, Payloads;
    written := 0;
    status := store.Validate();
    if status != OK { return EINVAL, 0; }
    ValidIsExportable(store.Value());
    ValidHasRecords(mix, store.Value());
    var open := HasOpenFiles(store);
    if open { return EBUSY, 0; }
    var count := RecordCount(store);
    var leafCount := RoundUp(count);
    var total := DataBytes(store);
    assert count == |RecordsOf(mix, store.nodes[..], store.nodes.Length)|;
    ExportedParts(mix, store.nodes[..]);
    var imageBytes := HEADER_BYTES + count * RECORD_BYTES + (leafCount * 2 - 1) * 4 + total;
    if buffer.Length < imageBytes { return ENOSPC, 0; }
    WriteImage(store, mix, buffer, count, leafCount, total);
    return OK, imageBytes;
  }

  /** runtime_fs_image_export once the buffer is known to be large enough. */
  method WriteImage(store: Store, mix: Mix, buffer: array<Byte>, count: nat, leafCount: nat, total: nat)
    requires Exportable(store.nodes[..]) && Sized(ExportedImage(mix, store.nodes[..]))
    requires var img := ExportedImage(mix, store.nodes[..]);
      count == |img.records| && leafCount == img.leafCount && total == |img.data| && ImageSize(img) <= buffer.Length
    modifies buffer
    ensures store.nodes[..] == old(store.nodes[..])
    ensures var image := Serialize(mix, ExportedImage(mix, store.nodes[..]));
      |image| <= buffer.Length && buffer[..] == image + old(buffer[..])[|image|..]
  {
    hide NextPow2, Exportable, ExportedImage, Patched, Words, Heap, Leaves, RecordsBytes, HashesOf, PaddedLeaves, RecordsOf,
         Payloads, Serialize;
    ghost var img := ExportedImage(mix, store.nodes[..]);
    ExportedParts(mix, store.nodes[..]);
    var treeOffset := HEADER_BYTES + count * RECORD_BYTES;
    var dataOffset := treeOffset + (leafCount * 2 - 1) * 4;
    var hashes := WriteNodes(store, mix, buffer, dataOffset, count);
    var tree := BuildTree(mix, hashes, leafCount);
    LeavesArePadded(img);
    ghost var middle := buffer[..];
    StoreWords(buffer, treeOffset, tree[..]);
    ghost var late := buffer[..];
    StoreWords(buffer, 0, [MAGIC, VERSION, HEADER_BYTES, count, RECORD_BYTES, leafCount, 2 * leafCount - 1, total, tree[0],
                           dataOffset + total]);
    HeaderLast(mix, img, old(buffer[..]), middle, late, buffer[..]);
  }

  lemma ExportedParts(mix: Mix, nodes: seq<Node>)
    requires Exportable(nodes)
    ensures var img, rs := ExportedImage(mix, nodes), RecordsOf(mix, nodes, |nodes|);
      img.records == rs && img.leafCount == NextPow2(|rs|) && img.data == Payloads(nodes, |nodes|)
  {
  }

  /** What the header write and the two before it add up to. */
  lemma HeaderLast(mix: Mix, img: Image, first: seq<Byte>, middle: seq<Byte>, late: seq<Byte>, last: seq<Byte>)
    requires Sized(img) && |first| == |middle| && ImageSize(img) <= |first|
    requires var t, heap := HEADER_BYTES + RECORD_BYTES * |img.records|, Heap(mix, Leaves(img));
      && middle[40..t] == RecordsBytes(img.records)
      && middle[t + 4 * |heap|..ImageSize(img)] == img.data && middle[ImageSize(img)..] == first[ImageSize(img)..]
      && late == Patched(middle, t, Words(heap)) && last == Patched(late, 0, Words(HeaderWords(img, heap[0])))
    ensures last == Serialize(mix, img) + first[ImageSize(img)..]
  {
    hide Words, RecordsBytes, Heap, Leaves, HeaderWords, Patched, Serialize;
    var t, heap, size := HEADER_BYTES + RECORD_BYTES * |img.records|, Heap(mix, Leaves(img)), ImageSize(img);
    var d, header := t + 4 * |heap|, Words(HeaderWords(img, heap[0]));
    PatchedSlices(middle, t, Words(heap), 40, t);
    PatchedSlices(middle, t, Words(heap), d, size);
    PatchedTail(middle, t, Words(heap), size);
    PatchedSlices(late, 0, header, 40, t);
    PatchedSlices(late, 0, header, t, d);
    PatchedSlices(late, 0, header, d, size);
    PatchedTail(late, 0, header, size);
    assert last == last[0..40] + last[40..t] + last[t..d] + last[d..size] + last[size..];
    SerializedIs(mix, img);
  }

  lemma SerializedIs(mix: Mix, img: Image)
    requires Sized(img)
    ensures var heap := Heap(mix, Leaves(img));
      Serialize(mix, img) == Words(HeaderWords(img, heap[0])) + RecordsBytes(img.records) + Words(heap) + img.data
  {
  }

  /** The loop of runtime_fs_image_export over the nodes. */
  method WriteNodes(store: Store, mix: Mix, buffer: array<Byte>, dataOffset: nat, ghost count: nat) returns (hashes: seq<U32>)
    requires Exportable(store.nodes[..]) && count == |RecordsOf(mix, store.nodes[..], store.nodes.Length)|
    requires HEADER_BYTES + RECORD_BYTES * count <= dataOffset
    requires dataOffset + |Payloads(store.nodes[..], store.nodes.Length)| <= buffer.Length
    modifies buffer
    ensures store.nodes[..] == old(store.nodes[..])
    ensures var rs, data := RecordsOf(mix, store.nodes[..], store.nodes.Length), Payloads(store.nodes[..], store.nodes.Length);
      && hashes == HashesOf(rs)
      && buffer[HEADER_BYTES..HEADER_BYTES + RECORD_BYTES * |rs|] == RecordsBytes(rs)
      && buffer[dataOffset..dataOffset + |data|] == data
      && buffer[dataOffset + |data|..] == old(buffer[..])[dataOffset + |data|..]
  {
    hide Exportable, Patched, RecordBytes, RecordOf, Words, RecordsOf, Payloads, RecordsBytes, HashesOf, SoFar;
    NothingYet(mix, store.nodes[..]);
    ghost var nodes, end := store.nodes[..], |Payloads(store.nodes[..], store.nodes.Length)|;
    NothingWritten(mix, nodes, buffer[..], dataOffset);
    hashes := [];
    var cursor, recordOffset, index := 0, HEADER_BYTES, 0;
    while index < store.nodes.Length
      invariant 0 <= index <= store.nodes.Length && store.nodes[..] == nodes
      invariant cursor == |Payloads(nodes, index)| <= end && |RecordsOf(mix, nodes, index)| <= count
      invariant recordOffset == HEADER_BYTES + RECORD_BYTES * |RecordsOf(mix, nodes, index)|
      invariant SoFar(mix, nodes, index, hashes, buffer[..], dataOffset)
      invariant buffer[dataOffset + end..] == old(buffer[..])[dataOffset + end..]
    {
      var node := store.nodes[index];
      PartsGrow(mix, nodes, index + 1);
      if node.used {
        NodeIsExportable(nodes, index);
        var r, payload := BuildRecord(mix, node, index, cursor);
        RecordsGrow(mix, nodes, index, r);
        ghost var before := buffer[..];
        WriteRecord(buffer, recordOffset, r);
        ghost var between := buffer[..];
        StoreBytes(buffer, dataOffset + cursor, payload);
        NodeWritten(mix, nodes, index, hashes, before, between, buffer[..], r, payload, dataOffset, end);
        hashes := hashes + [r.objectHash];
        recordOffset := recordOffset + RECORD_BYTES;
        cursor := cursor + |payload|;
      } else {
        NodeSkipped(mix, nodes, index, hashes, buffer[..], dataOffset);
      }
      index := index + 1;
    }
    AllWritten(mix, nodes, hashes, buffer[..], dataOffset);
  }

  /** The buffer holds the records and the payloads of the first `k` nodes. */
  ghost predicate SoFar(mix: Mix, nodes: seq<Node>, k: nat, hashes: seq<U32>, b: seq<Byte>, dataOffset: nat)
    requires Exportable(nodes) && k <= |nodes|
  {
    var rs, data := RecordsOf(mix, nodes, k), Payloads(nodes, k);
    && HEADER_BYTES + RECORD_BYTES * |rs| <= dataOffset && dataOffset + |data| <= |b|
    && hashes == HashesOf(rs) && b[HEADER_BYTES..HEADER_BYTES + RECORD_BYTES * |rs|] == RecordsBytes(rs)
    && b[dataOffset..dataOffset + |data|] == data
  }

  lemma NothingWritten(mix: Mix, nodes: seq<Node>, b: seq<Byte>, dataOffset: nat)
    requires Exportable(nodes) && HEADER_BYTES <= dataOffset <= |b|
    ensures SoFar(mix, nodes, 0, [], b, dataOffset)
  {
    NothingYet(mix, nodes);
  }

  lemma AllWritten(mix: Mix, nodes: seq<Node>, hashes: seq<U32>, b: seq<Byte>, dataOffset: nat)
    requires Exportable(nodes) && SoFar(mix, nodes, |nodes|, hashes, b, dataOffset)
    ensures var rs, data := RecordsOf(mix, nodes, |nodes|), Payloads(nodes, |nodes|);
      && HEADER_BYTES + RECORD_BYTES * |rs| <= dataOffset && dataOffset + |data| <= |b|
      && hashes == HashesOf(rs) && b[HEADER_BYTES..HEADER_BYTES + RECORD_BYTES * |rs|] == RecordsBytes(rs)
      && b[dataOffset..dataOffset + |data|] == data
  {
    hide RecordsOf, Payloads, RecordsBytes, HashesOf;
  }

  lemma NodeSkipped(mix: Mix, nodes: seq<Node>, k: nat, hashes: seq<U32>, b: seq<Byte>, dataOffset: nat)
    requires Exportable(nodes) && k < |nodes| && !nodes[k].used && SoFar(mix, nodes, k, hashes, b, dataOffset)
    ensures SoFar(mix, nodes, k + 1, hashes, b, dataOffset)
    ensures RecordsOf(mix, nodes, k + 1) == RecordsOf(mix, nodes, k) && Payloads(nodes, k + 1) == Payloads(nodes, k)
  {
    hide RecordsBytes, HashesOf;
    RecordsStay(mix, nodes, k);
  }

  /** Writing one record and its payload. */
  lemma NodeWritten(mix: Mix, nodes: seq<Node>, k: nat, hashes: seq<U32>, before: seq<Byte>, between: seq<Byte>,
                    after: seq<Byte>, r: Record, payload: seq<Byte>, dataOffset: nat, end: nat)
    requires Exportable(nodes) && k < |nodes| && SoFar(mix, nodes, k, hashes, before, dataOffset)
    requires RecordsOf(mix, nodes, k + 1) == RecordsOf(mix, nodes, k) + [r]
    requires Payloads(nodes, k + 1) == Payloads(nodes, k) + payload
    requires var at := HEADER_BYTES + RECORD_BYTES * |RecordsOf(mix, nodes, k)|;
      && at + RECORD_BYTES <= dataOffset && |Payloads(nodes, k + 1)| <= end && dataOffset + end <= |before|
      && between == Patched(before, at, RecordBytes(r)) && after == Patched(between, dataOffset + |Payloads(nodes, k)|, payload)
    ensures |after| == |before| && SoFar(mix, nodes, k + 1, hashes + [r.objectHash], after, dataOffset)
    ensures after[dataOffset + end..] == before[dataOffset + end..]
  {
    hide Exportable, Patched, RecordBytes, RecordOf, Words, RecordsOf, Payloads, RecordsBytes, HashesOf;
    var rs, cursor := RecordsOf(mix, nodes, k), |Payloads(nodes, k)|;
    OneMore(rs, r);
    BothWritten(before, between, after, RecordsBytes(rs), RecordBytes(r), HEADER_BYTES + RECORD_BYTES * |rs|, dataOffset, cursor,
                payload, end);
  }

  lemma NodeIsExportable(nodes: seq<Node>, i: nat)
    requires Exportable(nodes) && i < |nodes| && nodes[i].used
    ensures |nodes| <= MAX_NODES
    ensures |nodes[i].name| < NAME_CAPACITY && |nodes[i].data| == FILE_CAPACITY && SizeFits(nodes[i])
  {
  }

  method BuildRecord(mix: Mix, node: Node, i: U32, offset: U32) returns (r: Record, payload: seq<Byte>)
    requires SizeFits(node) && |node.name| < NAME_CAPACITY && |node.data| == FILE_CAPACITY
    ensures payload == PayloadOf(node) && r == RecordOf(mix, node, i, offset)
  {
    payload := if node.kind == REGULAR then node.data[..node.size] else [];
    var dataHash := MixBytes(mix, HASH_EMPTY, payload);
    r := Record(i, node.kind, node.parent, node.owner, node.mode, node.size, offset, |payload|, dataHash, 0, PaddedName(node.name));
    var hash := HashRecord(mix, r);
    r := r.(objectHash := hash);
  }

  lemma {:induction false} PartsGrow(mix: Mix, nodes: seq<Node>, k: nat)
    requires Exportable(nodes) && k <= |nodes|
    ensures |Payloads(nodes, k)| <= |Payloads(nodes, |nodes|)|
    ensures |RecordsOf(mix, nodes, k)| <= |RecordsOf(mix, nodes, |nodes|)|
    decreases |nodes| - k
  {
    if k < |nodes| { PartsGrow(mix, nodes, k + 1); }
  }

  lemma RecordsGrow(mix: Mix, nodes: seq<Node>, k: nat, r: Record)
    requires Exportable(nodes) && k < |nodes| && nodes[k].used && |Payloads(nodes, k)| < UINT32 && k < UINT32
    requires SizeFits(nodes[k]) && |nodes[k].name| < NAME_CAPACITY
    requires r == RecordOf(mix, nodes[k], k, |Payloads(nodes, k)|)
    ensures RecordsOf(mix, nodes, k + 1) == RecordsOf(mix, nodes, k) + [r]
    ensures Payloads(nodes, k + 1) == Payloads(nodes, k) + PayloadOf(nodes[k])
  {
    hide RecordOf;
  }

  lemma RecordsStay(mix: Mix, nodes: seq<Node>, k: nat)
    requires Exportable(nodes) && k < |nodes| && !nodes[k].used
    ensures RecordsOf(mix, nodes, k + 1) == RecordsOf(mix, nodes, k) && Payloads(nodes, k + 1) == Payloads(nodes, k)
  {
  }

  lemma NothingYet(mix: Mix, nodes: seq<Node>)
    requires Exportable(nodes)
    ensures RecordsOf(mix, nodes, 0) == [] && Payloads(nodes, 0) == [] && RecordsBytes([]) == [] && HashesOf([]) == []
  {
  }

  lemma OneMore(rs: seq<Record>, r: Record)
    ensures HashesOf(rs + [r]) == HashesOf(rs) + [r.objectHash]
    ensures RecordsBytes(rs + [r]) == RecordsBytes(rs) + RecordBytes(r)
  {
    hide RecordBytes;
    assert (rs + [r])[..|rs|] == rs;
  }

  lemma BothWritten(before: seq<Byte>, between: seq<Byte>, after: seq<Byte>, records: seq<Byte>, record: seq<Byte>,
                    recordOffset: nat, dataOffset: nat, cursor: nat, payload: seq<Byte>, end: nat)
    requires |record| == RECORD_BYTES && HEADER_BYTES <= recordOffset && recordOffset + RECORD_BYTES <= dataOffset
    requires cursor + |payload| <= end && dataOffset + end <= |before|
    requires before[HEADER_BYTES..recordOffset] == records
    requires between == Patched(before, recordOffset, record) && after == Patched(between, dataOffset + cursor, payload)
    ensures |after| == |before| && after[HEADER_BYTES..recordOffset + RECORD_BYTES] == records + record
    ensures after[dataOffset..dataOffset + cursor + |payload|] == before[dataOffset..dataOffset + cursor] + payload
    ensures after[dataOffset + end..] == before[dataOffset + end..]
  {
    hide Patched;
    var at, tail := dataOffset + cursor, dataOffset + end;
    PatchedSlices(before, recordOffset, record, HEADER_BYTES, recordOffset);
    PatchedSlices(before, recordOffset, record, dataOffset, at);
    PatchedTail(before, recordOffset, record, tail);
    PatchedSlices(between, at, payload, HEADER_BYTES, recordOffset);
    PatchedSlices(between, at, payload, recordOffset, recordOffset + RECORD_BYTES);
    PatchedSlices(between, at, payload, dataOffset, at);
    PatchedTail(between, at, payload, tail);
    assert after[HEADER_BYTES..recordOffset + RECORD_BYTES] ==
           after[HEADER_BYTES..recordOffset] + after[recordOffset..recordOffset + RECORD_BYTES];
    assert after[dataOffset..at + |payload|] == after[dataOffset..at] + after[at..at + |payload|];
  }
}
