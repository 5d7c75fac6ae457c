/** The image validator and the image writer are inverse to each other: the validator accepts exactly
    the serializations of well-formed images (kernel/runtime_fs_image.c). */
module FsImageBytes {
  import opened FsModel
  import opened FsValidate
  import opened FsHash
  import opened FsImage

  // ---------------------------------------------------------------- well-formed images

  /** What holds of the `i`-th record by itself and beside the one before it. */
  predicate RecordFits(mix: Mix, img: Image, i: nat)
    requires i < |img.records|
  {
    var r, rs := img.records[i], img.records;
    && r.node < MAX_NODES && r.size <= FILE_CAPACITY
    && (if i == 0 then r.node == 0 && r.parent == 0 && r.kind == DIRECTORY && NameOf(r.name) == ROOT_NAME
        else rs[i - 1].node < r.node && NameOf(r.name) != [] && NameOf(r.name) != ROOT_NAME)
    && (r.kind == DIRECTORY || r.kind == REGULAR) && r.dataSize == (if r.kind == REGULAR then r.size else 0)
    && r.dataOffset == DataEnd(rs[..i]) && r.dataOffset + r.dataSize <= |img.data|
    && r.dataHash == HashBytes(mix, img.data[r.dataOffset..r.dataOffset + r.dataSize])
    && r.objectHash == ObjectHash(mix, r)
  }

  /** The record hangs from a directory of the image, and the root is above it. */
  ghost predicate Hangs(img: Image, i: nat)
    requires RecordsFit(img) && i < |img.records|
  {
    && (i > 0 ==> exists j :: 0 <= j < |img.records| && img.records[j].node == img.records[i].parent && img.records[j].kind == DIRECTORY)
    && Rooted(TableOf(img), img.records[i].node)
  }

  ghost predicate WellFormedImage(mix: Mix, img: Image) {
    && Sized(img) && IsPow2(img.leafCount)
    && (forall i :: 0 <= i < |img.records| ==> RecordFits(mix, img, i))
    && DataEnd(img.records) == |img.data|
    && RecordsFit(img)
    && (forall i :: 0 <= i < |img.records| ==> Hangs(img, i))
    && !AnyClash(img)
  }

  // ---------------------------------------------------------------- records and the node table

  lemma RootNameField(b: NameField)
    ensures NameOf(b) == ROOT_NAME <==> b[0] == SLASH && b[1] == 0
    ensures NameOf(b) == [] <==> b[0] == 0
  {
    assert NameOf(b[1..]) == [] <==> b[1] == 0;
    if b[0] != 0 {
      assert NameOf(b) == [b[0]] + NameOf(b[1..]);
      if b[1] == 0 { assert NameOf(b) == [b[0]]; } else { assert |NameOf(b)| > 1; }
      assert NameOf(b)[0] == b[0] && ROOT_NAME[0] == SLASH && |ROOT_NAME| == 1;
    }
  }

  lemma FitsAlone(mix: Mix, img: Image)
    requires forall i :: 0 <= i < |img.records| ==> RecordFits(mix, img, i)
    ensures RecordsFit(img)
  {
    forall i | 0 <= i < |img.records|
      ensures img.records[i].node < MAX_NODES && img.records[i].dataSize <= FILE_CAPACITY
      ensures img.records[i].dataOffset + img.records[i].dataSize <= |img.data|
    {
      assert RecordFits(mix, img, i);
    }
  }

  ghost predicate Increasing(rs: seq<Record>) {
    forall i :: 0 < i < |rs| ==> rs[i - 1].node < rs[i].node
  }

  lemma {:induction false} IncreasingFar(rs: seq<Record>, i: nat, j: nat)
    requires Increasing(rs) && i < j < |rs|
    ensures rs[i].node < rs[j].node
    decreases j
  {
    if i < j - 1 { IncreasingFar(rs, i, j - 1); }
  }

  lemma FitsIncreasing(mix: Mix, img: Image)
    requires forall i :: 0 <= i < |img.records| ==> RecordFits(mix, img, i)
    ensures Increasing(img.records)
  {
    forall i | 0 < i < |img.records| ensures img.records[i - 1].node < img.records[i].node {
      assert RecordFits(mix, img, i);
    }
  }

  /** The checks of the loop over the records amount to this. */
  lemma StatusIsFits(mix: Mix, img: Image, i: nat)
    requires i < |img.records|
    ensures RecordStatus(mix, img, i) == OK <==> RecordFits(mix, img, i) && !Seen(img.records, i, img.records[i].node)
  {
    hide ObjectHash, HashBytes, NameOf;
    RootNameField(img.records[i].name);
  }

  lemma RecordsStatusIsFits(mix: Mix, img: Image)
    ensures RecordsStatus(mix, img, 0) == OK <==> forall i :: 0 <= i < |img.records| ==> RecordFits(mix, img, i)
  {
    hide RecordFits, RecordStatus;
    RecordsStatusIs(mix, img, 0);
    forall i | 0 <= i < |img.records|
      ensures RecordStatus(mix, img, i) == OK <==> RecordFits(mix, img, i) && !Seen(img.records, i, img.records[i].node)
    {
      StatusIsFits(mix, img, i);
    }
    if forall i :: 0 <= i < |img.records| ==> RecordFits(mix, img, i) {
      FitsIncreasing(mix, img);
      forall i, j | 0 <= j < i < |img.records| ensures img.records[j].node != img.records[i].node {
        IncreasingFar(img.records, j, i);
      }
    }
  }

  /** Each record is found at its place in the table, and nothing else is. */
  lemma {:induction false} PlacedIs(img: Image, k: nat, n: nat)
    requires RecordsFit(img) && Increasing(img.records) && k <= |img.records| && n < MAX_NODES
    ensures forall j :: 0 <= j < k && img.records[j].node == n ==> Placed(img, k)[n] == NodeOf(img, img.records[j])
    ensures (forall j :: 0 <= j < k ==> img.records[j].node != n) ==> Placed(img, k)[n] == FreeNode()
    decreases k
  {
    hide NodeOf;
    if k > 0 {
      PlacedIs(img, k - 1, n);
      if img.records[k - 1].node == n {
        forall j | 0 <= j < k - 1 ensures img.records[j].node != n { IncreasingFar(img.records, j, k - 1); }
      }
    }
  }

  lemma TableHas(img: Image, n: nat)
    requires RecordsFit(img) && Increasing(img.records) && n < MAX_NODES
    ensures TableOf(img)[n].used <==> exists j :: 0 <= j < |img.records| && img.records[j].node == n
    ensures forall j :: 0 <= j < |img.records| && img.records[j].node == n ==> TableOf(img)[n] == NodeOf(img, img.records[j])
    ensures !TableOf(img)[n].used ==> TableOf(img)[n] == FreeNode()
  {
    PlacedIs(img, |img.records|, n);
  }

  /** Only the first record is the root's. */
  lemma RootIsFirst(mix: Mix, img: Image, i: nat)
    requires forall i :: 0 <= i < |img.records| ==> RecordFits(mix, img, i)
    requires i < |img.records|
    ensures img.records[i].node == 0 <==> i == 0
  {
    hide RecordFits;
    assert RecordFits(mix, img, 0);
    FitsIncreasing(mix, img);
    RecordOfRoot(mix, img);
    if i > 0 { IncreasingFar(img.records, 0, i); }
  }

  lemma RecordOfRoot(mix: Mix, img: Image)
    requires 0 < |img.records| && RecordFits(mix, img, 0)
    ensures img.records[0].node == 0 && img.records[0].parent == 0 && img.records[0].kind == DIRECTORY
    ensures NameOf(img.records[0].name) == ROOT_NAME
  {
  }

  /** The parent check of the validator, record by record. */
  lemma ParentPresent(mix: Mix, img: Image, i: nat)
    requires forall i :: 0 <= i < |img.records| ==> RecordFits(mix, img, i)
    requires RecordsFit(img) && i < |img.records|
    ensures var r, table := img.records[i], TableOf(img);
      (r.node != 0 ==> r.parent < MAX_NODES && table[r.parent].used && table[r.parent].kind == DIRECTORY)
      <==> (i > 0 ==> exists j :: 0 <= j < |img.records| && img.records[j].node == r.parent && img.records[j].kind == DIRECTORY)
  {
    hide RecordFits, TableOf;
    RootIsFirst(mix, img, i);
    FitsIncreasing(mix, img);
    if img.records[i].parent < MAX_NODES { TableHas(img, img.records[i].parent); }
  }

  lemma TableParentsInUse(mix: Mix, img: Image)
    requires |img.records| > 0 && RecordsFit(img)
    requires forall i :: 0 <= i < |img.records| ==> RecordFits(mix, img, i)
    requires forall i :: 0 < i < |img.records| ==>
      exists j :: 0 <= j < |img.records| && img.records[j].node == img.records[i].parent && img.records[j].kind == DIRECTORY
    ensures ParentsInUse(TableOf(img))
  {
    hide RecordFits, TableOf;
    var table := TableOf(img);
    FitsIncreasing(mix, img);
    RecordOfRoot(mix, img);
    TableHas(img, 0);
    assert table[0] == NodeOf(img, img.records[0]);
    forall n | 0 <= n < |table| && table[n].used ensures table[n].parent < |table| && table[table[n].parent].used {
      TableHas(img, n);
      var i :| 0 <= i < |img.records| && img.records[i].node == n;
      if i > 0 {
        var j :| 0 <= j < |img.records| && img.records[j].node == img.records[i].parent && img.records[j].kind == DIRECTORY;
        TableHas(img, img.records[j].node);
      }
    }
  }

  /** The walk of the validator from every record ends at the root exactly when the root is above it. */
  lemma ParentsAreExact(mix: Mix, img: Image)
    requires |img.records| > 0 && RecordsFit(img)
    requires forall i :: 0 <= i < |img.records| ==> RecordFits(mix, img, i)
    ensures (forall i :: 0 <= i < |img.records| ==> ParentOk(img, i)) <==> (forall i :: 0 <= i < |img.records| ==> Hangs(img, i))
  {
    hide RecordFits, TableOf, Rooted, ChainOk;
    var table := TableOf(img);
    FitsIncreasing(mix, img);
    forall i | 0 <= i < |img.records|
      ensures ParentOk(img, i) ==> Hangs(img, i)
    {
      ParentPresent(mix, img, i);
      TableHas(img, img.records[i].node);
      if ParentOk(img, i) { WalkIsRooted(table, img.records[i].node); }
    }
    if forall i :: 0 <= i < |img.records| ==> Hangs(img, i) {
      forall i | 0 < i < |img.records|
        ensures exists j :: 0 <= j < |img.records| && img.records[j].node == img.records[i].parent && img.records[j].kind == DIRECTORY
      {
        assert Hangs(img, i);
      }
      TableParentsInUse(mix, img);
      forall i | 0 <= i < |img.records| ensures ParentOk(img, i) {
        assert Hangs(img, i);
        ParentPresent(mix, img, i);
        TableHas(img, img.records[i].node);
        RootedPassesWalk(table, img.records[i].node);
      }
    }
  }

  // ---------------------------------------------------------------- bytes to records and back

  lemma {:induction false} RecordsUndoRead(b: seq<Byte>, at: nat, n: nat)
    requires at + RECORD_BYTES * n <= |b|
    ensures RecordsBytes(ReadRecords(b, at, n)) == b[at..at + RECORD_BYTES * n]
    decreases n
  {
    hide RecordBytes, ReadRecord;
    if n > 0 {
      var rs, last := ReadRecords(b, at, n), at + RECORD_BYTES * (n - 1);
      RecordsUndoRead(b, at, n - 1);
      assert rs[..n - 1] == ReadRecords(b, at, n - 1);
      RecordUndoesRead(b, last);
    }
  }

  lemma RecordUndoesRead(b: seq<Byte>, at: nat)
    requires at + RECORD_BYTES <= |b|
    ensures RecordBytes(ReadRecord(b, at)) == b[at..at + RECORD_BYTES]
  {
    hide Load, Words;
    var r := ReadRecord(b, at);
    WordsUndoesLoadWords(b, at, 10);
    assert LoadWords(b, at, 10) == Fields(r) + [r.objectHash];
    assert b[at..at + 40] + b[at + 40..at + 56] == b[at..at + 56];
  }

  lemma LoadOfWords(b: seq<Byte>, at: nat, vs: seq<U32>, k: nat)
    requires at + 4 * |vs| <= |b| && b[at..at + 4 * |vs|] == Words(vs) && k < |vs|
    ensures Load(b, at + 4 * k) == vs[k]
  {
    WordOfWords(vs, k);
    LoadUndoesWord(vs[k]);
    var w := Words(vs)[4 * k..4 * k + 4];
    assert forall d :: 0 <= d < 4 ==> w[d] == b[at..at + 4 * |vs|][4 * k + d] == b[at + 4 * k + d];
  }

  lemma LoadsOfWords(b: seq<Byte>, at: nat, vs: seq<U32>)
    requires at + 4 * |vs| <= |b| && b[at..at + 4 * |vs|] == Words(vs)
    ensures LoadWords(b, at, |vs|) == vs
  {
    hide Load, Words;
    forall k | 0 <= k < |vs| ensures LoadWords(b, at, |vs|)[k] == vs[k] { LoadOfWords(b, at, vs, k); }
  }

  lemma ReadUndoesRecord(b: seq<Byte>, at: nat, r: Record)
    requires at + RECORD_BYTES <= |b| && b[at..at + RECORD_BYTES] == RecordBytes(r)
    ensures ReadRecord(b, at) == r
  {
    hide Load, Words;
    var vs := Fields(r) + [r.objectHash];
    assert b[at..at + 40] == b[at..at + 56][..40] && b[at + 40..at + 56] == b[at..at + 56][40..];
    LoadsOfWords(b, at, vs);
    var loaded := LoadWords(b, at, 10);
    assert loaded[0] == Load(b, at + 4 * 0) && loaded[1] == Load(b, at + 4 * 1) && loaded[2] == Load(b, at + 4 * 2);
    assert loaded[3] == Load(b, at + 4 * 3) && loaded[4] == Load(b, at + 4 * 4) && loaded[5] == Load(b, at + 4 * 5);
    assert loaded[6] == Load(b, at + 4 * 6) && loaded[7] == Load(b, at + 4 * 7) && loaded[8] == Load(b, at + 4 * 8);
    assert loaded[9] == Load(b, at + 4 * 9);
  }

  lemma {:induction false} ReadUndoesRecords(b: seq<Byte>, at: nat, rs: seq<Record>)
    requires at + RECORD_BYTES * |rs| <= |b| && b[at..at + RECORD_BYTES * |rs|] == RecordsBytes(rs)
    ensures ReadRecords(b, at, |rs|) == rs
    decreases |rs|
  {
    hide RecordBytes, ReadRecord;
    if rs != [] {
      var n := |rs| - 1;
      var init, last := rs[..n], at + RECORD_BYTES * n;
      assert b[at..at + RECORD_BYTES * |rs|][..RECORD_BYTES * n] == b[at..last];
      assert b[at..at + RECORD_BYTES * |rs|][RECORD_BYTES * n..] == b[last..last + RECORD_BYTES];
      ReadUndoesRecords(b, at, init);
      ReadUndoesRecord(b, last, rs[n]);
    }
  }

  // ---------------------------------------------------------------- the whole image

  /** Where the parts of a serialization lie. */
  lemma PartsOf(mix: Mix, img: Image)
    requires Sized(img)
    ensures var b, heap, t := Serialize(mix, img), Heap(mix, Leaves(img)), HEADER_BYTES + RECORD_BYTES * |img.records|;
      && b[0..0 + 40] == Words(HeaderWords(img, heap[0]))
      && b[40..t] == RecordsBytes(img.records)
      && b[t..t + 4 * |heap|] == Words(heap)
      && b[t + 4 * |heap|..] == img.data
  {
    hide Words, RecordsBytes, Heap, Leaves, HeaderWords;
  }

  lemma HeaderOfSerialized(mix: Mix, img: Image)
    requires Sized(img) && IsPow2(img.leafCount)
    ensures var b := Serialize(mix, img);
      && HeaderOk(b) && Load(b, 12) == |img.records| && Load(b, 20) == img.leafCount && Load(b, 24) == 2 * img.leafCount - 1
      && Load(b, 32) == Heap(mix, Leaves(img))[0]
  {
    hide Serialize, Load, Words, Heap, Leaves, NextPow2, IsPow2;
    var b, words := Serialize(mix, img), HeaderWords(img, Heap(mix, Leaves(img))[0]);
    PartsOf(mix, img);
    LoadsOfWords(b, 0, words);
    var loaded := LoadWords(b, 0, 10);
    assert loaded[0] == Load(b, 4 * 0) && loaded[1] == Load(b, 4 * 1) && loaded[2] == Load(b, 4 * 2);
    assert loaded[3] == Load(b, 4 * 3) && loaded[4] == Load(b, 4 * 4) && loaded[5] == Load(b, 4 * 5);
    assert loaded[6] == Load(b, 4 * 6) && loaded[7] == Load(b, 4 * 7) && loaded[8] == Load(b, 4 * 8) && loaded[9] == Load(b, 4 * 9);
    OwnPowerIsPow2(img.leafCount);
  }

  lemma ParseOfSerialized(mix: Mix, img: Image)
    requires Sized(img) && IsPow2(img.leafCount)
    ensures var b := Serialize(mix, img);
      HeaderOk(b) && Parse(b) == img && LoadWords(b, TreeOffset(b), Load(b, 24)) == Heap(mix, Leaves(img))
  {
    hide Serialize, Load, Words, Heap, Leaves, HeaderOk, RecordsBytes, ReadRecords;
    var b := Serialize(mix, img);
    PartsOf(mix, img);
    HeaderOfSerialized(mix, img);
    ReadUndoesRecords(b, HEADER_BYTES, img.records);
    LoadsOfWords(b, TreeOffset(b), Heap(mix, Leaves(img)));
  }

  /** Printer then parser: the serialization of a well-formed image is accepted and parses back to it. */
  lemma SerializedIsAccepted(mix: Mix, img: Image)
    requires WellFormedImage(mix, img)
    ensures var b := Serialize(mix, img);
      Checked(mix, b) == OK && HeaderOk(b) && Parse(b) == img
  {
    hide Serialize, Load, Heap, Leaves, HeaderOk, RecordFits, ParentOk, Hangs, AnyClash, Parse, RecordsFit, IsPow2, TreeHash;
    ParseOfSerialized(mix, img);
    HeaderOfSerialized(mix, img);
    RecordsStatusIsFits(mix, img);
    ParentsAreExact(mix, img);
    HeapIsHeap(mix, Leaves(img));
    HeapChecks(mix, Serialize(mix, img));
  }

  lemma HeapChecks(mix: Mix, b: seq<Byte>)
    requires HeaderOk(b)
    ensures TreeOk(mix, b) <==> var heap := LoadWords(b, TreeOffset(b), Load(b, 24));
      heap == Heap(mix, Leaves(Parse(b))) && heap[0] == Load(b, 32)
  {
    hide Load, TreeHash, Heap;
    HeapExactly(mix, LoadWords(b, TreeOffset(b), Load(b, 24)), Leaves(Parse(b)));
  }

  lemma CheckedParts(mix: Mix, b: seq<Byte>)
    requires Checked(mix, b) == OK
    ensures HeaderOk(b) && RecordsFit(Parse(b))
    ensures var img := Parse(b);
      && RecordsStatus(mix, img, 0) == OK && DataEnd(img.records) == |img.data|
      && (forall i :: 0 <= i < |img.records| ==> ParentOk(img, i)) && !AnyClash(img) && TreeOk(mix, b)
  {
    hide Load, ParentOk, AnyClash, RecordsFit, TreeOk, RecordsStatus, Parse, HeaderOk;
    CheckedRecordsFit(mix, Parse(b));
  }

  lemma ParsedIsSized(b: seq<Byte>)
    requires HeaderOk(b) && RecordsFit(Parse(b)) && DataEnd(Parse(b).records) == |Parse(b).data|
    ensures Sized(Parse(b)) && IsPow2(Parse(b).leafCount) && |Parse(b).records| > 0
  {
    hide Load, ReadRecords, RecordsFit, IsPow2;
    OwnPowerIsPow2(Parse(b).leafCount);
    DataIsSmall(Parse(b));
  }

  /** Parser then printer: an accepted buffer is the serialization of what it parses to, so its records,
      payloads and leaf count determine every byte of it. */
  lemma AcceptedIsSerialized(mix: Mix, b: seq<Byte>)
    requires Checked(mix, b) == OK
    ensures HeaderOk(b) && WellFormedImage(mix, Parse(b)) && b == Serialize(mix, Parse(b))
  {
    hide Checked, Parse, HeaderOk, Sized, RecordFits, ParentOk, Hangs, AnyClash, RecordsFit, IsPow2, TreeOk, Serialize;
    CheckedParts(mix, b);
    ParsedIsSized(b);
    RecordsStatusIsFits(mix, Parse(b));
    ParentsAreExact(mix, Parse(b));
    HeapChecks(mix, b);
    BytesOfParsed(mix, b);
  }

  lemma {:induction false} DataEndIsSmall(img: Image, k: nat)
    requires RecordsFit(img) && k <= |img.records|
    ensures DataEnd(img.records[..k]) <= k * FILE_CAPACITY
    decreases k
  {
    if k > 0 {
      DataEndIsSmall(img, k - 1);
      assert img.records[..k][..k - 1] == img.records[..k - 1];
    }
  }

  lemma DataIsSmall(img: Image)
    requires RecordsFit(img) && DataEnd(img.records) == |img.data| && |img.records| <= MAX_NODES
    ensures |img.data| <= MAX_NODES * FILE_CAPACITY
  {
    DataEndIsSmall(img, |img.records|);
    assert img.records[..|img.records|] == img.records;
  }

  lemma BytesOfParsed(mix: Mix, b: seq<Byte>)
    requires HeaderOk(b) && Sized(Parse(b)) && TreeOk(mix, b)
    requires LoadWords(b, TreeOffset(b), Load(b, 24)) == Heap(mix, Leaves(Parse(b)))
    ensures b == Serialize(mix, Parse(b))
  {
    hide Heap, Leaves, TreeHash, ReadRecords, Words, Load;
    var img := Parse(b);
    var heap := Heap(mix, Leaves(img));
    WordsUndoesLoadWords(b, 0, 10);
    HeaderWordsOfParsed(b, heap[0]);
    RecordsUndoRead(b, HEADER_BYTES, |img.records|);
    WordsUndoesLoadWords(b, TreeOffset(b), |heap|);
    assert b == b[0..0 + 40] + b[40..TreeOffset(b)] + b[TreeOffset(b)..DataOffset(b)] + b[DataOffset(b)..];
  }

  lemma HeaderWordsOfParsed(b: seq<Byte>, root: U32)
    requires HeaderOk(b) && Sized(Parse(b)) && root == Load(b, 32)
    ensures LoadWords(b, 0, 10) == HeaderWords(Parse(b), root)
  {
    hide Load, ReadRecords;
    var img, words := Parse(b), HeaderWords(Parse(b), root);
    assert words[0] == Load(b, 4 * 0) && words[1] == Load(b, 4 * 1) && words[2] == Load(b, 4 * 2);
    assert words[3] == Load(b, 4 * 3) && words[4] == Load(b, 4 * 4) && words[5] == Load(b, 4 * 5);
    assert words[6] == Load(b, 4 * 6) && words[7] == Load(b, 4 * 7) && words[8] == Load(b, 4 * 8) && words[9] == Load(b, 4 * 9);
  }

  /** The validator accepts exactly the serializations of well-formed images. */
  lemma AcceptsExactly(mix: Mix, b: seq<Byte>)
    ensures Checked(mix, b) == OK <==> exists img :: WellFormedImage(mix, img) && b == Serialize(mix, img)
  {
    hide Checked, Serialize, RecordFits, Hangs;
    if Checked(mix, b) == OK {
      AcceptedIsSerialized(mix, b);
    }
    if img :| WellFormedImage(mix, img) && b == Serialize(mix, img) {
      SerializedIsAccepted(mix, img);
    }
  }
}
