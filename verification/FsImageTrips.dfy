/** Exporting, validating and importing a file system gives it back, and what an accepted image imports
    to (kernel/runtime_fs_image.c). */
module FsImageTrips {
  import opened FsModel
  import opened FsTree
  import opened FsSound
  import opened FsValidate
  import opened FsHash
  import opened FsImage
  import opened FsImageBytes

  // ---------------------------------------------------------------- names

  lemma {:induction false} NameOfPadded(name: Name, n: nat)
    requires n > 0
    ensures NameOf(name + Zeros(n)) == name
  {
    if name == [] {
      assert name + Zeros(n) == Zeros(n);
    } else {
      assert (name + Zeros(n))[1..] == name[1..] + Zeros(n);
      NameOfPadded(name[1..], n);
    }
  }

  /** A name survives the record's name field. */
  lemma NameSurvives(name: Name)
    requires |name| < NAME_CAPACITY
    ensures Terminated(PaddedName(name)) && NameOf(PaddedName(name)) == name && CopiedName(PaddedName(name)) == name
  {
    NameOfPadded(name, NAME_CAPACITY - |name|);
    assert PaddedName(name)[|name|] == 0;
  }

  lemma {:induction false} NameOfFull(b: seq<Byte>)
    ensures |NameOf(b)| == |b| <==> 0 !in b
    ensures 0 !in b ==> NameOf(b) == b
  {
    if b != [] && b[0] != 0 {
      NameOfFull(b[1..]);
      assert b == [b[0]] + b[1..];
    }
  }

  // ---------------------------------------------------------------- the exported records

  /** Record `j` is what the exporter writes for its node, and its payload is in place. */
  ghost predicate Written(mix: Mix, nodes: seq<Node>, rs: seq<Record>, data: seq<Byte>, j: nat)
    requires Exportable(nodes) && j < |rs|
  {
    var i := rs[j].node;
    && i < |nodes| && nodes[i].used
    && |Payloads(nodes, i)| < UINT32 && rs[j] == RecordOf(mix, nodes[i], i, |Payloads(nodes, i)|)
    && DataEnd(rs[..j]) == |Payloads(nodes, i)|
    && Payloads(nodes, i) + PayloadOf(nodes[i]) <= data
  }

  lemma {:induction false} RecordsAreWritten(mix: Mix, nodes: seq<Node>, k: nat)
    requires Exportable(nodes) && k <= |nodes|
    ensures var rs, data := RecordsOf(mix, nodes, k), Payloads(nodes, k);
      && (forall j :: 0 <= j < |rs| ==> Written(mix, nodes, rs, data, j) && rs[j].node < k)
      && Increasing(rs) && DataEnd(rs) == |data|
    decreases k
  {
    hide RecordOf, PayloadOf, Written;
    if k > 0 {
      RecordsAreWritten(mix, nodes, k - 1);
      var rs0, data0 := RecordsOf(mix, nodes, k - 1), Payloads(nodes, k - 1);
      var rs, data := RecordsOf(mix, nodes, k), Payloads(nodes, k);
      forall j | 0 <= j < |rs0| ensures Written(mix, nodes, rs, data, j) && rs[j] == rs0[j] {
        WrittenStays(mix, nodes, rs0, data0, rs, data, j);
      }
      if nodes[k - 1].used {
        assert rs == rs0 + [RecordOf(mix, nodes[k - 1], k - 1, |data0|)];
        NewIsWritten(mix, nodes, k, rs0, rs);
      } else {
        assert rs == rs0 && data == data0;
      }
    }
  }

  lemma WrittenStays(mix: Mix, nodes: seq<Node>, rs0: seq<Record>, data0: seq<Byte>, rs: seq<Record>, data: seq<Byte>, j: nat)
    requires Exportable(nodes) && j < |rs0| && rs0 <= rs && data0 <= data && Written(mix, nodes, rs0, data0, j)
    ensures Written(mix, nodes, rs, data, j) && rs[j] == rs0[j]
  {
    hide RecordOf, PayloadOf, Payloads, Exportable;
    assert rs0[..j] == rs[..j];
  }

  lemma NewIsWritten(mix: Mix, nodes: seq<Node>, k: nat, rs0: seq<Record>, rs: seq<Record>)
    requires Exportable(nodes) && 0 < k <= |nodes| && nodes[k - 1].used
    requires rs == rs0 + [RecordOf(mix, nodes[k - 1], k - 1, |Payloads(nodes, k - 1)|)]
    requires DataEnd(rs0) == |Payloads(nodes, k - 1)|
    ensures Written(mix, nodes, rs, Payloads(nodes, k), |rs0|) && rs[|rs0|].node == k - 1
    ensures DataEnd(rs) == |Payloads(nodes, k)|
  {
    hide RecordOf, PayloadOf;
    RecordOfHas(mix, nodes[k - 1], k - 1, |Payloads(nodes, k - 1)|);
    assert rs[..|rs0|] == rs0;
  }

  lemma RecordOfHas(mix: Mix, node: Node, i: U32, offset: U32)
    requires SizeFits(node) && |node.name| < NAME_CAPACITY && |node.data| < UINT32
    ensures var r := RecordOf(mix, node, i, offset);
      && r.node == i && r.kind == node.kind && r.parent == node.parent && r.owner == node.owner && r.mode == node.mode
      && r.size == node.size && r.dataOffset == offset && r.dataSize == |PayloadOf(node)| && r.name == PaddedName(node.name)
      && r.dataHash == HashBytes(mix, PayloadOf(node)) && r.objectHash == ObjectHash(mix, r)
  {
    hide HashBytes, PaddedName, Words;
  }

  predicate HasRecord(rs: seq<Record>, i: nat) {
    exists j :: 0 <= j < |rs| && rs[j].node == i
  }

  lemma {:induction false} EveryNodeIsWritten(mix: Mix, nodes: seq<Node>, k: nat, i: nat)
    requires Exportable(nodes) && i < k <= |nodes| && nodes[i].used
    ensures HasRecord(RecordsOf(mix, nodes, k), i)
    decreases k
  {
    hide RecordOf;
    var rs := RecordsOf(mix, nodes, k);
    if i == k - 1 {
      RecordOfHas(mix, nodes[i], i, |Payloads(nodes, i)|);
      assert rs[|rs| - 1].node == i;
    } else {
      EveryNodeIsWritten(mix, nodes, k - 1, i);
      var rs0 := RecordsOf(mix, nodes, k - 1);
      var j :| 0 <= j < |rs0| && rs0[j].node == i;
      assert j < |rs| && rs[j] == rs0[j] && rs[j].node == i;
      assert HasRecord(rs, i);
    }
  }

  lemma SoundIsExportable(fs: Fs)
    requires Sound(fs) && |fs.nodes| == MAX_NODES
    ensures Exportable(fs.nodes)
  {
    hide Tree;
    forall i | 0 <= i < |fs.nodes|
      ensures |fs.nodes[i].name| < NAME_CAPACITY && |fs.nodes[i].data| == FILE_CAPACITY && SizeFits(fs.nodes[i])
    {
      assert NodeOk(fs.nodes[i]);
      if fs.nodes[i].used { NameFits(fs, i); }
    }
  }

  lemma NameFits(fs: Fs, i: nat)
    requires Sound(fs) && i < |fs.nodes| && fs.nodes[i].used
    ensures if i == 0 then RootOk(fs.nodes[0]) && fs.nodes[0].name == ROOT_NAME else EntryOk(fs.nodes, fs.nodes[i])
    ensures |fs.nodes[i].name| < NAME_CAPACITY
  {
    if i > 0 { assert EntryOk(fs.nodes, fs.nodes[i]); }
  }

  /** What the importer makes of the exporter's record is the node. */
  lemma NodeSurvives(mix: Mix, node: Node, i: U32, before: seq<Byte>, img: Image)
    requires NodeOk(node) && node.used && |node.name| < NAME_CAPACITY && (node.kind == DIRECTORY || node.kind == REGULAR)
    requires |before| < UINT32 && before + PayloadOf(node) <= img.data
    ensures var r := RecordOf(mix, node, i, |before|);
      && r.dataSize <= FILE_CAPACITY && r.dataOffset + r.dataSize <= |img.data| && NodeOf(img, r) == node
      && img.data[r.dataOffset..r.dataOffset + r.dataSize] == PayloadOf(node)
  {
    hide RecordOf, CopiedName, PaddedName;
    RecordOfHas(mix, node, i, |before|);
    var r, payload := RecordOf(mix, node, i, |before|), PayloadOf(node);
    NameSurvives(node.name);
    assert img.data[|before|..|before| + |payload|] == payload by {
      assert img.data[..|before + payload|] == before + payload;
    }
    assert payload + Zeros(FILE_CAPACITY - |payload|) == node.data;
  }

  lemma WrittenFits(mix: Mix, fs: Fs, j: nat)
    requires Sound(fs) && |fs.nodes| == MAX_NODES && Exportable(fs.nodes)
    requires j < |RecordsOf(mix, fs.nodes, MAX_NODES)|
    ensures var img := ExportedImage(mix, fs.nodes);
      RecordFits(mix, img, j) && img.records[j].node < |fs.nodes| && fs.nodes[img.records[j].node].used
      && img.records[j].dataSize <= FILE_CAPACITY && NodeOf(img, img.records[j]) == fs.nodes[img.records[j].node]
      && img.records[j].name == PaddedName(fs.nodes[img.records[j].node].name)
  {
    hide Sound, RecordsOf, RecordOf, NodeOf, NodeOk, HashBytes, ObjectHash, NextPow2, PaddedName, NameOf, PayloadOf, Payloads, Exportable, DataEnd, CopiedName, Terminated;
    var img := ExportedImage(mix, fs.nodes);
    var rs := img.records;
    RecordsAreWritten(mix, fs.nodes, MAX_NODES);
    assert Written(mix, fs.nodes, rs, img.data, j);
    var i := rs[j].node;
    NodeFacts(fs, i);
    NodeSurvives(mix, fs.nodes[i], i, Payloads(fs.nodes, i), img);
    RecordOfHas(mix, fs.nodes[i], i, |Payloads(fs.nodes, i)|);
    NameSurvives(fs.nodes[i].name);
    FirstIsRoot(mix, fs);
    PayloadSize(fs.nodes[i]);
    if j > 0 { assert rs[j - 1].node < rs[j].node; }
  }

  lemma PayloadSize(node: Node)
    requires SizeFits(node)
    ensures |PayloadOf(node)| == if node.kind == REGULAR then node.size else 0
  {
  }

  lemma NodeFacts(fs: Fs, i: nat)
    requires Sound(fs) && i < |fs.nodes| && fs.nodes[i].used
    ensures NodeOk(fs.nodes[i]) && |fs.nodes[i].name| < NAME_CAPACITY
    ensures fs.nodes[i].kind == DIRECTORY || fs.nodes[i].kind == REGULAR
    ensures if i == 0 then fs.nodes[0].parent == 0 && fs.nodes[0].kind == DIRECTORY && fs.nodes[0].name == ROOT_NAME
            else fs.nodes[i].name != [] && fs.nodes[i].name != ROOT_NAME
    ensures fs.nodes[i].parent < |fs.nodes| && fs.nodes[fs.nodes[i].parent].used && fs.nodes[fs.nodes[i].parent].kind == DIRECTORY
  {
    assert ROOT_NAME[0] == SLASH;
    NameFits(fs, i);
    RootUsed(fs);
  }

  lemma RootUsed(fs: Fs)
    requires Sound(fs)
    ensures fs.nodes != [] && RootOk(fs.nodes[0])
  {
  }

  lemma FirstIsRoot(mix: Mix, fs: Fs)
    requires Sound(fs) && |fs.nodes| == MAX_NODES && Exportable(fs.nodes)
    ensures var rs := RecordsOf(mix, fs.nodes, MAX_NODES); |rs| > 0 && rs[0].node == 0
  {
    hide RecordsOf;
    RootUsed(fs);
    RecordsAreWritten(mix, fs.nodes, MAX_NODES);
    EveryNodeIsWritten(mix, fs.nodes, MAX_NODES, 0);
    var rs := RecordsOf(mix, fs.nodes, MAX_NODES);
    var j :| 0 <= j < |rs| && rs[j].node == 0;
    if j > 0 { IncreasingFar(rs, 0, j); }
  }

  /** The importer's table is the exporter's. */
  lemma TableSurvives(mix: Mix, fs: Fs)
    requires Sound(fs) && |fs.nodes| == MAX_NODES && Exportable(fs.nodes)
    ensures var img := ExportedImage(mix, fs.nodes);
      && (forall j :: 0 <= j < |img.records| ==> RecordFits(mix, img, j)) && RecordsFit(img) && TableOf(img) == fs.nodes
  {
    hide Tree, RecordsOf, NodeOf, TableOf, RecordFits, Payloads, NextPow2, Placed;
    var img := ExportedImage(mix, fs.nodes);
    forall j | 0 <= j < |img.records| ensures RecordFits(mix, img, j) { WrittenFits(mix, fs, j); }
    FitsAlone(mix, img);
    FitsIncreasing(mix, img);
    forall i | 0 <= i < MAX_NODES ensures TableOf(img)[i] == fs.nodes[i] {
      TableHas(img, i);
      if fs.nodes[i].used {
        EveryNodeIsWritten(mix, fs.nodes, MAX_NODES, i);
        var j :| 0 <= j < |img.records| && img.records[j].node == i;
        WrittenFits(mix, fs, j);
      } else {
        if TableOf(img)[i].used {
          var j :| 0 <= j < |img.records| && img.records[j].node == i;
          WrittenFits(mix, fs, j);
        }
        assert NodeOk(fs.nodes[i]);
      }
    }
  }

  lemma SiblingsDiffer(mix: Mix, fs: Fs, a: nat, b: nat)
    requires Sound(fs) && |fs.nodes| == MAX_NODES && Exportable(fs.nodes)
    requires a < b < |ExportedImage(mix, fs.nodes).records|
    ensures !Clash(ExportedImage(mix, fs.nodes), a, b)
  {
    hide RecordsOf, NodeOf, RecordFits, Payloads, NextPow2, NameOf, PaddedName;
    var img := ExportedImage(mix, fs.nodes);
    WrittenFits(mix, fs, a);
    WrittenFits(mix, fs, b);
    RecordsAreWritten(mix, fs.nodes, MAX_NODES);
    IncreasingFar(img.records, a, b);
    var i, k := img.records[a].node, img.records[b].node;
    NameSurvives(fs.nodes[i].name);
    NameSurvives(fs.nodes[k].name);
    RecordParent(img, a);
    RecordParent(img, b);
    NodeFacts(fs, i);
    NodeFacts(fs, k);
  }

  lemma RecordParent(img: Image, j: nat)
    requires j < |img.records| && img.records[j].dataSize <= FILE_CAPACITY
    requires img.records[j].dataOffset + img.records[j].dataSize <= |img.data|
    ensures NodeOf(img, img.records[j]).parent == img.records[j].parent
    ensures NodeOf(img, img.records[j]).kind == img.records[j].kind
  {
  }

  lemma ExportHangs(mix: Mix, fs: Fs, j: nat)
    requires Sound(fs) && |fs.nodes| == MAX_NODES && Exportable(fs.nodes)
    requires RecordsFit(ExportedImage(mix, fs.nodes)) && j < |ExportedImage(mix, fs.nodes).records|
    ensures Hangs(ExportedImage(mix, fs.nodes), j)
  {
    hide RecordsOf, RecordFits, Payloads, NextPow2, NodeOf, TableOf, Tree, Rooted, Lookup;
    var img := ExportedImage(mix, fs.nodes);
    WrittenFits(mix, fs, j);
    TableSurvives(mix, fs);
    var i := img.records[j].node;
    NodeFacts(fs, i);
    RecordParent(img, j);
    EveryNodeIsWritten(mix, fs.nodes, MAX_NODES, fs.nodes[i].parent);
    var k :| 0 <= k < |img.records| && img.records[k].node == fs.nodes[i].parent;
    WrittenFits(mix, fs, k);
    RecordParent(img, k);
    SoundIsRooted(fs, i);
  }

  lemma SoundIsRooted(fs: Fs, i: nat)
    requires Sound(fs) && i < |fs.nodes| && fs.nodes[i].used
    ensures Rooted(fs.nodes, i)
  {
    SoundIsWellFormed(fs);
    if i == 0 { assert Up(fs.nodes, 0, 0) == 0; }
  }

  lemma ExportIsWellFormed(mix: Mix, fs: Fs)
    requires Sound(fs) && |fs.nodes| == MAX_NODES
    ensures Exportable(fs.nodes) && WellFormedImage(mix, ExportedImage(mix, fs.nodes))
    ensures RecordsFit(ExportedImage(mix, fs.nodes)) && TableOf(ExportedImage(mix, fs.nodes)) == fs.nodes
  {
    hide Sound, RecordsOf, RecordFits, Payloads, NextPow2, NodeOf, TableOf, Hangs, Clash, IsPow2, RecordsFit;
    SoundIsExportable(fs);
    var img := ExportedImage(mix, fs.nodes);
    TableSurvives(mix, fs);
    RecordsAreWritten(mix, fs.nodes, MAX_NODES);
    FirstIsRoot(mix, fs);
    LeafCountFits(|img.records|);
    forall j | 0 <= j < |img.records| ensures Hangs(img, j) { ExportHangs(mix, fs, j); }
    forall a, b | 0 <= a < b < |img.records| ensures !Clash(img, a, b) { SiblingsDiffer(mix, fs, a, b); }
  }

  lemma LeafCountFits(n: nat)
    requires 0 < n <= MAX_NODES
    ensures n <= NextPow2(n) <= MAX_NODES && IsPow2(NextPow2(n))
  {
    assert IsPow2(1) && IsPow2(2) && IsPow2(4) && IsPow2(8) && IsPow2(16);
    NextPow2IsLeast(n, 1, MAX_NODES);
  }

  /** Export, validate, import: a reachable file system without open files comes back node for node, with
      every data byte; exporting it again gives the same bytes. */
  lemma ExportedComesBack(mix: Mix, fs: Fs)
    requires Sound(fs) && |fs.nodes| == MAX_NODES && forall k :: 0 <= k < |fs.slots| ==> !fs.slots[k].used
    ensures Exportable(fs.nodes) && Sized(ExportedImage(mix, fs.nodes)) && |fs.slots| < UINT32
    ensures var b := Serialize(mix, ExportedImage(mix, fs.nodes));
      && Checked(mix, b) == OK
      && Imported(mix, b, |fs.slots|) == Ok(fs)
  {
    hide Serialize, ExportedImage, Checked, Parse, HeaderOk, TableOf, Tree;
    ExportIsWellFormed(mix, fs);
    var img := ExportedImage(mix, fs.nodes);
    WellFormedIsSized(mix, img);
    SerializedIsAccepted(mix, img);
    SoundIsWellFormed(fs);
    assert fs.slots == FreeSlots(|fs.slots|) by {
      forall k | 0 <= k < |fs.slots| ensures fs.slots[k] == FreeSlot() { assert SlotOk(fs.nodes, fs.slots[k]); }
    }
  }

  lemma WellFormedIsSized(mix: Mix, img: Image)
    requires WellFormedImage(mix, img)
    ensures Sized(img) && IsPow2(img.leafCount)
  {
  }

  // ---------------------------------------------------------------- what an accepted image imports to

  lemma NodeOfHas(img: Image, r: Record)
    requires r.dataSize <= FILE_CAPACITY && r.dataOffset + r.dataSize <= |img.data|
    ensures var node := NodeOf(img, r);
      && node.used && node.kind == r.kind && node.parent == r.parent && node.size == r.size && node.name == CopiedName(r.name)
      && |node.data| == FILE_CAPACITY && forall k :: r.dataSize <= k < FILE_CAPACITY ==> node.data[k] == 0
  {
  }

  lemma CopiedNameIs(b: NameField)
    ensures CopiedName(b) == [] <==> NameOf(b) == []
    ensures CopiedName(b) == ROOT_NAME <==> NameOf(b) == ROOT_NAME
    ensures |CopiedName(b)| < NAME_CAPACITY
    ensures Terminated(b) ==> CopiedName(b) == NameOf(b)
  {
    assert |ROOT_NAME| == 1;
    NameOfFull(b);
  }

  /** The table that a well-formed image gives passes every check of the runtime validator but that of
      the sibling names, which the importer has cut to fifteen characters. */
  lemma TableIsNearlyWellFormed(mix: Mix, img: Image)
    requires WellFormedImage(mix, img)
    ensures WellFormedTree(TableOf(img)) <==> NamesDiffer(TableOf(img))
  {
    hide NodeOf, TableOf, NameOf, CopiedName, Rooted, RecordFits, Hangs, AnyClash, NamesDiffer;
    var table := TableOf(img);
    FitsIncreasing(mix, img);
    RecordOfRoot(mix, img);
    TableHas(img, 0);
    NodeOfHas(img, img.records[0]);
    CopiedNameIs(img.records[0].name);
    forall n | 0 < n < |table| && table[n].used ensures EntryFits(table, table[n]) && Rooted(table, n) {
      TableHas(img, n);
      var i :| 0 <= i < |img.records| && img.records[i].node == n;
      RecordGivesEntry(mix, img, i);
    }
  }

  lemma RecordGivesEntry(mix: Mix, img: Image, i: nat)
    requires WellFormedImage(mix, img) && 0 < i < |img.records|
    ensures var table, n := TableOf(img), img.records[i].node;
      n < MAX_NODES && EntryFits(table, table[n]) && Rooted(table, n)
  {
    hide NodeOf, TableOf, NameOf, CopiedName, Rooted, AnyClash, HashBytes, ObjectHash;
    assert RecordFits(mix, img, i) && Hangs(img, i);
    FitsIncreasing(mix, img);
    TableHas(img, img.records[i].node);
    NodeOfHas(img, img.records[i]);
    CopiedNameIs(img.records[i].name);
    var j :| 0 <= j < |img.records| && img.records[j].node == img.records[i].parent && img.records[j].kind == DIRECTORY;
    assert RecordFits(mix, img, j);
    TableHas(img, img.records[j].node);
    NodeOfHas(img, img.records[j]);
  }

  /** No two records beside the root's have one parent and the same name up to fifteen characters. */
  ghost predicate CutNamesDiffer(img: Image) {
    forall i, j :: 0 < i < j < |img.records| && img.records[i].parent == img.records[j].parent ==>
      CopiedName(img.records[i].name) != CopiedName(img.records[j].name)
  }

  lemma CutNamesOfTable(mix: Mix, img: Image)
    requires WellFormedImage(mix, img)
    ensures NamesDiffer(TableOf(img)) <==> CutNamesDiffer(img)
  {
    hide NodeOf, TableOf, NameOf, CopiedName, RecordFits, Hangs, AnyClash;
    var table := TableOf(img);
    FitsIncreasing(mix, img);
    if CutNamesDiffer(img) {
      forall m, n | 0 < m < n < |table| && table[m].used && table[n].used && table[m].parent == table[n].parent
        ensures table[m].name != table[n].name
      {
        TableHas(img, m);
        TableHas(img, n);
        var i :| 0 <= i < |img.records| && img.records[i].node == m;
        var j :| 0 <= j < |img.records| && img.records[j].node == n;
        NodeOfHas(img, img.records[i]);
        NodeOfHas(img, img.records[j]);
        RootIsFirst(mix, img, i);
        if j < i { IncreasingFar(img.records, j, i); }
        assert 0 < i < j;
      }
    }
    if NamesDiffer(table) {
      forall i, j | 0 < i < j < |img.records| && img.records[i].parent == img.records[j].parent
        ensures CopiedName(img.records[i].name) != CopiedName(img.records[j].name)
      {
        RootIsFirst(mix, img, i);
        IncreasingFar(img.records, i, j);
        TableHas(img, img.records[i].node);
        TableHas(img, img.records[j].node);
        NodeOfHas(img, img.records[i]);
        NodeOfHas(img, img.records[j]);
        assert table[img.records[i].node].name != table[img.records[j].node].name;
      }
    }
  }

  /** An accepted image imports exactly when no two siblings agree in the first fifteen characters of
      their names; the result passes the runtime validator. */
  lemma ImportsExactly(mix: Mix, b: seq<Byte>, slotCount: nat)
    requires slotCount < UINT32 && Checked(mix, b) == OK
    ensures HeaderOk(b) && RecordsFit(Parse(b))
    ensures var r := Imported(mix, b, slotCount);
      && (r.Ok? <==> CutNamesDiffer(Parse(b)))
      && (r.Ok? ==> r.value == Fs(TableOf(Parse(b)), FreeSlots(slotCount)) && WellFormed(r.value))
  {
    hide Parse, HeaderOk, Checked, TableOf, NamesDiffer, CutNamesDiffer, RecordsFit, Validated;
    AcceptedIsSerialized(mix, b);
    WellFormedFits(mix, Parse(b));
    CutNamesOfTable(mix, Parse(b));
    TableIsNearlyWellFormed(mix, Parse(b));
    var fs := Fs(TableOf(Parse(b)), FreeSlots(slotCount));
    ValidatorIsExact(fs);
  }

  lemma WellFormedFits(mix: Mix, img: Image)
    requires WellFormedImage(mix, img)
    ensures RecordsFit(img)
  {
  }

  /** Image names that end within their fields cannot collide on the way in. */
  lemma TerminatedNamesDiffer(mix: Mix, img: Image)
    requires WellFormedImage(mix, img) && forall i :: 0 <= i < |img.records| ==> Terminated(img.records[i].name)
    ensures CutNamesDiffer(img)
  {
    hide NameOf, CopiedName, RecordFits, Hangs, Terminated;
    forall i, j | 0 < i < j < |img.records| && img.records[i].parent == img.records[j].parent
      ensures CopiedName(img.records[i].name) != CopiedName(img.records[j].name)
    {
      CopiedNameIs(img.records[i].name);
      CopiedNameIs(img.records[j].name);
      assert !Clash(img, i, j);
    }
  }

  /** Any accepted image whose names are terminated imports; the file system it gives satisfies the whole
      invariant exactly when no name but the root's holds a slash and directories have no size. */
  lemma AcceptedImageImports(mix: Mix, b: seq<Byte>, slotCount: nat)
    requires slotCount < UINT32 && Checked(mix, b) == OK
    requires HeaderOk(b) && forall i :: 0 <= i < |Parse(b).records| ==> Terminated(Parse(b).records[i].name)
    ensures var r := Imported(mix, b, slotCount);
      r.Ok? && WellFormed(r.value) && (Sound(r.value) <==> PathsCanName(Parse(b)))
  {
    hide Parse, HeaderOk, Checked, TableOf, NamesDiffer, CutNamesDiffer, RecordsFit, WellFormed, Sound, PathsCanName, WellFormedImage, Terminated;
    AcceptedIsSerialized(mix, b);
    WellFormedFits(mix, Parse(b));
    TerminatedNamesDiffer(mix, Parse(b));
    ImportsExactly(mix, b, slotCount);
    CutNamesOfTable(mix, Parse(b));
    ImportedIsSound(mix, Parse(b), slotCount);
  }

  ghost predicate PathsCanName(img: Image) {
    forall i :: 0 <= i < |img.records| ==>
      (i > 0 ==> SLASH !in CopiedName(img.records[i].name)) && (img.records[i].kind == DIRECTORY ==> img.records[i].size == 0)
  }

  lemma ImportedIsSound(mix: Mix, img: Image, slotCount: nat)
    requires slotCount < UINT32 && WellFormedImage(mix, img) && NamesDiffer(TableOf(img))
    ensures Sound(Fs(TableOf(img), FreeSlots(slotCount))) <==> PathsCanName(img)
  {
    hide NodeOf, TableOf, NameOf, CopiedName, RecordFits, Hangs, AnyClash, NamesDiffer, Tree, WellFormedTree;
    var table := TableOf(img);
    var fs := Fs(table, FreeSlots(slotCount));
    FitsIncreasing(mix, img);
    TableIsNearlyWellFormed(mix, img);
    if PathsCanName(img) {
      forall n | 0 <= n < |table| ensures NodeOk(table[n]) && (n > 0 && table[n].used ==> Plain(table[n].name)) {
        TableHas(img, n);
        if table[n].used {
          var i :| 0 <= i < |img.records| && img.records[i].node == n;
          RecordGivesNode(mix, img, i);
        }
      }
      WellFormedIsTree(table);
    }
    if Sound(fs) {
      forall i | 0 <= i < |img.records|
        ensures (i > 0 ==> SLASH !in CopiedName(img.records[i].name)) && (img.records[i].kind == DIRECTORY ==> img.records[i].size == 0)
      {
        RecordGivesNode(mix, img, i);
        NameFits(fs, img.records[i].node);
      }
    }
  }

  lemma RecordGivesNode(mix: Mix, img: Image, i: nat)
    requires WellFormedImage(mix, img) && i < |img.records|
    ensures var r, table := img.records[i], TableOf(img);
      && r.node < MAX_NODES && table[r.node].used && table[r.node].kind == r.kind && table[r.node].size == r.size
      && table[r.node].name == CopiedName(r.name) && (i > 0 <==> r.node > 0)
      && (NodeOk(table[r.node]) <==> (r.kind == DIRECTORY ==> r.size == 0))
      && (i > 0 ==> (Plain(table[r.node].name) <==> SLASH !in CopiedName(r.name)))
  {
    hide NodeOf, TableOf, NameOf, CopiedName, Hangs, AnyClash, HashBytes, ObjectHash;
    assert RecordFits(mix, img, i);
    FitsIncreasing(mix, img);
    RootIsFirst(mix, img, i);
    TableHas(img, img.records[i].node);
    NodeOfHas(img, img.records[i]);
    CopiedNameIs(img.records[i].name);
  }
}
