/** Two images that the validator accepts and that do not come in whole: one is refused by the importer,
    the other gives names that no path can spell (kernel/runtime_fs_image.c). */
module FsImageCases {
  import opened FsModel
  import opened FsTree
  import opened FsSound
  import opened FsValidate
  import opened FsHash
  import opened FsImage
  import opened FsImageBytes
  import opened FsImageTrips

  // ---------------------------------------------------------------- an image of empty directories

  /** The record of an empty directory in the root. */
  function DirectoryRecord(mix: Mix, node: U32, name: NameField): Record {
    var r := Record(node, DIRECTORY, 0, 0, 493, 0, 0, 0, HashBytes(mix, []), 0, name);
    r.(objectHash := ObjectHash(mix, r))
  }

  /** The image of a root that holds one empty directory for each name. */
  function FlatImage(mix: Mix, names: seq<NameField>): (img: Image)
    requires |names| < 4
    ensures |img.records| == |names| + 1
  {
    var root := DirectoryRecord(mix, 0, PaddedName(ROOT_NAME));
    Image([root] + seq(|names|, i requires 0 <= i < |names| => DirectoryRecord(mix, i + 1, names[i])), 4, [])
  }

  lemma FlatRecord(mix: Mix, names: seq<NameField>, i: nat)
    requires |names| < 4 && i <= |names|
    ensures var r := FlatImage(mix, names).records[i];
      && r.node == i && r.kind == DIRECTORY && r.parent == 0 && r.size == r.dataOffset == r.dataSize == 0
      && r.dataHash == HashBytes(mix, []) && r.objectHash == ObjectHash(mix, r)
      && r.name == if i == 0 then PaddedName(ROOT_NAME) else names[i - 1]
  {
    hide HashBytes, PaddedName, Words;
  }

  lemma {:induction false} FlatDataEnd(mix: Mix, names: seq<NameField>, k: nat)
    requires |names| < 4 && k <= |names| + 1
    ensures DataEnd(FlatImage(mix, names).records[..k]) == 0
    decreases k
  {
    hide FlatImage, PaddedName;
    if k > 0 {
      var rs := FlatImage(mix, names).records;
      FlatDataEnd(mix, names, k - 1);
      FlatRecord(mix, names, k - 1);
      assert rs[..k][..k - 1] == rs[..k - 1];
    }
  }

  predicate Nameable(names: seq<NameField>) {
    && (forall i :: 0 <= i < |names| ==> NameOf(names[i]) != [] && NameOf(names[i]) != ROOT_NAME)
    && (forall i, j :: 0 <= i < j < |names| ==> !SameName(names[i], names[j]))
  }

  lemma FlatRecordFits(mix: Mix, names: seq<NameField>, i: nat)
    requires |names| < 4 && Nameable(names) && i <= |names|
    ensures RecordFits(mix, FlatImage(mix, names), i)
  {
    hide FlatImage, HashBytes, ObjectHash, NameOf, PaddedName;
    var img := FlatImage(mix, names);
    FlatRecord(mix, names, i);
    FlatDataEnd(mix, names, i);
    FlatHasNoData(mix, names);
    NameSurvives(ROOT_NAME);
    assert img.data[0..0] == [];
    if i > 0 { FlatRecord(mix, names, i - 1); }
  }

  lemma FlatHasNoData(mix: Mix, names: seq<NameField>)
    requires |names| < 4
    ensures FlatImage(mix, names).data == [] && FlatImage(mix, names).leafCount == 4
  {
  }

  lemma FlatHangs(mix: Mix, names: seq<NameField>, i: nat)
    requires |names| < 4 && Nameable(names) && i <= |names| && RecordsFit(FlatImage(mix, names))
    ensures Hangs(FlatImage(mix, names), i)
  {
    hide FlatImage, RecordFits, NodeOf, TableOf, Nameable, PaddedName, CopiedName, HashBytes, ObjectHash;
    var img := FlatImage(mix, names);
    forall j | 0 <= j < |img.records| ensures RecordFits(mix, img, j) { FlatRecordFits(mix, names, j); }
    FitsIncreasing(mix, img);
    FlatRecord(mix, names, 0);
    FlatRecord(mix, names, i);
    TableHas(img, i);
    NodeOfHas(img, img.records[i]);
    assert Up(TableOf(img), i, 0) == i && Up(TableOf(img), i, 1) == 0;
  }

  lemma FlatIsWellFormed(mix: Mix, names: seq<NameField>)
    requires |names| < 4 && Nameable(names)
    ensures WellFormedImage(mix, FlatImage(mix, names))
  {
    hide FlatImage, RecordFits, Hangs, NameOf, PaddedName, RecordsFit;
    var img := FlatImage(mix, names);
    FlatHasNoData(mix, names);
    forall i | 0 <= i < |img.records| ensures RecordFits(mix, img, i) { FlatRecordFits(mix, names, i); }
    FitsAlone(mix, img);
    forall i | 0 <= i < |img.records| ensures Hangs(img, i) { FlatHangs(mix, names, i); }
    FlatDataEnd(mix, names, |img.records|);
    assert img.records[..|img.records|] == img.records;
    assert IsPow2(1) && IsPow2(2) && IsPow2(4);
    NameSurvives(ROOT_NAME);
    forall i, j | 0 <= i < j < |img.records| ensures !Clash(img, i, j) {
      FlatRecord(mix, names, i);
      FlatRecord(mix, names, j);
    }
  }

  // ---------------------------------------------------------------- the two cases

  /** Sixteen letters without a NUL, equal up to the last one. */
  const LONG_NAME: NameField := seq(15, _ => 97) + [97]
  const LONG_TWIN: NameField := seq(15, _ => 97) + [98]

  lemma LongNamesAreCutAlike()
    ensures Nameable([LONG_NAME, LONG_TWIN]) && CopiedName(LONG_NAME) == CopiedName(LONG_TWIN)
  {
    NameOfFull(LONG_NAME);
    NameOfFull(LONG_TWIN);
    assert |ROOT_NAME| == 1;
    assert LONG_NAME[..15] == LONG_TWIN[..15];
  }

  /** The validator accepts two siblings whose names fill their fields and differ in the sixteenth letter;
      the importer cuts both to fifteen and refuses the image. */
  lemma AcceptedImageIsRefused(mix: Mix, slotCount: nat)
    requires slotCount < UINT32
    ensures var b := Serialize(mix, FlatImage(mix, [LONG_NAME, LONG_TWIN]));
      Checked(mix, b) == OK && Imported(mix, b, slotCount).Err?
  {
    hide Serialize, Checked, Imported, WellFormedImage, FlatImage, Nameable, CopiedName, HeaderOk, Parse;
    var names := [LONG_NAME, LONG_TWIN];
    var img := FlatImage(mix, names);
    LongNamesAreCutAlike();
    FlatIsWellFormed(mix, names);
    WellFormedIsSized(mix, img);
    SerializedIsAccepted(mix, img);
    FlatRecord(mix, names, 1);
    FlatRecord(mix, names, 2);
    ImportsExactly(mix, Serialize(mix, img), slotCount);
  }

  /** "a/b" */
  const SLASHED_NAME: Name := [97, SLASH, 98]

  lemma SlashHides(nodes: seq<Node>, i: nat)
    requires 0 < i < |nodes| && SLASH in nodes[i].name
    ensures !HasPath(nodes, i)
  {
    forall names | AllPlain(names) ensures Lookup(nodes, names) != Some(i) {
      if names != [] { assert Plain(names[|names| - 1]); }
    }
  }

  lemma FlatTable(mix: Mix, names: seq<NameField>, i: nat)
    requires |names| < 4 && Nameable(names) && 0 < i <= |names| && RecordsFit(FlatImage(mix, names))
    ensures TableOf(FlatImage(mix, names))[i].used && TableOf(FlatImage(mix, names))[i].name == CopiedName(names[i - 1])
  {
    hide FlatImage, RecordFits, NodeOf, TableOf, Nameable, PaddedName, CopiedName, HashBytes, ObjectHash;
    var img := FlatImage(mix, names);
    forall j | 0 <= j < |img.records| ensures RecordFits(mix, img, j) { FlatRecordFits(mix, names, j); }
    FitsIncreasing(mix, img);
    FlatRecord(mix, names, i);
    TableHas(img, i);
    NodeOfHas(img, img.records[i]);
  }

  /** An accepted image may hold a name with a slash. It imports to a file system that passes the runtime
      validator and breaks the invariant: its node 1 is in use and no path leads there. */
  lemma AcceptedImageHidesNode(mix: Mix, slotCount: nat)
    requires slotCount < UINT32
    ensures var b := Serialize(mix, FlatImage(mix, [PaddedName(SLASHED_NAME)]));
      var r := Imported(mix, b, slotCount);
      && Checked(mix, b) == OK && r.Ok? && WellFormed(r.value) && !Sound(r.value)
      && |r.value.nodes| > 1 && r.value.nodes[1].used && !HasPath(r.value.nodes, 1)
  {
    hide Serialize, Checked, Imported, WellFormedImage, FlatImage, CopiedName, HeaderOk, Parse, NameOf, PaddedName, Sound, WellFormed, TableOf, HasPath, RecordsFit;
    var names := [PaddedName(SLASHED_NAME)];
    var img := FlatImage(mix, names);
    NameSurvives(SLASHED_NAME);
    NameSurvives(ROOT_NAME);
    assert SLASHED_NAME[1] == SLASH && |SLASHED_NAME| > |ROOT_NAME|;
    FlatIsWellFormed(mix, names);
    WellFormedIsSized(mix, img);
    SerializedIsAccepted(mix, img);
    forall i | 0 <= i < |img.records| ensures Terminated(img.records[i].name) { FlatRecord(mix, names, i); }
    FlatRecord(mix, names, 1);
    AcceptedImageImports(mix, Serialize(mix, img), slotCount);
    ImportsExactly(mix, Serialize(mix, img), slotCount);
    FlatTable(mix, names, 1);
    SlashHides(TableOf(img), 1);
  }
}
