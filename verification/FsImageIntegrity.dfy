/** The mixing step of the image hash, FNV-1a, and what it protects: an accepted image in which a single byte is
    changed, wherever it is, is refused (kernel/runtime_fs_image.c). */
module FsImageIntegrity {
  import opened FsModel
  import opened FsHash
  import opened FsImage
  import opened FsImageBytes
  import opened FsImageLayout

  // ---------------------------------------------------------------- the mixing step

  /** The exclusive or of the last `n` bits. */
  function Xor(a: nat, b: nat, n: nat): nat {
    if n == 0 then 0 else (if a % 2 == b % 2 then 0 else 1) + 2 * Xor(a / 2, b / 2, n - 1)
  }

  const PRIME: nat := 16777619
  /** The inverse of the prime, to 32 bits. */
  const UNPRIME: nat := 899433627

  /** runtime_fs_image_hash_mix. */
  function FnvMix(hash: U32, value: Byte): U32 {
    (hash - hash % 256 + Xor(hash % 256, value, 8)) * PRIME % UINT32
  }

  lemma {:induction false} XorTwice(a: nat, b: nat, n: nat)
    ensures Xor(Xor(a, b, n), b, n) == Low(a, n) && Xor(a, Xor(a, b, n), n) == Low(b, n)
  {
    if n > 0 {
      var x := Xor(a, b, n);
      assert x / 2 == Xor(a / 2, b / 2, n - 1) && x % 2 == if a % 2 == b % 2 then 0 else 1;
      XorTwice(a / 2, b / 2, n - 1);
    }
  }

  /** The last `n` bits. */
  function Low(a: nat, n: nat): nat {
    if n == 0 then 0 else a % 2 + 2 * Low(a / 2, n - 1)
  }

  lemma {:induction false} LowIsAll(a: nat, n: nat)
    requires a < Power(n)
    ensures Low(a, n) == a
  {
    if n > 0 { LowIsAll(a / 2, n - 1); }
  }

  lemma {:induction false} XorIsSmall(a: nat, b: nat, n: nat, m: nat)
    requires m == Power(n)
    ensures Xor(a, b, n) < m
  {
    if n > 0 { XorIsSmall(a / 2, b / 2, n - 1, Power(n - 1)); }
  }

  function Power(n: nat): nat { if n == 0 then 1 else 2 * Power(n - 1) }

  lemma XorOfBytes(a: Byte, b: Byte)
    ensures Xor(a, b, 8) < 256
    ensures Xor(Xor(a, b, 8), b, 8) == a as int && Xor(a, Xor(a, b, 8), 8) == b as int
  {
    assert Power(8) == 256;
    XorIsSmall(a, b, 8, 256);
    XorTwice(a, b, 8);
    LowIsAll(a, 8);
    LowIsAll(b, 8);
  }

  lemma RemainderIs(a: int, n: nat, q: int, r: nat)
    requires n > 0 && r < n && a == n * q + r
    ensures a % n == r
  {
    var d := q - a / n;
    assert a == n * (a / n) + a % n;
    assert n * d == a % n - r by { assert n * d == n * q - n * (a / n); }
    Far(n, d);
  }

  lemma Far(n: int, d: int)
    requires n > 0
    ensures d >= 1 ==> n * d >= n
    ensures d <= -1 ==> n * d <= 0 - n
  {
  }

  /** The multiplication by the prime can be undone. */
  lemma Unmultiply(x: nat)
    requires x < UINT32
    ensures x * PRIME % UINT32 * UNPRIME % UINT32 == x
  {
    var r, k := x * PRIME % UINT32, x * PRIME / UINT32;
    assert x * PRIME == UINT32 * k + r;
    assert PRIME * UNPRIME == UINT32 * 3513497 + 1;
    assert r * UNPRIME == x * PRIME * UNPRIME - UINT32 * k * UNPRIME;
    RemainderIs(r * UNPRIME, UINT32, x * 3513497 - k * UNPRIME, x);
  }

  /** From the same byte different hashes come of different hashes, and from the same hash of different bytes. */
  lemma MixTellsApart(h: U32, g: U32, a: Byte, b: Byte)
    requires FnvMix(h, a) == FnvMix(g, b)
    ensures h == g <==> a == b
  {
    XorOfBytes(h % 256, a);
    XorOfBytes(g % 256, b);
    var x, y := h - h % 256 + Xor(h % 256, a, 8), g - g % 256 + Xor(g % 256, b, 8);
    TopStays(h, Xor(h % 256, a, 8));
    TopStays(g, Xor(g % 256, b, 8));
    Unmultiply(x);
    Unmultiply(y);
    assert x == y;
  }

  lemma TopStays(h: U32, low: nat)
    requires low < 256
    ensures var x := h - h % 256 + low; x < UINT32 && x % UINT32 == x && x % 256 == low && x - x % 256 == h - h % 256
  {
  }

  lemma {:induction false} HashesStayApart(h: U32, g: U32, bytes: seq<Byte>)
    requires h != g
    ensures HashFrom(FnvMix, h, bytes) != HashFrom(FnvMix, g, bytes)
  {
    hide FnvMix;
    if bytes != [] {
      var init, last := bytes[..|bytes| - 1], bytes[|bytes| - 1];
      HashesStayApart(h, g, init);
      if FnvMix(HashFrom(FnvMix, h, init), last) == FnvMix(HashFrom(FnvMix, g, init), last) {
        MixTellsApart(HashFrom(FnvMix, h, init), HashFrom(FnvMix, g, init), last, last);
      }
    }
  }

  /** Two byte sequences of one length that differ in exactly one place have different hashes. */
  lemma OneByteChangesHash(hash: U32, bytes: seq<Byte>, k: nat, v: Byte)
    requires k < |bytes| && bytes[k] != v
    ensures HashFrom(FnvMix, hash, bytes[k := v]) != HashFrom(FnvMix, hash, bytes)
  {
    hide FnvMix;
    var pre, post := bytes[..k], bytes[k + 1..];
    var h := HashFrom(FnvMix, hash, pre);
    assert bytes == (pre + [bytes[k]]) + post && bytes[k := v] == (pre + [v]) + post;
    HashAppend(FnvMix, hash, pre + [bytes[k]], post);
    HashAppend(FnvMix, hash, pre + [v], post);
    assert (pre + [bytes[k]])[..k] == pre && (pre + [v])[..k] == pre;
    if FnvMix(h, bytes[k]) == FnvMix(h, v) { MixTellsApart(h, h, bytes[k], v); }
    HashesStayApart(FnvMix(h, bytes[k]), FnvMix(h, v), post);
  }

  /** The hash of no byte, and of the letter a, as published for FNV-1a. */
  lemma PublishedHashes()
    ensures HashBytes(FnvMix, []) == 0x811C9DC5 && HashBytes(FnvMix, [97]) == 0xE40C292C
  {
    hide FnvMix;
    var letter: seq<Byte> := [97];
    assert letter[..0] == [];
    FirstLetter();
  }

  lemma FirstLetter()
    ensures FnvMix(0x811C9DC5, 97) == 0xE40C292C
  {
    XorOfLetter();
    hide Xor;
    assert 0x811C9DC5 % 256 == 197;
    assert (0x811C9DC5 - 197 + 164) * PRIME % UINT32 == 0xE40C292C;
  }

  lemma XorOfLetter()
    ensures Xor(197, 97, 8) == 164
  {
    assert Xor(1, 0, 1) == 1;
    assert Xor(3, 1, 2) == 2;
    assert Xor(6, 3, 3) == 5;
    assert Xor(12, 6, 4) == 10;
    assert Xor(24, 12, 5) == 20;
    assert Xor(49, 24, 6) == 41;
    assert Xor(98, 48, 7) == 82;
  }

  // ---------------------------------------------------------------- one changed byte

  ghost predicate OffsetsAre(rs: seq<Record>, n: nat)
    requires n <= |rs|
  {
    forall j :: 0 <= j < n ==> rs[j].dataOffset == SizesBefore(rs, j)
  }

  /** Byte `k` of the payloads lies in the payload of some record. */
  lemma {:induction false} SomeRecordHas(rs: seq<Record>, n: nat, x: nat) returns (i: nat)
    requires n <= |rs| && x < SizesBefore(rs, n) && OffsetsAre(rs, n)
    ensures i < n && rs[i].dataOffset <= x < rs[i].dataOffset + rs[i].dataSize
  {
    var last := n - 1;
    assert SizesBefore(rs, n) == SizesBefore(rs, last) + rs[last].dataSize && rs[last].dataOffset == SizesBefore(rs, last);
    if x < SizesBefore(rs, last) {
      hide SizesBefore;
      i := SomeRecordHas(rs, last, x);
    } else {
      i := last;
    }
  }

  /** In an accepted image the payloads of the records cover all payload bytes. */
  lemma PayloadsCover(mix: Mix, b: seq<Byte>, x: nat) returns (i: nat)
    requires Checked(mix, b) == OK && HeaderLaidOut(b) && x < Le(b, 28)
    ensures i < Le(b, 12) && 40 + 56 * i + 56 <= |b|
    ensures Le(b, 40 + 56 * i + 24) <= x < Le(b, 40 + 56 * i + 24) + Le(b, 40 + 56 * i + 28)
  {
    hide Le, Load, HeaderOk, HeaderLaidOut, ReadRecord, Parse, Checked, ReadRecords, SizesBefore;
    RecordsTile(mix, b);
    var img := Parse(b);
    WordsAreLoads(b);
    ParsedRecords(b);
    i := SomeRecordHas(img.records, |img.records|, x);
    RecordAt(b, Le(b, 12), i);
    TreeFits(b);
    RecordWords(b, 40 + 56 * i);
  }

  lemma RecordsTile(mix: Mix, b: seq<Byte>)
    requires Checked(mix, b) == OK
    ensures HeaderOk(b)
    ensures var img := Parse(b); OffsetsAre(img.records, |img.records|) && SizesBefore(img.records, |img.records|) == |img.data|
  {
    hide Load, HeaderOk, ReadRecord, RecordStatus, TreeOk, ParentOk, AnyClash, Parse, HashFrom, Checked;
    CheckedParts(mix, b);
    var img := Parse(b);
    RecordsStatusIs(mix, img, 0);
    forall j | 0 <= j < |img.records| ensures img.records[j].dataOffset == SizesBefore(img.records, j) { OffsetsAddUp(mix, img, j); }
    SizesAreDataEnd(img.records, |img.records|);
    assert img.records[..|img.records|] == img.records;
  }

  lemma OffsetsAddUp(mix: Mix, img: Image, j: nat)
    requires j < |img.records| && RecordStatus(mix, img, j) == OK
    ensures img.records[j].dataOffset == SizesBefore(img.records, j)
  {
    hide HashFrom, Words, NameOf;
    SizesAreDataEnd(img.records, j);
  }

  /** `c` is `b` with exactly byte `k` changed. */
  ghost predicate Differs(b: seq<Byte>, c: seq<Byte>, k: nat) {
    k < |b| && |c| == |b| && c == b[k := c[k]] && c[k] != b[k]
  }

  lemma WordsDiffer(b: seq<Byte>, c: seq<Byte>, k: nat, at: nat)
    requires Differs(b, c, k) && at + 4 <= |b|
    ensures Le(c, at) == Le(b, at) <==> !(at <= k < at + 4)
  {
  }

  /** The header has no room for a changed byte. */
  lemma HeaderIsTight(mix: Mix, b: seq<Byte>, c: seq<Byte>, k: nat)
    requires LaidOut(mix, b) && LaidOut(mix, c) && Differs(b, c, k)
    ensures k >= 40
  {
    hide TreeLaidOut, RecordLaidOut, Le;
    MagicDiffers(b, c, k);
    WordsDiffer(b, c, k, 4);
    WordsDiffer(b, c, k, 8);
    WordsDiffer(b, c, k, 12);
    WordsDiffer(b, c, k, 16);
    WordsDiffer(b, c, k, 20);
    WordsDiffer(b, c, k, 24);
    WordsDiffer(b, c, k, 28);
    WordsDiffer(b, c, k, 36);
    RootIsTight(mix, b, c, k);
  }

  lemma MagicDiffers(b: seq<Byte>, c: seq<Byte>, k: nat)
    requires Differs(b, c, k) && |b| >= 40
    ensures k < 4 ==> b[..4] != c[..4]
  {
    if k < 4 { assert b[..4][k] != c[..4][k]; }
  }

  lemma RootIsTight(mix: Mix, b: seq<Byte>, c: seq<Byte>, k: nat)
    requires LaidOut(mix, b) && LaidOut(mix, c) && Differs(b, c, k)
    ensures !(32 <= k < 36)
  {
    hide RecordLaidOut, Le;
    TreeFits(b);
    WordsDiffer(b, c, k, 12);
    WordsDiffer(b, c, k, 32);
    WordsDiffer(b, c, k, TreeAt(b));
  }

  /** What does not change when the changed byte lies behind the header. */
  lemma SamePlaces(b: seq<Byte>, c: seq<Byte>, k: nat)
    requires HeaderLaidOut(b) && HeaderLaidOut(c) && Differs(b, c, k) && k >= 40
    ensures Le(c, 12) == Le(b, 12) && Le(c, 20) == Le(b, 20) && Le(c, 28) == Le(b, 28)
    ensures TreeAt(c) == TreeAt(b) && DataAt(c) == DataAt(b) && DataAt(b) + Le(b, 28) == |b|
    ensures Le(b, 24) == 2 * Le(b, 20) - 1 && 1 <= Le(b, 12) <= Le(b, 20)
    ensures TreeAt(b) == 40 + 56 * Le(b, 12) && DataAt(b) == TreeAt(b) + 4 * (2 * Le(b, 20) - 1)
  {
    hide Le;
    WordsDiffer(b, c, k, 12);
    WordsDiffer(b, c, k, 20);
    WordsDiffer(b, c, k, 24);
    WordsDiffer(b, c, k, 28);
  }

  /** A byte changed in a record changes the hash of the other bytes, or is in the word of the hash itself. */
  lemma RecordHashMoves(b: seq<Byte>, c: seq<Byte>, k: nat, at: nat)
    requires Differs(b, c, k) && at <= k < at + 56 <= |b|
    ensures var before, after := b[at..at + 36] + b[at + 40..at + 56], c[at..at + 36] + c[at + 40..at + 56];
      HashFrom(FnvMix, 0x811C9DC5, after) == HashFrom(FnvMix, 0x811C9DC5, before) <==> at + 36 <= k < at + 40
  {
    hide FnvMix, HashFrom;
    var before, after := b[at..at + 36] + b[at + 40..at + 56], c[at..at + 36] + c[at + 40..at + 56];
    if at + 36 <= k < at + 40 {
      assert after == before;
    } else {
      var i := if k < at + 36 then k - at else k - at - 4;
      assert after == before[i := c[k]] && before[i] == b[k];
      OneByteChangesHash(0x811C9DC5, before, i, c[k]);
    }
  }

  /** Nor have the records: their hash is in them. */
  lemma RecordIsTight(b: seq<Byte>, c: seq<Byte>, k: nat, i: nat)
    requires LaidOut(FnvMix, b) && LaidOut(FnvMix, c) && Differs(b, c, k) && i < Le(b, 12)
    ensures !(40 + 56 * i <= k < 40 + 56 * i + 56)
  {
    hide HeaderLaidOut, TreeLaidOut, Le, HashFrom, FnvMix;
    var at := 40 + 56 * i;
    if at <= k < at + 56 {
      SamePlaces(b, c, k);
      assert RecordLaidOut(FnvMix, b, i) && RecordLaidOut(FnvMix, c, i);
      WordsDiffer(b, c, k, at + 36);
      RecordHashMoves(b, c, k, at);
    }
  }

  /** Nor has the hash tree: every leaf is in a record too, and every inner word the hash of two that come later. */
  lemma InnerIsTight(mix: Mix, b: seq<Byte>, c: seq<Byte>, k: nat, p: nat)
    requires LaidOut(mix, b) && LaidOut(mix, c) && Differs(b, c, k) && p + 1 < Le(b, 20)
    ensures !(TreeAt(b) + 4 * p <= k < TreeAt(b) + 4 * p + 4)
  {
    hide RecordLaidOut, Le, HashFrom;
    PartsAreThere(mix, b);
    PartsAreThere(mix, c);
    hide LaidOut, HeaderLaidOut;
    var t := TreeAt(b);
    if t + 4 * p <= k < t + 4 * p + 4 {
      BehindHeader(b, k);
      SamePlaces(b, c, k);
      WordsDiffer(b, c, k, t + 4 * p);
      SameSlice(b, c, k, t + 8 * p + 4, t + 8 * p + 12);
    }
  }

  lemma SameSlice(b: seq<Byte>, c: seq<Byte>, k: nat, from: nat, to: nat)
    requires Differs(b, c, k) && k < from <= to <= |b|
    ensures c[from..to] == b[from..to]
  {
  }

  lemma LeafIsTight(mix: Mix, b: seq<Byte>, c: seq<Byte>, k: nat, j: nat)
    requires LaidOut(mix, b) && LaidOut(mix, c) && Differs(b, c, k) && j < Le(b, 20)
    ensures !(TreeAt(b) + 4 * (Le(b, 20) - 1 + j) <= k < TreeAt(b) + 4 * (Le(b, 20) - 1 + j) + 4)
  {
    hide RecordLaidOut, Le, HashFrom;
    PartsAreThere(mix, b);
    PartsAreThere(mix, c);
    hide LaidOut, HeaderLaidOut;
    var at := TreeAt(b) + 4 * (Le(b, 20) - 1 + j);
    if at <= k < at + 4 {
      BehindHeader(b, k);
      SamePlaces(b, c, k);
      WordsDiffer(b, c, k, at);
      if j < Le(b, 12) { WordsDiffer(b, c, k, 40 + 56 * j + 36); }
    }
  }

  lemma BehindHeader(b: seq<Byte>, k: nat)
    requires |b| >= 40 && k >= TreeAt(b)
    ensures k >= 40
  {
  }

  lemma SliceHashMoves(b: seq<Byte>, c: seq<Byte>, k: nat, from: nat, to: nat)
    requires Differs(b, c, k) && from <= k < to <= |b|
    ensures HashFrom(FnvMix, 0x811C9DC5, c[from..to]) != HashFrom(FnvMix, 0x811C9DC5, b[from..to])
  {
    hide FnvMix, HashFrom;
    assert c[from..to] == b[from..to][k - from := c[k]];
    OneByteChangesHash(0x811C9DC5, b[from..to], k - from, c[k]);
  }

  /** Nor have the payloads: the hash of each is in its record. */
  lemma PayloadIsTight(b: seq<Byte>, c: seq<Byte>, k: nat, i: nat)
    requires LaidOut(FnvMix, b) && LaidOut(FnvMix, c) && Differs(b, c, k) && i < Le(b, 12) && k >= DataAt(b)
    ensures 40 + 56 * i + 56 <= |b|
    ensures !(Le(b, 40 + 56 * i + 24) <= k - DataAt(b) < Le(b, 40 + 56 * i + 24) + Le(b, 40 + 56 * i + 28))
  {
    hide TreeLaidOut, Le, HashFrom, FnvMix;
    PartsAreThere(FnvMix, b);
    assert RecordLaidOut(FnvMix, b, i);
    var at := 40 + 56 * i;
    BehindHeader(b, k);
    SamePlaces(b, c, k);
    assert RecordLaidOut(FnvMix, c, i);
    hide HeaderLaidOut, LaidOut;
    WordsDiffer(b, c, k, at + 24);
    WordsDiffer(b, c, k, at + 28);
    WordsDiffer(b, c, k, at + 32);
    var from, size := DataAt(b) + Le(b, at + 24), Le(b, at + 28);
    if from <= k < from + size { SliceHashMoves(b, c, k, from, from + size); }
  }

  /** No single changed byte goes unnoticed: of two buffers that differ in exactly one byte, the validator accepts
      at most one. */
  lemma OneByteIsNoticed(b: seq<Byte>, k: nat, v: Byte)
    requires Checked(FnvMix, b) == OK && k < |b| && v != b[k]
    ensures Checked(FnvMix, b[k := v]) != OK
  {
    hide Checked, LaidOut, HeaderLaidOut, Le, FnvMix;
    var c := b[k := v];
    if Checked(FnvMix, c) == OK {
      AcceptedIsLaidOut(FnvMix, b);
      AcceptedIsLaidOut(FnvMix, c);
      PartsAreThere(FnvMix, b);
      PartsAreThere(FnvMix, c);
      HeaderIsTight(FnvMix, b, c, k);
      SamePlaces(b, c, k);
      if k < TreeAt(b) {
        RecordIsTight(b, c, k, (k - 40) / 56);
      } else if k < DataAt(b) {
        var p := (k - TreeAt(b)) / 4;
        if p + 1 < Le(b, 20) { InnerIsTight(FnvMix, b, c, k, p); } else { LeafIsTight(FnvMix, b, c, k, p - (Le(b, 20) - 1)); }
      } else {
        var i := PayloadsCover(FnvMix, b, k - DataAt(b));
        PayloadIsTight(b, c, k, i);
      }
    }
  }

  lemma PartsAreThere(mix: Mix, b: seq<Byte>)
    requires LaidOut(mix, b)
    ensures HeaderLaidOut(b) && TreeLaidOut(mix, b)
  {
  }
}
