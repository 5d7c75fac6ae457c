/** Words, hashes and the hash tree of the file-system image (kernel/runtime_fs_image.c). The step that
    mixes one byte into a hash is a parameter: nothing here depends on which function it is. */
module FsHash {
  import opened FsModel

  type Mix = (U32, Byte) -> U32

  const HASH_EMPTY: U32 := 0x811C9DC5

  // ---------------------------------------------------------------- little-endian words

  /** runtime_fs_image_store_u32. */
  function Word(v: U32): (b: seq<Byte>)
    ensures |b| == 4
  {
    [v % 256, v / 256 % 256, v / 65536 % 256, v / 16777216]
  }

  /** runtime_fs_image_load_u32. */
  function Load(b: seq<Byte>, at: nat): U32
    requires at + 4 <= |b|
  {
    b[at] as int + 256 * (b[at + 1] as int) + 65536 * (b[at + 2] as int) + 16777216 * (b[at + 3] as int)
  }

  lemma LoadUndoesWord(v: U32)
    ensures Load(Word(v), 0) == v
  {
    var a, c := v / 256, v / 65536;
    assert v == 256 * a + v % 256;
    assert c == a / 256 && a == 256 * c + a % 256;
    assert v / 16777216 == c / 256 && c == 256 * (c / 256) + c % 256;
  }

  lemma WordUndoesLoad(b: seq<Byte>, at: nat)
    requires at + 4 <= |b|
    ensures Word(Load(b, at)) == b[at..at + 4]
  {
    var v := Load(b, at);
    assert v / 256 == b[at + 1] as int + 256 * (b[at + 2] as int) + 65536 * (b[at + 3] as int);
    assert v / 65536 == b[at + 2] as int + 256 * (b[at + 3] as int);
  }

  function Words(vs: seq<U32>): (b: seq<Byte>)
    ensures |b| == 4 * |vs|
  {
    if vs == [] then [] else Words(vs[..|vs| - 1]) + Word(vs[|vs| - 1])
  }

  function LoadWords(b: seq<Byte>, at: nat, n: nat): (vs: seq<U32>)
    requires at + 4 * n <= |b|
    ensures |vs| == n && forall k :: 0 <= k < n ==> vs[k] == Load(b, at + 4 * k)
  {
    seq(n, k requires 0 <= k < n => Load(b, at + 4 * k))
  }

  lemma {:induction false} WordsUndoesLoadWords(b: seq<Byte>, at: nat, n: nat)
    requires at + 4 * n <= |b|
    ensures Words(LoadWords(b, at, n)) == b[at..at + 4 * n]
    decreases n
  {
    if n > 0 {
      WordsUndoesLoadWords(b, at, n - 1);
      assert LoadWords(b, at, n)[..n - 1] == LoadWords(b, at, n - 1);
      WordUndoesLoad(b, at + 4 * (n - 1));
    }
  }

  lemma {:induction false} WordOfWords(vs: seq<U32>, k: nat)
    requires k < |vs|
    ensures Words(vs)[4 * k..4 * k + 4] == Word(vs[k])
    decreases |vs|
  {
    if k < |vs| - 1 {
      WordOfWords(vs[..|vs| - 1], k);
    }
  }

  // ---------------------------------------------------------------- hashes

  function HashFrom(mix: Mix, hash: U32, bytes: seq<Byte>): U32 {
    if bytes == [] then hash else mix(HashFrom(mix, hash, bytes[..|bytes| - 1]), bytes[|bytes| - 1])
  }

  /** runtime_fs_image_hash_bytes. */
  function HashBytes(mix: Mix, bytes: seq<Byte>): U32 {
    HashFrom(mix, HASH_EMPTY, bytes)
  }

  lemma {:induction false} HashAppend(mix: Mix, hash: U32, a: seq<Byte>, b: seq<Byte>)
    ensures HashFrom(mix, hash, a + b) == HashFrom(mix, HashFrom(mix, hash, a), b)
    decreases |b|
  {
    if b == [] {
      assert a + b == a;
    } else {
      assert (a + b)[..|a + b| - 1] == a + b[..|b| - 1];
      HashAppend(mix, hash, a, b[..|b| - 1]);
    }
  }

  /** runtime_fs_image_tree_hash. */
  function TreeHash(mix: Mix, left: U32, right: U32): U32 {
    HashBytes(mix, Word(left) + Word(right))
  }

  // ---------------------------------------------------------------- powers of two

  predicate IsPow2(n: nat) {
    n == 1 || (n > 1 && n % 2 == 0 && IsPow2(n / 2))
  }

  /** The doubling loop of runtime_fs_image_next_pow2, from a power on. */
  function NextPow2From(value: nat, power: nat): (r: nat)
    requires power > 0
    ensures power <= r && value <= r
    decreases value - power
  {
    if power < value then NextPow2From(value, 2 * power) else power
  }

  function NextPow2(value: nat): (r: nat)
    ensures 1 <= r && value <= r
  {
    NextPow2From(value, 1)
  }

  /** It is the least power of two that is large enough. */
  lemma {:induction false} NextPow2IsLeast(value: nat, power: nat, p: nat)
    requires IsPow2(power) && IsPow2(p) && value <= p && power <= p
    ensures IsPow2(NextPow2From(value, power)) && NextPow2From(value, power) <= p
    decreases value - power
  {
    if power < value {
      assert 2 * power / 2 == power;
      Pow2Gap(power, p);
      NextPow2IsLeast(value, 2 * power, p);
    }
  }

  lemma {:induction false} Pow2Gap(a: nat, b: nat)
    requires IsPow2(a) && IsPow2(b) && a < b
    ensures 2 * a <= b
    decreases a
  {
    if a > 1 { Pow2Gap(a / 2, b / 2); }
  }

  /** The check of the image header: a count is its own next power exactly when it is a power. */
  lemma OwnPowerIsPow2(n: nat)
    requires n > 0
    ensures NextPow2(n) == n <==> IsPow2(n)
  {
    if IsPow2(n) { OneIsLeast(n); NextPow2IsLeast(n, 1, n); }
    PowersOnly(n, 1);
  }

  lemma OneIsLeast(n: nat)
    requires IsPow2(n)
    ensures 1 <= n
  {
  }

  lemma {:induction false} PowersOnly(value: nat, power: nat)
    requires IsPow2(power)
    ensures IsPow2(NextPow2From(value, power))
    decreases value - power
  {
    if power < value {
      assert 2 * power / 2 == power;
      PowersOnly(value, 2 * power);
    }
  }

  // ---------------------------------------------------------------- the hash tree

  /** The Merkle root of a power of two of leaves. */
  function MerkleRoot(mix: Mix, leaves: seq<U32>): U32
    requires IsPow2(|leaves|)
    decreases |leaves|
  {
    if |leaves| == 1 then leaves[0]
    else
      var half := |leaves| / 2;
      TreeHash(mix, MerkleRoot(mix, leaves[..half]), MerkleRoot(mix, leaves[half..]))
  }

  /** A heap-ordered array over the leaves: each inner entry hashes its two children. */
  ghost predicate IsHeap(mix: Mix, heap: seq<U32>, leaves: seq<U32>) {
    && leaves != [] && |heap| == 2 * |leaves| - 1 && heap[|leaves| - 1..] == leaves
    && forall p :: 0 <= p < |leaves| - 1 ==> heap[p] == TreeHash(mix, heap[2 * p + 1], heap[2 * p + 2])
  }

  /** The heap from entry `from` on, as the downward loop fills it. */
  function HeapFrom(mix: Mix, leaves: seq<U32>, from: nat): (heap: seq<U32>)
    requires from < |leaves|
    ensures |heap| == 2 * |leaves| - 1 - from
    decreases |leaves| - from
  {
    if from == |leaves| - 1 then leaves
    else
      var rest := HeapFrom(mix, leaves, from + 1);
      [TreeHash(mix, rest[from], rest[from + 1])] + rest
  }

  function Heap(mix: Mix, leaves: seq<U32>): (heap: seq<U32>)
    requires leaves != []
    ensures |heap| == 2 * |leaves| - 1
  {
    HeapFrom(mix, leaves, 0)
  }

  /** There is exactly one heap over given leaves, and the downward loop builds it. */
  lemma {:induction false} HeapIsUnique(mix: Mix, heap: seq<U32>, leaves: seq<U32>, from: nat)
    requires leaves != [] && |heap| == 2 * |leaves| - 1 && from < |leaves| && heap[|leaves| - 1..] == leaves
    requires forall p :: from <= p < |leaves| - 1 ==> heap[p] == TreeHash(mix, heap[2 * p + 1], heap[2 * p + 2])
    ensures heap[from..] == HeapFrom(mix, leaves, from)
    decreases |leaves| - from
  {
    hide TreeHash;
    if from < |leaves| - 1 {
      HeapIsUnique(mix, heap, leaves, from + 1);
      assert heap[from..] == [heap[from]] + heap[from + 1..];
    }
  }

  lemma {:induction false} HeapFromIs(mix: Mix, leaves: seq<U32>, from: nat)
    requires from < |leaves|
    ensures var rest := HeapFrom(mix, leaves, from);
      && rest[|leaves| - 1 - from..] == leaves
      && forall p :: from <= p < |leaves| - 1 ==> rest[p - from] == TreeHash(mix, rest[2 * p + 1 - from], rest[2 * p + 2 - from])
    decreases |leaves| - from
  {
    hide TreeHash;
    if from < |leaves| - 1 {
      HeapFromIs(mix, leaves, from + 1);
      var rest, tail := HeapFrom(mix, leaves, from), HeapFrom(mix, leaves, from + 1);
      assert rest[|leaves| - 1 - from..] == tail[|leaves| - 2 - from..];
      forall p | from <= p < |leaves| - 1
        ensures rest[p - from] == TreeHash(mix, rest[2 * p + 1 - from], rest[2 * p + 2 - from])
      {
        if p > from {
          assert rest[p - from] == tail[p - (from + 1)];
          assert rest[2 * p + 1 - from] == tail[2 * p + 1 - (from + 1)] && rest[2 * p + 2 - from] == tail[2 * p + 2 - (from + 1)];
        }
      }
    }
  }

  lemma HeapIsHeap(mix: Mix, leaves: seq<U32>)
    requires leaves != []
    ensures IsHeap(mix, Heap(mix, leaves), leaves)
  {
    hide TreeHash, HeapFrom;
    HeapFromIs(mix, leaves, 0);
    var heap := Heap(mix, leaves);
    forall p | 0 <= p < |leaves| - 1 ensures heap[p] == TreeHash(mix, heap[2 * p + 1], heap[2 * p + 2]) {
      assert heap[p - 0] == TreeHash(mix, heap[2 * p + 1 - 0], heap[2 * p + 2 - 0]);
    }
  }

  /** The validator's comparisons hold exactly for the heap that the exporter builds. */
  lemma HeapExactly(mix: Mix, heap: seq<U32>, leaves: seq<U32>)
    requires leaves != [] && |heap| == 2 * |leaves| - 1
    ensures IsHeap(mix, heap, leaves) <==> heap == Heap(mix, leaves)
  {
    hide TreeHash;
    HeapIsHeap(mix, leaves);
    if IsHeap(mix, heap, leaves) {
      HeapIsUnique(mix, heap, leaves, 0);
      assert heap[0..] == heap;
    }
  }

  /** Entry `j` of the level with `width` entries is the Merkle root of its share of the leaves. */
  lemma {:induction false} EntryIsRoot(mix: Mix, heap: seq<U32>, leaves: seq<U32>, width: nat, share: nat, j: nat, start: nat)
    requires IsHeap(mix, heap, leaves) && IsPow2(share) && width * share == |leaves| && j < width && start == j * share
    ensures start + share <= |leaves| && width - 1 + j < |heap|
    ensures heap[width - 1 + j] == MerkleRoot(mix, leaves[start..start + share])
    decreases share
  {
    hide TreeHash, MerkleRoot, IsHeap;
    ShareFits(width, share, j);
    HeapShape(mix, heap, leaves);
    if share == 1 {
      assert heap[width - 1 + j] == heap[|leaves| - 1..][j] == leaves[j];
      OneLeaf(mix, leaves, j);
    } else {
      var half := share / 2;
      HalfShares(width, share, j);
      EntryIsRoot(mix, heap, leaves, 2 * width, half, 2 * j, start);
      EntryIsRoot(mix, heap, leaves, 2 * width, half, 2 * j + 1, start + half);
      TwoHalves(mix, leaves, start, half);
      InnerEntry(mix, heap, leaves, width - 1 + j);
    }
  }

  lemma HeapShape(mix: Mix, heap: seq<U32>, leaves: seq<U32>)
    requires IsHeap(mix, heap, leaves)
    ensures leaves != [] && |heap| == 2 * |leaves| - 1 && heap[|leaves| - 1..] == leaves
  {
  }

  lemma InnerEntry(mix: Mix, heap: seq<U32>, leaves: seq<U32>, p: nat)
    requires IsHeap(mix, heap, leaves) && p < |leaves| - 1
    ensures heap[p] == TreeHash(mix, heap[2 * p + 1], heap[2 * p + 2])
  {
  }

  lemma OneLeaf(mix: Mix, leaves: seq<U32>, j: nat)
    requires j < |leaves|
    ensures MerkleRoot(mix, leaves[j..j + 1]) == leaves[j]
  {
  }

  lemma TwoHalves(mix: Mix, leaves: seq<U32>, start: nat, half: nat)
    requires IsPow2(half) && half > 0 && start + 2 * half <= |leaves| && IsPow2(2 * half)
    ensures MerkleRoot(mix, leaves[start..start + 2 * half]) ==
            TreeHash(mix, MerkleRoot(mix, leaves[start..start + half]), MerkleRoot(mix, leaves[start + half..start + half + half]))
  {
    hide TreeHash;
    var own := leaves[start..start + 2 * half];
    assert own[..half] == leaves[start..start + half] && own[half..] == leaves[start + half..start + half + half];
    assert |own| / 2 == half;
  }

  lemma MulMonotone(a: nat, b: nat, c: nat)
    requires a <= b
    ensures a * c <= b * c
  {
  }

  lemma MulTwo(a: nat, b: nat)
    ensures 2 * a * b == a * (2 * b)
    ensures (2 * a + 1) * b == a * (2 * b) + b
  {
    assert 2 * a * b == a * (2 * b);
  }

  lemma ShareFits(width: nat, share: nat, j: nat)
    requires share > 0 && j < width
    ensures j * share + share <= width * share && width <= width * share
    ensures share > 1 ==> 2 * width <= width * share
  {
    MulMonotone(j + 1, width, share);
    MulMonotone(1, share, width);
    if share > 1 { MulMonotone(2, share, width); }
  }

  lemma HalfShares(width: nat, share: nat, j: nat)
    requires share > 1 && share % 2 == 0 && j < width
    ensures var half := share / 2;
      2 * width * half == width * share && 2 * j * half == j * share && (2 * j + 1) * half == j * share + half
  {
    MulTwo(width, share / 2);
    MulTwo(j, share / 2);
  }

  /** The loop over the heap array computes the recursive Merkle root of the leaves. */
  lemma HeapComputesMerkleRoot(mix: Mix, leaves: seq<U32>)
    requires IsPow2(|leaves|)
    ensures |leaves| > 0 && Heap(mix, leaves)[0] == MerkleRoot(mix, leaves)
  {
    hide MerkleRoot, IsHeap, HeapFrom, TreeHash;
    OneIsLeast(|leaves|);
    HeapIsHeap(mix, leaves);
    EntryIsRoot(mix, Heap(mix, leaves), leaves, 1, |leaves|, 0, 0);
    assert leaves[0..0 + |leaves|] == leaves;
  }
}
