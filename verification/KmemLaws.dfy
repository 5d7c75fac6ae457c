/** What the allocator answers and what its statistics tell, by blocks and by the history of the calls alone
    (kernel/kmem.c). */
module KmemLaws {
  import opened KmemModel
  import opened Kmem

  // ---------------------------------------------------------------- one call

  /** The least multiple of 8 that covers the request; 0 for a request so large that rounding it wraps. */
  lemma RoundedUp(request: nat, m: nat)
    requires request < 0x1_0000_0000
    ensures request > 0xFFFF_FFF8 ==> AlignUp(request) == 0
    ensures request <= 0xFFFF_FFF8 ==> request <= AlignUp(request) && AlignUp(request) % 8 == 0
    ensures request <= 0xFFFF_FFF8 && m % 8 == 0 && request <= m ==> AlignUp(request) <= m
  {
  }

  predicate Takes(b: Block, size: nat) { !b.used && b.size >= size }

  /** Block `k` is the first that is free and large enough. */
  ghost predicate IsFirstFit(bs: seq<Block>, size: nat, k: nat) {
    k < |bs| && Takes(bs[k], size) && forall i :: 0 <= i < k ==> !Takes(bs[i], size)
  }

  /** The first fit has the lowest address of all blocks that fit. */
  lemma FirstFitIsLowest(bs: seq<Block>, size: nat, k: nat, i: nat)
    requires IsFirstFit(bs, size, k) && i < |bs| && Takes(bs[i], size)
    ensures Off(bs, k) <= Off(bs, i)
  {
    if k < i { OffMonotone(bs, k, i); }
  }

  /** An allocation takes the first fit: the whole block when no more than 20 bytes would be left over, and otherwise
      the front of it, with a free block of the rest, less its header, behind. */
  lemma AllocationAnswers(bs: seq<Block>, request: nat, k: nat)
    requires request == 0 || IsFirstFit(bs, AlignUp(request), k) || forall i :: 0 <= i < |bs| ==> !Takes(bs[i], AlignUp(request))
    ensures var size, (bs', p) := AlignUp(request), Allocated(bs, request);
      if request == 0 || !IsFirstFit(bs, size, k) then bs' == bs && p == NULL
      else
        && p == Off(bs, k) + 12
        && bs' == bs[..k] + (if bs[k].size <= size + 20 then [Block(bs[k].size, true)]
                             else [Block(size, true), Block(bs[k].size - size - 12, false)]) + bs[k + 1..]
  {
    hide AlignUp, Off;
  }

  /** What a free block of `size` bytes and what follows it come to. */
  function Merged(size: nat, rest: seq<Block>): seq<Block> {
    if rest != [] && !rest[0].used then [Block(size + 12 + rest[0].size, false)] + rest[1..] else [Block(size, false)] + rest
  }

  lemma MergesWithNext(size: nat, rest: seq<Block>)
    requires NoFreePair(rest)
    ensures Coalesced([Block(size, false)] + rest) == Merged(size, rest)
  {
    var bs := [Block(size, false)] + rest;
    assert bs[1..] == rest;
    if rest != [] && !rest[0].used {
      assert bs[2..] == rest[1..];
      PairsOfTail(rest);
      PairsCons(Block(size + 12 + rest[0].size, false), rest[1..]);
      SettledStays([Block(size + 12 + rest[0].size, false)] + rest[1..]);
    } else {
      PairsCons(Block(size, false), rest);
      SettledStays(bs);
    }
  }

  lemma PairsOfTail(bs: seq<Block>)
    requires NoFreePair(bs) && bs != []
    ensures NoFreePair(bs[1..]) && (|bs| > 1 ==> bs[0].used || bs[1..][0].used)
  {
    forall i | 0 <= i < |bs| - 2 ensures bs[1..][i].used || bs[1..][i + 1].used {
      assert bs[1..][i] == bs[i + 1] && bs[1..][i + 1] == bs[i + 2];
    }
  }

  /** A free of a block in use makes it free and merges it with its free neighbours: the block before it, the one
      behind it, both or neither. */
  lemma {:induction false} FreeMerges(bs: seq<Block>, k: nat)
    requires NoFreePair(bs) && k < |bs| && bs[k].used
    ensures Freed(bs, k) == if k > 0 && !bs[k - 1].used then bs[..k - 1] + Merged(bs[k - 1].size + 12 + bs[k].size, bs[k + 1..])
                            else bs[..k] + Merged(bs[k].size, bs[k + 1..])
    decreases k
  {
    hide Merged, Freed;
    if k == 0 {
      FirstMerges(bs);
    } else if k == 1 && !bs[0].used {
      SecondMerges(bs);
    } else {
      FirstStays(bs, k);
      FreeMerges(bs[1..], k - 1);
      assert bs[1..][k - 1 + 1..] == bs[k + 1..];
    }
  }

  lemma FirstMerges(bs: seq<Block>)
    requires NoFreePair(bs) && bs != [] && bs[0].used
    ensures Freed(bs, 0) == Merged(bs[0].size, bs[1..])
  {
    hide Merged, Coalesced;
    PairsOfTail(bs);
    assert Spliced(bs, 0, [Block(bs[0].size, false)]) == [Block(bs[0].size, false)] + bs[1..];
    MergesWithNext(bs[0].size, bs[1..]);
  }

  lemma SecondMerges(bs: seq<Block>)
    requires NoFreePair(bs) && |bs| > 1 && !bs[0].used && bs[1].used
    ensures Freed(bs, 1) == Merged(bs[0].size + 12 + bs[1].size, bs[2..])
  {
    hide Merged;
    PairsFrom(bs, 2);
    var loose := Spliced(bs, 1, [Block(bs[1].size, false)]);
    assert loose[0] == bs[0] && loose[1] == Block(bs[1].size, false) && loose[2..] == bs[2..];
    MergesWithNext(bs[0].size + 12 + bs[1].size, bs[2..]);
  }

  lemma FirstStays(bs: seq<Block>, k: nat)
    requires NoFreePair(bs) && 0 < k < |bs| && bs[k].used && (bs[0].used || k > 1)
    ensures NoFreePair(bs[1..]) && Freed(bs, k) == [bs[0]] + Freed(bs[1..], k - 1)
  {
    PairsOfTail(bs);
    var free := Block(bs[k].size, false);
    var loose := Spliced(bs, k, [free]);
    assert loose[0] == bs[0] && loose[1..] == Spliced(bs[1..], k - 1, [free]);
    assert k > 1 ==> loose[1] == bs[1];
  }

  lemma {:induction false} PairsFrom(bs: seq<Block>, n: nat)
    requires NoFreePair(bs) && n <= |bs|
    ensures NoFreePair(bs[n..])
  {
    forall i | 0 <= i < |bs[n..]| - 1 ensures bs[n..][i].used || bs[n..][i + 1].used {
      assert bs[n..][i] == bs[n + i] && bs[n..][i + 1] == bs[n + i + 1];
    }
  }

  // ---------------------------------------------------------------- the statistics, over all runs

  /** The request of the last call is refused: it is empty, or nothing fits. */
  ghost predicate Refuses(bs: seq<Block>, op: HeapOp) {
    op.Alloc? && (op.request == 0 || forall i :: 0 <= i < |bs| ==> !Takes(bs[i], AlignUp(op.request)))
  }

  ghost predicate Frees(bs: seq<Block>, op: HeapOp) {
    op.Free? && op.index < |bs| && bs[op.index].used
  }

  /** How many calls of the run were refused, were granted, and freed something. */
  ghost function Refusals(arena: nat, ops: seq<HeapOp>): nat
    requires arena >= HEADER
    decreases |ops|
  {
    if ops == [] then 0
    else Refusals(arena, ops[..|ops| - 1]) + if Refuses(BlocksAfter(arena, ops[..|ops| - 1]), ops[|ops| - 1]) then 1 else 0
  }

  ghost function Grants(arena: nat, ops: seq<HeapOp>): nat
    requires arena >= HEADER
    decreases |ops|
  {
    if ops == [] then 0
    else Grants(arena, ops[..|ops| - 1])
         + if ops[|ops| - 1].Alloc? && !Refuses(BlocksAfter(arena, ops[..|ops| - 1]), ops[|ops| - 1]) then 1 else 0
  }

  ghost function Returns(arena: nat, ops: seq<HeapOp>): nat
    requires arena >= HEADER
    decreases |ops|
  {
    if ops == [] then 0
    else Returns(arena, ops[..|ops| - 1]) + if Frees(BlocksAfter(arena, ops[..|ops| - 1]), ops[|ops| - 1]) then 1 else 0
  }

  function BlocksAfter(arena: nat, ops: seq<HeapOp>): seq<Block>
    requires arena >= HEADER
  {
    RunOf(Fresh(arena), ops).blocks
  }

  lemma RefusesIs(bs: seq<Block>, request: nat)
    ensures Refuses(bs, Alloc(request)) <==> request == 0 || FirstFit(bs, AlignUp(request), 0) == |bs|
  {
    hide AlignUp;
    forall i | 0 <= i < |bs| ensures Takes(bs[i], AlignUp(request)) <==> Fits(bs[i], AlignUp(request)) {}
  }

  lemma ModStep(n: nat, m: nat)
    requires m > 1
    ensures (n % m + 1) % m == (n + 1) % m
  {
    var q, r := n / m, n % m;
    assert n == m * q + r;
    if r + 1 < m {
      ModIs(n + 1, m, q, r + 1);
      ModIs(r + 1, m, 0, r + 1);
    } else {
      assert m * q + m == m * (q + 1);
      ModIs(n + 1, m, q + 1, 0);
      ModIs(r + 1, m, 1, 0);
    }
  }

  lemma ModIs(a: nat, m: nat, q: nat, r: nat)
    requires r < m && a == m * q + r
    ensures a % m == r
  {
    var d := q - a / m;
    assert a == m * (a / m) + a % m;
    assert m * d == a % m - r by { assert m * d == m * q - m * (a / m); }
    FarMultiple(m, d);
  }

  lemma FarMultiple(m: int, d: int)
    requires m > 0
    ensures d >= 1 ==> m * d >= m
    ensures d <= -1 ==> m * d <= 0 - m
  {
  }

  /** What one call does to the counters. */
  ghost predicate CountsCall(h: Heap, op: HeapOp, h': Heap) {
    && h'.failCount == (if Refuses(h.blocks, op) then (h.failCount + 1) % 0x1_0000_0000 else h.failCount)
    && h'.allocationCount == (if op.Alloc? && !Refuses(h.blocks, op) then (h.allocationCount + 1) % 0x1_0000_0000 else h.allocationCount)
    && h'.freeCount == (if Frees(h.blocks, op) then (h.freeCount + 1) % 0x1_0000_0000 else h.freeCount)
    && (if Frees(h.blocks, op) then h'.live + 1 == h.live
        else h'.live == h.live + if op.Alloc? && !Refuses(h.blocks, op) then 1 else 0)
    && (Frees(h.blocks, op) ==> !op.Alloc?)
  }

  lemma CountersStep(h: Heap, op: HeapOp, arena: nat)
    requires Books(h, arena) && arena < NULL
    ensures CountsCall(h, op, StepOf(h, op))
  {
    LiveIsSmall(h, arena);
    hide Books, CountsCall, StepOf;
    match op
    case Alloc(request) => AllocCounts(h, request);
    case Free(k) => FreeCounts(h, k);
  }

  lemma AllocCounts(h: Heap, request: nat)
    requires h.live < NULL
    ensures CountsCall(h, Alloc(request), StepOf(h, Alloc(request)))
  {
    hide AlignUp, FirstFit, Allocated, Carved, Refuses;
    RefusesIs(h.blocks, request);
  }

  lemma FreeCounts(h: Heap, k: nat)
    requires h.live == UsedCount(h.blocks)
    ensures CountsCall(h, Free(k), StepOf(h, Free(k)))
  {
    hide Freed, Refuses, UsedCount, UsedBytes;
    FreeIsNoRefusal(h.blocks, Free(k));
    if Frees(h.blocks, Free(k)) { UsedIsCounted(h.blocks, k); }
  }

  lemma FreeIsNoRefusal(bs: seq<Block>, op: HeapOp)
    requires op.Free?
    ensures !Refuses(bs, op)
  {
  }

  lemma LiveIsSmall(h: Heap, arena: nat)
    requires Books(h, arena) && arena < NULL
    ensures h.live < NULL && h.live == UsedCount(h.blocks)
  {
  }

  /** The counters are those numbers, to 32 bits, and the live count is what was granted and not yet freed. */
  lemma {:induction false} CountersCount(arena: nat, ops: seq<HeapOp>)
    requires HEADER <= arena < NULL
    ensures var h := RunOf(Fresh(arena), ops);
      && h.failCount == Refusals(arena, ops) % 0x1_0000_0000
      && h.allocationCount == Grants(arena, ops) % 0x1_0000_0000
      && h.freeCount == Returns(arena, ops) % 0x1_0000_0000
      && h.live + Returns(arena, ops) == Grants(arena, ops)
    decreases |ops|
  {
    hide Books, StepOf, Refuses, Frees;
    if ops != [] {
      var init := ops[..|ops| - 1];
      CountersCount(arena, init);
      EveryRunKeepsBooks(arena, init);
      CountersStep(RunOf(Fresh(arena), init), ops[|ops| - 1], arena);
      ModStep(Refusals(arena, init), 0x1_0000_0000);
      ModStep(Grants(arena, init), 0x1_0000_0000);
      ModStep(Returns(arena, init), 0x1_0000_0000);
    }
  }

  /** The value has been reached at some point of the run and never been passed. */
  ghost predicate IsPeak(arena: nat, ops: seq<HeapOp>, measure: seq<Block> -> nat, peak: nat)
    requires arena >= HEADER
  {
    && (forall j :: 0 <= j <= |ops| ==> measure(BlocksAfter(arena, ops[..j])) <= peak)
    && exists j :: 0 <= j <= |ops| && measure(BlocksAfter(arena, ops[..j])) == peak
  }

  lemma PeakGrows(arena: nat, ops: seq<HeapOp>, measure: seq<Block> -> nat, peak: nat)
    requires arena >= HEADER && ops != [] && IsPeak(arena, ops[..|ops| - 1], measure, peak)
    ensures IsPeak(arena, ops, measure, Max(peak, measure(BlocksAfter(arena, ops))))
  {
    hide RunOf;
    var n := |ops| - 1;
    assert ops[..|ops|] == ops;
    forall j | 0 <= j <= n ensures ops[..n][..j] == ops[..j] {}
    var j :| 0 <= j <= n && measure(BlocksAfter(arena, ops[..n][..j])) == peak;
    assert ops[..n][..j] == ops[..j];
    var k := if peak >= measure(BlocksAfter(arena, ops)) then j else |ops|;
    assert measure(BlocksAfter(arena, ops[..k])) == Max(peak, measure(BlocksAfter(arena, ops)));
  }

  /** The peaks are the largest numbers of payload bytes and of payloads that there have ever been. */
  lemma {:induction false} PeaksArePeaks(arena: nat, ops: seq<HeapOp>)
    requires HEADER <= arena < NULL
    ensures IsPeak(arena, ops, UsedBytes, RunOf(Fresh(arena), ops).peakBytesInUse)
    ensures IsPeak(arena, ops, UsedCount, RunOf(Fresh(arena), ops).peakLive)
    decreases |ops|
  {
    hide AlignUp, FirstFit, Allocated, Freed, Carved, Tiles, IsPeak;
    if ops == [] {
      NothingUsed(arena, ops);
    } else {
      PeaksArePeaks(arena, ops[..|ops| - 1]);
      EveryRunKeepsBooks(arena, ops[..|ops| - 1]);
      EveryRunKeepsBooks(arena, ops);
      var before := RunOf(Fresh(arena), ops[..|ops| - 1]);
      PeakGrows(arena, ops, UsedBytes, before.peakBytesInUse);
      PeakGrows(arena, ops, UsedCount, before.peakLive);
      PeakStep(before, ops[|ops| - 1], arena);
    }
  }

  lemma PeakStep(h: Heap, op: HeapOp, arena: nat)
    requires Books(h, arena) && Books(StepOf(h, op), arena)
    ensures var h' := StepOf(h, op);
      h'.peakBytesInUse == Max(h.peakBytesInUse, h'.bytesInUse) && h'.peakLive == Max(h.peakLive, h'.live)
  {
    hide AlignUp, FirstFit, Allocated, Freed, Carved, Tiles, UsedBytes, UsedCount, Live;
  }

  lemma NothingUsed(arena: nat, ops: seq<HeapOp>)
    requires HEADER <= arena && ops == []
    ensures IsPeak(arena, ops, UsedBytes, 0) && IsPeak(arena, ops, UsedCount, 0)
    ensures RunOf(Fresh(arena), ops) == Heap([Block(arena - 12, false)], 0, 0, 0, 0, 0, 0, 0)
  {
    OneBlock(Block(arena - HEADER, false), 0);
    assert ops[..0] == ops;
    assert BlocksAfter(arena, ops[..0]) == [Block(arena - HEADER, false)];
  }

  // ---------------------------------------------------------------- the snapshot

  /** The snapshot: the arena less one header, the bytes of the free blocks and the largest of them, how many blocks
      there are, free and used, and the counters as they are. */
  lemma SnapshotTells(h: Heap, arena: nat)
    requires arena >= HEADER
    ensures var stats := StatsOf(h, arena);
      && stats.arenaCapacityBytes == arena - 12 && stats.blockCount == |h.blocks|
      && stats.freeBytes + UsedBytes(h.blocks) + 12 * |h.blocks| == Span(h.blocks)
      && (forall i :: 0 <= i < |h.blocks| && !h.blocks[i].used ==> h.blocks[i].size <= stats.largestFreeBlock)
      && (stats.largestFreeBlock == 0 || exists i :: 0 <= i < |h.blocks| && h.blocks[i] == Block(stats.largestFreeBlock, false))
      && stats.usedBlockCount + stats.freeBlockCount == |h.blocks| && stats.usedBlockCount == |Live(h.blocks)|
      && stats.counters == h.(blocks := [])
  {
    BytesAddUp(h.blocks);
    LiveIsCounted(h.blocks, 0);
    LargestFreeIs(h.blocks);
  }

  lemma {:induction false} LargestFreeIs(bs: seq<Block>)
    ensures forall i :: 0 <= i < |bs| && !bs[i].used ==> bs[i].size <= LargestFree(bs)
    ensures LargestFree(bs) == 0 || exists i :: 0 <= i < |bs| && bs[i] == Block(LargestFree(bs), false)
  {
    if bs != [] {
      var init, last := bs[..|bs| - 1], bs[|bs| - 1];
      LargestFreeIs(init);
      assert last.used || last == Block(last.size, false);
      forall i | 0 <= i < |bs| && !bs[i].used ensures bs[i].size <= LargestFree(bs) {
        if i < |init| { assert init[i] == bs[i]; }
      }
      if LargestFree(bs) == LargestFree(init) != 0 {
        var i :| 0 <= i < |init| && init[i] == Block(LargestFree(init), false);
        assert bs[i] == Block(LargestFree(bs), false);
      }
    }
  }
}
