/** The code of the kernel allocator (kernel/kmem.c) over block headers linked through the arena,
    proved to do to the list of blocks what KmemModel says. */
module Kmem {
  import opened KmemModel

  /** struct kmem_block. */
  datatype Header = Header(size: nat, used: bool, next: nat)

  /** struct kmem_stats. */
  datatype KmemStats = KmemStats(arenaCapacityBytes: nat, freeBytes: nat, largestFreeBlock: nat, blockCount: nat,
                                 freeBlockCount: nat, usedBlockCount: nat, counters: Heap)

  /** Where block `k` begins, NULL past the last one. */
  function At(bs: seq<Block>, k: nat): nat
    requires k <= |bs|
  {
    if k < |bs| then Off(bs, k) else NULL
  }

  ghost predicate LinkedAt(headers: map<nat, Header>, bs: seq<Block>, i: nat)
    requires i < |bs|
  {
    Off(bs, i) in headers && headers[Off(bs, i)] == Header(bs[i].size, bs[i].used, At(bs, i + 1))
  }

  /** The headers in memory link the blocks in order. Headers of merged blocks may be left behind. */
  ghost predicate Listed(headers: map<nat, Header>, bs: seq<Block>) {
    forall i :: 0 <= i < |bs| ==> LinkedAt(headers, bs, i)
  }

  ghost predicate IsBlock(bs: seq<Block>, at: nat) {
    exists i :: 0 <= i < |bs| && Off(bs, i) == at
  }

  /** Nobody has written over the headers that merging left behind: they still say free. */
  ghost predicate Untouched(headers: map<nat, Header>, bs: seq<Block>) {
    forall at :: at in headers && headers[at].used ==> IsBlock(bs, at)
  }

  /** The bytes of a header at `at` lie inside the payload of some block. */
  ghost predicate InsidePayload(bs: seq<Block>, at: nat) {
    exists i :: 0 <= i < |bs| && Off(bs, i) + HEADER <= at && at + HEADER <= Off(bs, i) + HEADER + bs[i].size
  }

  lemma OffBelow(bs: seq<Block>, k: nat)
    requires k < |bs|
    ensures Off(bs, k) + HEADER + bs[k].size <= Span(bs)
  {
    OffStep(bs, k);
  }

  lemma OffZero(bs: seq<Block>)
    ensures Off(bs, 0) == 0
  {
  }

  lemma SuffixOff(bs: seq<Block>, j: nat, bs': seq<Block>, j': nat)
    requires j <= |bs| && j' <= |bs'| && bs[j..] == bs'[j'..] && Span(bs) == Span(bs')
    ensures Off(bs, j) == Off(bs', j')
  {
    assert bs == bs[..j] + bs[j..] && bs' == bs'[..j'] + bs'[j'..];
    SpanAppend(bs[..j], bs[j..]);
    SpanAppend(bs'[..j'], bs'[j'..]);
  }

  lemma PrefixOff(bs: seq<Block>, bs': seq<Block>, k: nat, i: nat)
    requires i <= k <= |bs| && k <= |bs'| && bs[..k] == bs'[..k]
    ensures Off(bs, i) == Off(bs', i)
  {
    assert bs[..i] == bs[..k][..i] && bs'[..i] == bs'[..k][..i];
  }

  /** Rewriting one header in place: the rest of the list does not notice. */
  lemma ListedChanged(headers: map<nat, Header>, bs: seq<Block>, k: nat, used: bool)
    requires Listed(headers, bs) && k < |bs|
    ensures LinkedAt(headers, bs, k)
    ensures Listed(headers[Off(bs, k) := headers[Off(bs, k)].(used := used)], bs[k := Block(bs[k].size, used)])
    ensures Untouched(headers, bs) ==> Untouched(headers[Off(bs, k) := headers[Off(bs, k)].(used := used)], bs[k := Block(bs[k].size, used)])
    ensures Span(bs[k := Block(bs[k].size, used)]) == Span(bs)
  {
    hide Off, Span;
    var bs' := bs[k := Block(bs[k].size, used)];
    SpanChanged(bs, k, used);
    forall i | 0 <= i <= |bs| ensures Off(bs', i) == Off(bs, i) && At(bs', i) == At(bs, i) {
      if i <= k { PrefixOff(bs, bs', k, i); } else { SuffixOff(bs, i, bs', i); }
    }
    assert LinkedAt(headers, bs, k);
    var headers' := headers[Off(bs, k) := headers[Off(bs, k)].(used := used)];
    forall i | 0 <= i < |bs| ensures LinkedAt(headers', bs', i) {
      assert LinkedAt(headers, bs, i);
      if i < k { OffMonotone(bs, i, k); } else if i > k { OffMonotone(bs, k, i); }
    }
    forall at | IsBlock(bs, at) ensures IsBlock(bs', at) {
      var i :| 0 <= i < |bs| && Off(bs, i) == at;
      assert Off(bs', i) == at;
    }
    assert IsBlock(bs, Off(bs, k));
  }

  lemma SpanChanged(bs: seq<Block>, k: nat, used: bool)
    requires k < |bs|
    ensures bs[k := Block(bs[k].size, used)] == Spliced(bs, k, [Block(bs[k].size, used)])
    ensures Span(bs[k := Block(bs[k].size, used)]) == Span(bs)
  {
    SplitAround(bs, k, [Block(bs[k].size, used)]);
    SplitAround(bs, k, [bs[k]]);
    assert bs == Spliced(bs, k, [bs[k]]);
    OneBlock(bs[k], 0);
    OneBlock(Block(bs[k].size, used), 0);
  }

  /** Two free neighbours on one side, the block they make on the other: `many` links `few` with
      block `k` divided in two at `size` bytes. */
  ghost predicate Divides(few: seq<Block>, many: seq<Block>, k: nat, size: nat) {
    && k < |few| && size + HEADER <= few[k].size
    && many == few[..k] + [Block(size, false), Block(few[k].size - size - HEADER, false)] + few[k + 1..]
  }

  lemma DividedOffsets(few: seq<Block>, many: seq<Block>, k: nat, size: nat)
    requires Divides(few, many, k, size)
    ensures Span(few) == Span(many) && |many| == |few| + 1
    ensures forall i :: 0 <= i <= k ==> Off(few, i) == Off(many, i)
    ensures Off(many, k + 1) == Off(few, k) + HEADER + size
    ensures forall i :: k < i <= |few| ==> Off(few, i) == Off(many, i + 1)
  {
    var pair := [Block(size, false), Block(few[k].size - size - HEADER, false)];
    assert many == Spliced(few, k, pair) && few == Spliced(few, k, [few[k]]);
    SplitAround(few, k, pair);
    SplitAround(few, k, [few[k]]);
    OneBlock(few[k], 0);
    OneBlock(pair[1], 0);
    assert pair[1..] == [pair[1]];
    forall i | 0 <= i <= k ensures Off(few, i) == Off(many, i) { PrefixOff(few, many, k, i); }
    OffStep(many, k);
    forall i | k < i <= |few| ensures Off(few, i) == Off(many, i + 1) {
      assert few[i..] == many[i + 1..];
      SuffixOff(few, i, many, i + 1);
    }
  }

  function DividedHeaders(headers: map<nat, Header>, block: nat, size: nat): map<nat, Header>
    requires block in headers && size + HEADER <= headers[block].size
  {
    var next := block + HEADER + size;
    headers[next := Header(headers[block].size - size - HEADER, false, headers[block].next)][block := Header(size, false, next)]
  }

  /** kmem_split_block's three writes divide a block. */
  lemma ListedDivided(headers: map<nat, Header>, few: seq<Block>, many: seq<Block>, k: nat, size: nat)
    requires Divides(few, many, k, size) && Listed(headers, few) && !few[k].used && LinkedAt(headers, few, k)
    ensures Listed(DividedHeaders(headers, Off(few, k), size), many)
    ensures Untouched(headers, few) ==> Untouched(DividedHeaders(headers, Off(few, k), size), many)
  {
    hide Off, Span;
    DividedOffsets(few, many, k, size);
    var headers' := DividedHeaders(headers, Off(few, k), size);
    OffMonotone(many, k, k + 1);
    assert k + 1 < |few| ==> Off(few, k + 1) == Off(many, k + 1 + 1);
    forall i | 0 <= i < |many| ensures LinkedAt(headers', many, i) {
      if i < k {
        assert LinkedAt(headers, few, i);
        OffMonotone(many, i, k);
        OffMonotone(many, i, k + 1);
        assert many[i] == few[i] && Off(few, i) == Off(many, i) && Off(few, i + 1) == Off(many, i + 1);
      } else if i > k + 1 {
        assert LinkedAt(headers, few, i - 1);
        OffMonotone(many, k, i);
        OffMonotone(many, k + 1, i);
        assert many[i] == few[i - 1] && Off(few, i - 1) == Off(many, i - 1 + 1);
        assert Off(few, i) == Off(many, i + 1);
      } else {
        assert LinkedAt(headers, few, k);
      }
    }
    forall at | IsBlock(few, at) ensures IsBlock(many, at) {
      var i :| 0 <= i < |few| && Off(few, i) == at;
      assert Off(many, if i <= k then i else i + 1) == at;
    }
  }

  /** kmem_coalesce's two writes undo such a division. */
  lemma ListedMerged(headers: map<nat, Header>, few: seq<Block>, many: seq<Block>, k: nat, size: nat)
    requires Divides(few, many, k, size) && Listed(headers, many) && !few[k].used
    ensures
      var block := Off(many, k);
      && LinkedAt(headers, many, k + 1)
      && Listed(headers[block := Header(few[k].size, false, headers[Off(many, k + 1)].next)], few)
      && (!many[k + 1].used && Untouched(headers, many) ==>
            Untouched(headers[block := Header(few[k].size, false, headers[Off(many, k + 1)].next)], few))
  {
    hide Off, Span;
    DividedOffsets(few, many, k, size);
    assert LinkedAt(headers, many, k) && LinkedAt(headers, many, k + 1);
    var headers' := headers[Off(many, k) := Header(few[k].size, false, headers[Off(many, k + 1)].next)];
    forall i | 0 <= i < |few| ensures LinkedAt(headers', few, i) {
      if i < k {
        assert LinkedAt(headers, many, i);
        OffMonotone(few, i, k);
        assert many[i] == few[i] && Off(few, i) == Off(many, i) && Off(few, i + 1) == Off(many, i + 1);
      } else if i > k {
        assert LinkedAt(headers, many, i + 1);
        OffMonotone(few, k, i);
        assert few[i] == many[i + 1] && Off(few, i) == Off(many, i + 1);
        assert Off(few, i + 1) == Off(many, i + 1 + 1);
      } else {
        assert Off(few, k + 1) == Off(many, k + 1 + 1);
      }
    }
    forall at | IsBlock(many, at) && at != Off(many, k + 1) ensures IsBlock(few, at) {
      var i :| 0 <= i < |many| && Off(many, i) == at;
      assert Off(few, if i <= k then i else i - 1) == at;
    }
  }

  class Allocator {
    const arena: nat
    var initialized: bool
    var headers: map<nat, Header>
    var head: nat
    var bytesInUse: nat
    var peakBytesInUse: nat
    var allocationCount: nat
    var freeCount: nat
    var failCount: nat
    var live: nat
    var peakLive: nat
    ghost var blocks: seq<Block>

    ghost predicate Linked()
      reads this
    {
      head == 0 && blocks != [] && Listed(headers, blocks) && Span(blocks) == arena && arena < NULL
    }

    /** An arena that was never used counts as a fresh one. */
    ghost function State(): Heap
      requires arena >= HEADER
      reads this
    {
      if !initialized then Fresh(arena)
      else Heap(blocks, bytesInUse, peakBytesInUse, allocationCount, freeCount, failCount, live, peakLive)
    }

    ghost predicate Valid()
      reads this
    {
      HEADER <= arena < NULL && (initialized ==> Linked() && Books(State(), arena))
    }

    ghost predicate Clean()
      reads this
    {
      initialized ==> Untouched(headers, blocks)
    }

    constructor (arena: nat)
      requires HEADER <= arena < NULL
      ensures Valid() && Clean() && this.arena == arena && State() == Fresh(arena)
    {
      this.arena, initialized := arena, false;
    }

    /** kmem_init, which every entry point calls first. */
    method Init()
      requires Valid()
      modifies this
      ensures Valid() && initialized && State() == old(State())
      ensures old(Clean()) ==> Clean()
    {
      if initialized { return; }
      head := 0;
      headers := map[0 := Header(arena - HEADER, false, NULL)];
      bytesInUse, peakBytesInUse, allocationCount, freeCount, failCount, live, peakLive := 0, 0, 0, 0, 0, 0, 0;
      initialized := true;
      blocks := [Block(arena - HEADER, false)];
      FreshBooks(arena);
    }

    method SplitBlock(block: nat, size: nat, ghost k: nat)
      requires Linked() && k < |blocks| && block == Off(blocks, k) && Fits(blocks[k], size)
      modifies this`headers, this`blocks
      ensures Linked()
      ensures old(Clean()) ==> Clean()
      ensures var mid := Carved(old(blocks[k]).size, size);
        blocks == Spliced(old(blocks), k, mid[0 := Block(mid[0].size, false)])
    {
      hide Listed, Untouched, Span;
      ListedAt(headers, blocks, k);
      var remaining := headers[block].size - size;
      if remaining <= HEADER + ALIGNMENT {
        SplicedSelf(blocks, k);
        return;
      }
      var next := block + HEADER + size;
      ghost var many := blocks[..k] + [Block(size, false), Block(blocks[k].size - size - HEADER, false)] + blocks[k + 1..];
      ListedDivided(headers, blocks, many, k, size);
      DividedOffsets(blocks, many, k, size);
      headers := headers[next := Header(remaining - HEADER, false, headers[block].next)][block := Header(size, false, next)];
      blocks := many;
    }

    /** The two writes of kmem_alloc to the block it found. */
    method ClaimBlock(block: nat, size: nat, ghost k: nat)
      requires Linked() && k < |blocks| && block == Off(blocks, k) && Fits(blocks[k], size)
      modifies this`headers, this`blocks
      ensures Linked() && blocks == Spliced(old(blocks), k, Carved(old(blocks[k]).size, size))
      ensures old(Clean()) ==> Clean()
      ensures block in headers && headers[block].size == Carved(old(blocks[k]).size, size)[0].size
    {
      hide Listed, Spliced, Untouched;
      CarveStep(blocks, k, Carved(blocks[k].size, size));
      SplitBlock(block, size, k);
      ListedAt(headers, blocks, k);
      ListedChanged(headers, blocks, k, true);
      headers := headers[block := headers[block].(used := true)];
      blocks := blocks[k := Block(blocks[k].size, true)];
    }

    /** What kmem_alloc does once it has found its block. */
    method Grant(block: nat, request: nat, ghost k: nat)
      requires Linked() && arena >= HEADER && initialized && request != 0 && k < |blocks| && block == Off(blocks, k)
      requires k == FirstFit(blocks, AlignUp(request), 0)
      modifies this
      ensures Linked() && initialized && State() == AfterAlloc(old(State()), request)
      ensures old(Clean()) ==> Clean()
    {
      hide Listed, Untouched, Spliced, AlignUp, Span, Carved, FirstFit;
      ClaimBlock(block, AlignUp(request), k);
      bytesInUse := (bytesInUse + headers[block].size) % UINT32;
      if bytesInUse > peakBytesInUse { peakBytesInUse := bytesInUse; }
      allocationCount := (allocationCount + 1) % UINT32;
      live := (live + 1) % UINT32;
      if live > peakLive { peakLive := live; }
    }

    /** kmem_alloc; the result is an offset into the arena. */
    method Alloc(request: nat) returns (ptr: nat)
      requires Valid() && request < UINT32
      modifies this
      ensures Valid() && initialized && State() == AfterAlloc(old(State()), request)
      ensures ptr == Allocated(old(State()).blocks, request).1
      ensures old(Clean()) ==> Clean()
    {
      hide Listed, Untouched, Books, AlignUp, Spliced, Span, Carved, FirstFit;
      Init();
      ghost var before := State();
      AllocKeepsBooks(before, arena, request);
      if request == 0 {
        failCount := (failCount + 1) % UINT32;
        return NULL;
      }
      var size := AlignUp(request);
      var block := head;
      OffZero(blocks);
      ghost var k := 0;
      while block != NULL
        invariant 0 <= k <= |blocks| && block == At(blocks, k) && (block == NULL <==> k == |blocks|)
        invariant FirstFit(blocks, size, 0) == FirstFit(blocks, size, k)
        invariant State() == before && Linked() && initialized && (old(Clean()) ==> Clean())
        decreases |blocks| - k
      {
        ListedAt(headers, blocks, k);
        FirstFitStep(blocks, size, k);
        if !headers[block].used && headers[block].size >= size {
          Grant(block, request, k);
          return block + HEADER;
        }
        block := headers[block].next;
        k := k + 1;
      }
      failCount := (failCount + 1) % UINT32;
      return NULL;
    }

    /** The two writes of kmem_coalesce that let a free block swallow the free block after it. */
    method MergeNext(block: nat, ghost k: nat)
      requires Linked() && k + 1 < |blocks| && block == Off(blocks, k) && !blocks[k].used && !blocks[k + 1].used
      modifies this`headers, this`blocks
      ensures Linked() && k < |blocks| == |old(blocks)| - 1 && blocks[..k] == old(blocks[..k]) && block == Off(blocks, k)
      ensures Coalesced(blocks[k..]) == Coalesced(old(blocks[k..]))
      ensures old(Clean()) ==> Clean()
    {
      hide Listed, Untouched, Span, Coalesced;
      ListedAt(headers, blocks, k);
      var next := headers[block].next;
      ghost var few := blocks[..k] + [Block(blocks[k].size + HEADER + blocks[k + 1].size, false)] + blocks[k + 2..];
      MergeStep(blocks, few, k);
      ListedMerged(headers, few, blocks, k, blocks[k].size);
      DividedOffsets(few, blocks, k, blocks[k].size);
      headers := headers[block := Header(headers[block].size + HEADER + headers[next].size, false, headers[next].next)];
      blocks := few;
    }

    /** kmem_coalesce. */
    method Coalesce()
      requires Linked()
      modifies this`headers, this`blocks
      ensures Linked() && blocks == Coalesced(old(blocks))
      ensures old(Clean()) ==> Clean()
    {
      hide Listed, Untouched, Off, Span, Coalesced;
      var block := head;
      OffZero(blocks);
      ghost var k := 0;
      assert blocks[..0] == [] && blocks[0..] == blocks;
      while block != NULL
        invariant 0 <= k <= |blocks| && block == At(blocks, k) && (block == NULL <==> k == |blocks|) && Linked()
        invariant blocks[..k] + Coalesced(blocks[k..]) == Coalesced(old(blocks)) && (old(Clean()) ==> Clean())
        decreases |blocks| - k
      {
        ListedAt(headers, blocks, k);
        while headers[block].next != NULL && !headers[block].used && !headers[headers[block].next].used
          invariant k < |blocks| && block == Off(blocks, k) && Linked() && block in headers
          invariant headers[block] == Header(blocks[k].size, blocks[k].used, At(blocks, k + 1))
          invariant headers[block].next != NULL ==> (
            && headers[block].next in headers && k + 1 < |blocks|
            && headers[headers[block].next] == Header(blocks[k + 1].size, blocks[k + 1].used, At(blocks, k + 2)))
          invariant blocks[..k] + Coalesced(blocks[k..]) == Coalesced(old(blocks)) && (old(Clean()) ==> Clean())
          decreases |blocks|
        {
          MergeNext(block, k);
          ListedAt(headers, blocks, k);
        }
        ListedAt(headers, blocks, k);
        CoalesceStep(blocks, k);
        block := headers[block].next;
        k := k + 1;
      }
      CoalesceEnd(blocks);
    }

    /** The write of kmem_free to the header it finds, which may belong to no block any more. */
    method MarkFree(block: nat)
      requires Linked() && block in headers && (headers[block].used || IsBlock(blocks, block))
      modifies this`headers, this`blocks
      ensures Linked() && (old(Clean()) ==> Clean())
      ensures forall k :: 0 <= k < |old(blocks)| && Off(old(blocks), k) == block ==>
        blocks == old(blocks)[k := Block(old(blocks)[k].size, false)]
      ensures !IsBlock(old(blocks), block) ==> blocks == old(blocks)
      ensures headers == old(headers)[block := old(headers)[block].(used := false)]
    {
      hide Listed, Untouched;
      ghost var before := blocks;
      if IsBlock(before, block) {
        ghost var k :| 0 <= k < |before| && Off(before, k) == block;
        OnlyBlock(before, k);
        ListedChanged(headers, before, k, false);
        SpanChanged(before, k, false);
        blocks := before[k := Block(before[k].size, false)];
      } else {
        ListedBeside(headers, before, block);
      }
      headers := headers[block := headers[block].(used := false)];
    }

    /** kmem_free of any pointer at which a header was once written. The payload of a block is given back.
        A pointer that merging has overtaken does nothing as long as nobody has written there; otherwise the
        counters are taken down for a block that does not exist. */
    method Free(ptr: nat)
      requires Valid()
      requires ptr != NULL ==> (
        && initialized && HEADER <= ptr && ptr - HEADER in headers
        && (IsBlock(blocks, ptr - HEADER) || InsidePayload(blocks, ptr - HEADER)))
      modifies this
      ensures arena >= HEADER && (ptr == NULL ==> State() == old(State()))
      ensures forall k :: 0 <= k < |old(blocks)| && ptr == Off(old(blocks), k) + HEADER && ptr != NULL ==>
        State() == AfterFree(old(State()), k)
      ensures ptr != NULL && !IsBlock(old(blocks), ptr - HEADER) ==>
        State() == if old(headers)[ptr - HEADER].used then AfterStray(old(State()), old(headers)[ptr - HEADER].size) else old(State())
      ensures Valid() <==> ptr == NULL || IsBlock(old(blocks), ptr - HEADER) || !old(headers)[ptr - HEADER].used
      ensures old(Clean()) ==> Clean() && Valid()
    {
      hide Listed, Books, Coalesced, Untouched, IsBlock, InsidePayload;
      if ptr == NULL { return; }
      var block := ptr - HEADER;
      FreeOutcome(headers, blocks, State(), arena, block);
      if !headers[block].used { return; }
      ghost var before := State();
      MarkFree(block);
      if k :| 0 <= k < |before.blocks| && Off(before.blocks, k) == block {
        assert blocks == before.blocks[k := Block(before.blocks[k].size, false)];
        assert headers[block].size == before.blocks[k].size;
        assert Coalesced(blocks) == AfterFree(before, k).blocks;
      }
      if bytesInUse >= headers[block].size {
        bytesInUse := bytesInUse - headers[block].size;
      } else {
        bytesInUse := 0;
      }
      if live != 0 { live := live - 1; }
      freeCount := (freeCount + 1) % UINT32;
      Coalesce();
    }

    /** kmem_stats_snapshot. */
    method Snapshot() returns (stats: KmemStats)
      requires Valid()
      modifies this
      ensures Valid() && initialized && State() == old(State()) && stats == StatsOf(State(), arena)
      ensures old(Clean()) ==> Clean()
    {
      hide Listed, Books, Untouched;
      Init();
      ghost var before := State();
      var block, free, largest, count, freeCountOfBlocks := head, 0, 0, 0, 0;
      ghost var k := 0;
      while block != NULL
        invariant 0 <= k <= |blocks| && block == At(blocks, k) && (block == NULL <==> k == |blocks|) && Linked()
        invariant count == k && freeCountOfBlocks + UsedCount(blocks[..k]) == k
        invariant State() == before && initialized && (old(Clean()) ==> Clean())
        invariant free == FreeBytes(blocks[..k]) && largest == LargestFree(blocks[..k])
        decreases |blocks| - k
      {
        ListedAt(headers, blocks, k);
        StatsStep(blocks, k);
        count := count + 1;
        if !headers[block].used {
          freeCountOfBlocks := freeCountOfBlocks + 1;
          free := free + headers[block].size;
          if headers[block].size > largest { largest := headers[block].size; }
        }
        block := headers[block].next;
        k := k + 1;
      }
      assert blocks[..k] == blocks;
      stats := KmemStats(arena - HEADER, free, largest, count, freeCountOfBlocks, count - freeCountOfBlocks,
                         Heap([], bytesInUse, peakBytesInUse, allocationCount, this.freeCount, failCount, live, peakLive));
    }
  }

  lemma ListedAt(headers: map<nat, Header>, bs: seq<Block>, k: nat)
    requires Listed(headers, bs) && k < |bs|
    ensures LinkedAt(headers, bs, k) && headers[Off(bs, k)] == Header(bs[k].size, bs[k].used, At(bs, k + 1))
    ensures k + 1 < |bs| ==> (
      && Off(bs, k + 1) in headers
      && headers[Off(bs, k + 1)] == Header(bs[k + 1].size, bs[k + 1].used, At(bs, k + 2)))
    ensures Off(bs, k) < Span(bs) && (k + 1 < |bs| ==> Off(bs, k + 1) < Span(bs))
  {
    assert LinkedAt(headers, bs, k);
    OffBelow(bs, k);
    if k + 1 < |bs| {
      assert LinkedAt(headers, bs, k + 1);
      OffBelow(bs, k + 1);
    }
  }

  lemma OnlyBlock(bs: seq<Block>, k: nat)
    requires k < |bs|
    ensures IsBlock(bs, Off(bs, k)) && forall i :: 0 <= i < |bs| && Off(bs, i) == Off(bs, k) ==> i == k
  {
    forall i | 0 <= i < |bs| && i != k ensures Off(bs, i) != Off(bs, k) {
      if i < k { OffMonotone(bs, i, k); } else { OffMonotone(bs, k, i); }
    }
  }

  /** Rewriting a header that belongs to no block. */
  lemma ListedBeside(headers: map<nat, Header>, bs: seq<Block>, at: nat)
    requires Listed(headers, bs) && at in headers && !IsBlock(bs, at)
    ensures var headers' := headers[at := headers[at].(used := false)];
      Listed(headers', bs) && (Untouched(headers, bs) ==> Untouched(headers', bs))
  {
    var headers' := headers[at := headers[at].(used := false)];
    forall i | 0 <= i < |bs| ensures LinkedAt(headers', bs, i) { assert LinkedAt(headers, bs, i) && Off(bs, i) != at; }
  }

  /** What kmem_free comes to, by what it finds. */
  lemma FreeOutcome(headers: map<nat, Header>, bs: seq<Block>, h: Heap, arena: nat, at: nat)
    requires Listed(headers, bs) && h.blocks == bs && Books(h, arena) && at in headers && arena < NULL
    ensures forall k :: 0 <= k < |bs| && Off(bs, k) == at ==>
      && headers[at].used == bs[k].used && headers[at].size == bs[k].size && Books(AfterFree(h, k), arena)
      && (bs[k].used ==> Freed(bs, k) == Coalesced(bs[k := Block(bs[k].size, false)]))
      && forall i :: 0 <= i < |bs| && Off(bs, i) == at ==> i == k
    ensures !IsBlock(bs, at) ==> !Books(AfterStray(h, headers[at].size), arena) && (headers[at].used ==> !Untouched(headers, bs))
    ensures forall k :: 0 <= k < |bs| && Off(bs, k) == at ==> IsBlock(bs, at)
    ensures IsBlock(bs, at) ==> exists k :: 0 <= k < |bs| && Off(bs, k) == at
  {
    hide Listed, Books;
    forall k | 0 <= k < |bs| && Off(bs, k) == at
      ensures headers[at].used == bs[k].used && headers[at].size == bs[k].size && Books(AfterFree(h, k), arena)
      ensures bs[k].used ==> Freed(bs, k) == Coalesced(bs[k := Block(bs[k].size, false)])
      ensures forall i :: 0 <= i < |bs| && Off(bs, i) == at ==> i == k
    {
      ListedAt(headers, bs, k);
      FreeKeepsBooks(h, arena, k);
      OnlyBlock(bs, k);
      SpanChanged(bs, k, false);
    }
    StrayFreeBreaksBooks(h, arena, headers[at].size);
  }

  lemma FirstFitStep(bs: seq<Block>, size: nat, k: nat)
    requires k < |bs|
    ensures FirstFit(bs, size, k) == if Fits(bs[k], size) then k else FirstFit(bs, size, k + 1)
  {
  }

  lemma CarveStep(bs: seq<Block>, k: nat, mid: seq<Block>)
    requires k < |bs| && mid != [] && mid[0].used
    ensures var loose := Spliced(bs, k, mid[0 := Block(mid[0].size, false)]);
      && k < |loose| && loose[k] == Block(mid[0].size, false) && Off(loose, k) == Off(bs, k)
      && loose[k := Block(loose[k].size, true)] == Spliced(bs, k, mid)
  {
    var loose := Spliced(bs, k, mid[0 := Block(mid[0].size, false)]);
    PrefixOff(bs, loose, k, k);
  }

  /** A block that swallows nothing more is settled. */
  lemma CoalesceStep(bs: seq<Block>, k: nat)
    requires k < |bs| && (k + 1 == |bs| || bs[k].used || bs[k + 1].used)
    ensures bs[..k] + Coalesced(bs[k..]) == bs[..k + 1] + Coalesced(bs[k + 1..])
  {
    assert bs[k..][1..] == bs[k + 1..];
    assert bs[..k] + [bs[k]] == bs[..k + 1];
    assert Coalesced(bs[k..]) == [bs[k]] + Coalesced(bs[k + 1..]);
  }

  lemma CoalesceEnd(bs: seq<Block>)
    ensures bs[..|bs|] + Coalesced(bs[|bs|..]) == bs
  {
  }

  lemma MergeStep(bs: seq<Block>, few: seq<Block>, k: nat)
    requires k + 1 < |bs| && !bs[k].used && !bs[k + 1].used
    requires few == bs[..k] + [Block(bs[k].size + HEADER + bs[k + 1].size, false)] + bs[k + 2..]
    ensures Divides(few, bs, k, bs[k].size)
    ensures few[..k] == bs[..k] && Coalesced(few[k..]) == Coalesced(bs[k..])
  {
    assert few[k..] == [Block(bs[k..][0].size + HEADER + bs[k..][1].size, false)] + bs[k..][2..];
    assert few[k + 1..] == bs[k + 2..];
    assert bs == few[..k] + [bs[k], bs[k + 1]] + bs[k + 2..];
  }

  // ---------------------------------------------------------------- statistics

  function LargestFree(bs: seq<Block>): nat {
    if bs == [] then 0
    else Max(LargestFree(bs[..|bs| - 1]), if bs[|bs| - 1].used then 0 else bs[|bs| - 1].size)
  }

  function StatsOf(h: Heap, arena: nat): KmemStats
    requires arena >= HEADER
  {
    KmemStats(arena - HEADER, FreeBytes(h.blocks), LargestFree(h.blocks), |h.blocks|,
              |h.blocks| - UsedCount(h.blocks), UsedCount(h.blocks), h.(blocks := []))
  }

  lemma StatsStep(bs: seq<Block>, k: nat)
    requires k < |bs|
    ensures FreeBytes(bs[..k + 1]) == FreeBytes(bs[..k]) + if bs[k].used then 0 else bs[k].size
    ensures UsedCount(bs[..k + 1]) == UsedCount(bs[..k]) + if bs[k].used then 1 else 0
    ensures LargestFree(bs[..k + 1]) == Max(LargestFree(bs[..k]), if bs[k].used then 0 else bs[k].size)
  {
    assert bs[..k + 1] == bs[..k] + [bs[k]] && bs[..k + 1][..k] == bs[..k];
    SumsAppend(bs[..k], [bs[k]]);
    OneBlock(bs[k], 0);
    assert [bs[k]][1..] == [];
    assert FreeBytes([bs[k]]) == if bs[k].used then 0 else bs[k].size;
  }

  lemma {:induction false} LargestFreeFits(bs: seq<Block>, size: nat)
    requires 0 < size
    ensures size <= LargestFree(bs) <==> exists i :: 0 <= i < |bs| && Fits(bs[i], size)
  {
    if bs != [] {
      var init, last := bs[..|bs| - 1], bs[|bs| - 1];
      LargestFreeFits(init, size);
      if size <= LargestFree(init) {
        var i :| 0 <= i < |init| && Fits(init[i], size);
        assert Fits(bs[i], size);
      }
      if exists i :: 0 <= i < |bs| && Fits(bs[i], size) {
        var i :| 0 <= i < |bs| && Fits(bs[i], size);
        if i < |init| { assert Fits(init[i], size); }
      }
    }
  }

  /** The snapshot predicts the allocator: a request that does not wrap is granted exactly when its
      rounded size is at most the largest free block. The byte figures account for the arena. */
  lemma SnapshotPredictsAllocation(h: Heap, arena: nat, request: nat)
    requires Books(h, arena) && HEADER <= arena < NULL && 0 < request <= UINT32 - ALIGNMENT
    ensures var stats := StatsOf(h, arena);
      && (Allocated(h.blocks, request).1 != NULL <==> AlignUp(request) <= stats.largestFreeBlock)
      && stats.freeBytes + h.bytesInUse + HEADER * stats.blockCount == arena
      && stats.usedBlockCount == h.live
  {
    AlignUpCovers(request);
    AllocationAddsOnePayload(h.blocks, arena, request);
    LargestFreeFits(h.blocks, AlignUp(request));
    BytesAddUp(h.blocks);
  }
}
