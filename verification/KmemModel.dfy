/** The kernel allocator as a list of blocks that tile the arena (kernel/kmem.c). */
module KmemModel {
  const UINT32: nat := 0x1_0000_0000
  /** sizeof(struct kmem_block) on the 32-bit target. */
  const HEADER: nat := 12
  const ALIGNMENT: nat := 8
  /** The null pointer. */
  const NULL: nat := 0xFFFF_FFFF

  datatype Block = Block(size: nat, used: bool)
  datatype Payload = Payload(start: nat, size: nat)

  /** Bytes taken by the blocks, headers included. */
  function Span(bs: seq<Block>): nat {
    if bs == [] then 0 else HEADER + bs[0].size + Span(bs[1..])
  }

  /** Where block `i` begins. */
  function Off(bs: seq<Block>, i: nat): nat
    requires i <= |bs|
  {
    Span(bs[..i])
  }

  /** The payloads of the used blocks, when the first block begins at `at`. */
  ghost function LiveFrom(bs: seq<Block>, at: nat): set<Payload> {
    if bs == [] then {}
    else (if bs[0].used then {Payload(at + HEADER, bs[0].size)} else {}) + LiveFrom(bs[1..], at + HEADER + bs[0].size)
  }

  ghost function Live(bs: seq<Block>): set<Payload> {
    LiveFrom(bs, 0)
  }

  function UsedBytes(bs: seq<Block>): nat {
    if bs == [] then 0 else (if bs[0].used then bs[0].size else 0) + UsedBytes(bs[1..])
  }

  function FreeBytes(bs: seq<Block>): nat {
    if bs == [] then 0 else (if bs[0].used then 0 else bs[0].size) + FreeBytes(bs[1..])
  }

  function UsedCount(bs: seq<Block>): (n: nat)
    ensures n <= |bs|
  {
    if bs == [] then 0 else (if bs[0].used then 1 else 0) + UsedCount(bs[1..])
  }

  predicate NoFreePair(bs: seq<Block>) {
    forall i :: 0 <= i < |bs| - 1 ==> bs[i].used || bs[i + 1].used
  }

  ghost predicate Tiles(bs: seq<Block>, arena: nat) {
    Span(bs) == arena && NoFreePair(bs)
  }

  // ---------------------------------------------------------------- measures over a split list

  lemma {:induction false} SpanAppend(a: seq<Block>, b: seq<Block>)
    ensures Span(a + b) == Span(a) + Span(b)
  {
    if a == [] {
      assert a + b == b;
    } else {
      assert (a + b)[1..] == a[1..] + b;
      SpanAppend(a[1..], b);
    }
  }

  lemma {:induction false} SumsAppend(a: seq<Block>, b: seq<Block>)
    ensures UsedBytes(a + b) == UsedBytes(a) + UsedBytes(b)
    ensures FreeBytes(a + b) == FreeBytes(a) + FreeBytes(b)
    ensures UsedCount(a + b) == UsedCount(a) + UsedCount(b)
  {
    if a == [] {
      assert a + b == b;
    } else {
      assert (a + b)[1..] == a[1..] + b;
      SumsAppend(a[1..], b);
    }
  }

  lemma {:induction false} LiveAppend(a: seq<Block>, b: seq<Block>, at: nat)
    ensures LiveFrom(a + b, at) == LiveFrom(a, at) + LiveFrom(b, at + Span(a))
  {
    if a == [] {
      assert a + b == b;
    } else {
      assert (a + b)[1..] == a[1..] + b;
      LiveAppend(a[1..], b, at + HEADER + a[0].size);
    }
  }

  lemma OneBlock(b: Block, at: nat)
    ensures Span([b]) == HEADER + b.size
    ensures LiveFrom([b], at) == if b.used then {Payload(at + HEADER, b.size)} else {}
    ensures UsedBytes([b]) == (if b.used then b.size else 0) && UsedCount([b]) == if b.used then 1 else 0
  {
    assert [b][1..] == [];
  }

  lemma OffStep(bs: seq<Block>, i: nat)
    requires i < |bs|
    ensures Off(bs, i + 1) == Off(bs, i) + HEADER + bs[i].size
    ensures Off(bs, i + 1) <= Span(bs)
  {
    assert bs[..i + 1] == bs[..i] + [bs[i]];
    SpanAppend(bs[..i], [bs[i]]);
    assert bs == bs[..i + 1] + bs[i + 1..];
    SpanAppend(bs[..i + 1], bs[i + 1..]);
  }

  lemma {:induction false} OffMonotone(bs: seq<Block>, i: nat, j: nat)
    requires i < j <= |bs|
    ensures Off(bs, i) + HEADER + bs[i].size <= Off(bs, j)
    decreases j
  {
    OffStep(bs, j - 1);
    if i < j - 1 { OffMonotone(bs, i, j - 1); }
  }

  /** Every byte of the arena is in a header, a used block or a free block. */
  lemma {:induction false} BytesAddUp(bs: seq<Block>)
    ensures UsedBytes(bs) + FreeBytes(bs) + HEADER * |bs| == Span(bs)
  {
    if bs != [] { BytesAddUp(bs[1..]); }
  }

  lemma {:induction false} LiveIsInside(bs: seq<Block>, at: nat, p: Payload)
    requires p in LiveFrom(bs, at)
    ensures at + HEADER <= p.start && p.start + p.size <= at + Span(bs)
  {
    if p in LiveFrom(bs[1..], at + HEADER + bs[0].size) {
      LiveIsInside(bs[1..], at + HEADER + bs[0].size, p);
    }
  }

  /** Live payloads do not overlap, not even with one another's headers. */
  lemma {:induction false} LivePayloadsAreDisjoint(bs: seq<Block>, at: nat, p: Payload, q: Payload)
    requires p in LiveFrom(bs, at) && q in LiveFrom(bs, at) && p != q
    ensures p.start + p.size + HEADER <= q.start || q.start + q.size + HEADER <= p.start
  {
    var rest, next := bs[1..], at + HEADER + bs[0].size;
    if p in LiveFrom(rest, next) { LiveIsInside(rest, next, p); }
    if q in LiveFrom(rest, next) { LiveIsInside(rest, next, q); }
    if p in LiveFrom(rest, next) && q in LiveFrom(rest, next) {
      LivePayloadsAreDisjoint(rest, next, p, q);
    }
  }

  lemma {:induction false} LiveIsCounted(bs: seq<Block>, at: nat)
    ensures |LiveFrom(bs, at)| == UsedCount(bs)
  {
    if bs != [] {
      var next := at + HEADER + bs[0].size;
      LiveIsCounted(bs[1..], next);
      if Payload(at + HEADER, bs[0].size) in LiveFrom(bs[1..], next) {
        LiveIsInside(bs[1..], next, Payload(at + HEADER, bs[0].size));
      }
    }
  }

  // ---------------------------------------------------------------- allocation

  /** kmem_align_up, in 32-bit arithmetic. */
  function AlignUp(size: nat): nat {
    (size + (ALIGNMENT - 1)) % UINT32 / ALIGNMENT * ALIGNMENT
  }

  /** The rounded size covers the request exactly when the sum does not wrap. */
  lemma AlignUpCovers(size: nat)
    requires size < UINT32
    ensures AlignUp(size) >= size <==> size <= UINT32 - ALIGNMENT
    ensures AlignUp(size) % ALIGNMENT == 0 && AlignUp(size) < UINT32
    ensures size <= UINT32 - ALIGNMENT ==> AlignUp(size) < size + ALIGNMENT
  {
  }

  predicate Fits(b: Block, size: nat) { !b.used && b.size >= size }

  /** The first block from `from` on that fits, or the number of blocks. */
  function FirstFit(bs: seq<Block>, size: nat, from: nat): (k: nat)
    requires from <= |bs|
    ensures from <= k <= |bs|
    ensures forall i :: from <= i < k ==> !Fits(bs[i], size)
    ensures k < |bs| ==> Fits(bs[k], size)
    decreases |bs| - from
  {
    if from == |bs| || Fits(bs[from], size) then from else FirstFit(bs, size, from + 1)
  }

  /** What takes the place of a free block of `total` bytes when `size` of them are wanted. */
  function Carved(total: nat, size: nat): seq<Block>
    requires size <= total
  {
    if total - size <= HEADER + ALIGNMENT then [Block(total, true)]
    else [Block(size, true), Block(total - size - HEADER, false)]
  }

  function Spliced(bs: seq<Block>, k: nat, mid: seq<Block>): seq<Block>
    requires k < |bs|
  {
    bs[..k] + mid + bs[k + 1..]
  }

  /** kmem_alloc: the new blocks and the address of the payload, or NULL. */
  function Allocated(bs: seq<Block>, request: nat): (seq<Block>, nat) {
    var size := AlignUp(request);
    var k := FirstFit(bs, size, 0);
    if request == 0 || k == |bs| then (bs, NULL)
    else (Spliced(bs, k, Carved(bs[k].size, size)), Off(bs, k) + HEADER)
  }

  lemma SplitAround(bs: seq<Block>, k: nat, mid: seq<Block>)
    requires k < |bs|
    ensures Span(Spliced(bs, k, mid)) == Off(bs, k) + Span(mid) + Span(bs[k + 1..])
    ensures UsedBytes(Spliced(bs, k, mid)) == UsedBytes(bs[..k]) + UsedBytes(mid) + UsedBytes(bs[k + 1..])
    ensures UsedCount(Spliced(bs, k, mid)) == UsedCount(bs[..k]) + UsedCount(mid) + UsedCount(bs[k + 1..])
    ensures Live(Spliced(bs, k, mid)) ==
            LiveFrom(bs[..k], 0) + LiveFrom(mid, Off(bs, k)) + LiveFrom(bs[k + 1..], Off(bs, k) + Span(mid))
  {
    SpanAppend(bs[..k] + mid, bs[k + 1..]);
    SpanAppend(bs[..k], mid);
    SumsAppend(bs[..k] + mid, bs[k + 1..]);
    SumsAppend(bs[..k], mid);
    LiveAppend(bs[..k] + mid, bs[k + 1..], 0);
    LiveAppend(bs[..k], mid, 0);
  }

  lemma CarvedMeasures(total: nat, size: nat, at: nat)
    requires size <= total
    ensures var mid := Carved(total, size);
      && Span(mid) == HEADER + total && UsedCount(mid) == 1 && UsedBytes(mid) == mid[0].size
      && LiveFrom(mid, at) == {Payload(at + HEADER, mid[0].size)} && size <= mid[0].size
  {
    var mid := Carved(total, size);
    if |mid| == 2 {
      assert mid[1..] == [mid[1]];
      OneBlock(mid[1], at + HEADER + mid[0].size);
    } else {
      OneBlock(mid[0], at);
    }
  }

  lemma SpliceKeepsPairs(bs: seq<Block>, k: nat, mid: seq<Block>)
    requires NoFreePair(bs) && k < |bs| && !bs[k].used && mid != [] && mid[0].used && NoFreePair(mid)
    ensures NoFreePair(Spliced(bs, k, mid))
  {
    var bs', m := Spliced(bs, k, mid), |mid|;
    forall i | 0 <= i < |bs'| - 1 ensures bs'[i].used || bs'[i + 1].used {
      if i + 1 < k {
        assert bs'[i] == bs[i] && bs'[i + 1] == bs[i + 1];
      } else if i + 1 == k {
        assert bs'[i + 1] == mid[0];
      } else if i + 1 < k + m {
        assert bs'[i] == mid[i - k] && bs'[i + 1] == mid[i - k + 1];
      } else if i + 1 == k + m {
        assert bs'[i + 1] == bs[k + 1] && (bs[k].used || bs[k + 1].used);
      } else {
        var j := i - m + 1;
        assert bs'[i] == bs[j] && bs'[i + 1] == bs[j + 1] && (bs[j].used || bs[j + 1].used);
      }
    }
  }

  /** A request is refused exactly when it is empty or no free block is big enough; a refused request
      changes nothing. One that is met adds one payload of at least the rounded size and neither
      moves nor shrinks any other. */
  lemma AllocationAddsOnePayload(bs: seq<Block>, arena: nat, request: nat)
    requires Tiles(bs, arena) && arena < NULL
    ensures var (bs', p) := Allocated(bs, request);
      && Tiles(bs', arena)
      && (p == NULL <==> request == 0 || forall i :: 0 <= i < |bs| ==> !Fits(bs[i], AlignUp(request)))
      && (p == NULL ==> bs' == bs)
      && (p != NULL ==> exists n: nat :: n >= AlignUp(request) && AddsPayload(bs, bs', Payload(p, n)))
  {
    hide AlignUp;
    var size := AlignUp(request);
    var k := FirstFit(bs, size, 0);
    if request != 0 && k < |bs| {
      OffStep(bs, k);
      var mid := Carved(bs[k].size, size);
      var bs' := Spliced(bs, k, mid);
      CarvedMeasures(bs[k].size, size, Off(bs, k));
      SpliceKeepsPairs(bs, k, mid);
      CarvedAdds(bs, k, size);
      assert Span(bs') == Span(bs) by {
        SplitAround(bs, k, mid);
        FreeMeasures(bs, k);
      }
      assert AddsPayload(bs, bs', Payload(Off(bs, k) + HEADER, mid[0].size));
    }
  }

  /** A payload that was granted covers the request unless the rounding wrapped, and never then. */
  lemma GrantedPayloadCovers(bs: seq<Block>, arena: nat, request: nat)
    requires Tiles(bs, arena) && arena <= UINT32 - ALIGNMENT && request < UINT32 && Allocated(bs, request).1 != NULL
    ensures exists n: nat :: && AddsPayload(bs, Allocated(bs, request).0, Payload(Allocated(bs, request).1, n))
                             && (n >= request <==> request <= UINT32 - ALIGNMENT)
  {
    hide AddsPayload, NoFreePair;
    AllocationAddsOnePayload(bs, arena, request);
    var (bs', p) := Allocated(bs, request);
    var n: nat :| n >= AlignUp(request) && AddsPayload(bs, bs', Payload(p, n));
    assert p + n <= arena by {
      PayloadIsListed(bs, bs', Payload(p, n));
      LiveIsInside(bs', 0, Payload(p, n));
    }
    AlignUpCovers(request);
  }

  lemma PayloadIsListed(bs: seq<Block>, bs': seq<Block>, p: Payload)
    requires AddsPayload(bs, bs', p)
    ensures p in LiveFrom(bs', 0)
  {
  }

  /** A request whose rounding wraps is granted a payload of no bytes from an empty arena. */
  lemma WrappedRequestIsGrantedNothing(arena: nat)
    requires 2 * HEADER + ALIGNMENT < arena < NULL
    ensures Allocated([Block(arena - HEADER, false)], UINT32 - 1)
            == ([Block(0, true), Block(arena - 2 * HEADER, false)], HEADER)
  {
    var bs := [Block(arena - HEADER, false)];
    assert AlignUp(UINT32 - 1) == 0 && FirstFit(bs, 0, 0) == 0 && Off(bs, 0) == 0;
    var mid := Carved(bs[0].size, 0);
    assert mid == [Block(0, true), Block(arena - 2 * HEADER, false)];
    assert Spliced(bs, 0, mid) == mid;
  }

  /** `p` is one payload more, and the byte and payload counts follow. */
  ghost predicate AddsPayload(bs: seq<Block>, bs': seq<Block>, p: Payload) {
    && p !in Live(bs) && Live(bs') == Live(bs) + {p}
    && UsedBytes(bs') == UsedBytes(bs) + p.size && UsedCount(bs') == UsedCount(bs) + 1
  }

  lemma FreeMeasures(bs: seq<Block>, k: nat)
    requires k < |bs| && !bs[k].used
    ensures Span(bs) == Off(bs, k) + HEADER + bs[k].size + Span(bs[k + 1..])
    ensures UsedBytes(bs) == UsedBytes(bs[..k]) + UsedBytes(bs[k + 1..])
    ensures UsedCount(bs) == UsedCount(bs[..k]) + UsedCount(bs[k + 1..])
    ensures Live(bs) == LiveFrom(bs[..k], 0) + LiveFrom(bs[k + 1..], Off(bs, k) + HEADER + bs[k].size)
  {
    hide Spliced, Span, LiveFrom, UsedBytes, UsedCount;
    SplicedSelf(bs, k);
    SplitAround(bs, k, [bs[k]]);
    OneBlock(bs[k], Off(bs, k));
  }

  lemma CarvedAdds(bs: seq<Block>, k: nat, size: nat)
    requires k < |bs| && Fits(bs[k], size)
    ensures var mid := Carved(bs[k].size, size);
      AddsPayload(bs, Spliced(bs, k, mid), Payload(Off(bs, k) + HEADER, mid[0].size))
  {
    var mid := Carved(bs[k].size, size);
    var p := Payload(Off(bs, k) + HEADER, mid[0].size);
    CarvedMeasures(bs[k].size, size, Off(bs, k));
    SplitAround(bs, k, mid);
    FreeMeasures(bs, k);
    if p in LiveFrom(bs[..k], 0) { LiveIsInside(bs[..k], 0, p); }
    if p in LiveFrom(bs[k + 1..], Off(bs, k) + HEADER + bs[k].size) {
      LiveIsInside(bs[k + 1..], Off(bs, k) + HEADER + bs[k].size, p);
    }
  }

  // ---------------------------------------------------------------- freeing

  /** kmem_coalesce: each free block swallows the free blocks that follow it. */
  function Coalesced(bs: seq<Block>): seq<Block>
    decreases |bs|
  {
    if |bs| < 2 then bs
    else if !bs[0].used && !bs[1].used then
      Coalesced([Block(bs[0].size + HEADER + bs[1].size, false)] + bs[2..])
    else [bs[0]] + Coalesced(bs[1..])
  }

  /** Merging leaves no two free neighbours and touches neither the payloads nor the span. */
  lemma {:induction false} CoalescingKeepsPayloads(bs: seq<Block>, at: nat)
    ensures var bs' := Coalesced(bs);
      && Span(bs') == Span(bs) && LiveFrom(bs', at) == LiveFrom(bs, at)
      && UsedBytes(bs') == UsedBytes(bs) && UsedCount(bs') == UsedCount(bs)
      && NoFreePair(bs') && |bs'| <= |bs| && (bs != [] ==> bs' != [] && bs'[0].used == bs[0].used)
    decreases |bs|
  {
    if |bs| >= 2 {
      assert bs[1..][0] == bs[1] && bs[1..][1..] == bs[2..];
      if !bs[0].used && !bs[1].used {
        var merged := [Block(bs[0].size + HEADER + bs[1].size, false)] + bs[2..];
        assert merged[1..] == bs[2..];
        CoalescingKeepsPayloads(merged, at);
      } else {
        CoalescingKeepsPayloads(bs[1..], at + HEADER + bs[0].size);
        assert Coalesced(bs)[1..] == Coalesced(bs[1..]);
        PairsCons(bs[0], Coalesced(bs[1..]));
      }
    }
  }

  lemma PairsCons(b: Block, rest: seq<Block>)
    requires NoFreePair(rest) && (rest != [] ==> b.used || rest[0].used)
    ensures NoFreePair([b] + rest)
  {
    var bs := [b] + rest;
    forall i | 0 <= i < |bs| - 1 ensures bs[i].used || bs[i + 1].used {
      if i > 0 { assert bs[i] == rest[i - 1] && bs[i + 1] == rest[i]; }
    }
  }

  /** kmem_free of the payload of block `k`. */
  function Freed(bs: seq<Block>, k: nat): seq<Block>
    requires k < |bs|
  {
    if bs[k].used then Coalesced(Spliced(bs, k, [Block(bs[k].size, false)])) else bs
  }

  lemma LooseningRemoves(bs: seq<Block>, k: nat)
    requires k < |bs| && bs[k].used
    ensures var loose := Spliced(bs, k, [Block(bs[k].size, false)]);
      Span(loose) == Span(bs) && AddsPayload(loose, bs, Payload(Off(bs, k) + HEADER, bs[k].size))
  {
    hide Spliced, Span, LiveFrom, UsedBytes, UsedCount;
    var p, at := Payload(Off(bs, k) + HEADER, bs[k].size), Off(bs, k) + HEADER + bs[k].size;
    assert bs == Spliced(bs, k, [bs[k]]) by { SplicedSelf(bs, k); }
    SplitAround(bs, k, [bs[k]]);
    SplitAround(bs, k, [Block(bs[k].size, false)]);
    OneBlock(bs[k], Off(bs, k));
    OneBlock(Block(bs[k].size, false), Off(bs, k));
    if p in LiveFrom(bs[..k], 0) { LiveIsInside(bs[..k], 0, p); }
    if p in LiveFrom(bs[k + 1..], at) { LiveIsInside(bs[k + 1..], at, p); }
  }

  lemma SplicedSelf(bs: seq<Block>, k: nat)
    requires k < |bs|
    ensures Spliced(bs, k, [bs[k]]) == bs
  {
  }

  /** Freeing a live payload removes it and no other; freeing a free block does nothing. */
  lemma FreeingRemovesOnePayload(bs: seq<Block>, arena: nat, k: nat)
    requires Tiles(bs, arena) && k < |bs|
    ensures Tiles(Freed(bs, k), arena)
    ensures bs[k].used ==> AddsPayload(Freed(bs, k), bs, Payload(Off(bs, k) + HEADER, bs[k].size))
    ensures !bs[k].used ==> Freed(bs, k) == bs
  {
    hide Spliced, NoFreePair, LiveFrom, UsedBytes, UsedCount, Span, Coalesced;
    if bs[k].used {
      LooseningRemoves(bs, k);
      CoalescingKeepsPayloads(Spliced(bs, k, [Block(bs[k].size, false)]), 0);
    }
  }

  /** An arena with nothing live is one free block again. */
  lemma EmptyArenaIsWhole(bs: seq<Block>, arena: nat)
    requires Tiles(bs, arena) && 0 < arena && Live(bs) == {}
    ensures arena >= HEADER && bs == [Block(arena - HEADER, false)]
  {
    AllFree(bs, 0);
    assert !bs[0].used && |bs| < 2;
    assert bs == [bs[0]];
    OneBlock(bs[0], 0);
  }

  lemma {:induction false} AllFree(bs: seq<Block>, at: nat)
    requires LiveFrom(bs, at) == {}
    ensures forall i :: 0 <= i < |bs| ==> !bs[i].used
  {
    if bs != [] {
      assert Payload(at + HEADER, bs[0].size) !in LiveFrom(bs, at);
      AllFree(bs[1..], at + HEADER + bs[0].size);
      forall i | 0 <= i < |bs| ensures !bs[i].used {
        if i > 0 { assert bs[i] == bs[1..][i - 1]; }
      }
    }
  }

  // ---------------------------------------------------------------- runs and their statistics

  /** The blocks and the statistics that kmem.c keeps beside them. */
  datatype Heap = Heap(blocks: seq<Block>, bytesInUse: nat, peakBytesInUse: nat, allocationCount: nat,
                       freeCount: nat, failCount: nat, live: nat, peakLive: nat)

  datatype HeapOp = Alloc(request: nat) | Free(index: nat)

  function Fresh(arena: nat): Heap
    requires arena >= HEADER
  {
    Heap([Block(arena - HEADER, false)], 0, 0, 0, 0, 0, 0, 0)
  }

  function Max(a: nat, b: nat): nat { if a > b then a else b }

  function AfterAlloc(h: Heap, request: nat): Heap {
    var size := AlignUp(request);
    var k := FirstFit(h.blocks, size, 0);
    if request == 0 || k == |h.blocks| then h.(failCount := (h.failCount + 1) % UINT32)
    else
      var bytes := (h.bytesInUse + Carved(h.blocks[k].size, size)[0].size) % UINT32;
      var live := (h.live + 1) % UINT32;
      h.(blocks := Allocated(h.blocks, request).0, bytesInUse := bytes, peakBytesInUse := Max(h.peakBytesInUse, bytes),
         allocationCount := (h.allocationCount + 1) % UINT32, live := live, peakLive := Max(h.peakLive, live))
  }

  function AfterFree(h: Heap, k: nat): Heap
    requires k < |h.blocks|
  {
    if !h.blocks[k].used then h
    else
      h.(blocks := Freed(h.blocks, k),
         bytesInUse := if h.bytesInUse >= h.blocks[k].size then h.bytesInUse - h.blocks[k].size else 0,
         live := if h.live != 0 then h.live - 1 else 0,
         freeCount := (h.freeCount + 1) % UINT32)
  }

  /** kmem_free of a pointer into a payload whose bytes there read as the header of a used block. */
  function AfterStray(h: Heap, size: nat): Heap {
    h.(blocks := Coalesced(h.blocks),
       bytesInUse := if h.bytesInUse >= size then h.bytesInUse - size else 0,
       live := if h.live != 0 then h.live - 1 else 0,
       freeCount := (h.freeCount + 1) % UINT32)
  }

  /** A caller may allocate anything and free the payload of any block of the list. */
  function StepOf(h: Heap, op: HeapOp): Heap {
    match op
    case Alloc(request) => AfterAlloc(h, request)
    case Free(k) => if k < |h.blocks| then AfterFree(h, k) else h
  }

  function RunOf(h: Heap, ops: seq<HeapOp>): Heap
    decreases |ops|
  {
    if ops == [] then h else StepOf(RunOf(h, ops[..|ops| - 1]), ops[|ops| - 1])
  }

  /** The statistics tell the truth about the blocks. */
  ghost predicate Books(h: Heap, arena: nat) {
    && Tiles(h.blocks, arena)
    && h.bytesInUse == UsedBytes(h.blocks) && h.live == UsedCount(h.blocks) == |Live(h.blocks)|
    && h.bytesInUse <= h.peakBytesInUse <= arena && h.live <= h.peakLive <= arena
    && h.allocationCount == (h.freeCount + h.live) % UINT32
  }

  lemma CountsFit(bs: seq<Block>)
    ensures UsedBytes(bs) <= Span(bs) && UsedCount(bs) <= Span(bs)
  {
    BytesAddUp(bs);
  }

  lemma TilesSpan(bs: seq<Block>, arena: nat)
    requires Tiles(bs, arena)
    ensures Span(bs) == arena
  {
  }

  lemma AllocKeepsBooks(h: Heap, arena: nat, request: nat)
    requires Books(h, arena) && arena < NULL
    ensures Books(AfterAlloc(h, request), arena)
  {
    hide AlignUp, Spliced, Carved, Tiles, UsedBytes, UsedCount, LiveFrom, FirstFit;
    var size := AlignUp(request);
    var k := FirstFit(h.blocks, size, 0);
    if request != 0 && k < |h.blocks| {
      AllocationAddsOnePayload(h.blocks, arena, request);
      CarvedAdds(h.blocks, k, size);
      CountsFit(AfterAlloc(h, request).blocks);
      TilesSpan(AfterAlloc(h, request).blocks, arena);
      LiveIsCounted(AfterAlloc(h, request).blocks, 0);
    }
  }

  lemma FreeKeepsBooks(h: Heap, arena: nat, k: nat)
    requires Books(h, arena) && k < |h.blocks| && arena < NULL
    ensures Books(AfterFree(h, k), arena)
  {
    hide Tiles, UsedBytes, UsedCount, LiveFrom, Freed, Span;
    if h.blocks[k].used {
      FreeingRemovesOnePayload(h.blocks, arena, k);
      LiveIsCounted(Freed(h.blocks, k), 0);
      assert (h.freeCount + h.live) % UINT32 == ((h.freeCount + 1) % UINT32 + (h.live - 1)) % UINT32;
    }
  }

  lemma FreshBooks(arena: nat)
    requires HEADER <= arena
    ensures Books(Fresh(arena), arena)
  {
    OneBlock(Block(arena - HEADER, false), 0);
  }

  /** Whatever is allocated and freed, the blocks tile the arena with no two free neighbours, the
      statistics match them, neither clamp in kmem_free is ever reached, and an arena whose
      allocations have all been freed is one free block. */
  lemma {:induction false} EveryRunKeepsBooks(arena: nat, ops: seq<HeapOp>)
    requires HEADER <= arena < NULL
    ensures var h := RunOf(Fresh(arena), ops);
      && Books(h, arena)
      && (forall k :: 0 <= k < |h.blocks| && h.blocks[k].used ==> h.bytesInUse >= h.blocks[k].size && h.live != 0)
      && (h.live == 0 ==> h.blocks == Fresh(arena).blocks)
    decreases |ops|
  {
    var h := RunOf(Fresh(arena), ops);
    if ops == [] {
      FreshBooks(arena);
    } else {
      EveryRunKeepsBooks(arena, ops[..|ops| - 1]);
      var before, op := RunOf(Fresh(arena), ops[..|ops| - 1]), ops[|ops| - 1];
      match op {
        case Alloc(request) => AllocKeepsBooks(before, arena, request);
        case Free(k) => if k < |before.blocks| { FreeKeepsBooks(before, arena, k); }
      }
    }
    forall k | 0 <= k < |h.blocks| && h.blocks[k].used ensures h.bytesInUse >= h.blocks[k].size && h.live != 0 {
      UsedIsCounted(h.blocks, k);
    }
    assert Books(h, arena);
    if h.live == 0 {
      assert |Live(h.blocks)| == 0;
      EmptyArenaIsWhole(h.blocks, arena);
    }
  }

  lemma UsedIsCounted(bs: seq<Block>, k: nat)
    requires k < |bs| && bs[k].used
    ensures UsedBytes(bs) >= bs[k].size && UsedCount(bs) > 0
  {
    assert bs == Spliced(bs, k, [bs[k]]);
    SplitAround(bs, k, [bs[k]]);
  }

  // ---------------------------------------------------------------- stray frees

  lemma {:induction false} SettledStays(bs: seq<Block>)
    requires NoFreePair(bs)
    ensures Coalesced(bs) == bs
  {
    if bs != [] {
      assert forall i :: 0 <= i < |bs[1..]| ==> bs[1..][i] == bs[i + 1];
      SettledStays(bs[1..]);
    }
  }

  /** A stray free returns no block, and always makes the statistics wrong. */
  lemma StrayFreeBreaksBooks(h: Heap, arena: nat, size: nat)
    requires Books(h, arena)
    ensures AfterStray(h, size).blocks == h.blocks && !Books(AfterStray(h, size), arena)
  {
    SettledStays(h.blocks);
  }
}
