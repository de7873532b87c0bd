/**
 * The block list of hmalloc.c as values: the `mbheader` record, the heap
 * (heap_start, the program break and the headers stored in the heap) and
 * what it means for that heap to be well formed. The operations of
 * hmalloc() and hfree() are specified here as functions on heap values;
 * the class in hmalloc.dfy runs the source's loops and is proved to agree
 * with them.
 *
 * Addresses are naturals. NULL is `None`. A header "exists" while its
 * address is a key of `hdrs`, which holds exactly the headers between
 * heap_start and the break.
 */
module Blocks {
  import opened Align

  datatype Option<+T> = None | Some(value: T)

  /** struct mbheader: payload_sz, free, hdr_prev, hdr_next. */
  datatype Header = Header(payload: nat, free: bool, prev: Option<nat>, next: Option<nat>)

  /**
   * The allocator's state: heap_start, the program break, the headers in
   * the heap by address, and `blocks`, the addresses of those headers in
   * list order (a view used by the specification only).
   */
  datatype Heap = Heap(start: Option<nat>, brk: nat, hdrs: map<nat, Header>, blocks: seq<nat>)

  function Last(s: seq<nat>): nat
    requires s != []
  {
    s[|s| - 1]
  }

  /** First address after the block whose header is at `a`. */
  function End(g: Geometry, hdrs: map<nat, Header>, a: nat): nat
    requires g.Valid() && a in hdrs
  {
    a + g.hdr + hdrs[a].payload
  }

  /** The headers in memory are exactly the listed ones. */
  ghost predicate Listed(h: Heap)
  {
    (forall i :: 0 <= i < |h.blocks| ==> h.blocks[i] in h.hdrs) &&
    (forall a :: a in h.hdrs ==> a in h.blocks)
  }

  /**
   * The blocks tile [st, brk): the first starts at heap_start, each ends
   * where the next begins, and the last ends at the break.
   */
  ghost predicate Tiled(g: Geometry, st: nat, h: Heap)
    requires g.Valid() && Listed(h)
  {
    (if h.blocks == [] then h.brk == st
     else h.blocks[0] == st && End(g, h.hdrs, Last(h.blocks)) == h.brk) &&
    (forall i {:trigger End(g, h.hdrs, h.blocks[i])} :: 0 <= i < |h.blocks| - 1 ==> End(g, h.hdrs, h.blocks[i]) == h.blocks[i + 1])
  }

  /** hdr_prev and hdr_next follow list order; the first prev and the last next are NULL. */
  ghost predicate Linked(h: Heap)
    requires Listed(h)
  {
    (forall i {:trigger PrevOf(h.blocks, i)} :: 0 <= i < |h.blocks| ==> h.hdrs[h.blocks[i]].prev == PrevOf(h.blocks, i)) &&
    (forall i {:trigger NextOf(h.blocks, i)} :: 0 <= i < |h.blocks| ==> h.hdrs[h.blocks[i]].next == NextOf(h.blocks, i))
  }

  /** The address before position i in list order, NULL for the first. */
  function PrevOf(blocks: seq<nat>, i: nat): Option<nat>
    requires i < |blocks|
  {
    if i == 0 then None else Some(blocks[i - 1])
  }

  /** The address after position i in list order, NULL for the last. */
  function NextOf(blocks: seq<nat>, i: nat): Option<nat>
    requires i < |blocks|
  {
    if i == |blocks| - 1 then None else Some(blocks[i + 1])
  }

  /** Every payload size is a multiple of alignof(max_align_t). */
  ghost predicate Aligned(g: Geometry, h: Heap)
    requires g.Valid() && Listed(h)
  {
    forall i :: 0 <= i < |h.blocks| ==> h.hdrs[h.blocks[i]].payload % g.unit == 0
  }

  /**
   * The invariant hmalloc() and hfree() keep. Before the first call (and
   * after full reclamation) heap_start is NULL and there are no headers.
   */
  ghost predicate WellFormed(g: Geometry, h: Heap)
  {
    g.Valid() && Listed(h) &&
    match h.start
    case None => h.blocks == []
    case Some(st) => Tiled(g, st, h) && Linked(h) && Aligned(g, h)
  }

  // ---------------------------------------------------------------- hmalloc

  /** The scan's test: a free block whose payload can hold `need` bytes. */
  predicate Fits(hd: Header, need: nat)
  {
    hd.free && hd.payload >= need
  }

  /** Index of the first block, in list order, that fits; |blocks| if none does. */
  ghost function FirstFit(hdrs: map<nat, Header>, blocks: seq<nat>, need: nat): (k: nat)
    requires forall i :: 0 <= i < |blocks| ==> blocks[i] in hdrs
    ensures k <= |blocks|
    ensures k < |blocks| ==> Fits(hdrs[blocks[k]], need)
    ensures forall j :: 0 <= j < k ==> !Fits(hdrs[blocks[j]], need)
    decreases |blocks|
  {
    if blocks == [] then 0
    else if Fits(hdrs[blocks[0]], need) then 0
    else 1 + FirstFit(hdrs, blocks[1..], need)
  }

  /** Whether taking `need` bytes from the block leaves room for a header and one unit. */
  predicate Splits(g: Geometry, hd: Header, need: nat)
    requires g.Valid()
  {
    hd.payload - need >= g.minBlock
  }

  /**
   * The header writes of hmalloc() when it reuses the free block at `a`:
   * mark it occupied and, when the remainder is large enough, split it,
   * linking a new free header at a + AL_HDR_SZ + need between it and its
   * old successor.
   */
  function Occupy(g: Geometry, hdrs: map<nat, Header>, a: nat, need: nat): map<nat, Header>
    requires g.Valid() && a in hdrs && hdrs[a].payload >= need
  {
    var hd := hdrs[a];
    var taken := hdrs[a := hd.(free := false)];
    if Splits(g, hd, need) then
      var n := a + g.hdr + need;
      var trimmed := taken[a := taken[a].(payload := need, next := Some(n))];
      var withNew := trimmed[n := Header(hd.payload - need - g.hdr, true, Some(a), hd.next)];
      match hd.next
      case Some(m) =>
        if m in withNew then withNew[m := withNew[m].(prev := Some(n))] else withNew
      case None => withNew
    else
      taken
  }

  /** The heap after hmalloc() reuses block number k. */
  ghost function Reuse(g: Geometry, h: Heap, k: nat, need: nat): Heap
    requires g.Valid() && Listed(h) && k < |h.blocks| && h.hdrs[h.blocks[k]].payload >= need
  {
    var a := h.blocks[k];
    h.(hdrs := Occupy(g, h.hdrs, a, need),
       blocks := if Splits(g, h.hdrs[a], need)
                 then h.blocks[..k + 1] + [a + g.hdr + need] + h.blocks[k + 1..]
                 else h.blocks)
  }

  /**
   * The heap after hmalloc()'s call sbrk(inc) succeeds: an occupied block of
   * `need` bytes is placed at the old break, linked after the old last
   * block, and the break moves by `inc`.
   */
  ghost function Append(g: Geometry, h: Heap, need: nat, inc: int): Heap
    requires g.Valid() && Listed(h) && h.brk + inc >= 0
  {
    var a := h.brk;
    var hdrs' :=
      if h.blocks == [] then h.hdrs[a := Header(need, false, None, None)]
      else
        var l := Last(h.blocks);
        var placed := h.hdrs[a := Header(need, false, Some(l), None)];
        placed[l := placed[l].(next := Some(a))];
    Heap(h.start, h.brk + inc, hdrs', h.blocks + [a])
  }

  /** hmalloc()'s first step: capture the break as heap_start when it is NULL. */
  ghost function Capture(h: Heap): Heap
  {
    if h.start.Some? then h else h.(start := Some(h.brk))
  }

  /**
   * hmalloc(size) with need == ALIGN(size): the new heap and the returned
   * pointer (None for NULL). When no free block fits, the break is raised by
   * need + AL_HDR_SZ, which fails when it would pass `limit`.
   */
  ghost function Malloc(g: Geometry, limit: nat, h: Heap, need: nat): (Heap, Option<nat>)
    requires WellFormed(g, h)
  {
    var h0 := Capture(h);
    var k := FirstFit(h0.hdrs, h0.blocks, need);
    if k < |h0.blocks| then
      (Reuse(g, h0, k, need), Some(h0.blocks[k] + g.hdr))
    else if h0.brk + need + g.hdr <= limit then
      (Append(g, h0, need, need + g.hdr), Some(h0.brk + g.hdr))
    else
      (h0, None)
  }

  /**
   * The argument hmalloc() passes to sbrk(): need + AL_HDR_SZ computed as a
   * size_t (modulo 2^64) and cast to intptr_t (values from 2^63 up become
   * negative).
   */
  function SbrkIncrement(g: Geometry, need: nat): int
  {
    var s := (need + g.hdr) % SizeLimit;
    if s < Pow2(SizeWidth - 1) then s else s - SizeLimit
  }

  /**
   * hmalloc() as written: the growth step passes SbrkIncrement to sbrk(),
   * which succeeds whenever the new break lies in [0, limit], and then
   * records a block of `need` bytes at the old break whatever the increment was.
   */
  ghost function MallocAsWritten(g: Geometry, limit: nat, h: Heap, need: nat): (Heap, Option<nat>)
    requires WellFormed(g, h)
  {
    var h0 := Capture(h);
    var k := FirstFit(h0.hdrs, h0.blocks, need);
    var inc := SbrkIncrement(g, need);
    if k < |h0.blocks| then
      Malloc(g, limit, h, need)
    else if 0 <= h0.brk + inc <= limit then
      (Append(g, h0, need, inc), Some(h0.brk + g.hdr))
    else
      (h0, None)
  }

  // ------------------------------------------------------------------ hfree

  /**
   * Where hfree()'s backward walk from block i stops: the walk moves to the
   * previous block while there is one and it is free.
   */
  ghost function RunStart(hdrs: map<nat, Header>, blocks: seq<nat>, i: nat): (j: nat)
    requires i < |blocks| && forall m :: 0 <= m < |blocks| ==> blocks[m] in hdrs
    ensures j <= i
    ensures forall m :: j <= m < i ==> hdrs[blocks[m]].free
    ensures j == 0 || !hdrs[blocks[j - 1]].free
    decreases i
  {
    if i == 0 || !hdrs[blocks[i - 1]].free then i else RunStart(hdrs, blocks, i - 1)
  }

  /** The headers that remain in memory once the break is lowered to `bound`. */
  function Below(hdrs: map<nat, Header>, bound: nat): map<nat, Header>
  {
    map a | a in hdrs && a < bound :: hdrs[a]
  }

  /**
   * hfree() of the occupied tail block, exactly as the source does it: the
   * break drops to the start of the run of free blocks before the tail, and
   * heap_start becomes NULL when that run reaches the first block. The block
   * before the run keeps its hdr_next.
   */
  ghost function ReleaseTailAsWritten(g: Geometry, h: Heap): Heap
    requires g.Valid() && Listed(h) && h.blocks != []
  {
    var j := RunStart(h.hdrs, h.blocks, |h.blocks| - 1);
    var b := h.blocks[j];
    Heap(if h.hdrs[b].prev.None? then None else h.start, b, Below(h.hdrs, b), h.blocks[..j])
  }

  /**
   * ReleaseTailAsWritten with the surviving last block's hdr_next set to
   * NULL, so that the list ends where the heap now ends.
   */
  ghost function ReleaseTail(g: Geometry, h: Heap): Heap
    requires g.Valid() && Listed(h) && h.blocks != []
  {
    var r := ReleaseTailAsWritten(g, h);
    var j := |r.blocks|;
    match h.hdrs[h.blocks[j]].prev
    case Some(q) =>
      if q in r.hdrs then r.(hdrs := r.hdrs[q := r.hdrs[q].(next := None)]) else r
    case None => r
  }

  /**
   * Whether hfree(p) lowers the break: p's header is in the list, the block
   * is occupied and its hdr_next is NULL.
   */
  predicate ReleasesTail(g: Geometry, h: Heap, p: Option<nat>)
    requires g.Valid()
  {
    p.Some? && p.value >= g.hdr && p.value - g.hdr in h.hdrs &&
    !h.hdrs[p.value - g.hdr].free && h.hdrs[p.value - g.hdr].next.None?
  }

  /**
   * hfree(p): NULL, a pointer whose header is not in the list and a block
   * already free leave the heap alone; a block with a successor is only
   * marked free; the tail block is released with the free run before it.
   */
  ghost function Free(g: Geometry, h: Heap, p: Option<nat>): Heap
    requires WellFormed(g, h)
  {
    if p.None? || p.value < g.hdr || p.value - g.hdr !in h.hdrs then h
    else
      var a := p.value - g.hdr;
      if h.hdrs[a].free then h
      else if h.hdrs[a].next.Some? then h.(hdrs := h.hdrs[a := h.hdrs[a].(free := true)])
      else ReleaseTail(g, h)
  }

  /** hfree(p) as written: Free, with the tail released by ReleaseTailAsWritten. */
  ghost function FreeAsWritten(g: Geometry, h: Heap, p: Option<nat>): Heap
    requires WellFormed(g, h)
  {
    if ReleasesTail(g, h, p) then ReleaseTailAsWritten(g, h) else Free(g, h, p)
  }
}
