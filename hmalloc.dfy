/**
 * hmalloc.c as an object: the static `heap_start`, the program break that
 * sbrk() moves and the headers stored in the heap are fields, and hmalloc()
 * and hfree() are methods that run the source's loops. Each method is
 * proved to compute the specification function of module Blocks, so the
 * properties proved in MallocFacts and FreeFacts hold of it.
 */
module Hmalloc {
  import opened Align
  import opened Blocks
  import opened BlockFacts
  import opened MallocFacts
  import opened FreeFacts

  class Allocator {
    /** alignof(max_align_t) and sizeof(mbheader). */
    const cfg: Config
    /** The highest address sbrk() can raise the break to. */
    const brkLimit: nat
    /** heap_start; None is NULL. */
    var heapStart: Option<nat>
    /** The program break. */
    var brk: nat
    /** The headers stored between heap_start and the break, by address. */
    var hdrs: map<nat, Header>
    /** The header addresses in list order. */
    ghost var blocks: seq<nat>

    ghost function State(): Heap
      reads this
    {
      Heap(heapStart, brk, hdrs, blocks)
    }

    ghost predicate Valid()
      reads this
    {
      cfg.Valid() && brkLimit < SizeLimit && brk <= brkLimit && WellFormed(cfg.Sizes(), State())
    }

    /** The allocator before its first call: heap_start is NULL and the break is at `base`. */
    constructor (c: Config, limit: nat, base: nat)
      requires c.Valid() && 0 < base <= limit < SizeLimit
      ensures Valid() && cfg == c && brkLimit == limit
      ensures State() == Heap(None, base, map[], [])
    {
      cfg, brkLimit := c, limit;
      heapStart, brk, hdrs, blocks := None, base, map[], [];
      GeometryValid(c);
    }

    /**
     * sbrk(delta): moves the break by `delta` and returns the old break,
     * or fails (the source's `(void *)-1`, here None) when the new break
     * would lie below zero or above `brkLimit`.
     */
    method Sbrk(delta: int) returns (r: Option<nat>)
      modifies this`brk
      ensures if 0 <= old(brk) + delta <= brkLimit
              then r == Some(old(brk)) && brk == old(brk) + delta
              else r.None? && brk == old(brk)
    {
      if 0 <= brk + delta <= brkLimit {
        r := Some(brk);
        brk := brk + delta;
      } else {
        r := None;
      }
    }

    /**
     * hmalloc(size): returns the payload address of a block of at least
     * ALIGN(size) bytes, or None for NULL, exactly as Malloc specifies.
     * The sbrk() increment need + AL_HDR_SZ is passed without wrapping.
     */
    method Hmalloc(size: nat) returns (p: Option<nat>)
      requires Valid() && size < SizeLimit
      modifies this
      ensures Valid()
      ensures (State(), p) == Malloc(cfg.Sizes(), brkLimit, old(State()), cfg.Align(size))
    {
      var need := cfg.Align(size);
      AlignIsMultiple(cfg, size);
      GeometryValid(cfg);
      ghost var g := cfg.Sizes();
      ghost var h := State();
      CaptureWellFormed(g, h);
      if heapStart.None? {
        heapStart := Sbrk(0);
      }
      var progBrk := Sbrk(0);
      ghost var hc := State();
      assert hc == Capture(h);
      var cur, last, i := Scan(need, progBrk);
      if cur.Some? && progBrk != heapStart {
        var a := cur.value;
        p := Some(a + cfg.H());
        assert a == hc.blocks[i] && hc.blocks == h.blocks && hc.hdrs == h.hdrs;
        LinkedAt(hc, i);
        if i + 1 < |blocks| {
          LinkedAt(hc, i + 1);
        }
        TakeBlock(a, need, i);
        Reused(g, brkLimit, h, need, i, State(), p);
        return;
      }
      assert hc.brk == h.brk;
      p := Grow(need, last, progBrk);
      Grown(g, brkLimit, h, need, State(), p);
    }

    /**
     * hmalloc()'s first-fit loop: follows hdr_next from heap_start, keeping
     * the header before the current one in `last`, and stops at the first
     * free block of at least `need` bytes (`cur` is then that block and the
     * loop condition still holds) or when the list runs out.
     */
    method Scan(need: nat, progBrk: Option<nat>) returns (cur: Option<nat>, last: Option<nat>, ghost i: nat)
      requires cfg.Valid() && Started(cfg.Sizes(), State()) && progBrk == Some(brk)
      ensures Scanning(cfg.Sizes(), State(), need, i, cur, last)
      ensures cur.Some? && progBrk != heapStart ==>
        i < |blocks| && cur.value == blocks[i] && Fits(hdrs[cur.value], need)
      ensures !(cur.Some? && progBrk != heapStart) ==>
        (forall j :: 0 <= j < |blocks| ==> !Fits(hdrs[blocks[j]], need)) &&
        (blocks == [] <==> progBrk == heapStart) &&
        last == (if blocks == [] then None else Some(Last(blocks)))
    {
      ghost var g := cfg.Sizes();
      ghost var h := State();
      NonEmptyBreak(g, h);
      cur := heapStart;
      last := None;
      i := 0;
      ScanStart(g, h, need);
      while cur.Some? && progBrk != heapStart
        invariant Scanning(g, h, need, i, cur, last)
        decreases |blocks| - i
      {
        ScanAt(g, h, need, i, cur, last);
        var a := cur.value;
        if hdrs[a].free && hdrs[a].payload >= need {
          return;
        }
        ScanStep(g, h, need, i, cur, last);
        last := cur;
        cur := hdrs[a].next;
        i := i + 1;
      }
      ScanEnd(g, h, need, i, cur, last);
    }

    /**
     * The block-reuse branch of hmalloc(): marks the free block at `a`,
     * number i in the list, occupied and splits off the remainder as a new
     * free block when it can hold a header and one alignment unit.
     */
    method TakeBlock(a: nat, need: nat, ghost i: nat)
      requires cfg.Valid() && cfg.Sizes().Valid() && Listed(State()) && i < |blocks| && a == blocks[i]
      requires hdrs[a].payload >= need && (hdrs[a].next.Some? ==> hdrs[a].next.value in hdrs)
      modifies this`hdrs, this`blocks
      ensures State() == Reuse(cfg.Sizes(), old(State()), i, need)
    {
      GeometryValid(cfg);
      ghost var g := cfg.Sizes();
      ghost var h := State();
      assert g.hdr == cfg.H() && g.minBlock == cfg.MinBlock();
      hdrs := hdrs[a := hdrs[a].(free := false)];
      if hdrs[a].payload - need >= cfg.MinBlock() {
        ghost var taken := hdrs;
        var oldPayload := hdrs[a].payload;
        var oldNext := hdrs[a].next;
        var n: nat := a + cfg.H() + need;
        hdrs := hdrs[a := hdrs[a].(payload := need, next := Some(n))];
        hdrs := hdrs[n := Header(oldPayload - need - cfg.H(), true, Some(a), oldNext)];
        ghost var withNew := hdrs;
        if oldNext.Some? {
          hdrs := hdrs[oldNext.value := hdrs[oldNext.value].(prev := Some(n))];
        }
        blocks := blocks[..i + 1] + [n] + blocks[i + 1..];
        TakeSplit(g, h, i, need, n, taken, withNew, hdrs, blocks);
      } else {
        TakeWhole(g, h, i, need, hdrs);
      }
    }

    /**
     * The growth branch of hmalloc(): raises the break by need + AL_HDR_SZ
     * and places an occupied block of `need` bytes at the old break, linked
     * after `last`; when sbrk() fails, nothing changes.
     */
    method Grow(need: nat, last: Option<nat>, progBrk: Option<nat>) returns (p: Option<nat>)
      requires cfg.Valid() && Started(cfg.Sizes(), State()) && progBrk == Some(brk)
      requires (blocks == []) == (progBrk == heapStart)
      requires last == (if blocks == [] then None else Some(Last(blocks)))
      modifies this
      ensures if old(brk) + need + cfg.H() <= brkLimit
              then p == Some(old(brk) + cfg.H()) &&
                   State() == Append(cfg.Sizes(), old(State()), need, need + cfg.H())
              else p.None? && State() == old(State())
    {
      GeometryValid(cfg);
      ghost var g := cfg.Sizes();
      ghost var h := State();
      var r := Sbrk(need + cfg.H());
      if r.None? {
        return None;
      }
      var a := r.value;
      hdrs := hdrs[a := Header(need, false, last, None)];
      if progBrk != heapStart {
        hdrs := hdrs[last.value := hdrs[last.value].(next := Some(a))];
      }
      blocks := blocks + [a];
      p := Some(a + cfg.H());
      assert State() == Append(g, h, need, need + g.hdr);
    }

    /**
     * hfree(p): does nothing for NULL, for a pointer whose header is not in
     * the list and for a block already free; marks a block with a successor
     * free; releases the tail block and the free run before it to sbrk(),
     * exactly as Free specifies. The surviving last block's hdr_next is set
     * to NULL.
     */
    method Hfree(p: Option<nat>)
      requires Valid() && (p.Some? ==> blocks != [])
      modifies this
      ensures Valid()
      ensures State() == Free(cfg.Sizes(), old(State()), p)
    {
      GeometryValid(cfg);
      ghost var g := cfg.Sizes();
      ghost var h := State();
      FreeWellFormed(g, h, p);
      if p.None? {
        return;
      }
      FreeBranches(g, h, p);
      // The header address p - AL_HDR_SZ, compared as an integer: no header lies below zero.
      var target: int := p.value - cfg.H();
      var found := Lookup(target);
      if !found {
        assert State() == h;
        return;
      }
      var a: nat := target;
      if hdrs[a].free {
        assert State() == h;
        return;
      }
      if hdrs[a].next.Some? {
        hdrs := hdrs[a := hdrs[a].(free := true)];
        assert State() == h.(hdrs := h.hdrs[a := h.hdrs[a].(free := true)]);
        return;
      }
      assert a == Last(blocks);
      LowerBreak(a);
    }

    /**
     * hfree()'s validation walk: follows hdr_next from heap_start until it
     * meets the header address `target` or runs off the end of the list.
     */
    method Lookup(target: int) returns (found: bool)
      requires Valid() && blocks != []
      ensures found <==> target in hdrs
    {
      ghost var h := State();
      GeometryValid(cfg);
      var cur := heapStart;
      ghost var i := 0;
      while cur.value != target
        invariant i < |blocks| && cur == Some(blocks[i])
        invariant forall m :: 0 <= m < i ==> blocks[m] != target
        decreases |blocks| - i
      {
        LinkedAt(h, i);
        cur := hdrs[cur.value].next;
        if cur.None? {
          NotListed(h, target);
          return false;
        }
        i := i + 1;
      }
      return true;
    }

    /**
     * hfree() of the tail block at `a`: walks back over the free blocks
     * before it, adding up how far the break drops, lowers the break with
     * sbrk() and resets heap_start to NULL when no block is left. The
     * surviving last block's hdr_next is set to NULL, which the source
     * leaves pointing at the released header.
     */
    method LowerBreak(a: nat)
      requires Valid() && blocks != [] && a == Last(blocks)
      modifies this
      ensures Valid()
      ensures State() == ReleaseTail(cfg.Sizes(), old(State()))
    {
      GeometryValid(cfg);
      ghost var g := cfg.Sizes();
      ghost var h := State();
      var c, shift, k := WalkBack(a);
      ghost var r := ReleaseTail(g, h);
      assert k <= |blocks| && r.blocks == blocks[..k] && r.brk == brk - shift && 0 <= shift <= brk;
      var ok := Sbrk(-(shift as int));
      assert brk == r.brk;
      if hdrs[c].prev.None? {
        heapStart := None;
        assert heapStart == r.start && Below(hdrs, brk) == r.hdrs;
      } else {
        // The surviving last block ends the list.
        var q := hdrs[c].prev.value;
        hdrs := hdrs[q := hdrs[q].(next := None)];
        assert heapStart == r.start && Below(hdrs, brk) == r.hdrs;
      }
      hdrs := Below(hdrs, brk);
      blocks := blocks[..k];
      assert hdrs == r.hdrs && blocks == r.blocks;
      assert State() == r;
    }

    /**
     * The backward walk of hfree() from the tail block at `a`: moves to the
     * previous block while it exists and is free, clearing its hdr_next,
     * and adds up the bytes from the block it stops at to the break.
     */
    method WalkBack(a: nat) returns (c: nat, shift: nat, ghost k: nat)
      requires Valid() && blocks != [] && a == Last(blocks)
      modifies this`hdrs
      ensures k < |old(blocks)| && c == old(blocks)[k]
      ensures SameButNext(hdrs, old(hdrs))
      ensures ReleasePlan(cfg.Sizes(), old(State()), hdrs, k, c, shift)
    {
      GeometryValid(cfg);
      ghost var g := cfg.Sizes();
      ghost var h := State();
      c := a;
      k := |blocks| - 1;
      shift := hdrs[c].payload + cfg.H();
      WalkStart(g, h);
      while hdrs[c].prev.Some? && hdrs[hdrs[c].prev.value].free
        invariant Walk(g, h, hdrs, k, c, shift)
        decreases k
      {
        var q := hdrs[c].prev.value;
        var shift' := shift + hdrs[q].payload + cfg.H();
        var hdrs' := hdrs[q := hdrs[q].(next := None)];
        WalkStep(g, h, hdrs, k, c, shift, q, hdrs', shift');
        shift, hdrs, c, k := shift', hdrs', q, k - 1;
      }
      WalkEnd(g, h, hdrs, k, c, shift);
      WalkRelease(g, h, hdrs, k, c, shift);
    }
  }

  /** The reuse branch's heap and pointer are Malloc's when block i is the first fit. */
  lemma Reused(g: Geometry, limit: nat, h: Heap, need: nat, i: nat, s: Heap, p: Option<nat>)
    requires WellFormed(g, h) && i < |h.blocks| && Fits(h.hdrs[h.blocks[i]], need)
    requires forall j :: 0 <= j < i ==> !Fits(h.hdrs[h.blocks[j]], need)
    requires g.Valid() && need % g.unit == 0
    requires s == Reuse(g, Capture(h), i, need) && p.Some? && p.value == h.blocks[i] + g.hdr
    ensures (s, p) == Malloc(g, limit, h, need) && WellFormed(g, s)
  {
    MallocReuses(g, limit, h, need, i);
    MallocWellFormed(g, limit, h, need);
  }

  /** The growth branch's heap and pointer are Malloc's when no block fits. */
  lemma Grown(g: Geometry, limit: nat, h: Heap, need: nat, s: Heap, p: Option<nat>)
    requires g.Valid() && WellFormed(g, h) && need % g.unit == 0
    requires forall j :: 0 <= j < |h.blocks| ==> !Fits(h.hdrs[h.blocks[j]], need)
    requires h.brk + need + g.hdr <= limit ==>
      s == Append(g, Capture(h), need, need + g.hdr) && p.Some? && p.value == h.brk + g.hdr
    requires h.brk + need + g.hdr > limit ==> s == Capture(h) && p.None?
    ensures (s, p) == Malloc(g, limit, h, need) && WellFormed(g, s)
  {
    MallocGrowth(g, limit, h, need);
    MallocWellFormed(g, limit, h, need);
  }

  /** Reuse when the block is taken whole: only its free flag changes. */
  lemma TakeWhole(g: Geometry, h: Heap, k: nat, need: nat, m: map<nat, Header>)
    requires g.Valid() && Listed(h) && k < |h.blocks| && h.hdrs[h.blocks[k]].payload >= need
    requires !Splits(g, h.hdrs[h.blocks[k]], need)
    requires m == h.hdrs[h.blocks[k] := h.hdrs[h.blocks[k]].(free := false)]
    ensures Reuse(g, h, k, need) == h.(hdrs := m)
  {
  }

  /**
   * Reuse when the block is split: the header writes of the split branch,
   * in the order hmalloc() makes them, give Reuse's headers and blocks.
   */
  lemma TakeSplit(g: Geometry, h: Heap, k: nat, need: nat, n: nat,
                   taken: map<nat, Header>, withNew: map<nat, Header>, m: map<nat, Header>, bs: seq<nat>)
    requires g.Valid() && Listed(h) && k < |h.blocks| && h.hdrs[h.blocks[k]].payload >= need
    requires Splits(g, h.hdrs[h.blocks[k]], need) && n == h.blocks[k] + g.hdr + need
    requires taken == h.hdrs[h.blocks[k] := h.hdrs[h.blocks[k]].(free := false)]
    requires var a := h.blocks[k];
      withNew == taken[a := taken[a].(payload := need, next := Some(n))]
                      [n := Header(taken[a].payload - need - g.hdr, true, Some(a), taken[a].next)]
    requires var a := h.blocks[k];
      taken[a].next.None? ==> m == withNew
    requires var a := h.blocks[k];
      taken[a].next.Some? ==>
        (taken[a].next.value in withNew &&
         m == withNew[taken[a].next.value := withNew[taken[a].next.value].(prev := Some(n))])
    requires bs == h.blocks[..k + 1] + [n] + h.blocks[k + 1..]
    ensures Reuse(g, h, k, need) == h.(hdrs := m, blocks := bs)
  {
  }

  /**
   * Where hmalloc()'s scan stands: at block i, with `cur` its header (or
   * NULL past the end), `last` the header before it, and no block before
   * it that fits `need`.
   */
  ghost predicate Scanning(g: Geometry, h: Heap, need: nat, i: nat, cur: Option<nat>, last: Option<nat>)
  {
    Started(g, h) && i <= |h.blocks| &&
    last == (if i == 0 then None else Some(h.blocks[i - 1])) &&
    (h.blocks != [] ==> cur == (if i < |h.blocks| then Some(h.blocks[i]) else None)) &&
    forall j :: 0 <= j < i ==> !Fits(h.hdrs[h.blocks[j]], need)
  }

  /** The scan starts at heap_start with no last block. */
  lemma ScanStart(g: Geometry, h: Heap, need: nat)
    requires Started(g, h)
    ensures Scanning(g, h, need, 0, h.start, None)
  {
  }

  /** A scan that has not run off the list stands at a listed header. */
  lemma ScanAt(g: Geometry, h: Heap, need: nat, i: nat, cur: Option<nat>, last: Option<nat>)
    requires Scanning(g, h, need, i, cur, last) && cur.Some? && h.blocks != []
    ensures i < |h.blocks| && cur.value == h.blocks[i] && cur.value in h.hdrs
  {
  }

  /** Stepping past a block that does not fit keeps the scan's invariant. */
  lemma ScanStep(g: Geometry, h: Heap, need: nat, i: nat, cur: Option<nat>, last: Option<nat>)
    requires Scanning(g, h, need, i, cur, last) && cur.Some? && h.blocks != []
    requires cur.value in h.hdrs && !Fits(h.hdrs[cur.value], need)
    ensures Scanning(g, h, need, i + 1, h.hdrs[cur.value].next, cur)
  {
    LinkedAt(h, i);
  }

  /** When the scan stops without a fit, no block fits and `last` is the last block. */
  lemma ScanEnd(g: Geometry, h: Heap, need: nat, i: nat, cur: Option<nat>, last: Option<nat>)
    requires Scanning(g, h, need, i, cur, last) && (cur.None? || h.blocks == [])
    ensures forall j :: 0 <= j < |h.blocks| ==> !Fits(h.hdrs[h.blocks[j]], need)
    ensures last == (if h.blocks == [] then None else Some(Last(h.blocks)))
  {
  }

  /**
   * Where hfree()'s backward walk stands: at block k, whose header is `c`,
   * with `shift` the bytes from it to the break, headers changed only in
   * hdr_next and only from block k up, and the run from k to the tail free.
   */
  ghost predicate Walk(g: Geometry, h: Heap, hdrs: map<nat, Header>, k: nat, c: nat, shift: int)
    requires Listed(h)
  {
    k < |h.blocks| && c == h.blocks[k] &&
    (forall m :: k <= m < |h.blocks| - 1 ==> h.hdrs[h.blocks[m]].free) && shift == h.brk - h.blocks[k] &&
    SameButNext(hdrs, h.hdrs) && Below(hdrs, h.blocks[k]) == Below(h.hdrs, h.blocks[k]) &&
    c in hdrs && hdrs[c].prev == PrevOf(h.blocks, k)
  }

  /** The walk starts at the tail block with the tail's size as the shift. */
  lemma WalkStart(g: Geometry, h: Heap)
    requires Started(g, h) && h.blocks != []
    ensures var l := Last(h.blocks);
      l in h.hdrs && Walk(g, h, h.hdrs, |h.blocks| - 1, l, h.hdrs[l].payload + g.hdr)
  {
    LinkedAt(h, |h.blocks| - 1);
  }

  /** One step back over a free block keeps the walk's invariant. */
  lemma WalkStep(g: Geometry, h: Heap, hdrs: map<nat, Header>, k: nat, c: nat, shift: int,
                  q: nat, hdrs': map<nat, Header>, shift': int)
    requires Started(g, h) && Walk(g, h, hdrs, k, c, shift)
    requires hdrs[c].prev == Some(q) && q in hdrs && hdrs[q].free
    requires hdrs' == hdrs[q := hdrs[q].(next := None)] && shift' == shift + hdrs[q].payload + g.hdr
    ensures k > 0 && q == h.blocks[k - 1] && Walk(g, h, hdrs', k - 1, q, shift')
  {
    LinkedAt(h, k - 1);
    assert End(g, h.hdrs, q) == h.blocks[k];
    Ordered(g, h, k - 1, k);
    BelowStep(hdrs, h.hdrs, q, h.blocks[k], hdrs[q].(next := None));
  }

  /** Where the walk stops, the free run before the tail begins. */
  lemma WalkEnd(g: Geometry, h: Heap, hdrs: map<nat, Header>, k: nat, c: nat, shift: int)
    requires Started(g, h) && Walk(g, h, hdrs, k, c, shift)
    requires !(hdrs[c].prev.Some? && hdrs[c].prev.value in hdrs && hdrs[hdrs[c].prev.value].free)
    ensures k == TailRun(h)
  {
    if k > 0 {
      LinkedAt(h, k - 1);
    }
    RunStartIs(h.hdrs, h.blocks, |h.blocks| - 1, k);
  }

  /** RunStart finds the one maximal run of free blocks that ends at i. */
  lemma {:induction false} RunStartIs(hdrs: map<nat, Header>, blocks: seq<nat>, i: nat, j: nat)
    requires i < |blocks| && forall m :: 0 <= m < |blocks| ==> blocks[m] in hdrs
    requires j <= i && forall m :: j <= m < i ==> hdrs[blocks[m]].free
    requires j == 0 || !hdrs[blocks[j - 1]].free
    ensures RunStart(hdrs, blocks, i) == j
    decreases i
  {
    if j < i {
      RunStartIs(hdrs, blocks, i - 1, j);
    }
  }

  /** Headers that agree on everything but hdr_next, at the same addresses. */
  ghost predicate SameButNext(m1: map<nat, Header>, m0: map<nat, Header>)
  {
    m1.Keys == m0.Keys &&
    forall a :: a in m1 ==> m1[a] == m0[a].(next := m1[a].next)
  }

  /**
   * Once two heaps agree below x, they agree below q < x after one of them
   * changes the header at q.
   */
  lemma BelowStep(m1: map<nat, Header>, m0: map<nat, Header>, q: nat, x: nat, v: Header)
    requires q < x && Below(m1, x) == Below(m0, x)
    ensures Below(m1[q := v], q) == Below(m0, q)
  {
    forall a | a < q
      ensures a in m1 <==> a in Below(m1, x)
      ensures a in m0 <==> a in Below(m0, x)
    {
    }
    assert Below(m1[q := v], q) == Below(Below(m1, x), q);
    assert Below(m0, q) == Below(Below(m0, x), q);
  }

  /**
   * What LowerBreak needs once the walk has stopped at block k with header
   * `c`: lowering the break by `shift` and dropping the walked headers from
   * there up, after clearing the hdr_next of the block before `c` (if any),
   * gives the corrected tail release, which is well formed.
   */
  ghost predicate ReleasePlan(g: Geometry, h: Heap, walked: map<nat, Header>, k: nat, c: nat, shift: int)
    requires g.Valid() && WellFormed(g, h) && h.blocks != []
  {
    var r := ReleaseTail(g, h);
    0 <= shift <= h.brk && c in walked &&
    r.brk == h.brk - shift && k <= |h.blocks| && r.blocks == h.blocks[..k] && WellFormed(g, r) &&
    (walked[c].prev.None? ==> r.start.None? && r.hdrs == Below(walked, r.brk)) &&
    (walked[c].prev.Some? ==>
      (walked[c].prev.value in walked && r.start == h.start &&
       r.hdrs == Below(walked[walked[c].prev.value := walked[walked[c].prev.value].(next := None)], r.brk)))
  }

  /**
   * Where the walk stops, the corrected tail release is in reach: the break
   * drops by `shift` to block k, and the headers left are the walked ones
   * below it, with the hdr_next of the block before it, if any, cleared.
   */
  lemma WalkRelease(g: Geometry, h: Heap, walked: map<nat, Header>, k: nat, c: nat, shift: int)
    requires Started(g, h) && Walk(g, h, walked, k, c, shift) && k == TailRun(h)
    ensures ReleasePlan(g, h, walked, k, c, shift)
  {
    var r := ReleaseTail(g, h);
    assert 0 <= shift <= h.brk by {
      WithinHeap(g, h);
    }
    assert WellFormed(g, r) by {
      ReleaseTailWellFormed(g, h);
    }
    if k == 0 {
      assert r.start.None? && r.brk == h.blocks[0] && r.blocks == [] && r.hdrs == Below(walked, r.brk) by {
        ReleaseTailEmpties(g, h);
        LinkedAt(h, 0);
      }
    } else {
      var q := h.blocks[k - 1];
      assert r.start == h.start && r.brk == h.blocks[k] && r.blocks == h.blocks[..k] by {
        ReleaseTailCuts(g, h);
      }
      assert q in walked && walked[c].prev == Some(q) &&
             r.hdrs == Below(walked[q := walked[q].(next := None)], r.brk) by {
        ReleaseTailMap(g, h);
        BelowAfterUpdate(walked, q, h.blocks[k], walked[q].(next := None));
      }
    }
  }

  /** Free(p) for a non-NULL p, case by case as hfree() tests them. */
  lemma FreeBranches(g: Geometry, h: Heap, p: Option<nat>)
    requires WellFormed(g, h) && p.Some?
    ensures var t := p.value - g.hdr;
      (t !in h.hdrs ==> Free(g, h, p) == h) &&
      (t in h.hdrs && h.hdrs[t].free ==> Free(g, h, p) == h) &&
      (t in h.hdrs && !h.hdrs[t].free && h.hdrs[t].next.Some? ==>
        Free(g, h, p) == h.(hdrs := h.hdrs[t := h.hdrs[t].(free := true)])) &&
      (t in h.hdrs && !h.hdrs[t].free && h.hdrs[t].next.None? ==>
        (h.blocks != [] && t == Last(h.blocks) && Free(g, h, p) == ReleaseTail(g, h)))
  {
    var t := p.value - g.hdr;
    if t in h.hdrs && h.hdrs[t].next.None? {
      NullNextIsTail(g, h, t);
    }
  }

  /** Dropping the headers from x up commutes with a change below x. */
  lemma BelowAfterUpdate(m: map<nat, Header>, q: nat, x: nat, v: Header)
    requires q < x && q in m
    ensures q in Below(m, x) && Below(m[q := v], x) == Below(m, x)[q := v]
  {
  }
}
