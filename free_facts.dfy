/**
 * What hfree() promises once its tail release also clears the surviving
 * block's hdr_next, proved about the specification function Free:
 * it keeps the heap well formed, is idempotent, never disturbs another live
 * block, releases exactly the trailing run of free blocks, and undoes an
 * hmalloc() that grew the heap. The tail release as the source writes it
 * is shown to leave a dangling hdr_next instead.
 */
module FreeFacts {
  import opened Align
  import opened Blocks
  import opened BlockFacts
  import opened MallocFacts

  /**
   * `r` is `h` cut before block j (0 < j): the break is at block j, the
   * first j blocks stay with their headers, and the new last block's
   * hdr_next is NULL.
   */
  ghost predicate CutAt(g: Geometry, h: Heap, j: nat, r: Heap)
    requires Listed(h) && 0 < j < |h.blocks|
  {
    var b := h.blocks;
    r.start == h.start && r.brk == b[j] && r.blocks == b[..j] &&
    (forall a :: a in r.hdrs <==> a in b[..j]) &&
    (forall m {:trigger b[m]} :: 0 <= m < j - 1 ==> r.hdrs[b[m]] == h.hdrs[b[m]]) &&
    r.hdrs[b[j - 1]] == h.hdrs[b[j - 1]].(next := None)
  }

  /** After the cut the remaining blocks keep their links, and the new last one's hdr_next is NULL. */
  lemma CutLinked(g: Geometry, h: Heap, j: nat, r: Heap)
    requires Started(g, h) && 0 < j < |h.blocks| && CutAt(g, h, j, r)
    ensures Listed(r) && Linked(r)
  {
    var b, b' := h.blocks, r.blocks;
    forall m | 0 <= m < j
      ensures b'[m] == b[m] && b[m] in r.hdrs
      ensures r.hdrs[b[m]].prev == h.hdrs[b[m]].prev
      ensures m < j - 1 ==> r.hdrs[b[m]].next == h.hdrs[b[m]].next
    {
      assert b[..j][m] == b[m];
      if m < j - 1 {
        assert r.hdrs[b[m]] == h.hdrs[b[m]];
      }
    }
    assert Listed(r);
    forall i | 0 <= i < j
      ensures r.hdrs[b'[i]].prev == PrevOf(b', i)
      ensures r.hdrs[b'[i]].next == NextOf(b', i)
    {
      LinkedAt(h, i);
    }
  }

  /** Cutting a well-formed heap before one of its blocks leaves it well formed. */
  lemma CutWellFormed(g: Geometry, h: Heap, j: nat, r: Heap)
    requires Started(g, h) && 0 < j < |h.blocks| && CutAt(g, h, j, r)
    ensures Started(g, r)
  {
    var b, b' := h.blocks, r.blocks;
    forall m | 0 <= m < j
      ensures b'[m] == b[m] && b[m] in r.hdrs
      ensures r.hdrs[b[m]].payload == h.hdrs[b[m]].payload
      ensures r.hdrs[b[m]].prev == h.hdrs[b[m]].prev
      ensures m < j - 1 ==> r.hdrs[b[m]].next == h.hdrs[b[m]].next
    {
      assert b[..j][m] == b[m];
      if m < j - 1 {
        assert r.hdrs[b[m]] == h.hdrs[b[m]];
      }
    }
    CutLinked(g, h, j, r);
    assert Tiled(g, h.start.value, r) by {
      forall i | 0 <= i < j - 1
        ensures End(g, r.hdrs, b'[i]) == b'[i + 1]
      {
        assert End(g, h.hdrs, b[i]) == b[i + 1];
      }
      assert End(g, h.hdrs, b[j - 1]) == b[j];
    }
    assert Aligned(g, r) by {
      forall i | 0 <= i < j
        ensures r.hdrs[b'[i]].payload % g.unit == 0
      {
        assert h.hdrs[b[i]].payload % g.unit == 0;
      }
    }
  }

  /** Where the tail release stops: the start of the free run before the last block. */
  ghost function TailRun(h: Heap): nat
    requires Listed(h) && h.blocks != []
  {
    RunStart(h.hdrs, h.blocks, |h.blocks| - 1)
  }

  /** The headers the corrected release keeps: those below block j, the survivor's hdr_next cleared. */
  lemma ReleaseTailMap(g: Geometry, h: Heap)
    requires Started(g, h) && h.blocks != [] && TailRun(h) > 0
    ensures var j := TailRun(h); var q := h.blocks[j - 1];
      q in Below(h.hdrs, h.blocks[j]) &&
      ReleaseTail(g, h).hdrs == Below(h.hdrs, h.blocks[j])[q := h.hdrs[q].(next := None)]
  {
    var j := TailRun(h);
    LinkedAt(h, j);
    Ordered(g, h, j - 1, j);
  }

  /** When the free run stops before the first block, the corrected release is a cut. */
  lemma ReleaseTailCuts(g: Geometry, h: Heap)
    requires Started(g, h) && h.blocks != [] && TailRun(h) > 0
    ensures CutAt(g, h, TailRun(h), ReleaseTail(g, h))
  {
    var b := h.blocks;
    var j := TailRun(h);
    var r := ReleaseTail(g, h);
    var q := b[j - 1];
    var kept := Below(h.hdrs, b[j]);
    assert r.start == h.start && r.brk == b[j] && r.blocks == b[..j] by {
      LinkedAt(h, j);
    }
    assert q in kept && r.hdrs == kept[q := h.hdrs[q].(next := None)] by {
      ReleaseTailMap(g, h);
    }
    assert forall a :: a in kept <==> a in b[..j] by {
      BelowIsPrefix(g, h, j);
      forall a | a in b[..j]
        ensures a in kept
      {
        var m :| 0 <= m < j && b[..j][m] == a;
        assert b[m] == a;
      }
    }
    forall m | 0 <= m < j - 1
      ensures r.hdrs[b[m]] == h.hdrs[b[m]]
    {
      BelowKeeps(g, h, j, m);
    }
  }

  /** A block before block j - 1 is kept, unchanged, by the cut before block j. */
  lemma BelowKeeps(g: Geometry, h: Heap, j: nat, m: nat)
    requires Started(g, h) && m < j - 1 && j < |h.blocks|
    ensures var q := h.blocks[j - 1];
      h.blocks[m] in Below(h.hdrs, h.blocks[j]) && h.blocks[m] != q
  {
    Ordered(g, h, m, j - 1);
    Ordered(g, h, j - 1, j);
  }

  /** When the free run reaches the first block, nothing is left and heap_start is NULL again. */
  lemma ReleaseTailEmpties(g: Geometry, h: Heap)
    requires Started(g, h) && h.blocks != [] && TailRun(h) == 0
    ensures ReleaseTail(g, h) == Heap(None, h.start.value, map[], [])
  {
    var b := h.blocks;
    LinkedAt(h, 0);
    BelowIsPrefix(g, h, 0);
    assert Below(h.hdrs, b[0]) == map[];
  }

  /** Releasing the tail keeps the heap well formed. */
  lemma ReleaseTailWellFormed(g: Geometry, h: Heap)
    requires Started(g, h) && h.blocks != []
    ensures WellFormed(g, ReleaseTail(g, h))
  {
    if TailRun(h) == 0 {
      ReleaseTailEmpties(g, h);
    } else {
      ReleaseTailCuts(g, h);
      CutWellFormed(g, h, TailRun(h), ReleaseTail(g, h));
    }
  }

  /** A header present in a well-formed heap means heap_start is set. */
  lemma PresentStarted(g: Geometry, h: Heap, a: nat)
    requires WellFormed(g, h) && a in h.hdrs
    ensures Started(g, h) && h.blocks != []
  {
    assert a in h.blocks;
  }

  /** hfree() keeps the heap well formed, whatever pointer it is given. */
  lemma FreeWellFormed(g: Geometry, h: Heap, p: Option<nat>)
    requires WellFormed(g, h)
    ensures WellFormed(g, Free(g, h, p))
  {
    if p.Some? && p.value >= g.hdr && p.value - g.hdr in h.hdrs {
      var a := p.value - g.hdr;
      PresentStarted(g, h, a);
      if !h.hdrs[a].free {
        if h.hdrs[a].next.Some? {
          FlagWellFormed(g, h, a, true);
        } else {
          ReleaseTailWellFormed(g, h);
        }
      }
    }
  }

  /**
   * hfree(p) of a block that has a successor only sets its free flag;
   * NULL, an unknown pointer and a free block change nothing.
   */
  lemma FreeMarks(g: Geometry, h: Heap, p: Option<nat>)
    requires WellFormed(g, h) && !ReleasesTail(g, h, p)
    ensures var h' := Free(g, h, p);
      h'.start == h.start && h'.brk == h.brk && h'.blocks == h.blocks &&
      h'.hdrs.Keys == h.hdrs.Keys &&
      (p.Some? && p.value >= g.hdr && p.value - g.hdr in h.hdrs ==>
         h'.hdrs == h.hdrs[p.value - g.hdr := h.hdrs[p.value - g.hdr].(free := true)]) &&
      (p.None? || p.value < g.hdr || p.value - g.hdr !in h.hdrs ==> h' == h)
  {
  }

  /**
   * hfree(p) of the occupied block whose hdr_next is NULL: that block is
   * the last one, and the break drops to the start of the run of free
   * blocks before it. That run is exactly what goes: the block before it,
   * if any, is occupied and becomes the last block, and heap_start becomes
   * NULL when the run reaches the first block.
   */
  lemma FreeReleasesTrailingRun(g: Geometry, h: Heap, p: Option<nat>)
    requires WellFormed(g, h) && ReleasesTail(g, h, p)
    ensures h.blocks != [] && p.value - g.hdr == Last(h.blocks)
    ensures var h', j := Free(g, h, p), TailRun(h);
      p.value - g.hdr !in h'.hdrs && h'.brk == h.blocks[j] && h'.blocks == h.blocks[..j] &&
      (forall m :: j <= m < |h.blocks| - 1 ==> h.hdrs[h.blocks[m]].free) &&
      (h'.start.None? <==> j == 0) &&
      (h'.blocks != [] ==> Last(h'.blocks) in h'.hdrs && !h'.hdrs[Last(h'.blocks)].free && h'.hdrs[Last(h'.blocks)].next.None?)
  {
    var a := p.value - g.hdr;
    NullNextIsTail(g, h, a);
    PresentStarted(g, h, a);
    var j := TailRun(h);
    ReleaseTailDropsLast(g, h);
    if j == 0 {
      ReleaseTailEmpties(g, h);
    } else {
      ReleaseTailCuts(g, h);
    }
  }

  /** The released tail block's header is no longer in the heap. */
  lemma ReleaseTailDropsLast(g: Geometry, h: Heap)
    requires Started(g, h) && h.blocks != []
    ensures Last(h.blocks) !in ReleaseTail(g, h).hdrs
  {
    var j := TailRun(h);
    if j == 0 {
      ReleaseTailEmpties(g, h);
    } else {
      ReleaseTailMap(g, h);
      if j < |h.blocks| - 1 {
        Ordered(g, h, j, |h.blocks| - 1);
      }
    }
  }

  /** hfree() twice with the same pointer is hfree() once. */
  lemma FreeIdempotent(g: Geometry, h: Heap, p: Option<nat>)
    requires WellFormed(g, h)
    ensures WellFormed(g, Free(g, h, p)) && Free(g, Free(g, h, p), p) == Free(g, h, p)
  {
    FreeWellFormed(g, h, p);
    FreeSettles(g, h, p, Free(g, h, p));
  }

  /** After hfree(p), p's block is gone or free, so a second hfree(p) changes nothing. */
  lemma FreeSettles(g: Geometry, h: Heap, p: Option<nat>, h': Heap)
    requires WellFormed(g, h) && h' == Free(g, h, p) && WellFormed(g, h')
    ensures Free(g, h', p) == h'
  {
    if ReleasesTail(g, h, p) {
      FreeReleasesTrailingRun(g, h, p);
      assert p.value - g.hdr !in h'.hdrs;
    } else if p.Some? && p.value >= g.hdr && p.value - g.hdr in h.hdrs {
      FreeMarks(g, h, p);
      assert h'.hdrs[p.value - g.hdr].free;
    }
  }

  /** The corrected tail release keeps every occupied block other than the last one, with its size. */
  lemma ReleaseTailKeepsLive(g: Geometry, h: Heap, m: nat)
    requires Started(g, h) && m < |h.blocks| - 1 && !h.hdrs[h.blocks[m]].free
    ensures var r, a := ReleaseTail(g, h), h.blocks[m];
      a in r.hdrs && !r.hdrs[a].free && r.hdrs[a].payload == h.hdrs[a].payload
  {
    var j := TailRun(h);
    assert m < j;
    ReleaseTailCuts(g, h);
    assert h.blocks[..j][m] == h.blocks[m];
  }

  /**
   * hfree(p) leaves every other occupied block where it was, occupied and
   * with its size, and afterwards p's block is free or no longer in the heap.
   */
  lemma FreeKeepsOthers(g: Geometry, h: Heap, p: Option<nat>)
    requires WellFormed(g, h)
    ensures var h' := Free(g, h, p);
      (forall a :: a in h.hdrs && !h.hdrs[a].free && Some(a + g.hdr) != p ==>
         a in h'.hdrs && !h'.hdrs[a].free && h'.hdrs[a].payload == h.hdrs[a].payload) &&
      (p.Some? && p.value >= g.hdr && p.value - g.hdr in h.hdrs ==>
         p.value - g.hdr !in h'.hdrs || h'.hdrs[p.value - g.hdr].free)
  {
    if ReleasesTail(g, h, p) {
      FreeReleasesTrailingRun(g, h, p);
      forall a | a in h.hdrs && !h.hdrs[a].free && Some(a + g.hdr) != p
        ensures a in Free(g, h, p).hdrs && !Free(g, h, p).hdrs[a].free
        ensures Free(g, h, p).hdrs[a].payload == h.hdrs[a].payload
      {
        FreeTailKeeps(g, h, p, a);
      }
    }
  }

  /** Releasing the tail keeps each other occupied block. */
  lemma FreeTailKeeps(g: Geometry, h: Heap, p: Option<nat>, a: nat)
    requires WellFormed(g, h) && ReleasesTail(g, h, p)
    requires a in h.hdrs && !h.hdrs[a].free && a != p.value - g.hdr
    ensures var h' := Free(g, h, p);
      a in h'.hdrs && !h'.hdrs[a].free && h'.hdrs[a].payload == h.hdrs[a].payload
  {
    FreeReleasesTrailingRun(g, h, p);
    PresentStarted(g, h, a);
    var m :| 0 <= m < |h.blocks| && h.blocks[m] == a;
    assert m != |h.blocks| - 1;
    ReleaseTailKeepsLive(g, h, m);
  }

  /**
   * Each old header survives the growth followed by the cut before the new
   * block: all but the last are untouched, and the last gets back its NULL hdr_next.
   */
  lemma AppendCutKeeps(g: Geometry, h: Heap, need: nat, r: Heap, m: nat)
    requires g.Valid() && Listed(h) && m < |h.blocks| && h.brk !in h.hdrs
    requires m < |h.blocks| - 1 ==> h.blocks[m] != Last(h.blocks)
    requires h.hdrs[Last(h.blocks)].next.None?
    requires Listed(Append(g, h, need, need + g.hdr))
    requires CutAt(g, Append(g, h, need, need + g.hdr), |h.blocks|, r)
    ensures h.blocks[m] in r.hdrs && r.hdrs[h.blocks[m]] == h.hdrs[h.blocks[m]]
  {
    var h1 := Append(g, h, need, need + g.hdr);
    var n := |h.blocks|;
    var a := h.blocks[m];
    assert h1.blocks == h.blocks + [h.brk];
    assert h1.blocks[m] == a && h1.blocks[..n][m] == a;
    if m < n - 1 {
      assert r.hdrs[a] == h1.hdrs[a];
    } else {
      assert r.hdrs[a] == h1.hdrs[a].(next := None);
    }
  }

  /** The facts about a heap's last block that undoing a growth relies on. */
  lemma TailFacts(g: Geometry, h: Heap)
    requires Started(g, h) && h.blocks != []
    ensures h.brk !in h.hdrs
    ensures forall m :: 0 <= m < |h.blocks| - 1 ==> h.blocks[m] != Last(h.blocks)
    ensures h.hdrs[Last(h.blocks)].next.None?
  {
    BreakIsFresh(g, h);
    Disjoint(g, h);
    LinkedAt(h, |h.blocks| - 1);
  }

  /**
   * Growth by one block followed by the cut before that block is the
   * identity, for a heap whose blocks lie below the break, whose last block
   * is the only one at its address and has a NULL hdr_next.
   */
  lemma AppendCutRestores(g: Geometry, h: Heap, need: nat, r: Heap)
    requires g.Valid() && Listed(h) && h.blocks != [] && h.brk !in h.hdrs
    requires forall m :: 0 <= m < |h.blocks| - 1 ==> h.blocks[m] != Last(h.blocks)
    requires h.hdrs[Last(h.blocks)].next.None?
    requires Listed(Append(g, h, need, need + g.hdr))
    requires CutAt(g, Append(g, h, need, need + g.hdr), |h.blocks|, r)
    ensures r == h
  {
    var n := |h.blocks|;
    var h1 := Append(g, h, need, need + g.hdr);
    assert h1.blocks[..n] == h.blocks;
    forall a | a in h.hdrs
      ensures a in r.hdrs && r.hdrs[a] == h.hdrs[a]
    {
      var m :| 0 <= m < n && h.blocks[m] == a;
      AppendCutKeeps(g, h, need, r, m);
    }
    assert r.hdrs == h.hdrs;
  }

  /**
   * Freeing the block an hmalloc() has just placed at the break, when the
   * block before it (if any) is occupied, gives back the heap hmalloc() started from.
   */
  lemma FreeUndoesGrowth(g: Geometry, limit: nat, h: Heap, need: nat)
    requires WellFormed(g, h) && need % g.unit == 0
    requires forall j :: 0 <= j < |h.blocks| ==> !Fits(h.hdrs[h.blocks[j]], need)
    requires Capture(h).brk + need + g.hdr <= limit
    requires h.blocks == [] ==> h.start.None?
    requires h.blocks != [] ==> !h.hdrs[Last(h.blocks)].free
    ensures var (h1, r) := Malloc(g, limit, h, need);
      WellFormed(g, h1) && Free(g, h1, r) == h
  {
    var h1 := Append(g, Capture(h), need, need + g.hdr);
    var r := Some(h.brk + g.hdr);
    assert Malloc(g, limit, h, need) == (h1, r) by {
      MallocGrowth(g, limit, h, need);
    }
    ReleaseUndoesGrowth(g, h, need);
    assert ReleasesTail(g, h1, r);
    assert h1.blocks != [] && Free(g, h1, r) == ReleaseTail(g, h1);
  }

  /**
   * From a heap whose heap_start was captured but which holds no block (a
   * first hmalloc() whose growth failed), growing and then freeing the new
   * block empties the heap and sets heap_start back to NULL.
   */
  lemma FreeAfterGrowthFromCapturedEmpty(g: Geometry, limit: nat, h: Heap, need: nat)
    requires WellFormed(g, h) && need % g.unit == 0 && h.blocks == [] && h.start.Some?
    requires h.brk + need + g.hdr <= limit
    ensures var (h1, r) := Malloc(g, limit, h, need);
      WellFormed(g, h1) && Free(g, h1, r) == Heap(None, h.brk, map[], []) &&
      Free(g, h1, r) != h
  {
    var h1 := Append(g, h, need, need + g.hdr);
    assert Capture(h) == h;
    MallocGrowth(g, limit, h, need);
    GrowWellFormed(g, h, need);
    assert h1.blocks == [h.brk] && h1.hdrs[h.brk] == Header(need, false, None, None);
    assert TailRun(h1) == 0;
    ReleaseTailEmpties(g, h1);
  }

  /** Releasing the tail of a heap just grown by one block gives back the heap before the growth. */
  lemma ReleaseUndoesGrowth(g: Geometry, h: Heap, need: nat)
    requires WellFormed(g, h) && need % g.unit == 0
    requires h.blocks == [] ==> h.start.None?
    requires h.blocks != [] ==> !h.hdrs[Last(h.blocks)].free
    ensures var h1 := Append(g, Capture(h), need, need + g.hdr);
      Started(g, h1) && Last(h1.blocks) == h.brk && h1.hdrs[h.brk] == Header(need, false, PrevOf(h1.blocks, |h.blocks|), None) &&
      ReleaseTail(g, h1) == h
  {
    var h0 := Capture(h);
    var h1 := Append(g, h0, need, need + g.hdr);
    assert Started(g, h0) by {
      CaptureWellFormed(g, h);
    }
    assert WellFormed(g, h1) by {
      GrowWellFormed(g, h0, need);
    }
    var n := |h.blocks|;
    assert h1.blocks == h.blocks + [h.brk] && Last(h1.blocks) == h.brk && h.brk !in h.hdrs by {
      BreakIsFresh(g, h0);
    }
    if n == 0 {
      assert TailRun(h1) == 0;
      assert h.hdrs == map[];
      ReleaseTailEmpties(g, h1);
    } else {
      assert h1.blocks[n - 1] == Last(h.blocks);
      assert TailRun(h1) == n;
      ReleaseTailCuts(g, h1);
      TailFacts(g, h);
      AppendCutRestores(g, h, need, ReleaseTail(g, h1));
    }
  }

  /**
   * The tail release as written, whenever a block survives it: the
   * survivor's hdr_next still names the released header, which lies at
   * the new break and is no longer in the heap, so the heap is not well formed.
   */
  lemma StaleLinkAsWritten(g: Geometry, h: Heap)
    requires Started(g, h) && h.blocks != [] && TailRun(h) > 0
    ensures var w, j := ReleaseTailAsWritten(g, h), TailRun(h);
      w.blocks != [] && Last(w.blocks) in w.hdrs && w.hdrs[Last(w.blocks)].next == Some(w.brk) &&
      w.brk !in w.hdrs && !WellFormed(g, w)
  {
    var j := TailRun(h);
    var w := ReleaseTailAsWritten(g, h);
    var b := h.blocks;
    assert w.brk == b[j] && w.blocks == b[..j] && w.hdrs == Below(h.hdrs, b[j]);
    assert w.blocks != [] && Last(w.blocks) == b[j - 1];
    assert b[j - 1] in w.hdrs && w.hdrs[b[j - 1]] == h.hdrs[b[j - 1]] by {
      BelowIsPrefix(g, h, j);
    }
    assert h.hdrs[b[j - 1]].next == Some(b[j]) by {
      LinkedAt(h, j - 1);
    }
    assert w.brk !in w.hdrs;
    if WellFormed(g, w) {
      LinkedAt(w, j - 1);
    }
  }

  /**
   * The smallest instance: after hmalloc() has grown a heap whose last block
   * is occupied, hfree() as written of the new block does not give back
   * the heap hmalloc() started from, while the corrected hfree() does.
   */
  lemma FreeAfterGrowthAsWritten(g: Geometry, limit: nat, h: Heap, need: nat)
    requires WellFormed(g, h) && need % g.unit == 0
    requires forall j :: 0 <= j < |h.blocks| ==> !Fits(h.hdrs[h.blocks[j]], need)
    requires Capture(h).brk + need + g.hdr <= limit
    requires h.blocks != [] && !h.hdrs[Last(h.blocks)].free
    ensures var (h1, r) := Malloc(g, limit, h, need);
      WellFormed(g, h1) && FreeAsWritten(g, h1, r) != h && Free(g, h1, r) == h
  {
    var h1 := Append(g, Capture(h), need, need + g.hdr);
    var r := Some(h.brk + g.hdr);
    assert Malloc(g, limit, h, need) == (h1, r) by {
      MallocGrowth(g, limit, h, need);
    }
    assert WellFormed(g, h1) && Free(g, h1, r) == h by {
      FreeUndoesGrowth(g, limit, h, need);
    }
    var n := |h.blocks|;
    assert Started(g, h1) && h1.blocks != [] && TailRun(h1) == n && ReleasesTail(g, h1, r) by {
      assert h1.blocks == h.blocks + [h.brk];
      assert h1.blocks[n - 1] == Last(h.blocks);
    }
    assert !WellFormed(g, FreeAsWritten(g, h1, r)) by {
      StaleLinkAsWritten(g, h1);
    }
  }
}
