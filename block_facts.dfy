/**
 * Consequences of well-formedness that every operation relies on: blocks
 * do not overlap, lie between heap_start and the break, and start at
 * aligned offsets from heap_start.
 */
module BlockFacts {
  import opened Align
  import opened Blocks

  /** A well-formed heap after the first hmalloc(): heap_start is set. */
  ghost predicate Started(g: Geometry, h: Heap)
  {
    WellFormed(g, h) && h.start.Some?
  }

  /** A block lies strictly below its own end: AL_HDR_SZ is positive. */
  lemma HeaderPositive(g: Geometry)
    requires g.Valid()
    ensures g.hdr >= 1
  {
  }

  lemma {:induction false} EndBefore(g: Geometry, h: Heap, i: nat, j: nat)
    requires Started(g, h) && i < j < |h.blocks|
    ensures End(g, h.hdrs, h.blocks[i]) <= h.blocks[j]
    decreases j - i
  {
    if j > i + 1 {
      EndBefore(g, h, i, j - 1);
      HeaderPositive(g);
      assert End(g, h.hdrs, h.blocks[j - 1]) == h.blocks[j];
    }
  }

  /** No two blocks overlap: each ends at or before the start of every later one. */
  lemma Disjoint(g: Geometry, h: Heap)
    requires Started(g, h)
    ensures forall i, j :: 0 <= i < j < |h.blocks| ==> End(g, h.hdrs, h.blocks[i]) <= h.blocks[j]
    ensures forall i, j :: 0 <= i < j < |h.blocks| ==> h.blocks[i] < h.blocks[j]
  {
    HeaderPositive(g);
    forall i, j | 0 <= i < j < |h.blocks|
      ensures End(g, h.hdrs, h.blocks[i]) <= h.blocks[j]
    {
      EndBefore(g, h, i, j);
    }
  }

  /** Every block lies within [heap_start, break). */
  lemma WithinHeap(g: Geometry, h: Heap)
    requires Started(g, h)
    ensures forall i :: 0 <= i < |h.blocks| ==>
              h.start.value <= h.blocks[i] && End(g, h.hdrs, h.blocks[i]) <= h.brk
  {
    Disjoint(g, h);
    HeaderPositive(g);
    forall i | 0 <= i < |h.blocks|
      ensures h.start.value <= h.blocks[i] && End(g, h.hdrs, h.blocks[i]) <= h.brk
    {
      var n := |h.blocks| - 1;
      if i < n {
        assert End(g, h.hdrs, h.blocks[i]) <= h.blocks[n] < End(g, h.hdrs, h.blocks[n]);
      }
      if 0 < i {
        assert h.blocks[0] < h.blocks[i];
      }
    }
  }

  /** Each header, and so each payload, sits a multiple of A past heap_start. */
  lemma {:induction false} OffsetAligned(g: Geometry, h: Heap, i: nat)
    requires Started(g, h) && i < |h.blocks|
    ensures h.blocks[i] >= h.start.value
    ensures (h.blocks[i] - h.start.value) % g.unit == 0
    ensures (h.blocks[i] + g.hdr - h.start.value) % g.unit == 0
  {
    var st := h.start.value;
    if i == 0 {
      DivModUnique(0, g.unit, 0, 0);
    } else {
      OffsetAligned(g, h, i - 1);
      var b := h.blocks[i - 1];
      assert End(g, h.hdrs, b) == h.blocks[i];
      assert h.blocks[i] - st == (b + g.hdr - st) + h.hdrs[b].payload;
      SumOfMultiples(b + g.hdr - st, h.hdrs[b].payload, g.unit);
    }
    SumOfMultiples(h.blocks[i] - st, g.hdr, g.unit);
  }

  /** Only the last block has a NULL hdr_next. */
  lemma NullNextIsTail(g: Geometry, h: Heap, a: nat)
    requires WellFormed(g, h) && a in h.hdrs && h.hdrs[a].next.None?
    ensures h.blocks != [] && a == Last(h.blocks)
  {
    assert a in h.blocks;
    var i :| 0 <= i < |h.blocks| && h.blocks[i] == a;
    assert h.start.Some? && Linked(h);
    LinkedAt(h, i);
  }

  /** The links of the block at position i, read off Linked. */
  lemma LinkedAt(h: Heap, i: nat)
    requires Listed(h) && Linked(h) && i < |h.blocks|
    ensures h.hdrs[h.blocks[i]].prev == PrevOf(h.blocks, i)
    ensures h.hdrs[h.blocks[i]].next == NextOf(h.blocks, i)
    ensures h.hdrs[h.blocks[i]].next.None? <==> i == |h.blocks| - 1
    ensures h.hdrs[h.blocks[i]].prev.None? <==> i == 0
  {
    assert h.hdrs[h.blocks[i]].prev == PrevOf(h.blocks, i);
    assert h.hdrs[h.blocks[i]].next == NextOf(h.blocks, i);
  }

  /** Blocks are in address order. */
  lemma Ordered(g: Geometry, h: Heap, i: nat, j: nat)
    requires Started(g, h) && i < j < |h.blocks|
    ensures h.blocks[i] < h.blocks[j]
  {
    EndBefore(g, h, i, j);
    HeaderPositive(g);
  }

  /** The headers below a block's address are exactly those of the earlier blocks. */
  lemma BelowIsPrefix(g: Geometry, h: Heap, j: nat)
    requires Started(g, h) && j < |h.blocks|
    ensures forall m :: 0 <= m < j ==> h.blocks[m] in Below(h.hdrs, h.blocks[j])
    ensures forall b :: b in Below(h.hdrs, h.blocks[j]) ==> b in h.blocks[..j]
  {
    forall m | 0 <= m < j
      ensures h.blocks[m] in Below(h.hdrs, h.blocks[j])
    {
      Ordered(g, h, m, j);
    }
    forall b | b in Below(h.hdrs, h.blocks[j])
      ensures b in h.blocks[..j]
    {
      var m :| 0 <= m < |h.blocks| && h.blocks[m] == b;
      if j < m {
        Ordered(g, h, j, m);
      }
      assert h.blocks[..j][m] == b;
    }
  }

  /** Setting or clearing one block's free flag keeps the heap well formed. */
  lemma FlagWellFormed(g: Geometry, h: Heap, a: nat, f: bool)
    requires Started(g, h) && a in h.hdrs
    ensures Started(g, h.(hdrs := h.hdrs[a := h.hdrs[a].(free := f)]))
  {
    var h' := h.(hdrs := h.hdrs[a := h.hdrs[a].(free := f)]);
    var b := h.blocks;
    forall i | 0 <= i < |b|
      ensures h'.hdrs[b[i]] == h.hdrs[b[i]].(free := h'.hdrs[b[i]].free)
    {
    }
    assert Tiled(g, h.start.value, h') by {
      forall i | 0 <= i < |b| - 1
        ensures End(g, h'.hdrs, b[i]) == b[i + 1]
      {
        assert End(g, h.hdrs, b[i]) == b[i + 1];
      }
    }
    assert Linked(h') by {
      forall i | 0 <= i < |b|
        ensures h'.hdrs[b[i]].prev == PrevOf(b, i)
        ensures h'.hdrs[b[i]].next == NextOf(b, i)
      {
        LinkedAt(h, i);
      }
    }
    assert Aligned(g, h') by {
      forall i | 0 <= i < |b|
        ensures h'.hdrs[b[i]].payload % g.unit == 0
      {
        assert h.hdrs[b[i]].payload % g.unit == 0;
      }
    }
  }

  /** The heap is empty exactly when the break is still at heap_start. */
  lemma NonEmptyBreak(g: Geometry, h: Heap)
    requires Started(g, h)
    ensures h.blocks == [] <==> h.brk == h.start.value
  {
    if h.blocks != [] {
      WithinHeap(g, h);
      HeaderPositive(g);
      assert h.start.value <= Last(h.blocks) < End(g, h.hdrs, Last(h.blocks));
    }
  }

  /** An address none of the listed blocks has is not a header in the heap. */
  lemma NotListed(h: Heap, t: int)
    requires Listed(h) && forall m :: 0 <= m < |h.blocks| ==> h.blocks[m] != t
    ensures forall a :: a in h.hdrs ==> a != t
  {
    forall a | a in h.hdrs
      ensures a != t
    {
      assert a in h.blocks;
    }
  }
}
