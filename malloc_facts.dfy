/**
 * What hmalloc() promises, proved about the specification function Malloc:
 * it keeps the heap well formed, serves the first block that fits (split
 * when the remainder can hold a block of its own), grows the heap by
 * exactly need + AL_HDR_SZ otherwise, and returns NULL only when neither
 * is possible.
 */
module MallocFacts {
  import opened Align
  import opened Blocks
  import opened BlockFacts

  // ------------------------------------------------------------ heap_start

  lemma CaptureWellFormed(g: Geometry, h: Heap)
    requires WellFormed(g, h)
    ensures Started(g, Capture(h))
    ensures Capture(h).hdrs == h.hdrs && Capture(h).blocks == h.blocks && Capture(h).brk == h.brk
    ensures h.start.None? ==> Capture(h).start == Some(h.brk) && h.blocks == []
  {
  }

  // ---------------------------------------------------------------- growth

  /** The break lies past every header, so the old break is a fresh address. */
  lemma BreakIsFresh(g: Geometry, h: Heap)
    requires Started(g, h)
    ensures h.brk !in h.hdrs
    ensures forall i :: 0 <= i < |h.blocks| ==> h.blocks[i] < h.brk
  {
    WithinHeap(g, h);
    HeaderPositive(g);
  }

  /** The appended block links back to the old last one, which now links forward to it. */
  lemma GrowLinked(g: Geometry, h: Heap, need: nat)
    requires Started(g, h)
    ensures Listed(Append(g, h, need, need + g.hdr))
    ensures Linked(Append(g, h, need, need + g.hdr))
  {
    var h' := Append(g, h, need, need + g.hdr);
    var b, b' := h.blocks, h'.blocks;
    var n := |b|;
    BreakIsFresh(g, h);
    assert b' == b + [h.brk];
    assert Listed(h') by {
      forall a | a in h'.hdrs ensures a in b' {
        if a != h.brk {
          assert a in h.hdrs;
          var i :| 0 <= i < n && b[i] == a;
          assert b'[i] == a;
        } else {
          assert b'[n] == a;
        }
      }
    }
    forall i | 0 <= i < |b'|
      ensures h'.hdrs[b'[i]].prev == PrevOf(b', i)
      ensures h'.hdrs[b'[i]].next == NextOf(b', i)
    {
      if i < n {
        LinkedAt(h, i);
        assert b'[i] == b[i];
      }
    }
  }

  /** Appending a block of `need` bytes while raising the break by need + AL_HDR_SZ keeps the heap well formed. */
  lemma GrowWellFormed(g: Geometry, h: Heap, need: nat)
    requires Started(g, h) && need % g.unit == 0
    ensures WellFormed(g, Append(g, h, need, need + g.hdr))
  {
    var h' := Append(g, h, need, need + g.hdr);
    var b, b' := h.blocks, h'.blocks;
    var n := |b|;
    BreakIsFresh(g, h);
    assert b' == b + [h.brk];
    // Old headers keep their payloads and prev links; only the old last gains a next.
    forall i | 0 <= i < n
      ensures b'[i] == b[i] && b[i] in h'.hdrs
      ensures h'.hdrs[b[i]].payload == h.hdrs[b[i]].payload
      ensures h'.hdrs[b[i]].prev == h.hdrs[b[i]].prev
      ensures i < n - 1 ==> h'.hdrs[b[i]].next == h.hdrs[b[i]].next
    {
    }
    GrowLinked(g, h, need);
    var st := h.start.value;
    assert Tiled(g, st, h') by {
      forall i | 0 <= i < |b'| - 1
        ensures End(g, h'.hdrs, b'[i]) == b'[i + 1]
      {
        if i < n - 1 {
          assert End(g, h.hdrs, b[i]) == b[i + 1];
        }
      }
      if n == 0 {
        assert h.brk == st;
      }
    }
    assert Aligned(g, h') by {
      forall i | 0 <= i < |b'|
        ensures h'.hdrs[b'[i]].payload % g.unit == 0
      {
        if i < n {
          assert h.hdrs[b[i]].payload % g.unit == 0;
        }
      }
    }
  }

  // ------------------------------------------------------------------ reuse

  /** Taking a fitting free block whole only clears its free flag, which keeps the heap well formed. */
  lemma TakeWholeWellFormed(g: Geometry, h: Heap, k: nat, need: nat)
    requires Started(g, h) && k < |h.blocks| && Fits(h.hdrs[h.blocks[k]], need)
    requires !Splits(g, h.hdrs[h.blocks[k]], need)
    ensures WellFormed(g, Reuse(g, h, k, need))
  {
    TakeWholeKeeps(g, h, k, need);
    FlagWellFormed(g, h, h.blocks[k], false);
  }

  /** Taking block k whole changes only its free flag. */
  lemma TakeWholeKeeps(g: Geometry, h: Heap, k: nat, need: nat)
    requires Started(g, h) && k < |h.blocks| && Fits(h.hdrs[h.blocks[k]], need)
    requires !Splits(g, h.hdrs[h.blocks[k]], need)
    ensures Reuse(g, h, k, need) == h.(hdrs := h.hdrs[h.blocks[k] := h.hdrs[h.blocks[k]].(free := false)])
  {
  }

  /** The situation in which hmalloc() splits block number k. */
  ghost predicate SplitCase(g: Geometry, h: Heap, k: nat, need: nat)
  {
    Started(g, h) && k < |h.blocks| && Fits(h.hdrs[h.blocks[k]], need) &&
    Splits(g, h.hdrs[h.blocks[k]], need) && need % g.unit == 0
  }

  /** The new header's address lies inside the split block and is not a header yet. */
  lemma SplitFresh(g: Geometry, h: Heap, k: nat, need: nat)
    requires SplitCase(g, h, k, need)
    ensures var a := h.blocks[k]; var n := a + g.hdr + need;
      n !in h.hdrs && a < n < End(g, h.hdrs, a)
    ensures var next := h.hdrs[h.blocks[k]].next;
      next.Some? ==> k + 1 < |h.blocks| && next.value == h.blocks[k + 1] && next.value in h.hdrs
  {
    var b := h.blocks;
    var a := b[k];
    var n := a + g.hdr + need;
    HeaderPositive(g);
    LinkedAt(h, k);
    if n in h.hdrs {
      var m :| 0 <= m < |b| && b[m] == n;
      if m < k {
        EndBefore(g, h, m, k);
      } else if k < m {
        EndBefore(g, h, k, m);
      }
    }
  }

  /**
   * The header writes of a split: the taken block shrinks to `need` bytes
   * and points forward to the new header, which takes over the rest of the
   * block and the old forward link; the old successor points back to the
   * new header; no other header changes.
   */
  lemma OccupySplit(g: Geometry, hdrs: map<nat, Header>, a: nat, need: nat)
    requires g.Valid() && a in hdrs && Fits(hdrs[a], need) && Splits(g, hdrs[a], need)
    requires a + g.hdr + need !in hdrs
    requires hdrs[a].next.Some? ==> hdrs[a].next.value in hdrs && hdrs[a].next.value != a
    ensures var n := a + g.hdr + need;
      var o := Occupy(g, hdrs, a, need); var hd := hdrs[a];
      o.Keys == hdrs.Keys + {n} &&
      o[a] == Header(need, false, hd.prev, Some(n)) &&
      o[n] == Header(hd.payload - need - g.hdr, true, Some(a), hd.next) &&
      (hd.next.Some? ==> o[hd.next.value] == hdrs[hd.next.value].(prev := Some(n))) &&
      (forall x :: x in hdrs && x != a && Some(x) != hd.next ==> o[x] == hdrs[x])
  {
  }

  /** Position by position, the block list after a split at k. */
  lemma SplitIndex(b: seq<nat>, k: nat, n: nat)
    requires k < |b|
    ensures var b' := b[..k + 1] + [n] + b[k + 1..];
      |b'| == |b| + 1 && b'[k + 1] == n &&
      (forall i :: 0 <= i <= k ==> b'[i] == b[i]) &&
      (forall i :: k + 1 < i < |b'| ==> b'[i] == b[i - 1])
  {
  }

  /**
   * h2 is the heap left by splitting block k of h for a request of `need`
   * bytes, described field by field.
   */
  ghost predicate SplitOf(g: Geometry, h: Heap, k: nat, need: nat, h2: Heap)
    requires SplitCase(g, h, k, need)
  {
    var a := h.blocks[k];
    var n := a + g.hdr + need;
    var hd := h.hdrs[a];
    h2.start == h.start && h2.brk == h.brk &&
    |h2.blocks| == |h.blocks| + 1 && h2.blocks[k + 1] == n &&
    (forall i {:trigger h.blocks[i]} :: 0 <= i <= k ==> h2.blocks[i] == h.blocks[i]) &&
    (forall i {:trigger h.blocks[i]} :: k < i < |h.blocks| ==> h2.blocks[i + 1] == h.blocks[i]) &&
    h2.hdrs.Keys == h.hdrs.Keys + {n} &&
    h2.hdrs[a] == Header(need, false, hd.prev, Some(n)) &&
    h2.hdrs[n] == Header(hd.payload - need - g.hdr, true, Some(a), hd.next) &&
    (hd.next.Some? ==> hd.next.value in h.hdrs && hd.next.value in h2.hdrs && h2.hdrs[hd.next.value] == h.hdrs[hd.next.value].(prev := Some(n))) &&
    (forall x :: x in h.hdrs && x != a && Some(x) != hd.next ==> h2.hdrs[x] == h.hdrs[x])
  }

  lemma ReuseSplits(g: Geometry, h: Heap, k: nat, need: nat)
    requires SplitCase(g, h, k, need)
    ensures SplitOf(g, h, k, need, Reuse(g, h, k, need))
  {
    var a := h.blocks[k];
    var n := a + g.hdr + need;
    var hd := h.hdrs[a];
    var h2 := Reuse(g, h, k, need);
    assert h2.hdrs == Occupy(g, h.hdrs, a, need) && h2.blocks == h.blocks[..k + 1] + [n] + h.blocks[k + 1..];
    assert n !in h.hdrs && (hd.next.Some? ==> hd.next.value in h.hdrs && hd.next.value != a) by {
      SplitFresh(g, h, k, need);
    }
    OccupySplit(g, h.hdrs, a, need);
    SplitIndex(h.blocks, k, n);
  }

  /**
   * A block made by a split is free and holds at least one aligned unit:
   * the split test against MIN_BLOCK_SZ leaves room for a header and A bytes.
   */
  lemma SplitRemainderHoldsUnit(g: Geometry, h: Heap, k: nat, need: nat)
    requires SplitCase(g, h, k, need)
    ensures var n, r := h.blocks[k] + g.hdr + need, Reuse(g, h, k, need);
      n in r.hdrs && r.hdrs[n].free && r.hdrs[n].payload >= g.unit
  {
    ReuseSplits(g, h, k, need);
  }

  lemma SplitListed(g: Geometry, h: Heap, k: nat, need: nat, h2: Heap)
    requires SplitCase(g, h, k, need) && SplitOf(g, h, k, need, h2)
    ensures Listed(h2)
  {
    var b := h.blocks;
    var n := b[k] + g.hdr + need;
    forall i | 0 <= i < |h2.blocks|
      ensures h2.blocks[i] in h2.hdrs
    {
      if i <= k {
        assert h2.blocks[i] == b[i];
      } else if i > k + 1 {
        assert h2.blocks[i] == b[i - 1];
      }
    }
    forall x | x in h2.hdrs
      ensures x in h2.blocks
    {
      if x == n {
        assert h2.blocks[k + 1] == x;
      } else {
        var i :| 0 <= i < |b| && b[i] == x;
        if i <= k {
          assert h2.blocks[i] == x;
        } else {
          assert h2.blocks[i + 1] == x;
        }
      }
    }
  }

  /** A split leaves every other old header as it was, except the successor's back link. */
  lemma SplitKeeps(g: Geometry, h: Heap, k: nat, need: nat, h2: Heap, j: nat)
    requires SplitCase(g, h, k, need) && SplitOf(g, h, k, need, h2)
    requires j < |h.blocks| && j != k
    ensures h.blocks[j] in h2.hdrs
    ensures h2.hdrs[h.blocks[j]].payload == h.hdrs[h.blocks[j]].payload
    ensures j != k + 1 ==> h2.hdrs[h.blocks[j]] == h.hdrs[h.blocks[j]]
    ensures j == k + 1 ==> h2.hdrs[h.blocks[j]] == h.hdrs[h.blocks[j]].(prev := Some(h.blocks[k] + g.hdr + need))
  {
    LinkedAt(h, k);
    if j < k {
      Ordered(g, h, j, k);
      if k + 1 < |h.blocks| {
        Ordered(g, h, j, k + 1);
      }
    } else if j > k + 1 {
      Ordered(g, h, k, j);
      Ordered(g, h, k + 1, j);
    }
  }

  lemma SplitEndAt(g: Geometry, h: Heap, k: nat, need: nat, h2: Heap, i: nat)
    requires SplitCase(g, h, k, need) && SplitOf(g, h, k, need, h2)
    requires i < |h2.blocks| - 1 && h2.blocks[i] in h2.hdrs
    ensures End(g, h2.hdrs, h2.blocks[i]) == h2.blocks[i + 1]
  {
    var b := h.blocks;
    var a := b[k];
    var n := a + g.hdr + need;
    if i < k {
      assert h2.hdrs[b[i]].payload == h.hdrs[b[i]].payload by {
        SplitKeeps(g, h, k, need, h2, i);
      }
      assert h2.blocks[i] == b[i] && h2.blocks[i + 1] == b[i + 1];
      assert End(g, h.hdrs, b[i]) == b[i + 1];
      assert End(g, h2.hdrs, h2.blocks[i]) == End(g, h.hdrs, b[i]);
    } else if i == k {
      assert h2.blocks[i] == a && h2.blocks[i + 1] == n;
      assert End(g, h2.hdrs, a) == n;
    } else if i == k + 1 {
      assert h2.blocks[i] == n && k + 1 < |b| && h2.blocks[i + 1] == b[k + 1];
      assert End(g, h.hdrs, b[k]) == b[k + 1];
      assert n in h2.hdrs && h2.hdrs[n].payload == h.hdrs[a].payload - need - g.hdr;
      assert End(g, h2.hdrs, n) == End(g, h.hdrs, a);
    } else {
      var x := b[i - 1];
      assert h2.hdrs[x].payload == h.hdrs[x].payload by {
        SplitKeeps(g, h, k, need, h2, i - 1);
      }
      assert h2.blocks[i] == x && h2.blocks[i + 1] == b[i];
      assert End(g, h.hdrs, x) == b[i];
      assert End(g, h2.hdrs, x) == End(g, h.hdrs, x);
    }
  }

  lemma SplitEndsAtBreak(g: Geometry, h: Heap, k: nat, need: nat, h2: Heap)
    requires SplitCase(g, h, k, need) && SplitOf(g, h, k, need, h2) && Listed(h2)
    ensures h2.blocks[0] == h.start.value
    ensures End(g, h2.hdrs, Last(h2.blocks)) == h2.brk
  {
    var b := h.blocks;
    var l := |b| - 1;
    assert h2.blocks[0] == b[0];
    assert End(g, h.hdrs, b[l]) == h.brk;
    if k == l {
      var a := b[k];
      var n := a + g.hdr + need;
      assert Last(h2.blocks) == n;
      assert n in h2.hdrs && h2.hdrs[n].payload == h.hdrs[a].payload - need - g.hdr;
      assert End(g, h2.hdrs, n) == End(g, h.hdrs, a);
    } else {
      var x := b[l];
      assert h2.hdrs[x].payload == h.hdrs[x].payload by {
        SplitKeeps(g, h, k, need, h2, l);
      }
      assert Last(h2.blocks) == h2.blocks[l + 1] == x;
      assert End(g, h2.hdrs, x) == End(g, h.hdrs, x);
    }
  }

  lemma SplitTiled(g: Geometry, h: Heap, k: nat, need: nat, h2: Heap)
    requires SplitCase(g, h, k, need) && SplitOf(g, h, k, need, h2)
    ensures Listed(h2) && Tiled(g, h.start.value, h2)
  {
    SplitListed(g, h, k, need, h2);
    SplitEndsAtBreak(g, h, k, need, h2);
    forall i | 0 <= i < |h2.blocks| - 1
      ensures End(g, h2.hdrs, h2.blocks[i]) == h2.blocks[i + 1]
    {
      SplitEndAt(g, h, k, need, h2, i);
    }
  }

  /** The links of the blocks before the split one are unchanged. */
  lemma SplitLinkBefore(g: Geometry, h: Heap, k: nat, need: nat, h2: Heap, i: nat)
    requires SplitCase(g, h, k, need) && SplitOf(g, h, k, need, h2)
    requires i < k && h2.blocks[i] in h2.hdrs
    ensures h2.hdrs[h2.blocks[i]].prev == PrevOf(h2.blocks, i)
    ensures h2.hdrs[h2.blocks[i]].next == NextOf(h2.blocks, i)
  {
    var b := h.blocks;
    SplitKeeps(g, h, k, need, h2, i);
    LinkedAt(h, i);
    assert h2.blocks[i] == b[i] && h2.blocks[i + 1] == b[i + 1];
    if i > 0 {
      assert h2.blocks[i - 1] == b[i - 1];
    }
  }

  /** The split block keeps its back link and now points to the new header, which points back to it. */
  lemma SplitLinkMiddle(g: Geometry, h: Heap, k: nat, need: nat, h2: Heap, i: nat)
    requires SplitCase(g, h, k, need) && SplitOf(g, h, k, need, h2)
    requires (i == k || i == k + 1) && h2.blocks[i] in h2.hdrs
    ensures h2.hdrs[h2.blocks[i]].prev == PrevOf(h2.blocks, i)
    ensures h2.hdrs[h2.blocks[i]].next == NextOf(h2.blocks, i)
  {
    var b := h.blocks;
    var a := b[k];
    var n := a + g.hdr + need;
    assert h.hdrs[a].prev == PrevOf(b, k) && h.hdrs[a].next == NextOf(b, k) by {
      LinkedAt(h, k);
    }
    assert h2.blocks[k] == a && h2.blocks[k + 1] == n;
    if i == k {
      if k > 0 {
        assert h2.blocks[k - 1] == b[k - 1];
      }
      assert PrevOf(h2.blocks, k) == PrevOf(b, k);
      assert h2.hdrs[a] == Header(need, false, h.hdrs[a].prev, Some(n));
    } else {
      if k + 1 < |b| {
        assert h2.blocks[k + 2] == b[k + 1];
      }
      assert NextOf(h2.blocks, k + 1) == NextOf(b, k);
      assert h2.hdrs[n].prev == Some(a) && h2.hdrs[n].next == h.hdrs[a].next;
    }
  }

  /** The links of the blocks after the new header are unchanged, except the first one's back link. */
  lemma SplitLinkAfter(g: Geometry, h: Heap, k: nat, need: nat, h2: Heap, i: nat)
    requires SplitCase(g, h, k, need) && SplitOf(g, h, k, need, h2)
    requires k + 1 < i < |h2.blocks| && h2.blocks[i] in h2.hdrs
    ensures h2.hdrs[h2.blocks[i]].prev == PrevOf(h2.blocks, i)
    ensures h2.hdrs[h2.blocks[i]].next == NextOf(h2.blocks, i)
  {
    var b := h.blocks;
    var x := b[i - 1];
    SplitKeeps(g, h, k, need, h2, i - 1);
    LinkedAt(h, i - 1);
    assert h2.blocks[i] == x;
    if i + 1 < |h2.blocks| {
      assert h2.blocks[i + 1] == b[i];
    }
    if i > k + 2 {
      assert h2.blocks[i - 1] == b[i - 2];
    }
  }

  lemma SplitLinked(g: Geometry, h: Heap, k: nat, need: nat, h2: Heap)
    requires SplitCase(g, h, k, need) && SplitOf(g, h, k, need, h2)
    ensures Listed(h2) && Linked(h2)
  {
    SplitListed(g, h, k, need, h2);
    forall i | 0 <= i < |h2.blocks|
      ensures h2.hdrs[h2.blocks[i]].prev == PrevOf(h2.blocks, i)
      ensures h2.hdrs[h2.blocks[i]].next == NextOf(h2.blocks, i)
    {
      if i < k {
        SplitLinkBefore(g, h, k, need, h2, i);
      } else if i <= k + 1 {
        SplitLinkMiddle(g, h, k, need, h2, i);
      } else {
        SplitLinkAfter(g, h, k, need, h2, i);
      }
    }
  }

  lemma SplitAligned(g: Geometry, h: Heap, k: nat, need: nat, h2: Heap)
    requires SplitCase(g, h, k, need) && SplitOf(g, h, k, need, h2)
    ensures Listed(h2) && Aligned(g, h2)
  {
    var b := h.blocks;
    var a := b[k];
    var n := a + g.hdr + need;
    var b2 := h2.blocks;
    var o := h2.hdrs;
    SplitFresh(g, h, k, need);
    SplitListed(g, h, k, need, h2);
    LinkedAt(h, k);
    assert h.hdrs[a].payload % g.unit == 0;
    RemainderAligned(h.hdrs[a].payload, need, g.hdr, g.unit);
    forall i | 0 <= i < |b2|
      ensures o[b2[i]].payload % g.unit == 0
    {
      if i < k {
        Ordered(g, h, i, k);
        assert h.hdrs[b[i]].payload % g.unit == 0;
      } else if i > k + 1 {
        Ordered(g, h, k, i - 1);
        assert h.hdrs[b[i - 1]].payload % g.unit == 0;
      }
    }
  }

  lemma SplitWellFormed(g: Geometry, h: Heap, k: nat, need: nat)
    requires SplitCase(g, h, k, need)
    ensures WellFormed(g, Reuse(g, h, k, need))
  {
    var h2 := Reuse(g, h, k, need);
    ReuseSplits(g, h, k, need);
    SplitTiled(g, h, k, need, h2);
    SplitLinked(g, h, k, need, h2);
    SplitAligned(g, h, k, need, h2);
  }

  /** What remains of an aligned payload after an aligned request and an aligned header is aligned. */
  lemma RemainderAligned(p: nat, need: nat, hdr: nat, unit: nat)
    requires unit >= 1 && p % unit == 0 && need % unit == 0 && hdr % unit == 0
    ensures (p - need - hdr) % unit == 0
  {
    SumOfMultiples(p, need, unit);
    SumOfMultiples(p - need, hdr, unit);
  }


  // --------------------------------------------------------------- hmalloc

  /** The scan stops at the first fitting block. */
  lemma {:induction false} FirstFitIsFirst(hdrs: map<nat, Header>, blocks: seq<nat>, need: nat, k: nat)
    requires forall i :: 0 <= i < |blocks| ==> blocks[i] in hdrs
    requires k < |blocks| && Fits(hdrs[blocks[k]], need)
    requires forall j :: 0 <= j < k ==> !Fits(hdrs[blocks[j]], need)
    ensures FirstFit(hdrs, blocks, need) == k
    decreases k
  {
    if k > 0 {
      assert !Fits(hdrs[blocks[0]], need);
      FirstFitIsFirst(hdrs, blocks[1..], need, k - 1);
    }
  }

  /** hmalloc() keeps the heap well formed. */
  lemma MallocWellFormed(g: Geometry, limit: nat, h: Heap, need: nat)
    requires WellFormed(g, h) && need % g.unit == 0
    ensures WellFormed(g, Malloc(g, limit, h, need).0)
    ensures Malloc(g, limit, h, need).0.start.Some?
  {
    var h0 := Capture(h);
    CaptureWellFormed(g, h);
    var k := FirstFit(h0.hdrs, h0.blocks, need);
    if k < |h0.blocks| {
      if Splits(g, h0.hdrs[h0.blocks[k]], need) {
        SplitWellFormed(g, h0, k, need);
      } else {
        TakeWholeWellFormed(g, h0, k, need);
      }
    } else if h0.brk + need + g.hdr <= limit {
      GrowWellFormed(g, h0, need);
    }
  }

  /**
   * A non-NULL result is the payload of an occupied block of the new heap
   * that holds at least `need` bytes and wastes less than MIN_BLOCK_SZ.
   */
  lemma MallocServes(g: Geometry, limit: nat, h: Heap, need: nat)
    requires WellFormed(g, h) && need % g.unit == 0
    ensures var (h', r) := Malloc(g, limit, h, need);
      r.Some? ==>
        r.value >= g.hdr && r.value - g.hdr in h'.hdrs &&
        !h'.hdrs[r.value - g.hdr].free &&
        need <= h'.hdrs[r.value - g.hdr].payload < need + g.minBlock
  {
    var h0 := Capture(h);
    CaptureWellFormed(g, h);
    var k := FirstFit(h0.hdrs, h0.blocks, need);
    if k < |h0.blocks| && Splits(g, h0.hdrs[h0.blocks[k]], need) {
      ReuseSplits(g, h0, k, need);
    } else if k == |h0.blocks| {
      BreakIsFresh(g, h0);
    }
  }

  /**
   * hmalloc(size) hands out at least `size` bytes whenever ALIGN(size)
   * does not wrap, that is for size <= SIZE_MAX - A + 1.
   */
  lemma MallocServesSize(c: Config, limit: nat, h: Heap, size: nat)
    requires c.Valid() && WellFormed(c.Sizes(), h) && size + c.A() - 1 < SizeLimit
    ensures var g := c.Sizes(); var (h', r) := Malloc(g, limit, h, c.Align(size));
      r.Some? ==>
        r.value >= g.hdr && r.value - g.hdr in h'.hdrs &&
        !h'.hdrs[r.value - g.hdr].free && h'.hdrs[r.value - g.hdr].payload >= size
  {
    AlignRoundsUp(c, size);
    MallocServes(c.Sizes(), limit, h, c.Align(size));
  }

  /** A split leaves the break, heap_start and every block before the split one alone. */
  lemma SplitKeepsPrefix(g: Geometry, h: Heap, k: nat, need: nat, h2: Heap)
    requires SplitCase(g, h, k, need) && SplitOf(g, h, k, need, h2)
    ensures h2.blocks[..k + 1] == h.blocks[..k + 1]
    ensures forall j :: 0 <= j < k ==> h2.hdrs[h.blocks[j]] == h.hdrs[h.blocks[j]]
  {
    forall j | 0 <= j < k
      ensures h2.hdrs[h.blocks[j]] == h.hdrs[h.blocks[j]]
    {
      SplitKeeps(g, h, k, need, h2, j);
    }
    forall j | 0 <= j <= k
      ensures h2.blocks[j] == h.blocks[j]
    {
      assert h2.blocks[j] == h.blocks[j];
    }
  }

  /** Reusing block k leaves the break, heap_start and every block before k alone. */
  lemma ReuseKeepsPrefix(g: Geometry, h: Heap, k: nat, need: nat)
    requires Started(g, h) && k < |h.blocks| && Fits(h.hdrs[h.blocks[k]], need) && need % g.unit == 0
    ensures var h' := Reuse(g, h, k, need);
      h'.brk == h.brk && h'.start == h.start &&
      h'.blocks[..k + 1] == h.blocks[..k + 1] &&
      forall j :: 0 <= j < k ==> h'.hdrs[h.blocks[j]] == h.hdrs[h.blocks[j]]
  {
    if Splits(g, h.hdrs[h.blocks[k]], need) {
      ReuseSplits(g, h, k, need);
      SplitKeepsPrefix(g, h, k, need, Reuse(g, h, k, need));
    } else {
      TakeWholeKeeps(g, h, k, need);
      forall j | 0 <= j < k
        ensures h.blocks[j] != h.blocks[k]
      {
        Ordered(g, h, j, k);
      }
    }
  }

  /**
   * When some free block fits, hmalloc() hands out the first one in list
   * order, without moving the break and without touching the blocks before it.
   */
  lemma MallocFirstFit(g: Geometry, limit: nat, h: Heap, need: nat, k: nat)
    requires WellFormed(g, h) && need % g.unit == 0
    requires k < |h.blocks| && Fits(h.hdrs[h.blocks[k]], need)
    requires forall j :: 0 <= j < k ==> !Fits(h.hdrs[h.blocks[j]], need)
    ensures var (h', r) := Malloc(g, limit, h, need);
      r == Some(h.blocks[k] + g.hdr) && h'.brk == h.brk && h'.start == Capture(h).start &&
      h'.blocks[..k + 1] == h.blocks[..k + 1] &&
      forall j :: 0 <= j < k ==> h'.hdrs[h.blocks[j]] == h.hdrs[h.blocks[j]]
  {
    var h0 := Capture(h);
    CaptureWellFormed(g, h);
    FirstFitIsFirst(h0.hdrs, h0.blocks, need, k);
    ReuseKeepsPrefix(g, h0, k, need);
  }

  /**
   * When no free block fits, hmalloc() raises the break by exactly
   * need + AL_HDR_SZ and appends the new block after the old last one, or,
   * when the break cannot move that far, returns NULL and changes nothing
   * but heap_start.
   */
  lemma MallocGrows(g: Geometry, limit: nat, h: Heap, need: nat)
    requires WellFormed(g, h)
    requires forall j :: 0 <= j < |h.blocks| ==> !Fits(h.hdrs[h.blocks[j]], need)
    ensures var (h', r) := Malloc(g, limit, h, need);
      if h.brk + need + g.hdr <= limit then
        r == Some(h.brk + g.hdr) && h'.brk == h.brk + need + g.hdr &&
        h'.blocks == h.blocks + [h.brk] && h'.start == Capture(h).start
      else
        r.None? && h' == Capture(h)
  {
  }

  /** hmalloc() returns NULL exactly when no free block fits and the break cannot be raised. */
  lemma MallocNull(g: Geometry, limit: nat, h: Heap, need: nat)
    requires WellFormed(g, h)
    ensures var (h', r) := Malloc(g, limit, h, need);
      r.None? <==>
        (forall j :: 0 <= j < |h.blocks| ==> !Fits(h.hdrs[h.blocks[j]], need)) &&
        h.brk + need + g.hdr > limit
    ensures Malloc(g, limit, h, need).1.None? ==> Malloc(g, limit, h, need).0 == Capture(h)
  {
  }

  /** Every pointer hmalloc() returns is a multiple of alignof(max_align_t) past heap_start. */
  lemma MallocAligned(g: Geometry, limit: nat, h: Heap, need: nat)
    requires WellFormed(g, h) && need % g.unit == 0
    ensures var (h', r) := Malloc(g, limit, h, need);
      r.Some? ==>
        (h'.start.Some? && r.value >= h'.start.value && (r.value - h'.start.value) % g.unit == 0)
  {
    var (h', r) := Malloc(g, limit, h, need);
    MallocWellFormed(g, limit, h, need);
    MallocServes(g, limit, h, need);
    if r.Some? {
      var a := r.value - g.hdr;
      var i :| 0 <= i < |h'.blocks| && h'.blocks[i] == a;
      OffsetAligned(g, h', i);
    }
  }

  // ------------------------------------------------ the sbrk() increment

  /**
   * Below 2^63 the size_t sum need + AL_HDR_SZ neither wraps nor turns
   * negative in the cast to intptr_t, and hmalloc() as written agrees with Malloc.
   */
  lemma MallocAsWrittenAgrees(g: Geometry, limit: nat, h: Heap, need: nat)
    requires WellFormed(g, h) && need + g.hdr < Pow2(SizeWidth - 1)
    ensures MallocAsWritten(g, limit, h, need) == Malloc(g, limit, h, need)
  {
    Pow2Below(SizeWidth - 1, SizeWidth);
    DivModUnique(need + g.hdr, SizeLimit, 0, need + g.hdr);
  }

  /**
   * When need + AL_HDR_SZ is exactly 2^64 the size_t sum wraps to 0, so
   * sbrk(0) succeeds without moving the break; hmalloc() as written still
   * records a block of `need` bytes at the break and returns its payload,
   * leaving a heap that is no longer well formed. Malloc returns NULL.
   */
  lemma MallocOverflowAsWritten(g: Geometry, limit: nat, h: Heap, need: nat)
    requires WellFormed(g, h) && Capture(h).brk <= limit < SizeLimit
    requires forall j :: 0 <= j < |h.blocks| ==> !Fits(h.hdrs[h.blocks[j]], need)
    requires need + g.hdr == SizeLimit
    ensures var (h', r) := MallocAsWritten(g, limit, h, need);
      r == Some(h.brk + g.hdr) && h'.brk == h.brk && !WellFormed(g, h')
    ensures Malloc(g, limit, h, need).1.None?
  {
    DivModUnique(SizeLimit, SizeLimit, 1, 0);
    var h0 := Capture(h);
    CaptureWellFormed(g, h);
    var h' := MallocAsWritten(g, limit, h, need).0;
    assert SbrkIncrement(g, need) == 0;
    assert h' == Append(g, h0, need, 0);
    assert Last(h'.blocks) == h.brk;
    assert End(g, h'.hdrs, h.brk) == h.brk + g.hdr + need;
  }

  /** When block k is the first that fits, hmalloc() reuses it. */
  lemma MallocReuses(g: Geometry, limit: nat, h: Heap, need: nat, k: nat)
    requires WellFormed(g, h) && k < |h.blocks| && Fits(h.hdrs[h.blocks[k]], need)
    requires forall j :: 0 <= j < k ==> !Fits(h.hdrs[h.blocks[j]], need)
    ensures Malloc(g, limit, h, need) == (Reuse(g, Capture(h), k, need), Some(h.blocks[k] + g.hdr))
  {
    var h0 := Capture(h);
    assert h0.hdrs == h.hdrs && h0.blocks == h.blocks;
    assert FirstFit(h0.hdrs, h0.blocks, need) == k by {
      FirstFitIsFirst(h0.hdrs, h0.blocks, need, k);
    }
  }

  /** When no block fits, hmalloc() grows the heap or fails. */
  lemma MallocGrowth(g: Geometry, limit: nat, h: Heap, need: nat)
    requires WellFormed(g, h)
    requires forall j :: 0 <= j < |h.blocks| ==> !Fits(h.hdrs[h.blocks[j]], need)
    ensures Malloc(g, limit, h, need) ==
      if h.brk + need + g.hdr <= limit
      then (Append(g, Capture(h), need, need + g.hdr), Some(h.brk + g.hdr))
      else (Capture(h), None)
  {
  }
}
