/**
 * The physical page allocator (kernel/mm/pmm.c).
 *
 * Free pages are threaded into an intrusive LIFO list whose head is the
 * global `freelist`. The model keeps that list as a sequence of page
 * addresses, head first. `end` is the linker symbol that marks the end of the
 * kernel image; pages below its page boundary are never handed out.
 */
module Pmm {
  import opened RiscV

  /** The pages `lo, lo + 4096, ..., top` in ascending order (empty when top < lo). */
  function PageRange(lo: u64, top: u64): (pages: seq<u64>)
    requires PageAligned(lo) && PageAligned(top) && lo != 0
    decreases top
  {
    if top < lo then [] else PageRange(lo, top - PGSIZE) + [top]
  }

  /** Every page of the range is aligned and lies between `lo` and `top`. */
  lemma {:induction false} PageRangeBounds(lo: u64, top: u64)
    requires PageAligned(lo) && PageAligned(top) && lo != 0
    ensures forall i :: 0 <= i < |PageRange(lo, top)| ==>
      PageAligned(PageRange(lo, top)[i]) && lo <= PageRange(lo, top)[i] <= top
    decreases top
  {
    if lo <= top {
      var below := top - PGSIZE;
      PageRangeBounds(lo, below);
      assert PageRange(lo, top) == PageRange(lo, below) + [top];
    }
  }

  /**
   * The range is ascending page by page, empty exactly when `top < lo`, and
   * otherwise runs from `lo` to `top`, so pmm_init puts the lowest page first.
   */
  lemma {:induction false} PageRangeShape(lo: u64, top: u64)
    requires PageAligned(lo) && PageAligned(top) && lo != 0
    ensures var pages := PageRange(lo, top);
      && (forall i :: 0 <= i < |pages| - 1 ==> pages[i + 1] == pages[i] + PGSIZE)
      && (|pages| == 0 <==> top < lo)
      && (|pages| > 0 ==> pages[0] == lo && pages[|pages| - 1] == top)
    decreases top
  {
    if lo <= top {
      var below := top - PGSIZE;
      PageRangeShape(lo, below);
      var prefix := PageRange(lo, below);
      var pages := PageRange(lo, top);
      assert pages == prefix + [top];
      if below < lo {
        assert prefix == [];
      } else {
        assert prefix[|prefix| - 1] == below;
        forall i | 0 <= i < |pages| - 1 ensures pages[i + 1] == pages[i] + PGSIZE {
          if i < |prefix| - 1 {
            assert pages[i] == prefix[i] && pages[i + 1] == prefix[i + 1];
          }
        }
      }
    }
  }

  /** free_page's validation: aligned and at or above the end of the kernel image. */
  predicate Accepts(base: u64, pa: u64) {
    PageAligned(pa) && pa >= base
  }

  /** Every listed page passes free_page's validation. */
  predicate ListValid(base: u64, fl: seq<u64>) {
    forall i :: 0 <= i < |fl| ==> Accepts(base, fl[i])
  }

  /** alloc_page on a free list: the head and the list that remains, or 0 when it is empty. */
  function AllocStep(fl: seq<u64>): (r: (u64, seq<u64>))
    ensures fl == [] ==> r == (0, fl)
    ensures fl != [] ==> [r.0] + r.1 == fl
  {
    if fl == [] then (0, fl) else (fl[0], fl[1..])
  }

  /** free_page on a free list: a valid page is pushed on the head, anything else is ignored. */
  function FreeStep(base: u64, fl: seq<u64>, pa: u64): (fl': seq<u64>)
    ensures Accepts(base, pa) ==> |fl'| == |fl| + 1 && fl'[0] == pa && fl'[1..] == fl
    ensures !Accepts(base, pa) ==> fl' == fl
  {
    if !Accepts(base, pa) then fl else [pa] + fl
  }

  /** Both steps keep every listed page valid. */
  lemma StepsKeepListValid(base: u64, fl: seq<u64>, pa: u64)
    requires ListValid(base, fl)
    ensures ListValid(base, AllocStep(fl).1)
    ensures ListValid(base, FreeStep(base, fl, pa))
    ensures fl != [] ==> Accepts(base, AllocStep(fl).0)
  {
  }

  /** LIFO reuse: the page freed last is the page allocated next, and the list is as before. */
  lemma FreeThenAlloc(base: u64, fl: seq<u64>, pa: u64)
    requires Accepts(base, pa)
    ensures AllocStep(FreeStep(base, fl, pa)) == (pa, fl)
  {
  }

  /** `n` allocations in a row: the pages obtained, in order, and the list that remains. */
  function AllocMany(fl: seq<u64>, n: nat): (r: (seq<u64>, seq<u64>))
    requires n <= |fl|
    ensures r.0 + r.1 == fl && |r.0| == n
  {
    if n == 0 then ([], fl)
    else
      var (pa, rest) := AllocStep(fl);
      var (more, left) := AllocMany(rest, n - 1);
      ([pa] + more, left)
  }

  /** Freeing the pages `ps` in order. */
  function FreeMany(base: u64, fl: seq<u64>, ps: seq<u64>): seq<u64>
    decreases ps
  {
    if ps == [] then fl else FreeMany(base, FreeStep(base, fl, ps[0]), ps[1..])
  }

  lemma {:induction false} FreeManyValid(base: u64, fl: seq<u64>, ps: seq<u64>)
    requires ListValid(base, ps)
    ensures |FreeMany(base, fl, ps)| == |fl| + |ps|
    ensures ListValid(base, fl) ==> ListValid(base, FreeMany(base, fl, ps))
    decreases ps
  {
    if ps != [] {
      FreeManyValid(base, FreeStep(base, fl, ps[0]), ps[1..]);
    }
  }

  /**
   * Conservation: on a valid list, `n` successful allocations followed by
   * freeing the same `n` pages leave a valid list of the original length.
   */
  lemma Conservation(base: u64, fl: seq<u64>, n: nat)
    requires ListValid(base, fl) && n <= |fl|
    ensures var (taken, left) := AllocMany(fl, n);
      var fl' := FreeMany(base, left, taken);
      |fl'| == |fl| && ListValid(base, fl')
  {
    var (taken, left) := AllocMany(fl, n);
    assert taken + left == fl;
    assert ListValid(base, taken) by {
      forall i | 0 <= i < |taken| ensures Accepts(base, taken[i]) {
        assert taken[i] == fl[i];
      }
    }
    assert ListValid(base, left) by {
      forall i | 0 <= i < |left| ensures Accepts(base, left[i]) {
        assert left[i] == fl[|taken| + i];
      }
    }
    FreeManyValid(base, left, taken);
  }

  /** The allocator's global state: the link-time end of the kernel and the free list. */
  class Allocator {
    /** The address of the linker symbol `end`. */
    const end: u64
    /** PGROUNDUP(end): the lowest page the allocator may hand out. */
    const base: u64
    /** The free list, head first. */
    var freelist: seq<u64>

    ghost predicate Valid()
      reads this
    {
      base == PgRoundUp(end) && ListValid(base, freelist)
    }

    /** The allocator before pmm_init runs: the zero-initialised list head. */
    constructor (end: u64)
      ensures Valid() && this.end == end && freelist == []
    {
      this.end := end;
      base := PgRoundUp(end);
      freelist := [];
    }

    /**
     * pmm_init: prepends the pages from PHYSTOP - 4096 down to PGROUNDUP(end),
     * so that the lowest page ends up at the head. The source loop runs forever
     * when the rounded start is 0, so that start is excluded.
     */
    method Init()
      requires base == PgRoundUp(end) && base != 0
      modifies this
      ensures Valid()
      ensures freelist == PageRange(base, PHYSTOP - PGSIZE)
    {
      var start := PgRoundUp(end);
      var stop := PHYSTOP;
      freelist := [];
      var p := stop - PGSIZE;
      while p >= start
        invariant start == base && 0 <= p < TWO_64 && PageAligned(p)
        invariant PageRange(start, stop - PGSIZE) == PageRange(start, p) + freelist
        decreases p
      {
        var below := p - PGSIZE;
        assert PageRange(start, p) == PageRange(start, below) + [p];
        freelist := [p] + freelist;
        p := below;
      }
      assert PageRange(start, p) == [];
      assert freelist == PageRange(start, stop - PGSIZE);
      PageRangeBounds(start, stop - PGSIZE);
    }

    /** alloc_page: pops the head, or returns 0 and changes nothing when the list is empty. */
    method AllocPage() returns (pa: u64)
      requires Valid()
      modifies this
      ensures Valid()
      ensures (pa, freelist) == AllocStep(old(freelist))
      ensures pa != 0 ==> Accepts(base, pa)
    {
      if freelist == [] {
        return 0;
      }
      pa := freelist[0];
      freelist := freelist[1..];
    }

    /**
     * free_page: a misaligned page or one below PGROUNDUP(end) is ignored;
     * any other page is pushed on the head, with no upper-bound or
     * double-free check.
     */
    method FreePage(pa: u64)
      requires Valid()
      modifies this
      ensures Valid()
      ensures freelist == FreeStep(base, old(freelist), pa)
    {
      if !PageAligned(pa) || pa < PgRoundUp(end) {
        return;
      }
      freelist := [pa] + freelist;
    }
  }
}
