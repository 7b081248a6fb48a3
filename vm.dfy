/**
 * Sv39 page tables (kernel/mm/vm.c).
 *
 * Physical memory, as far as page tables are concerned, is a store from page
 * addresses to 512 page-table entries; a page the store does not hold reads
 * as all zeros. The allocator of kernel/mm/pmm.c supplies and takes back the
 * pages. `walk` and `map_page` are modelled as written: when `walk` finds an
 * empty entry at level 0 it installs a fresh node there and returns null, and
 * it returns an entry only when that entry is already valid, so `map_page`
 * can never succeed. A corrected walk, which returns the level-0 slot, is
 * modelled beside it with the property the page-table manager is meant to
 * have.
 */
module Vm {
  import opened RiscV
  import opened Pmm
  import opened Wrappers

  /** Page contents: page address to its 512 entries. */
  type Store = map<u64, seq<u64>>

  /** A `pte_t *`: entry `index` of the page at `page`. */
  datatype Slot = Slot(page: u64, index: nat)

  /** What `walk` leaves behind: its result, the page store and the free list. */
  datatype WalkResult = WalkResult(slot: Option<Slot>, mem: Store, freelist: seq<u64>)

  /** What `map_page` leaves behind: its return code, the page store and the free list. */
  datatype MapResult = MapResult(ret: int, mem: Store, freelist: seq<u64>)

  /** Flags of an entry that `walk` installs: PTE_V | PTE_R | PTE_W | PTE_X | PTE_U. */
  const NODE_FLAGS: nat := 0x1F

  function ZeroNode(): (node: seq<u64>)
    ensures |node| == 512 && forall i :: 0 <= i < 512 ==> node[i] == 0
  {
    seq(512, _ => 0)
  }

  /** The 512 entries of the page at `pa`. */
  function NodeAt(m: Store, pa: u64): (node: seq<u64>)
    ensures |node| == 512
  {
    if pa in m && |m[pa]| == 512 then m[pa] else ZeroNode()
  }

  /** `*pte = v` for the entry `idx` of the page at `pa`. */
  function WriteEntry(m: Store, pa: u64, idx: nat, v: u64): (m': Store)
    requires idx < 512
    ensures NodeAt(m', pa) == NodeAt(m, pa)[idx := v]
    ensures forall q :: q != pa ==> NodeAt(m', q) == NodeAt(m, q)
  {
    m[pa := NodeAt(m, pa)[idx := v]]
  }

  /** `pte & PTE_V`. */
  predicate IsValid(pte: u64) {
    pte % 2 == 1
  }

  /** `(pte & (PTE_R | PTE_W | PTE_X)) != 0`. */
  predicate HasRwx(pte: u64) {
    (pte / 2) % 8 != 0
  }

  /** The entry `walk` installs for a fresh node `pa`: valid, pointing at `pa`. */
  function NodeEntry(pa: u64): (pte: u64)
    ensures IsValid(pte) && HasRwx(pte)
    ensures PteToPa(pte) == PgRoundDown(pa)
  {
    NodeEntryBits(pa);
    BitOr(PaToPte(pa), NODE_FLAGS)
  }

  /** The fresh-node entry is the page number with the five flag bits added. */
  lemma NodeEntryBits(pa: u64)
    ensures BitOr(PaToPte(pa), NODE_FLAGS) == PaToPte(pa) + NODE_FLAGS
    ensures IsValid(PaToPte(pa) + NODE_FLAGS) && HasRwx(PaToPte(pa) + NODE_FLAGS)
    ensures PteToPa(PaToPte(pa) + NODE_FLAGS) == PgRoundDown(pa)
  {
    FlagsPreserveAddress(pa, NODE_FLAGS);
    var pn := pa / PGSIZE;
    var pte := PaToPte(pa) + NODE_FLAGS;
    assert pte == 2 * (pn * 512 + 15) + 1;
    DivUnique(pte, 2, pn * 512 + 15, 1);
    assert pn * 512 + 15 == 8 * (pn * 64 + 1) + 7;
    DivUnique(pte / 2, 8, pn * 64 + 1, 7);
  }

  /**
   * The entry line 60 of map_page would store, `PPN2PTE(pa) | perm | PTE_V`,
   * with `perm` widened from `int`; `|` is associative, so the flags are
   * joined first.
   */
  function LeafEntry(pa: u64, perm: i32): (pte: u64)
    ensures IsValid(pte)
  {
    var flags := LeafFlags(perm);
    Pow2Word();
    BitOrBound(PaToPte(pa), flags, 64);
    BitOrBits(PaToPte(pa), flags, 0);
    BitOr(PaToPte(pa), flags)
  }

  function LeafFlags(perm: i32): (flags: u64)
    ensures flags % 2 == 1
    ensures 0 <= perm < 1024 ==> flags < 1024
  {
    Pow2Word();
    assert Pow2(10) == 1024;
    BitOrBound(ToU64(perm), PTE_V, 64);
    BitOrBits(ToU64(perm), PTE_V, 0);
    assert 0 <= perm < 1024 ==> BitOr(ToU64(perm), PTE_V) < 1024 by {
      if 0 <= perm < 1024 {
        BitOrBound(ToU64(perm), PTE_V, 10);
      }
    }
    BitOr(ToU64(perm), PTE_V)
  }

  /**
   * `walk` from the table `pt` at `level` down to level 0, as written: a valid
   * entry is followed (or returned at level 0); an invalid one makes the walk
   * fail unless `alloc`, in which case a fresh zeroed node is installed there
   * and the walk goes on into it, returning null after level 0.
   */
  function WalkFrom(m: Store, fl: seq<u64>, pt: u64, va: u64, level: nat, alloc: bool): (r: WalkResult)
    ensures r.slot.Some? ==> r.slot.value.index < 512
    decreases level
  {
    var idx := Vpn(va, level);
    var pte := NodeAt(m, pt)[idx];
    if IsValid(pte) then
      if level == 0 then WalkResult(Some(Slot(pt, idx)), m, fl)
      else WalkFrom(m, fl, PteToPa(pte), va, level - 1, alloc)
    else if !alloc then WalkResult(None, m, fl)
    else
      var (node, fl') := AllocStep(fl);
      if node == 0 then WalkResult(None, m, fl')
      else
        var m' := WriteEntry(m[node := ZeroNode()], pt, idx, NodeEntry(node));
        if level == 0 then WalkResult(None, m', fl')
        else WalkFrom(m', fl', node, va, level - 1, alloc)
  }

  /**
   * Reference definition of a read-only Sv39 lookup: the level-0 slot for
   * `va`, when every entry on the way down is valid.
   */
  function Lookup(m: Store, pt: u64, va: u64, level: nat): (r: Option<Slot>)
    ensures r.Some? ==> r.value.index == Vpn(va, 0) < 512
    decreases level
  {
    var pte := NodeAt(m, pt)[Vpn(va, level)];
    if !IsValid(pte) then None
    else if level == 0 then Some(Slot(pt, Vpn(va, 0)))
    else Lookup(m, PteToPa(pte), va, level - 1)
  }

  /** Without `alloc`, walk is exactly the lookup and changes nothing. */
  lemma {:induction false} WalkWithoutAllocIsLookup(m: Store, fl: seq<u64>, pt: u64, va: u64, level: nat)
    ensures WalkFrom(m, fl, pt, va, level, false) == WalkResult(Lookup(m, pt, va, level), m, fl)
    decreases level
  {
    var pte := NodeAt(m, pt)[Vpn(va, level)];
    if IsValid(pte) && level > 0 {
      WalkWithoutAllocIsLookup(m, fl, PteToPa(pte), va, level - 1);
    }
  }

  /** Whatever entry walk returns is valid in the store it leaves behind. */
  lemma {:induction false} WalkReturnsValidSlot(m: Store, fl: seq<u64>, pt: u64, va: u64, level: nat, alloc: bool)
    ensures var r := WalkFrom(m, fl, pt, va, level, alloc);
      r.slot.Some? ==> IsValid(NodeAt(r.mem, r.slot.value.page)[r.slot.value.index])
    decreases level
  {
    var idx := Vpn(va, level);
    var pte := NodeAt(m, pt)[idx];
    if IsValid(pte) {
      if level > 0 {
        WalkReturnsValidSlot(m, fl, PteToPa(pte), va, level - 1, alloc);
      }
    } else if alloc {
      var (node, fl') := AllocStep(fl);
      if node != 0 && level > 0 {
        var m' := WriteEntry(m[node := ZeroNode()], pt, idx, NodeEntry(node));
        WalkReturnsValidSlot(m', fl', node, va, level - 1, alloc);
      }
    }
  }

  /** walk only pops the free list, at most one page per level it passes. */
  lemma {:induction false} WalkOnlyPops(m: Store, fl: seq<u64>, pt: u64, va: u64, level: nat, alloc: bool)
    ensures var r := WalkFrom(m, fl, pt, va, level, alloc);
      |r.freelist| <= |fl| <= |r.freelist| + level + 1 && r.freelist == fl[|fl| - |r.freelist|..]
    decreases level
  {
    var r := WalkFrom(m, fl, pt, va, level, alloc);
    var idx := Vpn(va, level);
    var pte := NodeAt(m, pt)[idx];
    if IsValid(pte) {
      if level > 0 {
        assert r == WalkFrom(m, fl, PteToPa(pte), va, level - 1, alloc);
        WalkOnlyPops(m, fl, PteToPa(pte), va, level - 1, alloc);
      }
    } else if alloc && fl != [] && fl[0] != 0 && level > 0 {
      var m' := WriteEntry(m[fl[0] := ZeroNode()], pt, idx, NodeEntry(fl[0]));
      assert r == WalkFrom(m', fl[1..], fl[0], va, level - 1, alloc);
      WalkOnlyPops(m', fl[1..], fl[0], va, level - 1, alloc);
      assert r.freelist == fl[1..][|fl| - 1 - |r.freelist|..];
    }
  }


  /** Every page on the list lies outside the store and is listed once. */
  predicate FreshPages(m: Store, fl: seq<u64>) {
    && (forall i :: 0 <= i < |fl| ==> fl[i] !in m)
    && (forall i, j :: 0 <= i < j < |fl| ==> fl[i] != fl[j])
  }

  /** Every valid entry of a stored node points at a stored node. */
  predicate Closed(m: Store) {
    forall a, i :: 0 <= i < 512 ==> EntryClosed(m, a, i)
  }

  /** Closed for entry `i` of the node at `a`. */
  predicate EntryClosed(m: Store, a: u64, i: nat)
    requires i < 512
  {
    a in m && IsValid(NodeAt(m, a)[i]) ==> PteToPa(NodeAt(m, a)[i]) in m
  }

  lemma FreshPagesAfterAlloc(m: Store, fl: seq<u64>, pt: u64, idx: nat)
    requires FreshPages(m, fl) && fl != [] && pt in m && idx < 512
    ensures var m' := WriteEntry(m[fl[0] := ZeroNode()], pt, idx, NodeEntry(fl[0]));
      FreshPages(m', fl[1..]) && fl[0] in m' && NodeAt(m', fl[0]) == ZeroNode()
      && forall q :: q in m ==> q in m'
  {
    var m' := WriteEntry(m[fl[0] := ZeroNode()], pt, idx, NodeEntry(fl[0]));
    forall i | 0 <= i < |fl| - 1 ensures fl[1..][i] !in m' {
      assert fl[1..][i] == fl[i + 1] && fl[i + 1] != fl[0];
    }
    assert fl[0] != pt;
  }

  /**
   * One allocation step of walk, on a closed store whose free pages are
   * fresh, aligned and non-zero: the page taken joins the store as a zeroed
   * node, the entry `idx` of `pt` is the only entry that changes, and it
   * now points at that page.
   */
  lemma InstallStep(m: Store, fl: seq<u64>, base: u64, pt: u64, idx: nat)
    requires Closed(m) && FreshPages(m, fl) && ListValid(base, fl) && base != 0
    requires fl != [] && pt in m && idx < 512
    ensures var m' := WriteEntry(m[fl[0] := ZeroNode()], pt, idx, NodeEntry(fl[0]));
      && Closed(m') && FreshPages(m', fl[1..]) && ListValid(base, fl[1..])
      && fl[0] != 0 && fl[0] in m' && NodeAt(m', fl[0]) == ZeroNode()
      && PteToPa(NodeEntry(fl[0])) == fl[0]
      && (forall q :: q in m ==> q in m')
      && (forall a, k :: 0 <= k < 512 && (a != pt || k != idx) ==> NodeAt(m', a)[k] == NodeAt(m, a)[k])
  {
    var u := fl[0];
    var m' := WriteEntry(m[u := ZeroNode()], pt, idx, NodeEntry(u));
    FreshPagesAfterAlloc(m, fl, pt, idx);
    assert Accepts(base, u);
    assert PgRoundDown(u) == u;
    forall a, i | 0 <= i < 512
      ensures EntryClosed(m', a, i)
    {
      assert EntryClosed(m, a, i);
      if a == u {
        assert NodeAt(m', u)[i] == 0;
      }
    }
  }

  /** The store invariant walk relies on: closed, with fresh, aligned, non-zero free pages. */
  ghost predicate Healthy(m: Store, fl: seq<u64>, base: u64) {
    Closed(m) && FreshPages(m, fl) && ListValid(base, fl) && base != 0
  }

  /**
   * `m'` differs from `m` only by filling entries: no valid entry of `m`
   * changes, and every entry that does change now points at a page of
   * `used`, with the flags walk gives a fresh node.
   */
  ghost predicate FillsOnly(m: Store, m': Store, used: seq<u64>) {
    forall a, k :: 0 <= k < 512 ==> FillsEntry(m, m', used, a, k)
  }

  /** FillsOnly for entry `k` of the page at `a`. */
  ghost predicate FillsEntry(m: Store, m': Store, used: seq<u64>, a: u64, k: nat)
    requires k < 512
  {
    && (IsValid(NodeAt(m, a)[k]) ==> NodeAt(m', a)[k] == NodeAt(m, a)[k])
    && (NodeAt(m', a)[k] != NodeAt(m, a)[k] ==>
          && NodeAt(m', a)[k] == NodeEntry(PteToPa(NodeAt(m', a)[k]))
          && PteToPa(NodeAt(m', a)[k]) in used)
  }

  lemma FillsNothing(m: Store, used: seq<u64>)
    ensures FillsOnly(m, m, used)
  {
  }

  lemma FillsKeepValid(m: Store, m': Store, used: seq<u64>, a: u64, k: nat)
    requires FillsOnly(m, m', used) && k < 512 && IsValid(NodeAt(m, a)[k])
    ensures NodeAt(m', a)[k] == NodeAt(m, a)[k]
  {
    assert FillsEntry(m, m', used, a, k);
  }

  lemma FillsOnlyTrans(m: Store, m': Store, m'': Store, u1: seq<u64>, u2: seq<u64>)
    requires FillsOnly(m, m', u1) && FillsOnly(m', m'', u2)
    ensures FillsOnly(m, m'', u1 + u2)
  {
    forall a, k | 0 <= k < 512
      ensures FillsEntry(m, m'', u1 + u2, a, k)
    {
      assert FillsEntry(m, m', u1, a, k) && FillsEntry(m', m'', u2, a, k);
      if NodeAt(m', a)[k] != NodeAt(m, a)[k] {
        assert IsValid(NodeAt(m', a)[k]);
      }
    }
  }

  /** A fill by the head of the list followed by a fill by the next pages is a fill by the pages taken. */
  lemma FillsAfterInstall(m: Store, m': Store, m'': Store, fl: seq<u64>, u: u64, tail: seq<u64>, rest: seq<u64>)
    requires fl == [u] + tail && FillsOnly(m, m', [u])
    requires |rest| <= |tail| && rest == tail[|tail| - |rest|..]
    requires FillsOnly(m', m'', tail[..|tail| - |rest|])
    ensures |rest| < |fl| && rest == fl[|fl| - |rest|..]
    ensures FillsOnly(m, m'', fl[..|fl| - |rest|])
  {
    var n := |rest|;
    FillsOnlyTrans(m, m', m'', [u], tail[..|tail| - n]);
    assert fl[..|fl| - n] == [u] + tail[..|tail| - n];
  }

  /** walk keeps the store invariant and only pops the free list. */
  lemma {:induction false} WalkKeepsHealthy(m: Store, fl: seq<u64>, base: u64, pt: u64, va: u64, level: nat, alloc: bool)
    requires Healthy(m, fl, base) && pt in m
    ensures var r := WalkFrom(m, fl, pt, va, level, alloc);
      && Healthy(r.mem, r.freelist, base) && (forall q :: q in m ==> q in r.mem)
    decreases level
  {
    var idx := Vpn(va, level);
    var pte := NodeAt(m, pt)[idx];
    if IsValid(pte) {
      if level > 0 {
        assert EntryClosed(m, pt, idx);
        WalkKeepsHealthy(m, fl, base, PteToPa(pte), va, level - 1, alloc);
      }
    } else if alloc && fl != [] {
      var m' := WriteEntry(m[fl[0] := ZeroNode()], pt, idx, NodeEntry(fl[0]));
      assert Healthy(m', fl[1..], base) && fl[0] in m' && (forall q :: q in m ==> q in m') by {
        InstallStep(m, fl, base, pt, idx);
      }
      if level > 0 {
        WalkKeepsHealthy(m', fl[1..], base, fl[0], va, level - 1, alloc);
      }
    }
  }

  /**
   * walk on a healthy store, also when it fails half way, only fills
   * entries: no valid entry is overwritten, and every entry that changes
   * was invalid and now points at one of the pages taken from the head of
   * the free list, each a page the store did not hold and so one that was
   * zeroed.
   */
  lemma {:induction false} WalkFillsPath(m: Store, fl: seq<u64>, base: u64, pt: u64, va: u64, level: nat, alloc: bool)
    requires Healthy(m, fl, base) && pt in m
    ensures var r := WalkFrom(m, fl, pt, va, level, alloc);
      && |r.freelist| <= |fl| && r.freelist == fl[|fl| - |r.freelist|..]
      && FillsOnly(m, r.mem, fl[..|fl| - |r.freelist|])
    decreases level, 1
  {
    var r := WalkFrom(m, fl, pt, va, level, alloc);
    assert |r.freelist| <= |fl| && r.freelist == fl[|fl| - |r.freelist|..] by {
      WalkOnlyPops(m, fl, pt, va, level, alloc);
    }
    var pte := NodeAt(m, pt)[Vpn(va, level)];
    if IsValid(pte) {
      if level > 0 {
        assert r == WalkFrom(m, fl, PteToPa(pte), va, level - 1, alloc);
        assert EntryClosed(m, pt, Vpn(va, level));
        WalkFillsPath(m, fl, base, PteToPa(pte), va, level - 1, alloc);
      } else {
        assert r == WalkResult(r.slot, m, fl);
        FillsNothing(m, fl[..0]);
      }
    } else if alloc && fl != [] {
      WalkFillsFromFresh(m, fl, base, pt, va, level);
    } else {
      assert r.mem == m && r.freelist == fl;
      FillsNothing(m, fl[..0]);
    }
  }

  /** The case of WalkFillsPath where walk allocates a node at `level`. */
  lemma {:induction false} WalkFillsFromFresh(m: Store, fl: seq<u64>, base: u64, pt: u64, va: u64, level: nat)
    requires Healthy(m, fl, base) && pt in m && fl != []
    requires !IsValid(NodeAt(m, pt)[Vpn(va, level)])
    ensures var r := WalkFrom(m, fl, pt, va, level, true);
      |r.freelist| < |fl| && FillsOnly(m, r.mem, fl[..|fl| - |r.freelist|])
    decreases level, 0
  {
    var idx := Vpn(va, level);
    var u := fl[0];
    var fl' := fl[1..];
    var m' := WriteEntry(m[u := ZeroNode()], pt, idx, NodeEntry(u));
    assert Healthy(m', fl', base) && u in m' && FillsOnly(m, m', [u]) by {
      InstallStep(m, fl, base, pt, idx);
    }
    var r := WalkFrom(m, fl, pt, va, level, true);
    if level > 0 {
      assert r == WalkFrom(m', fl', u, va, level - 1, true);
      WalkFillsPath(m', fl', base, u, va, level - 1, true);
      FillsAfterInstall(m, m', r.mem, fl, u, fl', r.freelist);
    } else {
      assert r == WalkResult(None, m', fl[1..]);
      assert fl[..|fl| - |r.freelist|] == [u];
    }
  }

  /**
   * walk with `alloc` and at least one free page per level fills va's path:
   * afterwards every entry from `pt` down to level 0 is valid (the level-0
   * one, as written, pointing at a zeroed node rather than a mapping).
   */
  lemma {:induction false} WalkCompletesPath(m: Store, fl: seq<u64>, base: u64, pt: u64, va: u64, level: nat)
    requires Healthy(m, fl, base) && pt in m && level < |fl|
    ensures Lookup(WalkFrom(m, fl, pt, va, level, true).mem, pt, va, level).Some?
    decreases level, 2
  {
    var idx := Vpn(va, level);
    var pte := NodeAt(m, pt)[idx];
    if IsValid(pte) {
      if level > 0 {
        assert EntryClosed(m, pt, idx);
        CompletesBelowEntry(m, fl, base, pt, PteToPa(pte), va, level);
      }
    } else {
      CompletesThroughFresh(m, fl, base, pt, va, level);
    }
  }

  lemma {:induction false} CompletesThroughFresh(m: Store, fl: seq<u64>, base: u64, pt: u64, va: u64, level: nat)
    requires Healthy(m, fl, base) && pt in m && level < |fl|
    requires !IsValid(NodeAt(m, pt)[Vpn(va, level)])
    ensures Lookup(WalkFrom(m, fl, pt, va, level, true).mem, pt, va, level).Some?
    decreases level, 1
  {
    var idx := Vpn(va, level);
    var u := fl[0];
    var m' := WriteEntry(m[u := ZeroNode()], pt, idx, NodeEntry(u));
    assert Healthy(m', fl[1..], base) && u in m' && u != 0 && PteToPa(NodeEntry(u)) == u
      && NodeAt(m', pt)[idx] == NodeEntry(u) by {
      InstallStep(m, fl, base, pt, idx);
    }
    if level > 0 {
      assert WalkFrom(m, fl, pt, va, level, true) == WalkFrom(m', fl[1..], u, va, level - 1, true);
      CompletesBelowEntry(m', fl[1..], base, pt, u, va, level);
    } else {
      assert WalkFrom(m, fl, pt, va, level, true).mem == m';
    }
  }

  /** A valid entry of `pt` on va's path points at `next`, and walk completes the path below it. */
  lemma {:induction false} CompletesBelowEntry(m: Store, fl: seq<u64>, base: u64, pt: u64, next: u64, va: u64, level: nat)
    requires Healthy(m, fl, base) && next in m && 0 < level <= |fl|
    requires IsValid(NodeAt(m, pt)[Vpn(va, level)]) && PteToPa(NodeAt(m, pt)[Vpn(va, level)]) == next
    ensures Lookup(WalkFrom(m, fl, next, va, level - 1, true).mem, pt, va, level).Some?
    decreases level, 0
  {
    var r := WalkFrom(m, fl, next, va, level - 1, true);
    WalkCompletesPath(m, fl, base, next, va, level - 1);
    assert NodeAt(r.mem, pt)[Vpn(va, level)] == NodeAt(m, pt)[Vpn(va, level)] by {
      WalkFillsPath(m, fl, base, next, va, level - 1, true);
      FillsKeepValid(m, r.mem, fl[..|fl| - |r.freelist|], pt, Vpn(va, level));
    }
  }

  /** A walk that starts in a node still all zero, with fresh pages, never returns an entry. */
  lemma {:induction false} WalkFromZeroNodeFails(m: Store, fl: seq<u64>, pt: u64, va: u64, level: nat, alloc: bool)
    requires FreshPages(m, fl) && pt in m && NodeAt(m, pt) == ZeroNode()
    ensures WalkFrom(m, fl, pt, va, level, alloc).slot == None
    decreases level
  {
    var idx := Vpn(va, level);
    assert NodeAt(m, pt)[idx] == 0;
    if alloc && fl != [] && level > 0 {
      var (node, fl') := AllocStep(fl);
      FreshPagesAfterAlloc(m, fl, pt, idx);
      var m' := WriteEntry(m[node := ZeroNode()], pt, idx, NodeEntry(node));
      WalkFromZeroNodeFails(m', fl', node, va, level - 1, alloc);
    }
  }

  /**
   * On a closed store whose free pages are fresh, walk returns an entry only
   * when the lookup finds that same entry already valid, and then changes
   * nothing: an empty level-0 slot is never handed back, whether or not
   * nodes are allocated on the way.
   */
  lemma {:induction false} WalkReturnsOnlyMappedSlots(m: Store, fl: seq<u64>, pt: u64, va: u64, level: nat, alloc: bool)
    requires Closed(m) && FreshPages(m, fl) && pt in m
    ensures var r := WalkFrom(m, fl, pt, va, level, alloc);
      r.slot.Some? ==> r == WalkResult(Lookup(m, pt, va, level), m, fl)
    decreases level
  {
    var idx := Vpn(va, level);
    var pte := NodeAt(m, pt)[idx];
    if IsValid(pte) {
      if level > 0 {
        assert EntryClosed(m, pt, idx);
        WalkReturnsOnlyMappedSlots(m, fl, PteToPa(pte), va, level - 1, alloc);
      }
    } else if alloc && fl != [] && level > 0 {
      var (node, fl') := AllocStep(fl);
      FreshPagesAfterAlloc(m, fl, pt, idx);
      var m' := WriteEntry(m[node := ZeroNode()], pt, idx, NodeEntry(node));
      WalkFromZeroNodeFails(m', fl', node, va, level - 1, alloc);
    }
  }

  /** map_page as written, on the store and the free list. */
  function MapPageSpec(m: Store, fl: seq<u64>, pt: u64, va: u64, pa: u64, perm: i32): (r: MapResult)
    ensures r.ret == 0 || r.ret == -1
    ensures va % PGSIZE != 0 || pa % PGSIZE != 0 ==> r == MapResult(-1, m, fl)
  {
    if va % PGSIZE != 0 || pa % PGSIZE != 0 then MapResult(-1, m, fl)
    else
      var w := WalkFrom(m, fl, pt, va, 2, true);
      if w.slot.None? then MapResult(-1, w.mem, w.freelist)
      else
        var s := w.slot.value;
        if IsValid(NodeAt(w.mem, s.page)[s.index]) then MapResult(-1, w.mem, w.freelist)
        else MapResult(0, WriteEntry(w.mem, s.page, s.index, LeafEntry(pa, perm)), w.freelist)
  }

  /**
   * map_page never succeeds: walk hands back only entries that are already
   * valid, which map_page then rejects as mapped, so line 60 is never reached.
   */
  lemma MapPageAlwaysFails(m: Store, fl: seq<u64>, pt: u64, va: u64, pa: u64, perm: i32)
    ensures MapPageSpec(m, fl, pt, va, pa, perm).ret == -1
  {
    WalkReturnsValidSlot(m, fl, pt, va, 2, true);
  }

  /**
   * The corrected walk: identical to `WalkFrom` above level 0, but at level 0
   * it returns the slot whether or not the entry there is valid.
   */
  function WalkFixed(m: Store, fl: seq<u64>, pt: u64, va: u64, level: nat, alloc: bool): (r: WalkResult)
    ensures r.slot.Some? ==> r.slot.value.index < 512
    decreases level
  {
    var idx := Vpn(va, level);
    var pte := NodeAt(m, pt)[idx];
    if level == 0 then WalkResult(Some(Slot(pt, idx)), m, fl)
    else if IsValid(pte) then WalkFixed(m, fl, PteToPa(pte), va, level - 1, alloc)
    else if !alloc then WalkResult(None, m, fl)
    else
      var (node, fl') := AllocStep(fl);
      if node == 0 then WalkResult(None, m, fl')
      else
        var m' := WriteEntry(m[node := ZeroNode()], pt, idx, NodeEntry(node));
        WalkFixed(m', fl', node, va, level - 1, alloc)
  }

  /** map_page over the corrected walk. */
  function MapPageFixed(m: Store, fl: seq<u64>, pt: u64, va: u64, pa: u64, perm: i32): (r: MapResult)
    ensures r.ret == 0 || r.ret == -1
    ensures va % PGSIZE != 0 || pa % PGSIZE != 0 ==> r == MapResult(-1, m, fl)
  {
    if va % PGSIZE != 0 || pa % PGSIZE != 0 then MapResult(-1, m, fl)
    else
      var w := WalkFixed(m, fl, pt, va, 2, true);
      if w.slot.None? then MapResult(-1, w.mem, w.freelist)
      else
        var s := w.slot.value;
        if IsValid(NodeAt(w.mem, s.page)[s.index]) then MapResult(-1, w.mem, w.freelist)
        else MapResult(0, WriteEntry(w.mem, s.page, s.index, LeafEntry(pa, perm)), w.freelist)
  }

  /** The corrected walk on a fresh root fills levels 2 and 1 from the free list and stops at level 0. */
  lemma FixedWalkOnFreshRoot(m: Store, fl: seq<u64>, root: u64, va: u64)
    requires NodeAt(m, root) == ZeroNode()
    requires |fl| >= 2 && fl[0] != 0 && fl[1] != 0
    requires root != fl[0] && root != fl[1] && fl[0] != fl[1]
    ensures var m1 := WriteEntry(m[fl[0] := ZeroNode()], root, Vpn(va, 2), NodeEntry(fl[0]));
      var m2 := WriteEntry(m1[fl[1] := ZeroNode()], fl[0], Vpn(va, 1), NodeEntry(fl[1]));
      && WalkFixed(m, fl, root, va, 2, true) == WalkResult(Some(Slot(fl[1], Vpn(va, 0))), m2, fl[2..])
      && NodeAt(m2, root)[Vpn(va, 2)] == NodeEntry(fl[0])
      && NodeAt(m2, fl[0])[Vpn(va, 1)] == NodeEntry(fl[1])
      && NodeAt(m2, fl[1]) == ZeroNode()
  {
    var a, b := fl[0], fl[1];
    var m1 := WriteEntry(m[a := ZeroNode()], root, Vpn(va, 2), NodeEntry(a));
    assert NodeAt(m1, a) == ZeroNode();
    assert AllocStep(fl) == (a, fl[1..]);
    assert WalkFixed(m, fl, root, va, 2, true) == WalkFixed(m1, fl[1..], a, va, 1, true);
    var m2 := WriteEntry(m1[b := ZeroNode()], a, Vpn(va, 1), NodeEntry(b));
    assert AllocStep(fl[1..]) == (b, fl[2..]);
    assert WalkFixed(m1, fl[1..], a, va, 1, true) == WalkFixed(m2, fl[2..], b, va, 0, true);
  }

  /** Where the lookup finds a valid entry, the corrected walk returns that entry and changes nothing. */
  lemma {:induction false} FixedWalkFindsMapped(m: Store, fl: seq<u64>, pt: u64, va: u64, level: nat, alloc: bool)
    requires Lookup(m, pt, va, level).Some?
    ensures WalkFixed(m, fl, pt, va, level, alloc) == WalkResult(Lookup(m, pt, va, level), m, fl)
    ensures var s := Lookup(m, pt, va, level).value;
      s.index < 512 && IsValid(NodeAt(m, s.page)[s.index])
    decreases level
  {
    if level > 0 {
      FixedWalkFindsMapped(m, fl, PteToPa(NodeAt(m, pt)[Vpn(va, level)]), va, level - 1, alloc);
    }
  }

  /** Once the lookup of `va` finds a valid entry, the corrected map_page of `va` fails. */
  lemma FixedMapOfMappedFails(m: Store, fl: seq<u64>, root: u64, va: u64, pa: u64, perm: i32)
    requires Lookup(m, root, va, 2).Some?
    ensures MapPageFixed(m, fl, root, va, pa, perm) == MapResult(-1, m, fl)
  {
    FixedWalkFindsMapped(m, fl, root, va, 2, true);
  }

  /** The corrected walk on a healthy store only fills entries, like the walk as written. */
  lemma {:induction false} FixedWalkFillsPath(m: Store, fl: seq<u64>, base: u64, pt: u64, va: u64, level: nat, alloc: bool)
    requires Healthy(m, fl, base) && pt in m
    ensures var r := WalkFixed(m, fl, pt, va, level, alloc);
      && |r.freelist| <= |fl| && r.freelist == fl[|fl| - |r.freelist|..]
      && FillsOnly(m, r.mem, fl[..|fl| - |r.freelist|])
    decreases level, 1
  {
    var r := WalkFixed(m, fl, pt, va, level, alloc);
    var pte := NodeAt(m, pt)[Vpn(va, level)];
    if level > 0 && IsValid(pte) {
      assert r == WalkFixed(m, fl, PteToPa(pte), va, level - 1, alloc);
      assert EntryClosed(m, pt, Vpn(va, level));
      FixedWalkFillsPath(m, fl, base, PteToPa(pte), va, level - 1, alloc);
    } else if level > 0 && alloc && fl != [] {
      FixedWalkFillsFromFresh(m, fl, base, pt, va, level);
    } else {
      assert r.mem == m && r.freelist == fl;
      FillsNothing(m, fl[..0]);
    }
  }

  lemma {:induction false} FixedWalkFillsFromFresh(m: Store, fl: seq<u64>, base: u64, pt: u64, va: u64, level: nat)
    requires Healthy(m, fl, base) && pt in m && fl != [] && level > 0
    requires !IsValid(NodeAt(m, pt)[Vpn(va, level)])
    ensures var r := WalkFixed(m, fl, pt, va, level, true);
      && |r.freelist| < |fl| && r.freelist == fl[|fl| - |r.freelist|..]
      && FillsOnly(m, r.mem, fl[..|fl| - |r.freelist|])
    decreases level, 0
  {
    var idx := Vpn(va, level);
    var u := fl[0];
    var fl' := fl[1..];
    var m' := WriteEntry(m[u := ZeroNode()], pt, idx, NodeEntry(u));
    assert Healthy(m', fl', base) && u in m' && FillsOnly(m, m', [u]) by {
      InstallStep(m, fl, base, pt, idx);
    }
    var r := WalkFixed(m, fl, pt, va, level, true);
    assert r == WalkFixed(m', fl', u, va, level - 1, true);
    FixedWalkFillsPath(m', fl', base, u, va, level - 1, true);
    assert fl == [u] + fl';
    FillsAfterInstall(m, m', r.mem, fl, u, fl', r.freelist);
  }


  /**
   * A slot the corrected walk hands back empty is on va's path: once any
   * valid entry is stored there, the lookup of `va` from `pt` finds it.
   */
  lemma {:induction false} FixedWalkReachesSlot(m: Store, fl: seq<u64>, base: u64, pt: u64, va: u64, level: nat, alloc: bool, v: u64)
    requires Healthy(m, fl, base) && pt in m && IsValid(v)
    ensures var r := WalkFixed(m, fl, pt, va, level, alloc);
      r.slot.Some? && !IsValid(NodeAt(r.mem, r.slot.value.page)[r.slot.value.index]) ==>
        Lookup(WriteEntry(r.mem, r.slot.value.page, r.slot.value.index, v), pt, va, level) == r.slot
    decreases level, 2
  {
    var idx := Vpn(va, level);
    var pte := NodeAt(m, pt)[idx];
    if level > 0 {
      if IsValid(pte) {
        assert EntryClosed(m, pt, idx);
        ReachesBelowEntry(m, fl, base, pt, PteToPa(pte), va, level, alloc, v);
      } else if alloc && fl != [] {
        FixedReachesThroughFresh(m, fl, base, pt, va, level, alloc, v);
      }
    }
  }

  lemma {:induction false} FixedReachesThroughFresh(m: Store, fl: seq<u64>, base: u64, pt: u64, va: u64, level: nat, alloc: bool, v: u64)
    requires Healthy(m, fl, base) && pt in m && IsValid(v) && level > 0 && alloc && fl != []
    requires !IsValid(NodeAt(m, pt)[Vpn(va, level)])
    ensures var r := WalkFixed(m, fl, pt, va, level, alloc);
      r.slot.Some? && !IsValid(NodeAt(r.mem, r.slot.value.page)[r.slot.value.index]) ==>
        Lookup(WriteEntry(r.mem, r.slot.value.page, r.slot.value.index, v), pt, va, level) == r.slot
    decreases level, 1
  {
    var idx := Vpn(va, level);
    var u := fl[0];
    var m' := WriteEntry(m[u := ZeroNode()], pt, idx, NodeEntry(u));
    assert Healthy(m', fl[1..], base) && u in m' && PteToPa(NodeEntry(u)) == u
      && NodeAt(m', pt)[idx] == NodeEntry(u) by {
      InstallStep(m, fl, base, pt, idx);
    }
    assert WalkFixed(m, fl, pt, va, level, alloc) == WalkFixed(m', fl[1..], u, va, level - 1, alloc);
    ReachesBelowEntry(m', fl[1..], base, pt, u, va, level, alloc, v);
  }

  /**
   * A valid entry of `pt` on va's path points at `next`; the slot the
   * corrected walk from `next` hands back empty is found from `pt` once it
   * is filled.
   */
  lemma {:induction false} ReachesBelowEntry(m: Store, fl: seq<u64>, base: u64, pt: u64, next: u64, va: u64, level: nat, alloc: bool, v: u64)
    requires Healthy(m, fl, base) && next in m && IsValid(v) && level > 0
    requires IsValid(NodeAt(m, pt)[Vpn(va, level)]) && PteToPa(NodeAt(m, pt)[Vpn(va, level)]) == next
    ensures var r := WalkFixed(m, fl, next, va, level - 1, alloc);
      r.slot.Some? && !IsValid(NodeAt(r.mem, r.slot.value.page)[r.slot.value.index]) ==>
        Lookup(WriteEntry(r.mem, r.slot.value.page, r.slot.value.index, v), pt, va, level) == r.slot
    decreases level, 0
  {
    var r := WalkFixed(m, fl, next, va, level - 1, alloc);
    if r.slot.Some? && !IsValid(NodeAt(r.mem, r.slot.value.page)[r.slot.value.index]) {
      FixedWalkReachesSlot(m, fl, base, next, va, level - 1, alloc, v);
      FixedWalkFillsPath(m, fl, base, next, va, level - 1, alloc);
      FillsKeepValid(m, r.mem, fl[..|fl| - |r.freelist|], pt, Vpn(va, level));
      LookupThroughEntry(r.mem, pt, next, r.slot.value, va, level, v);
    }
  }

  /**
   * A lookup that goes through a valid entry of `pt` to `next` is not
   * disturbed by storing into a slot that was empty.
   */
  lemma LookupThroughEntry(mem: Store, pt: u64, next: u64, s: Slot, va: u64, level: nat, v: u64)
    requires level > 0 && s.index < 512
    requires IsValid(NodeAt(mem, pt)[Vpn(va, level)]) && PteToPa(NodeAt(mem, pt)[Vpn(va, level)]) == next
    requires !IsValid(NodeAt(mem, s.page)[s.index])
    requires Lookup(WriteEntry(mem, s.page, s.index, v), next, va, level - 1) == Some(s)
    ensures Lookup(WriteEntry(mem, s.page, s.index, v), pt, va, level) == Some(s)
  {
    var w := WriteEntry(mem, s.page, s.index, v);
    assert NodeAt(w, pt)[Vpn(va, level)] == NodeAt(mem, pt)[Vpn(va, level)];
  }

  /**
   * Where the lookup of `va` fails and there is a free page per level, the
   * corrected walk with `alloc` returns a slot, and that slot is empty.
   */
  lemma {:induction false} FixedWalkFindsEmptySlot(m: Store, fl: seq<u64>, base: u64, pt: u64, va: u64, level: nat)
    requires Healthy(m, fl, base) && pt in m && level < |fl|
    requires Lookup(m, pt, va, level).None?
    ensures var r := WalkFixed(m, fl, pt, va, level, true);
      r.slot.Some? && !IsValid(NodeAt(r.mem, r.slot.value.page)[r.slot.value.index])
    decreases level
  {
    var idx := Vpn(va, level);
    var pte := NodeAt(m, pt)[idx];
    if level > 0 {
      if IsValid(pte) {
        assert EntryClosed(m, pt, Vpn(va, level));
        FixedWalkFindsEmptySlot(m, fl, base, PteToPa(pte), va, level - 1);
      } else {
        var u := fl[0];
        var m' := WriteEntry(m[u := ZeroNode()], pt, idx, NodeEntry(u));
        assert Healthy(m', fl[1..], base) && u in m' && NodeAt(m', u) == ZeroNode() by {
          InstallStep(m, fl, base, pt, idx);
        }
        assert Lookup(m', u, va, level - 1).None?;
        FixedWalkFindsEmptySlot(m', fl[1..], base, u, va, level - 1);
      }
    }
  }

  /** The corrected map_page on a healthy store changes no valid entry. */
  lemma FixedMapKeepsValid(m: Store, fl: seq<u64>, base: u64, root: u64, va: u64, pa: u64, perm: i32)
    requires Healthy(m, fl, base) && root in m
    ensures var r := MapPageFixed(m, fl, root, va, pa, perm);
      forall a, k :: 0 <= k < 512 && IsValid(NodeAt(m, a)[k]) ==> NodeAt(r.mem, a)[k] == NodeAt(m, a)[k]
  {
    var w := WalkFixed(m, fl, root, va, 2, true);
    assert |w.freelist| <= |fl| && FillsOnly(m, w.mem, fl[..|fl| - |w.freelist|]) by {
      FixedWalkFillsPath(m, fl, base, root, va, 2, true);
    }
    MapAfterFillKeepsValid(m, fl, root, va, pa, perm, fl[..|fl| - |w.freelist|]);
  }

  /** When the corrected walk only fills entries, so does the corrected map_page, apart from one empty slot. */
  lemma MapAfterFillKeepsValid(m: Store, fl: seq<u64>, root: u64, va: u64, pa: u64, perm: i32, used: seq<u64>)
    requires FillsOnly(m, WalkFixed(m, fl, root, va, 2, true).mem, used)
    ensures var r := MapPageFixed(m, fl, root, va, pa, perm);
      forall a, k :: 0 <= k < 512 && IsValid(NodeAt(m, a)[k]) ==> NodeAt(r.mem, a)[k] == NodeAt(m, a)[k]
  {
    var w := WalkFixed(m, fl, root, va, 2, true);
    if va % PGSIZE == 0 && pa % PGSIZE == 0 {
      if w.slot.Some? && !IsValid(NodeAt(w.mem, w.slot.value.page)[w.slot.value.index]) {
        FillThenWriteKeepsValid(m, w.mem, used, w.slot.value, LeafEntry(pa, perm));
      } else {
        FillKeepsValid(m, w.mem, used);
      }
    }
  }

  lemma FillKeepsValid(m: Store, m': Store, used: seq<u64>)
    requires FillsOnly(m, m', used)
    ensures forall a, k :: 0 <= k < 512 && IsValid(NodeAt(m, a)[k]) ==> NodeAt(m', a)[k] == NodeAt(m, a)[k]
  {
    forall a, k | 0 <= k < 512 && IsValid(NodeAt(m, a)[k])
      ensures NodeAt(m', a)[k] == NodeAt(m, a)[k]
    {
      FillsKeepValid(m, m', used, a, k);
    }
  }

  /** Storing into an empty slot after a fill still leaves every valid entry as it was. */
  lemma FillThenWriteKeepsValid(m: Store, m': Store, used: seq<u64>, s: Slot, v: u64)
    requires FillsOnly(m, m', used) && s.index < 512 && !IsValid(NodeAt(m', s.page)[s.index])
    ensures forall a, k :: 0 <= k < 512 && IsValid(NodeAt(m, a)[k]) ==>
      NodeAt(WriteEntry(m', s.page, s.index, v), a)[k] == NodeAt(m, a)[k]
  {
    FillKeepsValid(m, m', used);
  }


  /**
   * When the corrected map_page succeeds on a healthy store, the lookup of
   * `va` from the root finds an entry holding exactly the leaf for `pa` and
   * `perm`.
   */
  lemma FixedMapThenLookupAnyRoot(m: Store, fl: seq<u64>, base: u64, root: u64, va: u64, pa: u64, perm: i32)
    requires Healthy(m, fl, base) && root in m
    ensures var r := MapPageFixed(m, fl, root, va, pa, perm);
      r.ret == 0 ==>
        && Lookup(r.mem, root, va, 2).Some?
        && NodeAt(r.mem, Lookup(r.mem, root, va, 2).value.page)[Lookup(r.mem, root, va, 2).value.index]
             == LeafEntry(pa, perm)
  {
    var w := WalkFixed(m, fl, root, va, 2, true);
    var r := MapPageFixed(m, fl, root, va, pa, perm);
    if r.ret == 0 {
      var s := w.slot.value;
      FixedWalkReachesSlot(m, fl, base, root, va, 2, true, LeafEntry(pa, perm));
      assert r.mem == WriteEntry(w.mem, s.page, s.index, LeafEntry(pa, perm));
    }
  }

  /**
   * The corrected map_page succeeds whenever both addresses are aligned,
   * `va` is not yet mapped and a free page is left for each level.
   */
  lemma FixedMapSucceeds(m: Store, fl: seq<u64>, base: u64, root: u64, va: u64, pa: u64, perm: i32)
    requires Healthy(m, fl, base) && root in m
    ensures PageAligned(va) && PageAligned(pa) && Lookup(m, root, va, 2).None? && |fl| > 2 ==>
      MapPageFixed(m, fl, root, va, pa, perm).ret == 0
  {
    if PageAligned(va) && PageAligned(pa) && Lookup(m, root, va, 2).None? && |fl| > 2 {
      FixedWalkFindsEmptySlot(m, fl, base, root, va, 2);
    }
  }

  /** Three valid entries chained from `root` through `a` to `b` make the lookup find slot `i0` of `b`. */
  lemma LookupThroughChain(m: Store, root: u64, a: u64, b: u64, va: u64)
    requires PageAligned(a) && PageAligned(b)
    requires NodeAt(m, root)[Vpn(va, 2)] == NodeEntry(a)
    requires NodeAt(m, a)[Vpn(va, 1)] == NodeEntry(b)
    requires IsValid(NodeAt(m, b)[Vpn(va, 0)])
    ensures Lookup(m, root, va, 2) == Some(Slot(b, Vpn(va, 0)))
  {
    PteRoundTrip(a);
    PteRoundTrip(b);
    assert Lookup(m, b, va, 0) == Some(Slot(b, Vpn(va, 0)));
    assert Lookup(m, a, va, 1) == Some(Slot(b, Vpn(va, 0)));
  }

  /** The corrected map_page on a fresh root writes the leaf into the second page taken. */
  lemma FixedMapOnFreshRoot(m: Store, fl: seq<u64>, root: u64, va: u64, pa: u64, perm: i32)
    requires NodeAt(m, root) == ZeroNode()
    requires |fl| >= 2 && fl[0] != 0 && fl[1] != 0
    requires root != fl[0] && root != fl[1] && fl[0] != fl[1]
    requires PageAligned(va) && PageAligned(pa)
    ensures var m1 := WriteEntry(m[fl[0] := ZeroNode()], root, Vpn(va, 2), NodeEntry(fl[0]));
      var m2 := WriteEntry(m1[fl[1] := ZeroNode()], fl[0], Vpn(va, 1), NodeEntry(fl[1]));
      MapPageFixed(m, fl, root, va, pa, perm)
        == MapResult(0, WriteEntry(m2, fl[1], Vpn(va, 0), LeafEntry(pa, perm)), fl[2..])
  {
    FixedWalkOnFreshRoot(m, fl, root, va);
  }

  /**
   * The corrected map_page on a fresh root with two free pages: it succeeds,
   * the lookup of `va` then finds a valid entry that translates to `pa`, and
   * mapping `va` a second time fails.
   */
  lemma FixedMapThenLookup(m: Store, fl: seq<u64>, root: u64, va: u64, pa: u64, perm: i32, pa2: u64, perm2: i32)
    requires NodeAt(m, root) == ZeroNode()
    requires |fl| >= 2 && fl[0] != 0 && fl[1] != 0
    requires root != fl[0] && root != fl[1] && fl[0] != fl[1]
    requires PageAligned(fl[0]) && PageAligned(fl[1])
    requires PageAligned(va) && PageAligned(pa) && 0 <= perm < 1024
    ensures MapPageFixed(m, fl, root, va, pa, perm).ret == 0
    ensures MapPageFixed(m, fl, root, va, pa, perm).freelist == fl[2..]
    ensures Lookup(MapPageFixed(m, fl, root, va, pa, perm).mem, root, va, 2) == Some(Slot(fl[1], Vpn(va, 0)))
    ensures NodeAt(MapPageFixed(m, fl, root, va, pa, perm).mem, fl[1])[Vpn(va, 0)] == LeafEntry(pa, perm)
    ensures PteToPa(NodeAt(MapPageFixed(m, fl, root, va, pa, perm).mem, fl[1])[Vpn(va, 0)]) == pa
    ensures var r := MapPageFixed(m, fl, root, va, pa, perm);
      MapPageFixed(r.mem, r.freelist, root, va, pa2, perm2).ret == -1
  {
    var a, b := fl[0], fl[1];
    var m1 := WriteEntry(m[a := ZeroNode()], root, Vpn(va, 2), NodeEntry(a));
    var m2 := WriteEntry(m1[b := ZeroNode()], a, Vpn(va, 1), NodeEntry(b));
    var m3 := WriteEntry(m2, b, Vpn(va, 0), LeafEntry(pa, perm));
    assert MapPageFixed(m, fl, root, va, pa, perm) == MapResult(0, m3, fl[2..]) by {
      FixedMapOnFreshRoot(m, fl, root, va, pa, perm);
    }
    assert NodeAt(m3, root)[Vpn(va, 2)] == NodeEntry(a) && NodeAt(m3, a)[Vpn(va, 1)] == NodeEntry(b) by {
      FixedWalkOnFreshRoot(m, fl, root, va);
    }
    assert IsValid(NodeAt(m3, b)[Vpn(va, 0)]) && PteToPa(NodeAt(m3, b)[Vpn(va, 0)]) == pa by {
      LeafEntryAddress(pa, perm);
    }
    LookupThroughChain(m3, root, a, b, va);
    FixedMapOfMappedFails(m3, fl[2..], root, va, pa2, perm2);
  }

  /** A leaf entry with permission bits below bit 10 points at the page of `pa`. */
  lemma LeafEntryAddress(pa: u64, perm: i32)
    requires 0 <= perm < 1024
    ensures PteToPa(LeafEntry(pa, perm)) == PgRoundDown(pa)
  {
    FlagsPreserveAddress(pa, LeafFlags(perm));
  }

  /**
   * destroy_pagetable on the store: every valid entry with R, W or X set is
   * destroyed recursively, then the node itself is freed. `depth` bounds the
   * descent; the source has no bound.
   */
  function DestroyFrom(m: Store, fl: seq<u64>, base: u64, pt: u64, depth: nat): seq<u64>
    decreases depth, 513
  {
    if pt == 0 then fl
    else FreeStep(base, DestroyEntries(m, fl, base, pt, 0, depth), pt)
  }

  /** The loop of destroy_pagetable over the entries `i..512` of `pt`. */
  function DestroyEntries(m: Store, fl: seq<u64>, base: u64, pt: u64, i: nat, depth: nat): seq<u64>
    requires i <= 512
    decreases depth, 512 - i
  {
    if i == 512 then fl
    else
      var pte := NodeAt(m, pt)[i];
      var fl' := if IsValid(pte) && HasRwx(pte) && depth > 0
        then DestroyFrom(m, fl, base, PteToPa(pte), depth - 1) else fl;
      DestroyEntries(m, fl', base, pt, i + 1, depth)
  }

  /** The pages a destroy pushes, in front of the list it started from. */
  predicate PushesValid(base: u64, fl: seq<u64>, fl': seq<u64>) {
    |fl'| >= |fl| && fl'[|fl'| - |fl|..] == fl && ListValid(base, fl'[..|fl'| - |fl|])
  }

  lemma PushesValidTrans(base: u64, a: seq<u64>, b: seq<u64>, c: seq<u64>)
    requires PushesValid(base, a, b) && PushesValid(base, b, c)
    ensures PushesValid(base, a, c)
  {
    var pc := c[..|c| - |b|];
    var pb := b[..|b| - |a|];
    assert c == pc + b && b == pb + a;
    assert c[..|c| - |a|] == pc + pb;
    assert c[|c| - |a|..] == a;
  }

  /**
   * destroy_pagetable only pushes pages on the free list, each of them one
   * free_page accepts, and when the node itself is accepted it ends on top,
   * after everything below it.
   */
  lemma {:induction false} DestroyOnlyFrees(m: Store, fl: seq<u64>, base: u64, pt: u64, depth: nat)
    ensures PushesValid(base, fl, DestroyFrom(m, fl, base, pt, depth))
    ensures pt != 0 && Accepts(base, pt) ==> DestroyFrom(m, fl, base, pt, depth)[0] == pt
    ensures pt == 0 ==> DestroyFrom(m, fl, base, pt, depth) == fl
    decreases depth, 513
  {
    if pt != 0 {
      var inner := DestroyEntries(m, fl, base, pt, 0, depth);
      DestroyEntriesOnlyFree(m, fl, base, pt, 0, depth);
      var r := FreeStep(base, inner, pt);
      if Accepts(base, pt) {
        assert r == [pt] + inner;
        assert PushesValid(base, inner, r);
        PushesValidTrans(base, fl, inner, r);
      }
    }
  }

  lemma {:induction false} DestroyEntriesOnlyFree(m: Store, fl: seq<u64>, base: u64, pt: u64, i: nat, depth: nat)
    requires i <= 512
    ensures PushesValid(base, fl, DestroyEntries(m, fl, base, pt, i, depth))
    decreases depth, 512 - i
  {
    if i < 512 {
      var pte := NodeAt(m, pt)[i];
      var fl' := if IsValid(pte) && HasRwx(pte) && depth > 0
        then DestroyFrom(m, fl, base, PteToPa(pte), depth - 1) else fl;
      if IsValid(pte) && HasRwx(pte) && depth > 0 {
        DestroyOnlyFrees(m, fl, base, PteToPa(pte), depth - 1);
      } else {
        assert fl'[..|fl'| - |fl|] == [];
      }
      DestroyEntriesOnlyFree(m, fl', base, pt, i + 1, depth);
      PushesValidTrans(base, fl, fl', DestroyEntries(m, fl', base, pt, i + 1, depth));
    }
  }

  /** Entry `i` of `pt` is one destroy_pagetable descends into: valid, with R, W or X set. */
  predicate Descends(m: Store, pt: u64, i: nat)
    requires i < 512
  {
    IsValid(NodeAt(m, pt)[i]) && HasRwx(NodeAt(m, pt)[i])
  }

  /** The page entry `i` of `pt` points at. */
  function Child(m: Store, pt: u64, i: nat): u64
    requires i < 512
  {
    PteToPa(NodeAt(m, pt)[i])
  }

  /**
   * `q` is reached from the table `pt` by following at most `depth`
   * descending entries; the null table reaches nothing.
   */
  ghost predicate Reachable(m: Store, pt: u64, q: u64, depth: nat)
    decreases depth, 1
  {
    pt != 0 && (q == pt || ReachableBelow(m, pt, q, depth, 0))
  }

  /** `q` is reached from `pt` through one of its entries `i..512`. */
  ghost predicate ReachableBelow(m: Store, pt: u64, q: u64, depth: nat, i: nat)
    decreases depth, 0
  {
    depth > 0 && exists j :: i <= j < 512 && Descends(m, pt, j) && Reachable(m, Child(m, pt, j), q, depth - 1)
  }

  lemma ReachableBelowSplit(m: Store, pt: u64, q: u64, depth: nat, i: nat)
    requires i < 512
    ensures ReachableBelow(m, pt, q, depth, i) <==>
      (depth > 0 && Descends(m, pt, i) && Reachable(m, Child(m, pt, i), q, depth - 1))
      || ReachableBelow(m, pt, q, depth, i + 1)
  {
  }

  /** The pages a destroy pushed on top of the list `fl` it started from. */
  function Pushed(fl: seq<u64>, fl': seq<u64>): seq<u64>
    requires |fl| <= |fl'|
  {
    fl'[..|fl'| - |fl|]
  }

  lemma PushedConcat(a: seq<u64>, b: seq<u64>, c: seq<u64>)
    requires |a| <= |b| <= |c| && c[|c| - |b|..] == b
    ensures Pushed(a, c) == Pushed(b, c) + Pushed(a, b)
  {
    assert c == c[..|c| - |b|] + b;
  }

  /**
   * destroy_pagetable frees exactly the tables reachable from `pt` through
   * descending entries (those free_page accepts), and frees `pt` itself
   * last: every other page it frees is freed during the loop over the
   * entries, before `pt` is pushed on top.
   */
  lemma {:induction false} DestroyFreesReachable(m: Store, fl: seq<u64>, base: u64, pt: u64, depth: nat)
    ensures var r := DestroyFrom(m, fl, base, pt, depth);
      && |fl| <= |r|
      && forall q :: q in Pushed(fl, r) <==> Reachable(m, pt, q, depth) && Accepts(base, q)
    ensures var r := DestroyFrom(m, fl, base, pt, depth);
      pt != 0 && Accepts(base, pt) ==>
        && |fl| < |r| && r[0] == pt
        && forall q :: q in Pushed(fl, r)[1..] <==> Accepts(base, q) && ReachableBelow(m, pt, q, depth, 0)
    decreases depth, 513
  {
    DestroyOnlyFrees(m, fl, base, pt, depth);
    if pt != 0 {
      var inner := DestroyEntries(m, fl, base, pt, 0, depth);
      DestroyEntriesFreeChildren(m, fl, base, pt, 0, depth);
      var r := FreeStep(base, inner, pt);
      if Accepts(base, pt) {
        assert Pushed(fl, r) == [pt] + Pushed(fl, inner);
        assert Pushed(fl, r)[1..] == Pushed(fl, inner);
      }
    }
  }

  /** The loop over entries `i..512` frees exactly what is reachable through those entries. */
  lemma {:induction false} DestroyEntriesFreeChildren(m: Store, fl: seq<u64>, base: u64, pt: u64, i: nat, depth: nat)
    requires i <= 512
    ensures var r := DestroyEntries(m, fl, base, pt, i, depth);
      && |fl| <= |r|
      && forall q :: q in Pushed(fl, r) <==> Accepts(base, q) && ReachableBelow(m, pt, q, depth, i)
    decreases depth, 512 - i, 1
  {
    if i == 512 {
      assert Pushed(fl, fl) == [];
    } else {
      var fl' := if Descends(m, pt, i) && depth > 0 then DestroyFrom(m, fl, base, Child(m, pt, i), depth - 1) else fl;
      var r := DestroyEntries(m, fl', base, pt, i + 1, depth);
      assert r == DestroyEntries(m, fl, base, pt, i, depth);
      assert |fl| <= |fl'| && forall q :: q in Pushed(fl, fl') <==>
          Accepts(base, q) && depth > 0 && Descends(m, pt, i) && Reachable(m, Child(m, pt, i), q, depth - 1) by {
        DestroyEntryFrees(m, fl, base, pt, i, depth);
      }
      assert |fl'| <= |r| && r[|r| - |fl'|..] == fl'
        && forall q :: q in Pushed(fl', r) <==> Accepts(base, q) && ReachableBelow(m, pt, q, depth, i + 1) by {
        DestroyEntriesFreeChildren(m, fl', base, pt, i + 1, depth);
        DestroyEntriesOnlyFree(m, fl', base, pt, i + 1, depth);
      }
      assert Pushed(fl, r) == Pushed(fl', r) + Pushed(fl, fl') by {
        PushedConcat(fl, fl', r);
      }
      EntriesCombine(m, base, pt, i, depth, Pushed(fl, fl'), Pushed(fl', r));
    }
  }

  /** What entry `i` frees followed by what entries `i+1..512` free is what entries `i..512` free. */
  lemma EntriesCombine(m: Store, base: u64, pt: u64, i: nat, depth: nat, here: seq<u64>, later: seq<u64>)
    requires i < 512
    requires forall q :: q in here <==>
      Accepts(base, q) && depth > 0 && Descends(m, pt, i) && Reachable(m, Child(m, pt, i), q, depth - 1)
    requires forall q :: q in later <==> Accepts(base, q) && ReachableBelow(m, pt, q, depth, i + 1)
    ensures forall q :: q in later + here <==> Accepts(base, q) && ReachableBelow(m, pt, q, depth, i)
  {
    forall q
      ensures q in later + here <==> Accepts(base, q) && ReachableBelow(m, pt, q, depth, i)
    {
      ReachableBelowSplit(m, pt, q, depth, i);
    }
  }

  /** One pass of the loop, at entry `i`, frees exactly what is reachable through that entry. */
  lemma {:induction false} DestroyEntryFrees(m: Store, fl: seq<u64>, base: u64, pt: u64, i: nat, depth: nat)
    requires i < 512
    ensures var fl' := if Descends(m, pt, i) && depth > 0 then DestroyFrom(m, fl, base, Child(m, pt, i), depth - 1) else fl;
      && |fl| <= |fl'|
      && forall q :: q in Pushed(fl, fl') <==>
           Accepts(base, q) && depth > 0 && Descends(m, pt, i) && Reachable(m, Child(m, pt, i), q, depth - 1)
    decreases depth, 512 - i, 0
  {
    if Descends(m, pt, i) && depth > 0 {
      DestroyFreesReachable(m, fl, base, Child(m, pt, i), depth - 1);
    } else {
      assert Pushed(fl, fl) == [];
    }
  }

  /** The page tables of the kernel: the page store and the allocator that feeds it. */
  class PageTables {
    var mem: Store
    const pmm: Allocator

    ghost predicate Valid()
      reads this, pmm
    {
      pmm.Valid()
    }

    constructor (pmm: Allocator)
      requires pmm.Valid()
      ensures Valid() && this.pmm == pmm && mem == map[]
    {
      this.pmm := pmm;
      mem := map[];
    }

    /** The `for (i = 0; i < 512; i++) pt[i] = 0;` loop. */
    method ZeroPage(pa: u64)
      modifies this
      ensures mem == old(mem)[pa := ZeroNode()]
    {
      var node := NodeAt(mem, pa);
      for i := 0 to 512
        invariant |node| == 512
        invariant forall j :: 0 <= j < i ==> node[j] == 0
      {
        node := node[i := 0];
      }
      assert node == ZeroNode();
      mem := mem[pa := node];
    }

    /** create_pagetable: a zeroed root page, or 0 when no page is free. */
    method CreatePagetable() returns (pt: u64)
      requires Valid()
      modifies this, pmm
      ensures Valid()
      ensures (pt, pmm.freelist) == AllocStep(old(pmm.freelist))
      ensures pt == 0 ==> mem == old(mem)
      ensures pt != 0 ==> mem == old(mem)[pt := ZeroNode()]
    {
      pt := pmm.AllocPage();
      if pt == 0 {
        return 0;
      }
      ZeroPage(pt);
    }

    /** walk. */
    method Walk(root: u64, va: u64, alloc: bool) returns (slot: Option<Slot>)
      requires Valid()
      modifies this, pmm
      ensures Valid()
      ensures WalkResult(slot, mem, pmm.freelist) == WalkFrom(old(mem), old(pmm.freelist), root, va, 2, alloc)
    {
      ghost var target := WalkFrom(mem, pmm.freelist, root, va, 2, alloc);
      var pt := root;
      var level := 2;
      while level >= 0
        invariant -1 <= level <= 2 && Valid()
        invariant level >= 0 ==> WalkFrom(mem, pmm.freelist, pt, va, level, alloc) == target
        invariant level < 0 ==> WalkResult(None, mem, pmm.freelist) == target
      {
        var done, next;
        done, slot, next := WalkLevel(pt, va, level, alloc);
        if done {
          return slot;
        }
        pt := next;
        level := level - 1;
      }
      return None;
    }

    /**
     * One pass of walk's loop at `level`: either the walk ends here with
     * `slot`, or it goes on at `next` one level down (or leaves the loop
     * with null after level 0).
     */
    method WalkLevel(pt: u64, va: u64, level: nat, alloc: bool) returns (done: bool, slot: Option<Slot>, next: u64)
      requires Valid() && level <= 2
      modifies this, pmm
      ensures Valid()
      ensures done ==> WalkResult(slot, mem, pmm.freelist) == WalkFrom(old(mem), old(pmm.freelist), pt, va, level, alloc)
      ensures !done && level == 0 ==> WalkResult(None, mem, pmm.freelist) == WalkFrom(old(mem), old(pmm.freelist), pt, va, level, alloc)
      ensures !done && level > 0 ==>
        WalkFrom(mem, pmm.freelist, next, va, level - 1, alloc) == WalkFrom(old(mem), old(pmm.freelist), pt, va, level, alloc)
    {
      var idx := Vpn(va, level);
      var pte := NodeAt(mem, pt)[idx];
      if IsValid(pte) {
        if level == 0 {
          return true, Some(Slot(pt, idx)), 0;
        }
        return false, None, PteToPa(pte);
      }
      if !alloc {
        return true, None, 0;
      }
      // Lines 30-34 allocate and zero a node exactly as create_pagetable does.
      var node := CreatePagetable();
      if node == 0 {
        return true, None, 0;
      }
      mem := WriteEntry(mem, pt, idx, NodeEntry(node));
      return false, None, node;
    }

    /** map_page. */
    method MapPage(pt: u64, va: u64, pa: u64, perm: i32) returns (r: int)
      requires Valid()
      modifies this, pmm
      ensures Valid()
      ensures MapResult(r, mem, pmm.freelist) == MapPageSpec(old(mem), old(pmm.freelist), pt, va, pa, perm)
    {
      if va % PGSIZE != 0 || pa % PGSIZE != 0 {
        return -1;
      }
      var slot := Walk(pt, va, true);
      if slot == None {
        return -1;
      }
      var s := slot.value;
      if IsValid(NodeAt(mem, s.page)[s.index]) {
        return -1;
      }
      mem := WriteEntry(mem, s.page, s.index, LeafEntry(pa, perm));
      return 0;
    }

    /** destroy_pagetable, descending at most `depth` levels below `pt`. */
    method DestroyPagetable(pt: u64, depth: nat)
      requires Valid()
      modifies pmm
      ensures Valid()
      ensures pmm.freelist == DestroyFrom(mem, old(pmm.freelist), pmm.base, pt, depth)
      decreases depth
    {
      if pt == 0 {
        return;
      }
      for i := 0 to 512
        invariant Valid()
        invariant DestroyEntries(mem, pmm.freelist, pmm.base, pt, i, depth)
          == DestroyEntries(mem, old(pmm.freelist), pmm.base, pt, 0, depth)
      {
        var pte := NodeAt(mem, pt)[i];
        if IsValid(pte) && HasRwx(pte) && depth > 0 {
          DestroyPagetable(PteToPa(pte), depth - 1);
        }
      }
      pmm.FreePage(pt);
    }
  }
}
