/** Mapping runs of virtual pages onto free physical pages, with rollback. */
module VirtualPages {
  import opened Pages
  import opened Powers

  const ENTRIES := 512
  const KERNEL_HEAP_START := 0xE000_0000

  /** `set_pte`: page address and flags in one word. */
  function Pte(phys: nat, flags: nat): (e: nat) { phys / PAGE_SIZE * PAGE_SIZE + flags % PAGE_SIZE }

  /** `get_phys_addr_from_pte`. */
  function PhysOf(e: nat): (phys: nat) { e / PAGE_SIZE * PAGE_SIZE }

  /** The address comes back out of the entry, whatever the flags, and the flags are its low twelve bits. */
  lemma PteRoundTrip(phys: nat, flags: nat)
    ensures PhysOf(Pte(phys, flags)) == phys / PAGE_SIZE * PAGE_SIZE
    ensures phys % PAGE_SIZE == 0 ==> PhysOf(Pte(phys, flags)) == phys
    ensures Pte(phys, flags) % 0x1000 == flags % 0x1000 && (PhysOf(Pte(phys, flags)) == 0 <==> phys < 0x1000)
  {
  }

  class Vmm {
    const pmm: Pmm
    const entries: array<nat>
    var mapped: bool
    var heapEnd: nat

    ghost function Repr(): set<object>
      reads pmm
    {
      {this, entries, pmm, pmm.bitmap}
    }

    ghost predicate Valid()
      reads this, entries, pmm, pmm.bitmap
    {
      pmm.Valid() && entries.Length == ENTRIES && heapEnd < TWO_64 && entries as object != pmm.bitmap as object
    }

    /** The page table exists once `vmm_init` has run, and maps every page to itself; `base` is where kernel virtual pages are handed out. */
    constructor (p: Pmm, base: nat)
      requires p.Valid() && base < TWO_64
      ensures Valid() && pmm == p && heapEnd == base && mapped && fresh(entries)
      ensures forall i :: 0 <= i < ENTRIES ==> PhysOf(entries[i]) == i * PAGE_SIZE && entries[i] % 0x1000 == 3
    {
      pmm := p;
      entries := new nat[ENTRIES](i requires i >= 0 => Pte(i * PAGE_SIZE, 3));
      mapped, heapEnd := true, base;
    }

    /** `vmm_map_page`: null unless the virtual page has an entry. */
    method MapPage(virt: nat, phys: nat, flags: nat) returns (r: nat)
      requires Valid()
      modifies entries
      ensures Valid() && (r == virt || r == 0)
      ensures r == 0 <==> !mapped || virt == 0 || phys == 0 || virt / PAGE_SIZE >= ENTRIES
      ensures r == 0 ==> entries[..] == old(entries[..])
      ensures r != 0 ==> entries[..] == old(entries[..])[virt / PAGE_SIZE := Pte(phys, flags)]
    {
      if !mapped || virt == 0 || phys == 0 {
        return 0;
      }
      if virt / PAGE_SIZE >= ENTRIES {
        return 0;
      }
      entries[virt / PAGE_SIZE] := Pte(phys, flags);
      return virt;
    }

    /** `vmm_free_page` changes nothing for this address. */
    predicate Unfreeable(virt: nat)
      requires entries.Length == ENTRIES
      reads this, entries
    {
      !mapped || virt == 0 || virt / PAGE_SIZE >= ENTRIES || PhysOf(entries[virt / PAGE_SIZE]) == 0
    }

    /** The physical page that the virtual page is mapped to. */
    function PageBehind(virt: nat): (p: nat)
      requires entries.Length == ENTRIES && virt / PAGE_SIZE < ENTRIES
      reads this, entries
    {
      PhysOf(entries[virt / PAGE_SIZE]) / PAGE_SIZE
    }

    /** `vmm_free_page`: unmaps the virtual page and frees the page it was mapped to. As in `pmm_free_page` that page may be
        one that has a bit but does not exist, and then the count of free pages may become wrong. */
    method FreePage(virt: nat)
      requires Valid() && (Unfreeable(virt) || PageBehind(virt) < 8 * pmm.bitmap.Length)
      modifies entries, pmm`freePages, pmm.bitmap
      ensures pmm.totalPages < 8 * pmm.bitmap.Length && entries.Length == ENTRIES
      ensures old(Unfreeable(virt)) ==> Valid() && entries[..] == old(entries[..]) && pmm.Free() == old(pmm.Free())
      ensures !old(Unfreeable(virt)) ==>
        var page := old(PageBehind(virt));
        && entries[..] == old(entries[..])[virt / PAGE_SIZE := 0]
        && pmm.Free() == old(pmm.Free()) + (if page < pmm.totalPages then {page} else {})
        && (Valid() <==> page < pmm.totalPages || !old(Taken(pmm.bitmap[..], PageBehind(virt))))
    {
      if !mapped || virt == 0 {
        return;
      }
      if virt / PAGE_SIZE >= ENTRIES {
        return;
      }
      var phys := PhysOf(entries[virt / PAGE_SIZE]);
      if phys == 0 {
        return;
      }
      entries[virt / PAGE_SIZE] := Pte(0, 0);
      pmm.FreePage(phys);
    }

    /** One round of the rollback loop of `vmm_alloc_user_pages`. */
    method GiveBack(first: nat, j: nat, ghost pages: seq<nat>)
      requires Valid() && mapped && first % PAGE_SIZE == 0 && first != 0 && j < |pages|
      requires MapsFrom(entries[..], first / PAGE_SIZE, pages, j) && 0 < pages[j] < pmm.totalPages
      modifies entries, pmm`freePages, pmm.bitmap
      ensures Valid() && pmm.Free() == old(pmm.Free()) + {pages[j]}
      ensures MapsFrom(entries[..], first / PAGE_SIZE, pages, j + 1)
      ensures entries[..] == old(entries[..])[first / PAGE_SIZE + j := 0]
    {
      hide FreeIn, PhysOf;
      PageIndex(first, j);
      PageIndex(0, pages[j]);
      MapsNext(entries[..], first / PAGE_SIZE, pages, j);
      FreePage(first + j * PAGE_SIZE);
    }

    /** The rollback loop of `vmm_alloc_user_pages`: gives every page back. */
    method Rollback(first: nat, n: nat, ghost pages: seq<nat>)
      requires Valid() && mapped && first % PAGE_SIZE == 0 && first != 0 && |pages| == n
      requires MapsFrom(entries[..], first / PAGE_SIZE, pages, 0) && exists t :: Fresh(pages, t, pmm.totalPages)
      modifies entries, pmm`freePages, pmm.bitmap
      ensures Valid() && pmm.Free() == old(pmm.Free()) + Elements(pages)
      ensures Wiped(old(entries[..]), entries[..], first / PAGE_SIZE, n)
    {
      hide FreeIn, PhysOf, Elements;
      assert first / PAGE_SIZE + n <= |entries[..]|;
      hide MapsFrom;
      ghost var free := pmm.Free();
      ElementsNone(pages);
      for j := 0 to n
        invariant Valid() && mapped
        invariant pmm.Free() == free + Elements(pages[..j])
        invariant MapsFrom(entries[..], first / PAGE_SIZE, pages, j)
        invariant Wiped(old(entries[..]), entries[..], first / PAGE_SIZE, j)
      {
        GiveBack(first, j, pages);
        ElementsStep(pages, j);
      }
      assert pages[..n] == pages;
    }

    /** The end of `vmm_alloc_user_pages` when a page could not be taken or mapped. */
    method GiveUp(first: nat, n: nat, ghost e0: seq<nat>, ghost start: nat, ghost end: nat, ghost pages: seq<nat>,
                  ghost free: set<nat>, ghost left: set<nat>)
      requires Valid() && mapped && |pages| == n && first == (if n == 0 then 0 else start) && start != 0
      requires Progress(e0, entries[..], start, end, pages, free, left, pmm.totalPages)
      requires pmm.Free() == if 0 in left then left - {0} else left
      modifies entries, pmm`freePages, pmm.bitmap
      ensures Valid() && Wiped(e0, entries[..], start / PAGE_SIZE, n)
      ensures pmm.Free() == if 0 in free then free - {0} else free
    {
      hide FreeIn, PhysOf, Pte, Elements, MapsFrom, Fresh, Progress, SameOutside, Wiped;
      ghost var before := entries[..];
      ProgressMeans(e0, before, start, end, pages, free, left, pmm.totalPages);
      WipedNone(e0, start / PAGE_SIZE);
      if first != 0 {
        EndIs(e0, before, start, end, pages, free, left, pmm.totalPages);
        Rollback(first, n, pages);
        WipedAfter(e0, before, entries[..], start / PAGE_SIZE, n);
      }
    }

    /** One round of `vmm_alloc_user_pages` before any rollback: a page is taken and mapped, or not taken. */
    method TakeOne() returns (ok: bool, virt: nat, ghost page: nat)
      requires Valid() && mapped
      modifies `heapEnd, entries, pmm`freePages, pmm.bitmap
      ensures Valid()
      ensures ok ==>
        && page in old(pmm.Free()) && 0 < page < pmm.totalPages && 0 !in old(pmm.Free())
        && pmm.Free() == old(pmm.Free()) - {page}
        && virt == old(heapEnd) && virt != 0 && virt / PAGE_SIZE < ENTRIES && heapEnd == virt + PAGE_SIZE
        && entries[..] == old(entries[..])[virt / PAGE_SIZE := Pte(page * PAGE_SIZE, 7)]
      ensures ok <==> old(pmm.Free()) != {} && 0 !in old(pmm.Free()) && old(heapEnd) != 0 && old(heapEnd) / PAGE_SIZE < ENTRIES
      ensures !ok ==>
        && entries[..] == old(entries[..])
        && pmm.Free() == (if 0 in old(pmm.Free()) then old(pmm.Free()) - {0} else old(pmm.Free()))
        && heapEnd == if old(pmm.Free()) == {} || 0 in old(pmm.Free()) then old(heapEnd) else (old(heapEnd) + PAGE_SIZE) % TWO_64
    {
      hide FreeIn, PhysOf, Pte;
      page := 0;
      InRange();
      var phys := pmm.AllocPage();
      if phys == 0 {
        return false, 0, 0;
      }
      page := phys / PAGE_SIZE;
      virt := heapEnd;
      heapEnd := (heapEnd + PAGE_SIZE) % TWO_64;
      var r := MapPage(virt, phys, 7);
      if r == 0 {
        pmm.FreePage(phys);
        return false, 0, 0;
      }
      return true, virt, page;
    }

    lemma InRange()
      requires Valid()
      ensures forall p :: p in pmm.Free() ==> p < pmm.totalPages
    {
    }

    /** `vmm_alloc_user_pages`. With page 0 reserved it is all or nothing: null leaves the free pages exactly
        as they were, and success maps `count` consecutive virtual pages to as many different pages that were
        free. Page 0, were it free, would be taken by the first call and reported as "none". It succeeds exactly
        when there are enough free pages, page 0 not among them, and enough entries behind the heap. */
    method AllocUserPages(count: nat) returns (base: nat, ghost pages: seq<nat>)
      requires Valid() && heapEnd % PAGE_SIZE == 0 && heapEnd != 0
      modifies `heapEnd, entries, pmm`freePages, pmm.bitmap
      ensures Valid()
      ensures base != 0 <==>
        && count > 0 && mapped && 0 !in old(pmm.Free()) && count <= |old(pmm.Free())|
        && old(heapEnd) / PAGE_SIZE + count <= ENTRIES
      ensures count == 0 || !mapped ==> base == 0 && pmm.Free() == old(pmm.Free()) && heapEnd == old(heapEnd)
      ensures base == 0 && 0 !in old(pmm.Free()) ==> pmm.Free() == old(pmm.Free())
      ensures base == 0 ==> exists n: nat :: Wiped(old(entries[..]), entries[..], old(heapEnd) / PAGE_SIZE, n)
      ensures count > 0 && mapped && 0 in old(pmm.Free()) ==>
        base == 0 && pmm.Free() == old(pmm.Free()) - {0} && heapEnd == old(heapEnd)
      ensures base == 0 && count > 0 && mapped && 0 !in old(pmm.Free()) ==>
        heapEnd == EndAfter(old(heapEnd), |old(pmm.Free())|)
      ensures base != 0 ==>
        && base == old(heapEnd) && heapEnd == base + count * PAGE_SIZE && |pages| == count
        && SameOutside(old(entries[..]), entries[..], base / PAGE_SIZE, count)
        && MapsFrom(entries[..], base / PAGE_SIZE, pages, 0)
        && Fresh(pages, old(pmm.Free()), pmm.totalPages)
        && pmm.Free() == old(pmm.Free()) - Elements(pages)
    {
      hide FreeIn, PhysOf, Pte, Elements, MapsFrom, Fresh, Progress, SameOutside, Wiped, EndAfter;
      pages := [];
      ghost var e0 := entries[..];
      WipedNone(e0, heapEnd / PAGE_SIZE);
      if count == 0 || !mapped {
        return 0, [];
      }
      var first := 0;
      ghost var start, free := heapEnd, pmm.Free();
      ProgressNone(e0, start, free, pmm.totalPages);
      var i := 0;
      while i < count
        invariant 0 <= i <= count && Valid() && mapped && |pages| == i && (i > 0 ==> Enough(start, i, free))
        invariant first == if i == 0 then 0 else start
        invariant Progress(e0, entries[..], start, heapEnd, pages, free, pmm.Free(), pmm.totalPages)
      {
        ghost var left, end := pmm.Free(), heapEnd;
        EndIs(e0, entries[..], start, end, pages, free, left, pmm.totalPages);
        var ok, virt;
        ghost var page;
        EnoughFewer(start, i + 1, count, free);
        ok, virt, page := TakeNext(e0, start, pages, free);
        if !ok {
          GiveUp(first, i, e0, start, end, pages, free, left);
          return 0, pages;
        }
        if first == 0 {
          first := virt;
        }
        pages := pages + [page];
        i := i + 1;
      }
      ProgressMeans(e0, entries[..], start, heapEnd, pages, free, pmm.Free(), pmm.totalPages);
      EndIs(e0, entries[..], start, heapEnd, pages, free, pmm.Free(), pmm.totalPages);
      return first, pages;
    }

    /** One round of `vmm_alloc_user_pages` in the middle of it. */
    method TakeNext(ghost e0: seq<nat>, ghost start: nat, ghost pages: seq<nat>, ghost free: set<nat>)
        returns (ok: bool, virt: nat, ghost page: nat)
      requires Valid() && mapped && start != 0
      requires Progress(e0, entries[..], start, heapEnd, pages, free, pmm.Free(), pmm.totalPages)
      modifies `heapEnd, entries, pmm`freePages, pmm.bitmap
      ensures Valid() && (ok <==> Enough(start, |pages| + 1, free))
      ensures ok ==>
        && Progress(e0, entries[..], start, heapEnd, pages + [page], free, pmm.Free(), pmm.totalPages)
        && (pages == [] ==> virt == start)
      ensures !ok ==>
        && entries[..] == old(entries[..])
        && pmm.Free() == (if 0 in old(pmm.Free()) then old(pmm.Free()) - {0} else old(pmm.Free()))
        && heapEnd == if 0 in free then old(heapEnd) else EndAfter(start, |free|)
    {
      hide FreeIn, PhysOf, Pte, Elements, MapsFrom, Fresh, Progress, SameOutside, Wiped, EndAfter;
      ghost var before, left, end := entries[..], pmm.Free(), heapEnd;
      ProgressMeans(e0, before, start, end, pages, free, left, pmm.totalPages);
      assert left == {} <==> |left| == 0;
      ok, virt, page := TakeOne();
      if ok {
        ProgressStep(e0, before, start, virt, pages, free, left, pmm.totalPages, page);
      } else if 0 !in free {
        Failed(e0, before, start, end, pages, free, left, pmm.totalPages, heapEnd);
      }
    }
  }

  /** There are that many pages to be had, page 0 not among them, and entries for them. */
  predicate Enough(start: nat, n: nat, free: set<nat>) { 0 !in free && n <= |free| && start / PAGE_SIZE + n <= ENTRIES }

  lemma EnoughFewer(start: nat, n: nat, m: nat, free: set<nat>)
    requires n <= m
    ensures Enough(start, m, free) ==> Enough(start, n, free)
  {
  }

  /** Where the addresses handed out go on after a request that failed: the ones it used are not taken back, nor is the one
      for which there was no entry. */
  function EndAfter(start: nat, free: nat): (end: nat)
  {
    var fit := if start / PAGE_SIZE < ENTRIES then ENTRIES - start / PAGE_SIZE else 0;
    if free <= fit then start + free * PAGE_SIZE else (start + fit * PAGE_SIZE + PAGE_SIZE) % TWO_64
  }

  lemma StoppedAt(start: nat, i: nat, free: nat, dry: bool)
    requires start % PAGE_SIZE == 0 && i <= free && (dry <==> i == free)
    requires i > 0 ==> start / PAGE_SIZE + i <= ENTRIES
    requires !dry ==> (start + i * PAGE_SIZE) / PAGE_SIZE >= ENTRIES
    ensures EndAfter(start, free) ==
      if dry then start + i * PAGE_SIZE else (start + i * PAGE_SIZE + PAGE_SIZE) % TWO_64
  {
    PageIndex(start, i);
  }

  lemma Failed(e0: seq<nat>, entries: seq<nat>, start: nat, end: nat, pages: seq<nat>, free: set<nat>, left: set<nat>, total: nat,
               after: nat)
    requires Progress(e0, entries, start, end, pages, free, left, total) && 0 !in free && |entries| == ENTRIES
    requires left == {} || end / PAGE_SIZE >= ENTRIES
    requires after == if left == {} then end else (end + PAGE_SIZE) % TWO_64
    ensures after == EndAfter(start, |free|)
  {
    ProgressMeans(e0, entries, start, end, pages, free, left, total);
    assert left == {} <==> |left| == 0;
    EndIs(e0, entries, start, end, pages, free, left, total);
    hide *;
    StoppedAt(start, |pages|, |free|, left == {});
  }

  lemma EndIs(e0: seq<nat>, entries: seq<nat>, start: nat, end: nat, pages: seq<nat>, free: set<nat>, left: set<nat>, total: nat)
    requires Progress(e0, entries, start, end, pages, free, left, total)
    ensures start % PAGE_SIZE == 0 && end == start + |pages| * PAGE_SIZE
  {
  }

  /** The base that the kernel is built with lies far behind the 512 entries, so with it every request ends in null. */
  lemma HeapBaseOutside(count: nat)
    requires count > 0
    ensures KERNEL_HEAP_START == 0xE000_0000 && ENTRIES == 512 && KERNEL_HEAP_START / 0x1000 + count > ENTRIES
  {
  }

  /** Entries outside `[lo, lo + n)` are the same. */
  ghost predicate SameOutside(a: seq<nat>, b: seq<nat>, lo: nat, n: nat)
  {
    |a| == |b| && forall k :: 0 <= k < |a| && !(lo <= k < lo + n) ==> b[k] == a[k]
  }

  /** Entries `[lo, lo + n)` are cleared, the others are the same. */
  ghost predicate Wiped(a: seq<nat>, b: seq<nat>, lo: nat, n: nat)
  {
    SameOutside(a, b, lo, n) && forall k :: lo <= k < lo + n && k < |b| ==> b[k] == 0
  }

  lemma WipedNone(a: seq<nat>, lo: nat)
    ensures Wiped(a, a, lo, 0)
  {
  }

  lemma WipedAfter(a: seq<nat>, b: seq<nat>, c: seq<nat>, lo: nat, n: nat)
    requires SameOutside(a, b, lo, n) && Wiped(b, c, lo, n)
    ensures Wiped(a, c, lo, n)
  {
  }

  /** What `vmm_alloc_user_pages` has done once it holds `pages`: they were taken from `free`, leaving `left`,
      and are mapped from address `start` up to `end`. */
  ghost predicate Progress(e0: seq<nat>, entries: seq<nat>, start: nat, end: nat, pages: seq<nat>, free: set<nat>, left: set<nat>, total: nat)
  {
    && start % PAGE_SIZE == 0 && end == start + |pages| * PAGE_SIZE
    && SameOutside(e0, entries, start / PAGE_SIZE, |pages|)
    && (pages != [] ==> 0 !in free && MapsFrom(entries, start / PAGE_SIZE, pages, 0))
    && Fresh(pages, free, total) && left == free - Elements(pages) && |left| + |pages| == |free|
  }

  lemma ProgressNone(entries: seq<nat>, start: nat, free: set<nat>, total: nat)
    requires start % PAGE_SIZE == 0
    ensures Progress(entries, entries, start, start, [], free, free, total)
  {
  }

  lemma ProgressMeans(e0: seq<nat>, entries: seq<nat>, start: nat, end: nat, pages: seq<nat>, free: set<nat>, left: set<nat>, total: nat)
    requires Progress(e0, entries, start, end, pages, free, left, total)
    ensures SameOutside(e0, entries, start / PAGE_SIZE, |pages|)
    ensures pages != [] ==> 0 !in free && MapsFrom(entries, start / PAGE_SIZE, pages, 0)
    ensures Fresh(pages, free, total) && left == free - Elements(pages) && left + Elements(pages) == free
    ensures pages == [] ==> entries == e0 && left == free && end == start
    ensures |left| + |pages| == |free| && end / PAGE_SIZE == start / PAGE_SIZE + |pages| && end >= start
    ensures pages != [] ==> start / PAGE_SIZE + |pages| <= |entries|
    ensures 0 in left <==> 0 in free
  {
    hide MapsFrom;
    PageIndex(start, |pages|);
    if pages != [] { MapsFits(entries, start / PAGE_SIZE, pages); }
    TakenBack(pages, free, total);
    hide Fresh, Elements;
  }

  lemma TakenBack(s: seq<nat>, t: set<nat>, total: nat)
    requires Fresh(s, t, total)
    ensures (t - Elements(s)) + Elements(s) == t && (0 in t - Elements(s) <==> 0 in t) && (s == [] ==> t - Elements(s) == t)
  {
  }

  lemma MapsFits(entries: seq<nat>, first: nat, pages: seq<nat>)
    requires MapsFrom(entries, first, pages, 0)
    ensures first + |pages| <= |entries|
  {
  }

  lemma ProgressStep(e0: seq<nat>, entries: seq<nat>, start: nat, end: nat, pages: seq<nat>, free: set<nat>, left: set<nat>, total: nat, page: nat)
    requires Progress(e0, entries, start, end, pages, free, left, total)
    requires page in left && 0 < page < total && 0 !in left && end / PAGE_SIZE < |entries|
    ensures
      Progress(e0, entries[end / PAGE_SIZE := Pte(page * PAGE_SIZE, 7)], start, end + PAGE_SIZE, pages + [page], free, left - {page}, total)
  {
    hide Pte, PhysOf, MapsFrom, Fresh, Elements;
    PageIndex(start, |pages|);
    PushTaken(pages, page, free, total);
    assert |left - {page}| == |left| - 1;
    ProgressMeans(e0, entries, start, end, pages, free, left, total);
    MapsPush(entries, entries[end / PAGE_SIZE := Pte(page * PAGE_SIZE, 7)], start / PAGE_SIZE, pages, page, pages + [page]);
  }

  /** Entry `first + j` maps page `pages[j]`, with flags 7, for every `j` from `lo` on. */
  ghost predicate MapsFrom(entries: seq<nat>, first: nat, pages: seq<nat>, lo: nat)
  {
    && first + |pages| <= |entries|
    && forall j :: lo <= j < |pages| ==> MapsTo(entries, first + j, pages[j])
  }

  predicate MapsTo(entries: seq<nat>, k: nat, page: nat)
  {
    k < |entries| && PhysOf(entries[k]) == page * PAGE_SIZE && entries[k] % 0x1000 == 7
  }

  lemma MapsNext(a: seq<nat>, first: nat, pages: seq<nat>, j: nat)
    requires MapsFrom(a, first, pages, j) && j < |pages|
    ensures MapsFrom(a[first + j := 0], first, pages, j + 1)
  {
    hide PhysOf;
    forall k | j < k < |pages| ensures MapsTo(a[first + j := 0], first + k, pages[k]) {
      assert MapsTo(a, first + k, pages[k]);
    }
  }

  lemma MapsPush(a: seq<nat>, b: seq<nat>, first: nat, pages: seq<nat>, page: nat, r: seq<nat>)
    requires (pages == [] || MapsFrom(a, first, pages, 0)) && first + |pages| < |a|
    requires b == a[first + |pages| := Pte(page * PAGE_SIZE, 7)]
    requires r == pages + [page]
    ensures MapsFrom(b, first, r, 0)
  {
    PteRoundTrip(page * PAGE_SIZE, 7);
    assert MapsTo(b, first + |pages|, page);
    forall j | 0 <= j < |pages| ensures MapsTo(b, first + j, r[j]) {
      assert MapsTo(a, first + j, pages[j]);
    }
    hide MapsTo, Pte;
    forall j | 0 <= j < |r| ensures MapsTo(b, first + j, r[j]) {
      if j == |pages| { assert r[j] == page; }
    }
  }

  /** The pages are different, were all in `t`, and none is page 0. */
  ghost predicate Fresh(pages: seq<nat>, t: set<nat>, total: nat)
  {
    && (forall i, j :: 0 <= i < j < |pages| ==> pages[i] != pages[j])
    && (forall j :: 0 <= j < |pages| ==> pages[j] in t && 0 < pages[j] < total)
  }

  ghost function Elements(s: seq<nat>): set<nat> { set p | p in s }

  lemma PageIndex(a: nat, j: nat)
    requires a % PAGE_SIZE == 0
    ensures (a + j * PAGE_SIZE) / PAGE_SIZE == a / PAGE_SIZE + j
  {
  }

  lemma ElementsNone(s: seq<nat>)
    ensures Elements(s[..0]) == {} && Elements([]) == {}
  {
  }

  lemma ElementsStep(s: seq<nat>, j: nat)
    requires j < |s|
    ensures Elements(s[..j + 1]) == Elements(s[..j]) + {s[j]}
  {
    assert s[..j + 1] == s[..j] + [s[j]];
  }

  /** Another page of what is left of `t` is a page of `t` that was not taken yet. */
  lemma PushTaken(s: seq<nat>, p: nat, t: set<nat>, total: nat)
    requires p in t - Elements(s) && Fresh(s, t, total) && 0 < p < total
    ensures Fresh(s + [p], t, total)
    ensures t - Elements(s) - {p} == t - Elements(s + [p])
  {
  }
}
