/** The kernel heap: first fit on a free list, growing at the end. */
module KernelHeap {
  import opened Pages
  import opened Powers

  const HEADER := 16

  /** The block header in front of every payload. */
  datatype Header = Header(size: nat, next: nat)

  /** `align8` in 64-bit arithmetic. */
  function Align8(size: nat): (r: nat)
    requires size < TWO_64
    ensures r % 8 == 0
  {
    (size + 7) % TWO_64 / 8 * 8
  }

  /** Rounding up gives at least what was asked for, exactly up to 2^64 - 8; above that it wraps to 0. */
  lemma Align8Enough(size: nat)
    requires size < TWO_64
    ensures Align8(size) >= size <==> size <= TWO_64 - 8
    ensures size <= TWO_64 - 8 ==> Align8(size) < size + 8
  {
  }

  lemma Align8Wraps(size: nat)
    requires TWO_64 - 8 < size < TWO_64
    ensures Align8(size) == 0
  {
  }

  type Headers = map<nat, Header>

  /** The element at `i`, or null behind the end. */
  function At(s: seq<nat>, i: nat): (b: nat) { if i < |s| then s[i] else 0 }

  /** `s` is the list that starts at `head` and is linked through the headers. */
  ghost predicate Linked(h: Headers, head: nat, s: seq<nat>)
  {
    && head == At(s, 0)
    && forall i :: 0 <= i < |s| ==> s[i] != 0 && s[i] in h && h[s[i]].next == At(s, i + 1)
  }

  /** One element of a linked list: where it is and what it links to. */
  lemma LinkedAt(h: Headers, head: nat, s: seq<nat>, i: nat)
    requires Linked(h, head, s) && i <= |s|
    ensures head == At(s, 0) && (At(s, i) == 0 <==> i == |s|)
    ensures i < |s| ==> At(s, i) == s[i] && s[i] in h && h[s[i]].next == At(s, i + 1)
  {
  }

  /** Every block of the list is too small. */
  ghost predicate Smaller(h: Headers, s: seq<nat>, size: nat)
  {
    forall b :: b in s ==> b in h && h[b].size < size
  }

  lemma SmallerNone(h: Headers, size: nat)
    ensures Smaller(h, [], size)
  {
  }

  lemma SmallerStep(h: Headers, s: seq<nat>, i: nat, size: nat)
    requires i < |s| && Smaller(h, s[..i], size) && s[i] in h && h[s[i]].size < size
    ensures Smaller(h, s[..i + 1], size)
  {
    assert s[..i + 1] == s[..i] + [s[i]];
  }

  /** `b` is the first block of the list that is large enough. */
  ghost predicate FirstFit(h: Headers, s: seq<nat>, size: nat, b: nat)
  {
    exists i :: 0 <= i < |s| && s[i] == b && b in h && h[b].size >= size && Smaller(h, s[..i], size)
  }

  /** First fit is decided by the sizes: there is one exactly when not every block is too small. */
  lemma FitExists(h: Headers, s: seq<nat>, size: nat, b: nat)
    requires FirstFit(h, s, size, b)
    ensures b in s && b in h && h[b].size >= size && !Smaller(h, s, size)
  {
  }

  ghost predicate Distinct(s: seq<nat>) { forall i, j :: 0 <= i < j < |s| ==> s[i] != s[j] }

  /** Where a block ends, header included. */
  function End(h: Headers, b: nat): nat
    requires b in h
  {
    b + HEADER + h[b].size
  }

  /** Every block lies inside the heap, aligned. */
  ghost predicate Inside(h: Headers, lo: nat, hi: nat)
  {
    forall b :: b in h ==> 0 < lo <= b && b % 8 == 0 && h[b].size % 8 == 0 && End(h, b) <= hi
  }

  /** No two blocks overlap, headers included. */
  ghost predicate Apart(h: Headers)
  {
    forall b, c :: b in h && c in h && b < c ==> End(h, b) <= c
  }

  /** `s` without its element `i`. */
  function Drop(s: seq<nat>, i: nat): (r: seq<nat>)
    requires i < |s|
    ensures |r| == |s| - 1 && forall k :: 0 <= k < |r| ==> r[k] == s[if k < i then k else k + 1]
  {
    s[..i] + s[i + 1..]
  }

  /** `r` is `s` without one of its elements, which is `b`, and in the same order. */
  ghost predicate Removed(s: seq<nat>, r: seq<nat>, b: nat)
  {
    exists i :: 0 <= i < |s| && s[i] == b && r == Drop(s, i)
  }

  lemma DropElements(s: seq<nat>, i: nat)
    requires Distinct(s) && i < |s|
    ensures Distinct(Drop(s, i)) && s[i] !in Drop(s, i)
    ensures forall c :: c in Drop(s, i) <==> c in s && c != s[i]
  {
    var r := Drop(s, i);
    forall c | c in s && c != s[i] ensures c in r {
      var k :| 0 <= k < |s| && s[k] == c;
      assert r[if k < i then k else k - 1] == c;
    }
  }

  lemma UnlinkOne(h: Headers, head: nat, s: seq<nat>, i: nat, h': Headers, k: nat)
    requires Linked(h, head, s) && Distinct(s) && i < |s| && k < |s| - 1
    requires if i == 0 then h' == h else h' == h[s[i - 1] := h[s[i - 1]].(next := h[s[i]].next)]
    ensures var r := Drop(s, i); r[k] != 0 && r[k] in h' && h'[r[k]].next == At(r, k + 1)
  {
    var l := if k < i then k else k + 1;
    LinkedAt(h, head, s, l);
    LinkedAt(h, head, s, i);
    assert s[l] != 0;
    hide Linked;
    assert i > 0 && l != i - 1 ==> s[l] != s[i - 1];
  }

  /** Taking element `i` out of a linked list by redirecting the link before it. */
  lemma Unlink(h: Headers, head: nat, s: seq<nat>, i: nat, h': Headers, head': nat)
    requires Linked(h, head, s) && Distinct(s) && i < |s|
    requires if i == 0 then h' == h && head' == h[s[0]].next
      else head' == head && h' == h[s[i - 1] := h[s[i - 1]].(next := h[s[i]].next)]
    ensures Linked(h', head', Drop(s, i))
    ensures h'.Keys == h.Keys && forall b :: b in h ==> h'[b].size == h[b].size
  {
    var r := Drop(s, i);
    forall k | 0 <= k < |r|
      ensures r[k] != 0 && r[k] in h' && h'[r[k]].next == At(r, k + 1)
    {
      UnlinkOne(h, head, s, i, h', k);
    }
  }

  class Heap {
    const pmm: Pmm
    const start: nat
    const max: nat
    var heapEnd: nat
    var freeList: nat
    var header: Headers

    /** The free list in order, and the live blocks with the rounded sizes they were asked for. */
    ghost var free: seq<nat>
    ghost var live: map<nat, nat>

    /** Blocks never overlap; each is either live, and large enough, or on the free list, once. */
    ghost predicate Valid()
      reads this, pmm, pmm.bitmap
    {
      && pmm.Valid()
      && 0 < start <= heapEnd && heapEnd % 8 == 0
      && Inside(header, start, heapEnd) && Apart(header)
      && Linked(header, freeList, free) && Distinct(free)
      && live.Keys <= header.Keys && (forall b :: b in live ==> b !in free && live[b] <= header[b].size)
      && (forall b :: b in header ==> b in live || b in free)
    }

    /** `kmalloc_init`. */
    constructor (p: Pmm, base: nat, initial: nat)
      requires p.Valid() && 0 < base && base % 8 == 0
      ensures Valid() && pmm == p && live == map[] && free == [] && header == map[]
      ensures start == base == heapEnd && max == base + initial
    {
      pmm, start, max, heapEnd := p, base, base + initial, base;
      freeList, header, free, live := 0, map[], [], map[];
    }

    /** `expand_heap`. It ends because every round takes a free page. The limit never moves with the heap, so
        a request that does not fit below it takes every page there is (address 0 counts as "none left"). */
    method Expand(size: nat)
      requires Valid()
      modifies `heapEnd, pmm`freePages, pmm.bitmap
      ensures Valid() && heapEnd >= old(heapEnd)
      ensures old(heapEnd) + size <= max ==> heapEnd == old(heapEnd) && pmm.Free() == old(pmm.Free())
      ensures old(heapEnd) + size > max && 0 !in old(pmm.Free()) ==>
        pmm.Free() == {} && heapEnd == old(heapEnd) + PAGE_SIZE * old(|pmm.Free()|)
      ensures old(heapEnd) + size > max && 0 in old(pmm.Free()) ==>
        pmm.Free() == old(pmm.Free()) - {0} && heapEnd == old(heapEnd)
    {
      hide FreeIn, Inside, Apart, Linked;
      while heapEnd + size > max
        invariant Valid() && heapEnd >= old(heapEnd) && pmm.Free() <= old(pmm.Free())
        invariant heapEnd + PAGE_SIZE * |pmm.Free()| == old(heapEnd) + PAGE_SIZE * old(|pmm.Free()|)
        invariant heapEnd == old(heapEnd) ==> pmm.Free() == old(pmm.Free())
        invariant 0 in old(pmm.Free()) ==> heapEnd == old(heapEnd)
        invariant old(heapEnd) + size <= max ==> heapEnd == old(heapEnd)
        decreases |pmm.Free()|
      {
        var done := AddPage();
        if done {
          return;
        }
      }
    }

    /** One round of `expand_heap`: a page more, and one fewer to take, or none left. */
    method AddPage() returns (done: bool)
      requires Valid()
      modifies `heapEnd, pmm`freePages, pmm.bitmap
      ensures Valid() && pmm.Free() <= old(pmm.Free())
      ensures done ==> heapEnd == old(heapEnd) && (0 !in old(pmm.Free()) ==> pmm.Free() == old(pmm.Free()) == {})
      ensures 0 in old(pmm.Free()) ==> done && pmm.Free() == old(pmm.Free()) - {0}
      ensures !done ==> heapEnd == old(heapEnd) + PAGE_SIZE && |pmm.Free()| == old(|pmm.Free()|) - 1
    {
      hide FreeIn, Inside, Apart, Linked;
      var phys := pmm.AllocPage();
      if phys == 0 {
        return true;
      }
      WiderInside(header, start, heapEnd, heapEnd + PAGE_SIZE);
      heapEnd := heapEnd + PAGE_SIZE;
      return false;
    }

    /** The search of `kmalloc`: the first free block that is large enough, and the one before it. */
    method FindFit(size: nat) returns (prev: nat, curr: nat, ghost i: nat)
      requires Valid()
      ensures i <= |free| && curr == At(free, i) && prev == (if i == 0 then 0 else free[i - 1])
      ensures if curr == 0 then Smaller(header, free, size) else FirstFit(header, free, size, curr)
    {
      hide Inside, Apart, Distinct, FreeIn, Smaller, Linked, At;
      prev, curr, i := 0, freeList, 0;
      LinkedAt(header, freeList, free, 0);
      SmallerNone(header, size);
      assert free[..0] == [];
      while curr != 0
        invariant i <= |free| && curr == At(free, i) && prev == (if i == 0 then 0 else free[i - 1])
        invariant Smaller(header, free[..i], size)
        decreases |free| - i
      {
        LinkedAt(header, freeList, free, i);
        if header[curr].size >= size {
          assert free[i] == curr;
          return;
        }
        SmallerStep(header, free, i, size);
        prev := curr;
        curr := header[curr].next;
        i := i + 1;
      }
      LinkedAt(header, freeList, free, i);
      assert free[..i] == free;
    }

    /** Unlinks the block that the search of `kmalloc` finds; null when there is none. */
    method TakeFit(size: nat) returns (b: nat)
      requires Valid()
      modifies `freeList, `header, `free
      ensures b == 0 ==>
        && header == old(header) && free == old(free) && freeList == old(freeList)
        && Smaller(header, free, size)
      ensures b != 0 ==>
        && FirstFit(old(header), old(free), size, b) && header.Keys == old(header).Keys
        && (forall c :: c in header ==> header[c].size == old(header)[c].size)
        && Linked(header, freeList, free) && Distinct(free) && Removed(old(free), free, b)
        && forall c :: c in free <==> c in old(free) && c != b
    {
      hide Inside, Apart, Distinct, FreeIn, FirstFit, Smaller, Linked;
      var prev;
      ghost var i;
      prev, b, i := FindFit(size);
      LinkedAt(header, freeList, free, i);
      if b != 0 {
        ghost var h, f, s := header, freeList, free;
        if i > 0 { LinkedAt(h, f, s, i - 1); }
        if prev == 0 {
          freeList := header[b].next;
        } else {
          header := header[prev := header[prev].(next := header[b].next)];
        }
        Unlink(h, f, s, i, header, freeList);
        DropElements(s, i);
        free := Drop(s, i);
        assert Removed(s, free, b);
      }
    }

    /** The search of `kmalloc`, with the block it finds handed out. */
    method Reuse(need: nat) returns (b: nat)
      requires Valid()
      modifies `freeList, `header, `free, `live
      ensures Valid()
      ensures b == 0 ==> header == old(header) && live == old(live) && free == old(free) && Smaller(header, free, need)
      ensures b != 0 ==>
        && FirstFit(old(header), old(free), need, b) && !Smaller(old(header), old(free), need)
        && b !in old(live) && b in header && header[b].size >= need && b % 8 == 0
        && live == old(live)[b := need] && header.Keys == old(header).Keys && Removed(old(free), free, b)
        && forall c :: c in header ==> header[c].size == old(header)[c].size
    {
      hide FreeIn, Inside, Apart, Linked, Distinct, FirstFit, Smaller, Removed;
      b := TakeFit(need);
      if b != 0 {
        FitExists(old(header), old(free), need, b);
        SameSizes(old(header), header, start, heapEnd);
        BlockPlace(header, start, heapEnd, b);
        live := live[b := need];
      }
    }

    /** The end of `kmalloc` when no free block fits: a new block at the end of the heap. */
    method Carve(need: nat) returns (b: nat)
      requires Valid() && need % 8 == 0
      modifies `heapEnd, `header, `live, pmm`freePages, pmm.bitmap
      ensures Valid() && b >= old(heapEnd) && b % 8 == 0 && b !in old(header) && heapEnd == b + HEADER + need
      ensures b == old(heapEnd) + PAGE_SIZE * Added(old(heapEnd) + need + HEADER, old(pmm.Free()))
      ensures pmm.Free() == Left(old(heapEnd) + need + HEADER, old(pmm.Free()))
      ensures old(heapEnd) + need + HEADER <= max ==> b == old(heapEnd) && pmm.Free() == old(pmm.Free())
      ensures header == old(header)[b := Header(need, 0)] && live == old(live)[b := need]
    {
      hide FreeIn, Inside, Apart, Linked, Distinct;
      Expand(need + HEADER);
      b := heapEnd;
      Fresh(header, start, heapEnd, need);
      LinkedAdd(header, freeList, free, b, Header(need, 0));
      header := header[b := Header(need, 0)];
      heapEnd := heapEnd + need + HEADER;
      live := live[b := need];
    }

    /** The pages that `expand_heap` adds when the heap would have to reach `end`: none below the limit; past it all that are
        free, but none when page 0 is, because the address of that one ends the loop. */
    ghost function Added(end: nat, pages: set<nat>): (n: nat) { if end <= max || 0 in pages then 0 else |pages| }

    /** The pages that are free afterwards. */
    ghost function Left(end: nat, pages: set<nat>): set<nat>
    {
      if end <= max then pages else if 0 in pages then pages - {0} else {}
    }

    /** `kmalloc`: the first free block that is large enough, or else a new one behind the heap. The block is
        aligned and at least as large as the rounded size, which is the requested one exactly up to 2^64 - 8; no
        other block changes hands. Addresses are assumed not to reach 2^64. */
    method Kmalloc(size: nat) returns (ptr: nat)
      requires Valid() && size < TWO_64
      modifies `heapEnd, `freeList, `header, `free, `live, pmm`freePages, pmm.bitmap
      ensures Valid()
      ensures size == 0 ==>
        && ptr == 0 && live == old(live) && header == old(header) && free == old(free) && heapEnd == old(heapEnd)
        && pmm.Free() == old(pmm.Free())
      ensures size > 0 ==>
        && ptr % 8 == 0 && ptr > HEADER && ptr - HEADER !in old(live) && live == old(live)[ptr - HEADER := Align8(size)]
        && header.Keys == old(header).Keys + {ptr - HEADER} && header[ptr - HEADER].size >= Align8(size)
        && (size <= TWO_64 - 8 ==> Align8(size) >= size)
        && (forall b :: b in old(header) ==> b in header && header[b].size == old(header)[b].size)
        && if Smaller(old(header), old(free), Align8(size)) then
             var end := old(heapEnd) + Align8(size) + HEADER;
             && ptr == old(heapEnd) + PAGE_SIZE * Added(end, old(pmm.Free())) + HEADER && heapEnd == ptr + Align8(size)
             && (end <= max ==> ptr == old(heapEnd) + HEADER && pmm.Free() == old(pmm.Free()))
             && pmm.Free() == Left(end, old(pmm.Free()))
             && free == old(free) && header[ptr - HEADER].size == Align8(size)
           else
             && FirstFit(old(header), old(free), Align8(size), ptr - HEADER) && Removed(old(free), free, ptr - HEADER)
             && heapEnd == old(heapEnd) && pmm.Free() == old(pmm.Free())
    {
      hide FreeIn, Inside, Apart, Linked, Align8, Distinct, Smaller, FirstFit, Removed, Heap.Added, Heap.Left;
      if size == 0 {
        return 0;
      }
      Align8Enough(size);
      var need := Align8(size);
      var b := Reuse(need);
      if b == 0 {
        b := Carve(need);
      }
      return b + HEADER;
    }

    /** What `Valid` means for the callers: live blocks are aligned, large enough, and apart with their headers. */
    lemma LiveBlocksApart(b: nat, c: nat)
      requires Valid() && b in live && c in live && b != c
      ensures b % 8 == 0 && live[b] <= header[b].size && b !in free
      ensures b + 16 + header[b].size <= c || c + 16 + header[c].size <= b
    {
    }

    /** `kfree`: a live block goes to the front of the free list; freeing null does nothing. */
    method Kfree(ptr: nat)
      requires Valid() && (ptr != 0 ==> ptr >= HEADER && ptr - HEADER in live)
      modifies `freeList, `header, `free, `live
      ensures Valid()
      ensures ptr == 0 ==> live == old(live) && free == old(free) && header == old(header)
      ensures ptr != 0 ==>
        && live == old(live) - {ptr - HEADER} && free == [ptr - HEADER] + old(free)
        && header.Keys == old(header).Keys && forall b :: b in header ==> header[b].size == old(header)[b].size
    {
      hide FreeIn, Inside, Apart, Linked, Distinct;
      if ptr == 0 {
        return;
      }
      var b := ptr - HEADER;
      ghost var h := header;
      BlockPlace(header, start, heapEnd, b);
      PushFront(header, freeList, free, b);
      header := header[b := header[b].(next := freeList)];
      freeList := b;
      SameSizes(h, header, start, heapEnd);
      free := [b] + free;
      live := live - {b};
    }
  }

  lemma BlockPlace(h: Headers, lo: nat, hi: nat, b: nat)
    requires Inside(h, lo, hi) && b in h
    ensures 0 < b < hi && b % 8 == 0
  {
  }

  /** A block put in front of the list. */
  lemma PushFront(h: Headers, head: nat, s: seq<nat>, b: nat)
    requires Linked(h, head, s) && Distinct(s) && b in h && b != 0 && b !in s
    ensures Linked(h[b := h[b].(next := head)], b, [b] + s) && Distinct([b] + s)
  {
  }

  /** A new header elsewhere does not disturb the list. */
  lemma LinkedAdd(h: Headers, head: nat, s: seq<nat>, b: nat, hd: Header)
    requires Linked(h, head, s) && b !in h
    ensures Linked(h[b := hd], head, s) && b !in s
  {
  }

  lemma WiderInside(h: Headers, lo: nat, hi: nat, hi': nat)
    requires Inside(h, lo, hi) && hi <= hi'
    ensures Inside(h, lo, hi')
  {
  }

  /** Where blocks lie depends on their sizes only. */
  lemma SameSizes(h: Headers, h': Headers, lo: nat, hi: nat)
    requires h'.Keys == h.Keys && (forall b :: b in h ==> h'[b].size == h[b].size) && Inside(h, lo, hi) && Apart(h)
    ensures Inside(h', lo, hi) && Apart(h')
  {
  }

  /** A block carved at the end of the heap overlaps none. */
  lemma Fresh(h: Headers, lo: nat, hi: nat, size: nat)
    requires Inside(h, lo, hi) && Apart(h) && 0 < lo <= hi && hi % 8 == 0 && size % 8 == 0
    ensures hi !in h
    ensures Inside(h[hi := Header(size, 0)], lo, hi + size + HEADER) && Apart(h[hi := Header(size, 0)])
  {
  }
}
