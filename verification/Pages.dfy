/** The physical page allocator: a bitmap that stands for the set of free pages. */
module Pages {

  const PAGE_SIZE := 4096

  // ---------------------------------------------------------------- bits

  function Mask(k: nat): (m: bv8)
    requires k < 8
  {
    1 << k
  }

  lemma MaskValue(k: nat)
    requires k < 8
    ensures Mask(k) == [1, 2, 4, 8, 0x10, 0x20, 0x40, 0x80][k]
  {
    if k == 0 {} else if k == 1 {} else if k == 2 {} else if k == 3 {}
    else if k == 4 {} else if k == 5 {} else if k == 6 {} else {}
  }

  /** `test_bit` on one byte. */
  predicate Bit(b: bv8, k: nat)
    requires k < 8
  {
    (b >> k) & 1 == 1
  }

  lemma BitIsMask(b: bv8, k: nat)
    requires k < 8
    ensures Bit(b, k) <==> b & Mask(k) != 0
  {
    if k == 0 {} else if k == 1 {} else if k == 2 {} else if k == 3 {}
    else if k == 4 {} else if k == 5 {} else if k == 6 {} else {}
  }

  lemma MaskNonZero(k: nat)
    requires k < 8
    ensures Mask(k) != 0
  {
    if k == 0 {} else if k == 1 {} else if k == 2 {} else if k == 3 {}
    else if k == 4 {} else if k == 5 {} else if k == 6 {} else {}
  }

  lemma MasksApart(k: nat, j: nat)
    requires k < j < 8
    ensures Mask(k) & Mask(j) == 0
  {
    if k == 0 {} else if k == 1 {} else if k == 2 {} else if k == 3 {} else if k == 4 {} else if k == 5 {} else {}
    if j == 1 {} else if j == 2 {} else if j == 3 {} else if j == 4 {} else if j == 5 {} else if j == 6 {} else {}
  }

  lemma MaskSet(b: bv8, m: bv8, n: bv8)
    ensures (b | m) & m == m && (m & n == 0 ==> (b | m) & n == b & n)
  {
  }

  lemma MaskClear(b: bv8, m: bv8, n: bv8)
    ensures (b & !m) & m == 0 && (m & n == 0 ==> (b & !m) & n == b & n)
  {
  }

  /** Setting bit `k` changes bit `k` and no other. */
  lemma BitSet(b: bv8, k: nat, j: nat)
    requires k < 8 && j < 8
    ensures Bit(b | Mask(k), j) <==> j == k || Bit(b, j)
  {
    hide Mask, Bit;
    BitIsMask(b | Mask(k), j);
    BitIsMask(b, j);
    MasksDiffer(k, j);
    MaskSet(b, Mask(k), Mask(j));
  }

  /** Clearing bit `k` changes bit `k` and no other. */
  lemma BitCleared(b: bv8, k: nat, j: nat)
    requires k < 8 && j < 8
    ensures Bit(b & !Mask(k), j) <==> j != k && Bit(b, j)
  {
    hide Mask, Bit;
    BitIsMask(b & !Mask(k), j);
    BitIsMask(b, j);
    MasksDiffer(k, j);
    MaskClear(b, Mask(k), Mask(j));
  }

  lemma MasksDiffer(k: nat, j: nat)
    requires k < 8 && j < 8
    ensures if k == j then Mask(k) == Mask(j) != 0 else Mask(k) & Mask(j) == 0
  {
    hide Mask;
    if k == j {
      MaskNonZero(k);
    } else if k < j {
      MasksApart(k, j);
    } else {
      MasksApart(j, k);
      AndSwap(Mask(k), Mask(j));
    }
  }

  lemma AndSwap(m: bv8, n: bv8)
    ensures m & n == n & m
  {
  }

  lemma AllOnes(k: nat)
    requires k < 8
    ensures Bit(0xff, k)
  {
    if k == 0 {} else if k == 1 {} else if k == 2 {} else if k == 3 {}
    else if k == 4 {} else if k == 5 {} else if k == 6 {} else {}
  }

  // ---------------------------------------------------------------- the set of free pages

  /** The bit of page `p` is set. */
  predicate Taken(bits: seq<bv8>, p: nat)
    requires p < 8 * |bits|
  {
    Bit(bits[p / 8], p % 8)
  }

  ghost function FreeIn(bits: seq<bv8>, total: nat): (s: set<nat>)
    requires total <= 8 * |bits|
  {
    set p: nat | p < total && !Taken(bits, p)
  }

  /** The bit of page `p`: bit `p % 8`, counted from the lowest, of byte `p / 8`. */
  lemma TakenBit(bits: seq<bv8>, p: nat)
    requires p < 8 * |bits|
    ensures Taken(bits, p) <==> bits[p / 8] & [1, 2, 4, 8, 0x10, 0x20, 0x40, 0x80][p % 8] != 0
  {
    BitIsMask(bits[p / 8], p % 8);
    MaskValue(p % 8);
    hide Bit, Mask;
  }

  /** No bit but that of `p` differs. */
  ghost predicate OnlyBit(a: seq<bv8>, b: seq<bv8>, p: nat)
  {
    |b| == |a| && forall q: nat :: q < 8 * |a| && q != p ==> (Taken(b, q) <==> Taken(a, q))
  }

  /** The bits behind the last page are the same. */
  ghost predicate SameTail(a: seq<bv8>, b: seq<bv8>, total: nat)
  {
    |b| == |a| && forall q: nat :: total <= q < 8 * |a| ==> (Taken(b, q) <==> Taken(a, q))
  }

  lemma TailRefl(a: seq<bv8>, total: nat)
    ensures SameTail(a, a, total)
  {
  }

  lemma TailTrans(a: seq<bv8>, b: seq<bv8>, c: seq<bv8>, total: nat)
    requires SameTail(a, b, total) && SameTail(b, c, total)
    ensures SameTail(a, c, total)
  {
  }

  lemma TailTaken(a: seq<bv8>, b: seq<bv8>, total: nat)
    requires SameTail(a, b, total) && forall p: nat :: p < 8 * |a| ==> Taken(a, p)
    ensures forall p: nat :: total <= p < 8 * |b| ==> Taken(b, p)
  {
  }

  lemma AllTaken(bits: seq<bv8>)
    requires forall i :: 0 <= i < |bits| ==> bits[i] == 0xff
    ensures forall p: nat :: p < 8 * |bits| ==> Taken(bits, p)
  {
    hide Bit;
    forall p: nat | p < 8 * |bits| ensures Taken(bits, p) { AllOnes(p % 8); }
  }

  lemma TailStep(a: seq<bv8>, b: seq<bv8>, c: seq<bv8>, total: nat, p: nat)
    requires SameTail(a, b, total) && OnlyBit(b, c, p) && p < total
    ensures SameTail(a, c, total)
  {
  }

  lemma FreeAt(bits: seq<bv8>, total: nat, p: nat)
    requires p < total <= 8 * |bits|
    ensures p in FreeIn(bits, total) <==> !Bit(bits[p / 8], p % 8)
  {
  }

  lemma FreeBelow(bits: seq<bv8>, total: nat)
    requires total <= 8 * |bits|
    ensures forall p :: p in FreeIn(bits, total) ==> p < total
  {
  }

  /** Setting the bit of a page takes it out of the free set. */
  lemma TakeExact(bits: seq<bv8>, total: nat, p: nat)
    requires p < total <= 8 * |bits|
    ensures FreeIn(bits[p / 8 := bits[p / 8] | Mask(p % 8)], total) == FreeIn(bits, total) - {p}
    ensures OnlyBit(bits, bits[p / 8 := bits[p / 8] | Mask(p % 8)], p)
  {
    hide Bit, Mask;
    var r := bits[p / 8 := bits[p / 8] | Mask(p % 8)];
    forall q: nat | q < 8 * |bits| ensures Taken(r, q) <==> q == p || Taken(bits, q) {
      BitSet(bits[p / 8], p % 8, q % 8);
    }
  }

  /** Clearing the bit of a page puts it into the free set; a bit behind the last page changes no set. */
  lemma ReleaseExact(bits: seq<bv8>, total: nat, p: nat)
    requires p < 8 * |bits| && total <= 8 * |bits|
    ensures FreeIn(bits[p / 8 := bits[p / 8] & !Mask(p % 8)], total) == FreeIn(bits, total) + if p < total then {p} else {}
    ensures OnlyBit(bits, bits[p / 8 := bits[p / 8] & !Mask(p % 8)], p)
  {
    hide Bit, Mask;
    var r := bits[p / 8 := bits[p / 8] & !Mask(p % 8)];
    forall q: nat | q < 8 * |bits| ensures Taken(r, q) <==> q != p && Taken(bits, q) {
      BitCleared(bits[p / 8], p % 8, q % 8);
    }
  }

  lemma ReleasedBit(bits: seq<bv8>, p: nat)
    requires p < 8 * |bits|
    ensures !Taken(bits[p / 8 := bits[p / 8] & !Mask(p % 8)], p)
  {
    hide Bit, Mask;
    BitCleared(bits[p / 8], p % 8, p % 8);
  }

  /** One entry of the boot loader's memory map. */
  datatype Region = Region(base: nat, length: nat, usable: bool)
  {
    function First(): nat { base / PAGE_SIZE }
    function Last(): nat { base / PAGE_SIZE + length / PAGE_SIZE }
    /** Page `p` is cleared for this entry. */
    predicate Covers(p: nat) { usable && First() <= p < Last() }
  }

  /** Some entry among the first `n` covers the page. */
  ghost predicate Covered(map_: seq<Region>, n: nat, p: nat)
    requires n <= |map_|
  {
    exists i :: 0 <= i < n && map_[i].Covers(p)
  }

  /** No two usable entries cover the same page. */
  ghost predicate DisjointPages(map_: seq<Region>)
  {
    forall i, j, p :: 0 <= i < j < |map_| && map_[i].Covers(p) ==> !map_[j].Covers(p)
  }

  /** Usable entries are page-aligned and disjoint. */
  ghost predicate MapOk(m: seq<Region>)
  {
    && (forall i :: 0 <= i < |m| && m[i].usable ==> m[i].base % PAGE_SIZE == 0 && m[i].length % PAGE_SIZE == 0)
    && (forall i, j :: 0 <= i < j < |m| && m[i].usable && m[j].usable ==>
          m[i].base + m[i].length <= m[j].base || m[j].base + m[j].length <= m[i].base)
  }

  /** The highest end of any entry. */
  function Highest(m: seq<Region>): (h: nat)
  {
    if m == [] then 0 else
      var h, r := Highest(m[..|m| - 1]), m[|m| - 1];
      if r.base + r.length > h then r.base + r.length else h
  }

  lemma {:induction false} HighestAbove(m: seq<Region>, i: nat)
    requires i < |m|
    ensures m[i].base + m[i].length <= Highest(m)
  {
    if i < |m| - 1 { HighestAbove(m[..|m| - 1], i); }
  }

  /** And some entry ends there, unless all are empty at address 0. */
  lemma {:induction false} HighestReached(m: seq<Region>)
    ensures Highest(m) == 0 || exists i :: 0 <= i < |m| && m[i].base + m[i].length == Highest(m)
  {
    if m != [] {
      var r := m[|m| - 1];
      if r.base + r.length <= Highest(m[..|m| - 1]) {
        HighestReached(m[..|m| - 1]);
        if Highest(m) != 0 {
          var i :| 0 <= i < |m| - 1 && m[..|m| - 1][i].base + m[..|m| - 1][i].length == Highest(m);
          assert m[i].base + m[i].length == Highest(m);
        }
      }
    }
  }

  /** Bytes of a bitmap with a bit for every page below the highest end. */
  function BitmapSize(m: seq<Region>): (n: nat) { Highest(m) / PAGE_SIZE / 8 + 1 }

  /** The entry that gives up room for the bitmap: the first usable one from `i` on that is large enough. */
  function HostFrom(m: seq<Region>, size: nat, i: nat): (k: nat)
    requires i <= |m|
    ensures i <= k <= |m| && (k < |m| ==> m[k].usable && m[k].length >= size)
    decreases |m| - i
  {
    if i == |m| || (m[i].usable && m[i].length >= size) then i else HostFrom(m, size, i + 1)
  }

  function Host(m: seq<Region>): (k: nat)
    ensures k <= |m| && (k < |m| ==> m[k].usable && m[k].length >= BitmapSize(m))
  {
    HostFrom(m, BitmapSize(m), 0)
  }

  /** The bitmap has a bit for every page below the highest end and at most eight more. Its host is the first usable entry
      with room for it, and is shortened from below by just that room; every other entry stays. */
  lemma HostExact(m: seq<Region>)
    ensures Highest(m) / PAGE_SIZE < 8 * BitmapSize(m) <= Highest(m) / PAGE_SIZE + 8
    ensures forall i :: 0 <= i < Host(m) ==> !(m[i].usable && m[i].length >= BitmapSize(m))
    ensures Host(m) < |m| ==>
      var m', k := WithoutBitmap(m), Host(m);
      && m'[k].base == m[k].base + BitmapSize(m) && m'[k].base + m'[k].length == m[k].base + m[k].length && m'[k].usable
      && forall i :: 0 <= i < |m| && i != k ==> m'[i] == m[i]
  {
    hide Highest;
    HostFirst(m, BitmapSize(m), 0);
  }

  lemma {:induction false} HostFirst(m: seq<Region>, size: nat, i: nat)
    requires i <= |m|
    ensures forall j :: i <= j < HostFrom(m, size, i) ==> !(m[j].usable && m[j].length >= size)
    decreases |m| - i
  {
    if i < |m| && !(m[i].usable && m[i].length >= size) { HostFirst(m, size, i + 1); }
  }

  /** The memory map after the bitmap was carved out of its host. */
  function WithoutBitmap(m: seq<Region>): (m': seq<Region>)
    requires Host(m) < |m|
    ensures |m'| == |m|
  {
    m[Host(m) := Carved(m[Host(m)], BitmapSize(m))]
  }

  function Carved(r: Region, size: nat): (r': Region)
    requires size <= r.length
  {
    r.(base := r.base + size, length := r.length - size)
  }

  /** What remains of an aligned entry covers no page it did not cover before. */
  lemma CarvedCovers(r: Region, size: nat, p: nat)
    requires size <= r.length && r.base % PAGE_SIZE == 0 && r.length % PAGE_SIZE == 0 && Carved(r, size).Covers(p)
    ensures r.Covers(p)
  {
  }

  /** The page holds at least one byte of the bitmap at the start of entry `r`. */
  predicate HoldsBitmap(r: Region, size: nat, p: nat)
  {
    p * PAGE_SIZE < r.base + size && r.base < (p + 1) * PAGE_SIZE
  }

  lemma ExposedFirst(r: Region, size: nat)
    requires r.usable && r.base % PAGE_SIZE == 0 && r.length - size >= PAGE_SIZE && size % PAGE_SIZE != 0
    ensures Carved(r, size).Covers((r.base + size) / PAGE_SIZE) && HoldsBitmap(r, size, (r.base + size) / PAGE_SIZE)
  {
  }

  lemma ExposedOnly(r: Region, size: nat, p: nat)
    requires r.base % PAGE_SIZE == 0 && r.length % PAGE_SIZE == 0 && 0 < size <= r.length
    requires Carved(r, size).Covers(p) && HoldsBitmap(r, size, p)
    ensures size % PAGE_SIZE != 0 && r.length - size >= PAGE_SIZE
  {
  }

  /** The base is advanced by the size of the bitmap without being aligned again, so a page with bitmap bytes
      is handed out exactly when the bitmap does not end on a page boundary and a page's worth is left. */
  lemma BitmapExposedIff(r: Region, size: nat)
    requires r.usable && r.base % PAGE_SIZE == 0 && r.length % PAGE_SIZE == 0 && 0 < size <= r.length
    ensures (exists p: nat :: Carved(r, size).Covers(p) && HoldsBitmap(r, size, p)) <==>
      size % PAGE_SIZE != 0 && r.length - size >= PAGE_SIZE
  {
    if size % PAGE_SIZE != 0 && r.length - size >= PAGE_SIZE {
      ExposedFirst(r, size);
    }
    forall p: nat | Carved(r, size).Covers(p) && HoldsBitmap(r, size, p)
      ensures size % PAGE_SIZE != 0 && r.length - size >= PAGE_SIZE
    {
      ExposedOnly(r, size, p);
    }
  }

  /** Of the whole map: the pages with bitmap bytes are pages of the host, so they are handed out on the same condition. */
  lemma InitExposes(m: seq<Region>)
    requires MapOk(m) && Host(m) < |m|
    ensures
      (exists p: nat :: Covered(WithoutBitmap(m), |m|, p) && HoldsBitmap(m[Host(m)], BitmapSize(m), p)) <==>
      BitmapSize(m) % PAGE_SIZE != 0 && m[Host(m)].length - BitmapSize(m) >= PAGE_SIZE
  {
    hide Host, BitmapSize;
    var m', k, size := WithoutBitmap(m), Host(m), BitmapSize(m);
    assert size > 0 by { SizePositive(m); }
    BitmapExposedIff(m[k], size);
    forall p: nat | HoldsBitmap(m[k], size, p)
      ensures Covered(m', |m|, p) <==> Carved(m[k], size).Covers(p)
    {
      BitmapInHost(m[k], size, p);
      assert m'[k] == Carved(m[k], size);
      forall i | 0 <= i < |m| && i != k ensures !m'[i].Covers(p) {
        if m[i].usable { AlignedApart(m[i], m[k], p); }
      }
    }
  }

  lemma SizePositive(m: seq<Region>)
    ensures BitmapSize(m) > 0
  {
  }

  lemma BitmapInHost(r: Region, size: nat, p: nat)
    requires r.usable && r.base % PAGE_SIZE == 0 && r.length % PAGE_SIZE == 0 && size <= r.length && HoldsBitmap(r, size, p)
    ensures r.Covers(p)
  {
  }

  /** Such a map: three pages from 0x1000 on and a bitmap of one byte, which lies in page 1, which is handed out. */
  lemma BitmapExposedExample()
    ensures var r := Region(0x1000, 0x3000, true); Carved(r, 1).Covers(1) && HoldsBitmap(r, 1, 1)
  {
  }

  /** After the bitmap was carved out of its host, usable entries still cover different pages, all below the highest end. */
  lemma CarvedDisjoint(m: seq<Region>)
    requires MapOk(m) && Host(m) < |m|
    ensures DisjointPages(WithoutBitmap(m))
    ensures forall i :: 0 <= i < |m| && m[i].usable ==> WithoutBitmap(m)[i].Last() <= Highest(m) / PAGE_SIZE
  {
    hide Host, Highest;
    var m', k, size := WithoutBitmap(m), Host(m), BitmapSize(m);
    forall i, p | 0 <= i < |m| && m'[i].Covers(p) ensures m[i].Covers(p) {
      if i == k { CarvedCovers(m[k], size, p); }
    }
    forall i, j, p | 0 <= i < j < |m| && m'[i].Covers(p) ensures !m'[j].Covers(p) {
      if m[i].usable && m[j].usable { AlignedApart(m[i], m[j], p); }
    }
    forall i | 0 <= i < |m| && m[i].usable ensures m'[i].Last() <= Highest(m) / PAGE_SIZE {
      HighestAbove(m, i);
    }
  }

  lemma AlignedApart(a: Region, b: Region, p: nat)
    requires a.base % PAGE_SIZE == 0 && a.length % PAGE_SIZE == 0 && b.base % PAGE_SIZE == 0 && b.length % PAGE_SIZE == 0
    requires a.base + a.length <= b.base || b.base + b.length <= a.base
    ensures !(a.Covers(p) && b.Covers(p))
  {
  }

  class Pmm {
    var bitmap: array<bv8>
    var totalPages: nat
    var freePages: nat

    /** The count is the number of clear bits. */
    ghost predicate Valid()
      reads this, bitmap
    {
      totalPages < 8 * bitmap.Length && freePages == |Free()|
    }

    ghost function Free(): (s: set<nat>)
      requires totalPages <= 8 * bitmap.Length
      reads this, bitmap
    {
      FreeIn(bitmap[..], totalPages)
    }

    /** `pmm_alloc_page`: takes the lowest free page and returns its address. Address 0 also means "none",
        so it is a true answer exactly when page 0 is not free. */
    method AllocPage() returns (addr: nat)
      requires Valid()
      modifies `freePages, bitmap
      ensures Valid()
      ensures old(Free()) == {} ==> addr == 0 && Free() == {} && bitmap[..] == old(bitmap[..])
      ensures old(Free()) != {} ==> OnlyBit(old(bitmap[..]), bitmap[..], addr / PAGE_SIZE)
      ensures old(Free()) != {} ==>
        && addr % PAGE_SIZE == 0 && addr / PAGE_SIZE in old(Free()) && Free() == old(Free()) - {addr / PAGE_SIZE}
        && forall q :: q in old(Free()) ==> addr / PAGE_SIZE <= q
      ensures addr == 0 <==> old(Free()) == {} || 0 in old(Free())
    {
      hide Bit, Mask, FreeIn, OnlyBit;
      ghost var f := Free();
      for i := 0 to totalPages
        invariant Valid() && Free() == f && bitmap[..] == old(bitmap[..]) && forall q :: q in f ==> q >= i
      {
        FreeAt(bitmap[..], totalPages, i);
        if !Bit(bitmap[i / 8], i % 8) {
          Take(i);
          return i * PAGE_SIZE;
        }
      }
      FreeBelow(bitmap[..], totalPages);
      assert f == {};
      return 0;
    }

    /** Sets the bit of a free page. */
    method Take(page: nat)
      requires Valid() && page in Free() && page < totalPages
      modifies `freePages, bitmap
      ensures Valid() && Free() == old(Free()) - {page} && OnlyBit(old(bitmap[..]), bitmap[..], page)
    {
      hide Bit, Mask, FreeIn, OnlyBit;
      TakeExact(bitmap[..], totalPages, page);
      bitmap[page / 8] := bitmap[page / 8] | Mask(page % 8);
      freePages := freePages - 1;
    }

    /** `pmm_free_page`: the page becomes free; freeing it twice is not counted twice. The bitmap has up to eight
        bits more than there are pages, and freeing such a page is counted although it makes no page free: the
        count stays right exactly when the page exists or its bit was already clear. */
    method FreePage(addr: nat)
      requires Valid() && addr / PAGE_SIZE < 8 * bitmap.Length
      modifies `freePages, bitmap
      ensures totalPages < 8 * bitmap.Length
      ensures Free() == old(Free()) + if addr / PAGE_SIZE < totalPages then {addr / PAGE_SIZE} else {}
      ensures freePages == old(freePages) + if old(Taken(bitmap[..], addr / PAGE_SIZE)) then 1 else 0
      ensures OnlyBit(old(bitmap[..]), bitmap[..], addr / PAGE_SIZE) && !Taken(bitmap[..], addr / PAGE_SIZE)
      ensures Valid() <==> addr / PAGE_SIZE < totalPages || !old(Taken(bitmap[..], addr / PAGE_SIZE))
    {
      hide Bit, Mask, FreeIn;
      ghost var bits := bitmap[..];
      assert OnlyBit(bits, bits, addr / PAGE_SIZE);
      hide OnlyBit;
      var page := addr / PAGE_SIZE;
      if page < totalPages { FreeAt(bitmap[..], totalPages, page); }
      if Bit(bitmap[page / 8], page % 8) {
        Release(page);
      }
    }

    /** Clears the bit of a page and counts it. */
    method Release(page: nat)
      requires totalPages < 8 * bitmap.Length && page < 8 * bitmap.Length
      modifies `freePages, bitmap
      ensures Free() == old(Free()) + if page < totalPages then {page} else {}
      ensures freePages == old(freePages) + 1 && OnlyBit(old(bitmap[..]), bitmap[..], page) && !Taken(bitmap[..], page)
    {
      hide Bit, Mask, FreeIn, OnlyBit;
      ReleaseExact(bitmap[..], totalPages, page);
      ReleasedBit(bitmap[..], page);
      bitmap[page / 8] := bitmap[page / 8] & !Mask(page % 8);
      freePages := freePages + 1;
    }

    // ---------------------------------------------------------------- initialisation

    /** The last loop of `pmm_init` for one entry: its pages become free. */
    method ClearRegion(r: Region)
      requires Valid() && r.usable && r.Last() <= totalPages && forall p :: p in Free() ==> !r.Covers(p)
      modifies `freePages, bitmap
      ensures Valid() && forall p: nat :: p in Free() <==> p in old(Free()) || r.Covers(p)
      ensures SameTail(old(bitmap[..]), bitmap[..], totalPages)
    {
      hide Bit, Mask, FreeIn, OnlyBit, SameTail;
      ghost var f, bits := Free(), bitmap[..];
      TailRefl(bits, totalPages);
      var addr := r.base;
      while addr + PAGE_SIZE <= r.base + r.length
        invariant Valid() && r.base <= addr <= r.base + r.length && (addr - r.base) % PAGE_SIZE == 0
        invariant forall p: nat :: p in Free() <==> p in f || (r.Covers(p) && p < addr / PAGE_SIZE)
        invariant SameTail(bits, bitmap[..], totalPages)
      {
        PageOf(r, addr);
        assert r.Covers(addr / PAGE_SIZE);
        ghost var b1 := bitmap[..];
        Release(addr / PAGE_SIZE);
        TailStep(bits, b1, bitmap[..], totalPages, addr / PAGE_SIZE);
        addr := addr + PAGE_SIZE;
      }
      LastPage(r, addr);
    }

    /** The loop of `pmm_init` over the memory map. */
    method ClearAll(m: seq<Region>)
      requires Valid() && Free() == {} && DisjointPages(m)
      requires forall i :: 0 <= i < |m| && m[i].usable ==> m[i].Last() <= totalPages
      modifies `freePages, bitmap
      ensures Valid() && forall p: nat :: p in Free() <==> Covered(m, |m|, p)
      ensures SameTail(old(bitmap[..]), bitmap[..], totalPages)
    {
      hide Bit, FreeIn, SameTail;
      ghost var bits := bitmap[..];
      TailRefl(bits, totalPages);
      for i := 0 to |m|
        invariant Valid() && forall p: nat :: p in Free() <==> Covered(m, i, p)
        invariant SameTail(bits, bitmap[..], totalPages)
      {
        ghost var f, b1 := Free(), bitmap[..];
        if m[i].usable {
          forall p | p in f ensures !m[i].Covers(p) {
            var j :| 0 <= j < i && m[j].Covers(p);
          }
          ClearRegion(m[i]);
          TailTrans(bits, b1, bitmap[..], totalPages);
        }
        forall p: nat ensures Covered(m, i + 1, p) <==> Covered(m, i, p) || m[i].Covers(p) {
        }
      }
    }

    /** The first loop of `pmm_init`. */
    static method FindHighest(memmap: array<Region>) returns (highest: nat)
      ensures highest == Highest(memmap[..])
    {
      highest := 0;
      for i := 0 to memmap.Length
        invariant highest == Highest(memmap[..i])
      {
        assert memmap[..i + 1][..i] == memmap[..i];
        var end := memmap[i].base + memmap[i].length;
        if end > highest {
          highest := end;
        }
      }
      assert memmap[..memmap.Length] == memmap[..];
    }

    /** The second loop of `pmm_init`: room for the bitmap. */
    static method CarveBitmap(memmap: array<Region>, size: nat)
      requires size == BitmapSize(memmap[..]) && Host(memmap[..]) < memmap.Length
      modifies memmap
      ensures memmap[..] == WithoutBitmap(old(memmap[..]))
    {
      hide Highest;
      ghost var m := memmap[..];
      for i := 0 to memmap.Length
        invariant Host(m) == HostFrom(m, size, i) && memmap[..] == m
      {
        if memmap[i].usable && memmap[i].length >= size {
          memmap[i] := Carved(memmap[i], size);
          break;
        }
      }
    }

    /** `pmm_init`: afterwards exactly the pages of the usable entries, less the room of the bitmap, are free,
        and the count is right. */
    constructor Init(memmap: array<Region>)
      requires MapOk(memmap[..]) && Host(memmap[..]) < memmap.Length
      modifies memmap
      ensures Valid() && fresh(bitmap) && totalPages == Highest(old(memmap[..])) / PAGE_SIZE
      ensures memmap[..] == WithoutBitmap(old(memmap[..]))
      ensures forall p: nat :: totalPages <= p < 8 * bitmap.Length ==> Taken(bitmap[..], p)
      ensures forall p: nat :: p in Free() <==> Covered(memmap[..], memmap.Length, p)
      ensures
        var m := old(memmap[..]);
        (exists p: nat :: p in Free() && HoldsBitmap(m[Host(m)], BitmapSize(m), p)) <==>
        BitmapSize(m) % PAGE_SIZE != 0 && m[Host(m)].length - BitmapSize(m) >= PAGE_SIZE
    {
      hide Bit, Mask, FreeIn, Highest, Host, WithoutBitmap, Covered, HoldsBitmap;
      ghost var m := memmap[..];
      var highest := FindHighest(memmap);
      totalPages := highest / PAGE_SIZE;
      var size := highest / PAGE_SIZE / 8 + 1;
      CarveBitmap(memmap, size);
      bitmap := new bv8[size](i => 0xff);
      freePages := 0;
      new;
      ghost var bits := bitmap[..];
      NoneFree(bits, totalPages);
      AllTaken(bits);
      CarvedDisjoint(m);
      CarvedUsable(m);
      InitExposes(m);
      ClearAll(memmap[..]);
      TailTaken(bits, bitmap[..], totalPages);
    }
  }

  /** Four pages, none of them free, as after the start of `pmm_init`: freeing page 5, which has a bit but does not
      exist, makes no page free and yet is counted. */
  method Miscount(a: Pmm)
    requires a.bitmap[..] == [0xff] && a.totalPages == 4 && a.freePages == 0
    modifies a, a.bitmap
    ensures old(a.Valid()) && !a.Valid() && a.totalPages < 8 * a.bitmap.Length && a.Free() == {} && a.freePages == 1
  {
    hide Bit, Mask, FreeIn;
    NoneFree([0xff], 4);
    AllOnes(5);
    a.FreePage(5 * PAGE_SIZE);
  }

  lemma CarvedUsable(m: seq<Region>)
    requires Host(m) < |m|
    ensures forall i :: 0 <= i < |m| ==> WithoutBitmap(m)[i].usable == m[i].usable
  {
  }

  lemma NoneFree(bits: seq<bv8>, total: nat)
    requires total <= 8 * |bits| && forall i :: 0 <= i < |bits| ==> bits[i] == 0xff
    ensures FreeIn(bits, total) == {}
  {
    hide Bit;
    forall p: nat | p < total ensures Taken(bits, p) { AllOnes(p % 8); }
  }

  lemma PageOf(r: Region, addr: nat)
    requires r.base <= addr && addr + PAGE_SIZE <= r.base + r.length && (addr - r.base) % PAGE_SIZE == 0
    ensures r.First() <= addr / PAGE_SIZE < r.Last()
    ensures (addr + PAGE_SIZE) / PAGE_SIZE == addr / PAGE_SIZE + 1
    ensures (addr + PAGE_SIZE - r.base) % PAGE_SIZE == 0
  {
  }

  lemma LastPage(r: Region, addr: nat)
    requires r.base <= addr <= r.base + r.length < addr + PAGE_SIZE && (addr - r.base) % PAGE_SIZE == 0
    ensures addr / PAGE_SIZE == r.Last()
  {
  }
}
