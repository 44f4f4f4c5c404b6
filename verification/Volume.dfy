/** The layout of a mounted FAT32 volume and the file allocation tables stored on it. */
module Volume {
  import opened Bytes
  import opened Powers

  const EOC := 0x0fff_ffff
  const BAD := 0x0fff_fff7

  /** What mounting reads from the BIOS parameter block. `fatSect1` is zero unless writes are mirrored. */
  datatype Geometry = Geometry(
    clustShift: nat,
    clustCnt: nat,
    infoSect: nat,
    fatSect0: nat,
    fatSect1: nat,
    dataSect: nat,
    rootClust: nat)
  {
    /** Sectors per cluster; `clust_msk` is one less. */
    function Spc(): (n: nat)
      ensures n > 0
    {
      Pow2(clustShift)
    }

    /** Sectors that one table of `clustCnt` four-byte entries occupies. */
    function FatLen(): (n: nat)
    {
      (clustCnt + 127) / 128
    }

    /** Sectors of the usable clusters `[2, clustCnt)`. */
    function DataLen(): (n: nat)
    {
      if clustCnt < 2 then 0 else Times(clustCnt - 2, Spc())
    }

    predicate InFat0(s: nat) { fatSect0 <= s < fatSect0 + FatLen() }

    predicate InFat1(s: nat) { fatSect1 != 0 && fatSect1 <= s < fatSect1 + FatLen() }

    predicate InFat(s: nat) { InFat0(s) || InFat1(s) }

    predicate InData(s: nat) { dataSect <= s < dataSect + DataLen() }

    /** What the driver takes for granted about the volume: the regions lie on the disk, are
        disjoint and leave out sector 0, and the data region starts on a cluster boundary. */
    predicate Ok(size: nat)
    {
      && clustShift < 8
      && 2 < clustCnt < BAD
      && size < TWO_32
      && 0 < infoSect < size
      && 0 < fatSect0 && fatSect0 + FatLen() <= size
      && fatSect1 + FatLen() <= size
      && (fatSect1 != 0 ==> Apart(fatSect0, FatLen(), fatSect1, FatLen()))
      && 0 < dataSect && dataSect + DataLen() <= size
      && Rem(dataSect, Spc()) == 0
      && !InFat(infoSect) && !InData(infoSect)
      && Apart(fatSect0, FatLen(), dataSect, DataLen())
      && (fatSect1 != 0 ==> Apart(fatSect1, FatLen(), dataSect, DataLen()))
    }
  }

  /** Volumes like that exist: eight sectors with FSInfo, two tables of four entries and two one-sector clusters. */
  lemma SmallVolume()
    ensures Geometry(0, 4, 1, 2, 3, 4, 2).Ok(8)
  {
    var g := Geometry(0, 4, 1, 2, 3, 4, 2);
    assert g.Spc() == 1 && g.FatLen() == 1 && g.DataLen() == Times(2, 1) == 2;
  }

  /** The sector of an entry is a table sector. */
  lemma EntrySector(g: Geometry, c: nat)
    requires c < g.clustCnt
    ensures g.InFat(g.fatSect0 + c / 128)
  {
  }

  lemma SmallMod(c: nat)
    requires c < TWO_28
    ensures c % TWO_28 == c
  {
  }

  /** Cluster numbers fit into an entry. */
  lemma FitsEntry(g: Geometry, size: nat, c: nat)
    requires g.Ok(size) && c < g.clustCnt
    ensures c % TWO_28 == c && EOC % TWO_28 == EOC && c < TWO_32
  {
    assert c < BAD;
    hide Geometry.Ok;
    SmallMod(c);
    SmallMod(EOC);
  }

  function Times(a: nat, b: nat): (n: nat) { a * b }

  predicate Apart(a: nat, n: nat, b: nat, m: nat) { a + n <= b || b + m <= a }

  // ---------------------------------------------------------------- allocation tables

  /** Entry `c` of a table: one number per cluster, the upper four bits already dropped. */
  type Table = seq<nat>

  /** The raw 32-bit word of cluster `c` in the table that starts at sector `fs`. */
  function RawEntry(img: Image, fs: nat, c: nat): (v: nat)
    requires fs + c / 128 < |img|
    ensures v < TWO_32
  {
    Le32(img[fs + c / 128], 4 * (c % 128))
  }

  /** Entry of cluster `c` as the driver sees it: the low 28 bits. */
  function Entry(img: Image, fs: nat, c: nat): (v: nat)
    requires fs + c / 128 < |img|
    ensures v < TWO_28
  {
    RawEntry(img, fs, c) % TWO_28
  }

  /** The image after storing `v` in entry `c`: the upper four bits of the word stay. */
  function PutEntry(img: Image, fs: nat, c: nat, v: nat): (r: Image)
    requires fs + c / 128 < |img|
    ensures |r| == |img|
    ensures forall s :: 0 <= s < |img| && s != fs + c / 128 ==> r[s] == img[s]
  {
    img[fs + c / 128 := PutLe32(img[fs + c / 128], 4 * (c % 128), Merge(RawEntry(img, fs, c), v))]
  }

  /** Upper four bits of `old`, lower 28 bits of `v`. */
  function Merge(old_: nat, v: nat): (r: nat)
    requires old_ < TWO_32
    ensures r < TWO_32 && r % TWO_28 == v % TWO_28 && r / TWO_28 == old_ / TWO_28
  {
    old_ / TWO_28 * TWO_28 + v % TWO_28
  }

  /** The whole table at `fs`. */
  function TableOf(g: Geometry, img: Image, fs: nat): (t: Table)
    requires fs + g.FatLen() <= |img|
    ensures |t| == g.clustCnt
    ensures forall c :: 0 <= c < g.clustCnt ==> t[c] == Entry(img, fs, c)
  {
    seq(g.clustCnt, c requires 0 <= c < g.clustCnt => Entry(img, fs, c))
  }

  /** Entry `c` is the low 28 bits of the four bytes from byte `4 * c` of its table on, least significant first. */
  lemma EntryBytes(img: Image, fs: nat, c: nat)
    requires fs + c / 128 < |img|
    ensures 4 * c / 512 == c / 128 && 4 * c % 512 + 4 <= 512
    ensures
      var s, o := img[fs + 4 * c / 512], 4 * c % 512;
      Entry(img, fs, c) ==
        (s[o] as int) + 0x100 * (s[o + 1] as int) + 0x1_0000 * (s[o + 2] as int) + 0x100_0000 * (s[o + 3] as int % 0x10)
  {
    var s, o := img[fs + c / 128], 4 * (c % 128);
    assert 4 * c % 512 == o && 4 * c / 512 == c / 128;
    LowBits((s[o] as int) + 0x100 * (s[o + 1] as int) + 0x1_0000 * (s[o + 2] as int), s[o + 3]);
  }

  lemma LowBits(a: nat, b: byte)
    requires a < 0x100_0000
    ensures (a + 0x100_0000 * (b as int)) % TWO_28 == a + 0x100_0000 * (b as int % 0x10)
  {
  }

  /** Storing it changes those four bytes and no other. */
  lemma PutEntryBytes(img: Image, fs: nat, c: nat, v: nat)
    requires fs + c / 128 < |img|
    ensures forall s, i :: 0 <= s < |img| && 0 <= i < 512 && !(s == fs + c / 128 && 4 * c % 512 <= i < 4 * c % 512 + 4) ==>
      PutEntry(img, fs, c, v)[s][i] == img[s][i]
  {
    assert 4 * c % 512 == 4 * (c % 128);
  }

  /** Storing one entry is a point update of its own table and keeps the reserved bits. */
  lemma PutEntryTable(g: Geometry, img: Image, fs: nat, c: nat, v: nat)
    requires c < g.clustCnt && fs + g.FatLen() <= |img|
    ensures TableOf(g, PutEntry(img, fs, c, v), fs) == TableOf(g, img, fs)[c := v % TWO_28]
    ensures RawEntry(PutEntry(img, fs, c, v), fs, c) / TWO_28 == RawEntry(img, fs, c) / TWO_28
    ensures forall d :: 0 <= d < g.clustCnt && d != c ==> RawEntry(PutEntry(img, fs, c, v), fs, d) == RawEntry(img, fs, d)
  {
    var r := PutEntry(img, fs, c, v);
    forall d | 0 <= d < g.clustCnt && d != c
      ensures RawEntry(r, fs, d) == RawEntry(img, fs, d)
    {
      if d / 128 == c / 128 {
        Le32Frame(img[fs + c / 128], 4 * (c % 128), Merge(RawEntry(img, fs, c), v), 4 * (d % 128));
      }
    }
  }

  /** Storing one entry leaves a table that lies elsewhere alone. */
  lemma PutEntryOther(g: Geometry, img: Image, fs: nat, c: nat, v: nat, fs': nat)
    requires c < g.clustCnt && fs + g.FatLen() <= |img| && fs' + g.FatLen() <= |img|
    requires Apart(fs, g.FatLen(), fs', g.FatLen())
    ensures TableOf(g, PutEntry(img, fs, c, v), fs') == TableOf(g, img, fs')
  {
  }

  /** `put_fat`: the mirror first, when there is one, then the active table. */
  function PutBoth(g: Geometry, img: Image, c: nat, v: nat): (r: Image)
    requires g.Ok(|img|) && c < g.clustCnt
    ensures |r| == |img|
  {
    PutEntry(PutMirror(g, img, c, v), g.fatSect0, c, v)
  }

  function PutMirror(g: Geometry, img: Image, c: nat, v: nat): (r: Image)
    requires g.Ok(|img|) && c < g.clustCnt
    ensures |r| == |img|
  {
    if g.fatSect1 != 0 then PutEntry(img, g.fatSect1, c, v) else img
  }

  /** The active table. */
  function Fat0(g: Geometry, img: Image): (t: Table)
    requires g.Ok(|img|)
    ensures |t| == g.clustCnt
  {
    TableOf(g, img, g.fatSect0)
  }

  /** The mirror table; the active one when there is no mirror. */
  function Fat1(g: Geometry, img: Image): (t: Table)
    requires g.Ok(|img|)
    ensures |t| == g.clustCnt
  {
    if g.fatSect1 != 0 then TableOf(g, img, g.fatSect1) else Fat0(g, img)
  }

  /** Images that agree outside the allocation tables. */
  predicate SameOutsideFat(g: Geometry, a: Image, b: Image)
  {
    |a| == |b| && forall s :: 0 <= s < |a| && !g.InFat(s) ==> a[s] == b[s]
  }

  /** Images that agree outside the allocation tables and the FSInfo sector. */
  predicate SameElsewhere(g: Geometry, a: Image, b: Image)
  {
    |a| == |b| && forall s :: 0 <= s < |a| && !g.InFat(s) && s != g.infoSect ==> a[s] == b[s]
  }

  lemma OutsideElsewhere(g: Geometry, a: Image, b: Image)
    requires SameOutsideFat(g, a, b)
    ensures SameElsewhere(g, a, b)
  {
  }

  lemma SameElsewhereRefl(g: Geometry, a: Image)
    ensures SameElsewhere(g, a, a)
  {
  }

  lemma SameElsewhereTrans(g: Geometry, a: Image, b: Image, c: Image)
    requires SameElsewhere(g, a, b) && SameElsewhere(g, b, c)
    ensures SameElsewhere(g, a, c)
  {
  }

  /** The two tables agree. */
  predicate Mirrored(g: Geometry, img: Image)
    requires g.Ok(|img|)
  {
    Fat0(g, img) == Fat1(g, img)
  }

  /** `put_fat` is the same point update on both tables and touches nothing else. */
  lemma PutBothTables(g: Geometry, img: Image, c: nat, v: nat)
    requires g.Ok(|img|) && c < g.clustCnt
    ensures Fat0(g, PutBoth(g, img, c, v)) == Fat0(g, img)[c := v % TWO_28]
    ensures Fat1(g, PutBoth(g, img, c, v)) == Fat1(g, img)[c := v % TWO_28]
    ensures SameOutsideFat(g, PutBoth(g, img, c, v), img)
  {
    PutMirrorTables(g, img, c, v);
    var a := PutMirror(g, img, c, v);
    PutEntryTable(g, a, g.fatSect0, c, v);
    if g.fatSect1 != 0 {
      PutEntryOther(g, a, g.fatSect0, c, v, g.fatSect1);
    }
  }

  /** Half way through `put_fat` only the mirror has changed. */
  lemma PutMirrorTables(g: Geometry, img: Image, c: nat, v: nat)
    requires g.Ok(|img|) && c < g.clustCnt
    ensures Fat0(g, PutMirror(g, img, c, v)) == Fat0(g, img)
    ensures Fat1(g, PutMirror(g, img, c, v)) == if g.fatSect1 != 0 then Fat1(g, img)[c := v % TWO_28] else Fat1(g, img)
    ensures SameOutsideFat(g, PutMirror(g, img, c, v), img)
  {
    if g.fatSect1 != 0 {
      PutEntryTable(g, img, g.fatSect1, c, v);
      PutEntryOther(g, img, g.fatSect1, c, v, g.fatSect0);
    }
  }

  // ---------------------------------------------------------------- data clusters

  /** First sector of cluster `c`. */
  function ClustToSect(g: Geometry, c: nat): (s: nat)
    requires c >= 2
    ensures s >= g.dataSect
  {
    (c - 2) * g.Spc() + g.dataSect
  }

  /** The cluster that holds data sector `s`. */
  function SectToClust(g: Geometry, s: nat): (c: nat)
    requires s >= g.dataSect
  {
    Quot(s - g.dataSect, g.Spc()) + 2
  }

  /** The two conversions agree on every sector of a cluster. */
  lemma ClustSectRoundTrip(g: Geometry, c: nat, j: nat)
    requires c >= 2 && j < g.Spc()
    ensures SectToClust(g, ClustToSect(g, c) + j) == c
    ensures Rem(g.dataSect, g.Spc()) == 0 ==> Rem(ClustToSect(g, c) + j, g.Spc()) == j
  {
    DivModUnique(c - 2, g.Spc(), j);
    if Rem(g.dataSect, g.Spc()) == 0 {
      QuotRem(g.dataSect, g.Spc());
      var q := Quot(g.dataSect, g.Spc());
      assert ClustToSect(g, c) + j == (c - 2 + q) * g.Spc() + j;
      DivModUnique(c - 2 + q, g.Spc(), j);
    }
  }

  function Quot(k: nat, n: nat): (q: nat)
    requires n > 0
  {
    QuotNat(k, n);
    k / n
  }

  lemma QuotNat(k: nat, n: nat)
    requires n > 0
    ensures k / n >= 0
  {
    var q := k / n;
    assert k == q * n + k % n;
    if q < 0 { MulAtLeast(-q, n); }
  }

  function Rem(k: nat, n: nat): (r: nat)
    requires n > 0
    ensures r < n
  {
    k % n
  }

  lemma QuotRem(k: nat, n: nat)
    requires n > 0
    ensures k == Quot(k, n) * n + Rem(k, n)
  {
  }

  lemma QuotMonotone(j: nat, k: nat, n: nat)
    requires n > 0 && j <= k
    ensures Quot(j, n) <= Quot(k, n)
  {
    QuotRem(j, n);
    QuotRem(k, n);
    var d := Quot(j, n) - Quot(k, n);
    assert d * n == j - k + Rem(k, n) - Rem(j, n);
    if d >= 1 { MulAtLeast(d, n); }
  }

  /** Dividing by 512 and then by `n` is dividing by `512 * n`. */
  lemma QuotQuot(k: nat, n: nat)
    requires n > 0
    ensures Quot(k, 512 * n) == Quot(k / 512, n)
  {
    var q, m := Quot(k / 512, n), Rem(k / 512, n);
    QuotRem(k / 512, n);
    QuotRem(k, 512 * n);
    QuotientUnique(512 * n, Quot(k, 512 * n), Rem(k, 512 * n), q, 512 * m + k % 512);
  }

  lemma DivModUnique(q: nat, n: nat, r: nat)
    requires r < n
    ensures (q * n + r) / n == q && (q * n + r) % n == r
  {
    var x := q * n + r;
    assert x == x / n * n + x % n;
    QuotientUnique(n, q, r, x / n, x % n);
  }

  lemma QuotientUnique(n: nat, a: int, r: nat, b: int, m: nat)
    requires r < n && m < n && a * n + r == b * n + m
    ensures a == b && r == m
  {
    assert (a - b) * n == m - r;
    assert (b - a) * n == r - m;
    if a > b { MulAtLeast(a - b, n); } else if b > a { MulAtLeast(b - a, n); }
  }

  lemma QuotRemSucc(k: nat, n: nat)
    requires n > 0
    ensures Rem(k, n) + 1 < n ==> Quot(k + 1, n) == Quot(k, n) && Rem(k + 1, n) == Rem(k, n) + 1
    ensures Rem(k, n) + 1 == n ==> Quot(k + 1, n) == Quot(k, n) + 1 && Rem(k + 1, n) == 0
  {
    QuotRem(k, n);
    QuotRem(k + 1, n);
    if Rem(k, n) + 1 < n {
      QuotientUnique(n, Quot(k + 1, n), Rem(k + 1, n), Quot(k, n), Rem(k, n) + 1);
    } else {
      assert (Quot(k, n) + 1) * n == Quot(k, n) * n + n;
      QuotientUnique(n, Quot(k + 1, n), Rem(k + 1, n), Quot(k, n) + 1, 0);
    }
  }

  /** Clusters follow each other. */
  lemma ClustNext(g: Geometry, c: nat)
    requires c >= 2
    ensures ClustToSect(g, c + 1) == ClustToSect(g, c) + g.Spc()
  {
    assert (c - 1) * g.Spc() == (c - 2) * g.Spc() + g.Spc();
  }

  /** The sectors of a usable cluster are data sectors. */
  lemma ClustInData(g: Geometry, c: nat, j: nat)
    requires 2 <= c < g.clustCnt && j < g.Spc()
    ensures g.InData(ClustToSect(g, c) + j)
  {
    assert (c - 1) * g.Spc() == (c - 2) * g.Spc() + g.Spc();
    assert (c - 1) * g.Spc() <= (g.clustCnt - 2) * g.Spc();
  }

  /** Different clusters have different sectors. */
  lemma ClustersApart(g: Geometry, c: nat, i: nat, d: nat, j: nat)
    requires c >= 2 && d >= 2 && i < g.Spc() && j < g.Spc()
    requires ClustToSect(g, c) + i == ClustToSect(g, d) + j
    ensures c == d && i == j
  {
    ClustSectRoundTrip(g, c, i);
    ClustSectRoundTrip(g, d, j);
  }

  function ZeroSector(): (z: Sector)
    ensures forall i :: 0 <= i < 512 ==> z[i] == 0
  {
    seq(512, i => 0)
  }

  /** The image with the first `n` sectors of cluster `c` zeroed. */
  function Cleared(g: Geometry, img: Image, c: nat, n: nat): (r: Image)
    requires c >= 2
    ensures |r| == |img|
    ensures forall s :: 0 <= s < |img| ==>
      r[s] == if ClustToSect(g, c) <= s < ClustToSect(g, c) + n then ZeroSector() else img[s]
  {
    var z: Sector := ZeroSector();
    seq<Sector>(|img|, s requires 0 <= s < |img| =>
      if ClustToSect(g, c) <= s < ClustToSect(g, c) + n then z else img[s])
  }

  lemma ClearNone(g: Geometry, img: Image, c: nat)
    requires c >= 2
    ensures Cleared(g, img, c, 0) == img
  {
  }

  lemma ClearOne(g: Geometry, img: Image, c: nat, n: nat)
    requires c >= 2 && ClustToSect(g, c) + n < |img|
    ensures Cleared(g, img, c, n)[ClustToSect(g, c) + n := ZeroSector()] == Cleared(g, img, c, n + 1)
  {
  }

  // ---------------------------------------------------------------- FSInfo

  const INFO_FREE := 488
  const INFO_NEXT := 492

  /** The image after `sync_fs` has stored the counters in the FSInfo sector. */
  function PutInfo(g: Geometry, img: Image, free: nat, next: nat): (r: Image)
    requires g.Ok(|img|) && free < TWO_32 && next < TWO_32
    ensures |r| == |img|
  {
    img[g.infoSect := PutLe32(PutLe32(img[g.infoSect], INFO_NEXT, next), INFO_FREE, free)]
  }

  /** FSInfo carries these counters. */
  predicate InfoHolds(g: Geometry, img: Image, free: nat, next: nat)
    requires g.Ok(|img|)
  {
    Le32(img[g.infoSect], INFO_FREE) == free && Le32(img[g.infoSect], INFO_NEXT) == next
  }

  /** In FSInfo the free count stands in bytes 488 to 491 and the last cluster used in bytes 492 to 495, least significant
      first. */
  lemma InfoBytes(g: Geometry, img: Image, free: nat, next: nat)
    requires g.Ok(|img|) && free < TWO_32 && next < TWO_32
    ensures
      var s := PutInfo(g, img, free, next)[g.infoSect];
      && s[488..492] == [free % 0x100, free / 0x100 % 0x100, free / 0x1_0000 % 0x100, free / 0x100_0000]
      && s[492..496] == [next % 0x100, next / 0x100 % 0x100, next / 0x1_0000 % 0x100, next / 0x100_0000]
      && s[..488] == img[g.infoSect][..488] && s[496..] == img[g.infoSect][496..]
  {
    assert g.infoSect < |img|;
    hide PutLe32, Geometry.Ok;
    var a := PutLe32(img[g.infoSect], INFO_NEXT, next);
    WordBytes(img[g.infoSect], INFO_NEXT, next);
    WordBytes(a, INFO_FREE, free);
  }

  /** Storing the counters makes FSInfo carry them and changes neither table nor any other sector. */
  lemma PutInfoTables(g: Geometry, img: Image, free: nat, next: nat)
    requires g.Ok(|img|) && free < TWO_32 && next < TWO_32
    ensures InfoHolds(g, PutInfo(g, img, free, next), free, next)
    ensures Fat0(g, PutInfo(g, img, free, next)) == Fat0(g, img)
    ensures Fat1(g, PutInfo(g, img, free, next)) == Fat1(g, img)
    ensures forall s :: 0 <= s < |img| && s != g.infoSect ==> PutInfo(g, img, free, next)[s] == img[s]
    ensures SameElsewhere(g, PutInfo(g, img, free, next), img)
    ensures forall i :: 0 <= i < 512 && !(INFO_FREE <= i < INFO_FREE + 8) ==>
      PutInfo(g, img, free, next)[g.infoSect][i] == img[g.infoSect][i]
  {
    var a := PutLe32(img[g.infoSect], INFO_NEXT, next);
    Le32Frame(a, INFO_FREE, free, INFO_NEXT);
    var r := PutInfo(g, img, free, next);
    assert forall c :: 0 <= c < g.clustCnt ==> r[g.fatSect0 + c / 128] == img[g.fatSect0 + c / 128];
    assert g.fatSect1 != 0 ==> forall c :: 0 <= c < g.clustCnt ==> r[g.fatSect1 + c / 128] == img[g.fatSect1 + c / 128];
  }
}
