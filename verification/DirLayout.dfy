/** Where the slots of a directory lie on the volume. */
module DirLayout {
  import opened Bytes
  import opened Powers
  import opened Volume
  import opened Chains
  import opened FileLayout
  import opened FileBytes
  import opened LongName

  /** Slots that the clusters of a chain have room for. */
  function SlotCount(g: Geometry, chain: seq<nat>): (n: nat) { 16 * Times(|chain|, g.Spc()) }

  /** Slot `k` lies inside the chain. */
  predicate SlotInside(g: Geometry, chain: seq<nat>, k: nat) { ClustIndex(g, k / 16) < |chain| }

  lemma QuotLess(k: nat, m: nat, n: nat)
    requires n > 0
    ensures Quot(k, n) < m <==> k < Times(m, n)
  {
    QuotRem(k, n);
    var d := m - Quot(k, n);
    assert d * n == m * n - Quot(k, n) * n;
    if d >= 1 { MulAtLeast(d, n); } else if d < 0 { MulAtLeast(-d, n); }
  }

  lemma SlotInsideCount(g: Geometry, chain: seq<nat>, k: nat)
    ensures SlotInside(g, chain, k) <==> k < SlotCount(g, chain)
  {
    QuotLess(k / 16, |chain|, g.Spc());
  }

  /** Sector and byte offset of slot `k`. */
  predicate Place(g: Geometry, chain: seq<nat>, k: nat, sect: nat, idx: nat)
  {
    && SlotInside(g, chain, k) && chain[ClustIndex(g, k / 16)] >= 2
    && sect == FileSect(g, chain, k / 16) && idx == 32 * (k % 16)
  }

  /** Slot `k` of the directory. */
  function SlotAt(g: Geometry, img: Image, chain: seq<nat>, k: nat): (s: Slot)
    requires g.Ok(|img|) && Usable(g, chain) && SlotInside(g, chain, k)
  {
    FileSectOnChain(g, chain, k / 16);
    DataElsewhere(g, |img|, FileSect(g, chain, k / 16));
    img[FileSect(g, chain, k / 16)][32 * (k % 16)..32 * (k % 16) + 32]
  }

  /** All slots of the directory. */
  function Slots(g: Geometry, img: Image, chain: seq<nat>): (r: seq<Slot>)
    requires g.Ok(|img|) && Usable(g, chain)
    ensures |r| == SlotCount(g, chain)
    ensures forall k :: 0 <= k < |r| ==> SlotInside(g, chain, k) && r[k] == SlotAt(g, img, chain, k)
  {
    assert forall k: nat {:trigger SlotInside(g, chain, k)} :: k < SlotCount(g, chain) ==> SlotInside(g, chain, k) by {
      forall k: nat | k < SlotCount(g, chain) ensures SlotInside(g, chain, k) { SlotInsideCount(g, chain, k); }
    }
    seq<Slot>(SlotCount(g, chain), k requires 0 <= k < SlotCount(g, chain) => SlotAt(g, img, chain, k))
  }

  /** Slot `k` is bytes `[32 * k, 32 * k + 32)` of the chain. */
  lemma SlotBytes(g: Geometry, img: Image, chain: seq<nat>, k: nat, j: nat)
    requires g.Ok(|img|) && Usable(g, chain) && k < SlotCount(g, chain) && j < 32
    ensures StoredByte(g, img, chain, 32 * k + j) == Slots(g, img, chain)[k][j]
  {
    var i := 32 * k + j;
    assert i / 512 == k / 16 && i % 512 == 32 * (k % 16) + j;
    SlotInsideCount(g, chain, k);
    hide Geometry.Ok, ClustIndex, SlotCount;
    SlotSector(g, |img|, chain, k);
    hide FileSect;
    InsideByte(g, img, chain, i);
  }

  /** The sector of slot `k` is a sector of the chain. */
  lemma SlotSector(g: Geometry, size: nat, chain: seq<nat>, k: nat)
    requires g.Ok(size) && Usable(g, chain) && SlotInside(g, chain, k)
    ensures OnChain(g, chain, FileSect(g, chain, k / 16)) && 0 < FileSect(g, chain, k / 16) < size
    ensures g.InData(FileSect(g, chain, k / 16))
  {
    FileSectOnChain(g, chain, k / 16);
    DataElsewhere(g, size, FileSect(g, chain, k / 16));
  }

  /** Images that agree on the sectors of the chain hold the same slots. */
  lemma SlotsFrame(g: Geometry, a: Image, b: Image, chain: seq<nat>)
    requires g.Ok(|a|) && |b| == |a| && Usable(g, chain)
    requires forall s :: 0 <= s < |a| && OnChain(g, chain, s) ==> a[s] == b[s]
    ensures Slots(g, a, chain) == Slots(g, b, chain)
  {
    hide Geometry.Ok, FileSect, ClustIndex, OnChain, SlotCount;
    forall k | 0 <= k < SlotCount(g, chain)
      ensures Slots(g, a, chain)[k] == Slots(g, b, chain)[k]
    {
      SlotInsideCount(g, chain, k);
      SlotSector(g, |a|, chain, k);
    }
  }

  /** Rewriting the 32 bytes of slot `k` in its sector rewrites slot `k` and no other. */
  lemma SlotsPut(g: Geometry, img: Image, chain: seq<nat>, k: nat, sec: Sector)
    requires g.Ok(|img|) && Usable(g, chain) && Distinct(chain) && SlotInside(g, chain, k)
    requires FileSect(g, chain, k / 16) < |img|
    requires forall i :: 0 <= i < 512 && !(32 * (k % 16) <= i < 32 * (k % 16) + 32) ==>
      sec[i] == img[FileSect(g, chain, k / 16)][i]
    ensures k < SlotCount(g, chain)
    ensures Slots(g, img[FileSect(g, chain, k / 16) := sec], chain) ==
      Slots(g, img, chain)[k := sec[32 * (k % 16)..32 * (k % 16) + 32]]
  {
    hide Geometry.Ok, FileSect, ClustIndex, SlotCount;
    SlotInsideCount(g, chain, k);
    var f := FileSect(g, chain, k / 16);
    var img' := img[f := sec];
    forall j | 0 <= j < SlotCount(g, chain) && j != k
      ensures Slots(g, img', chain)[j] == Slots(g, img, chain)[j]
    {
      SlotInsideCount(g, chain, j);
      SlotSector(g, |img|, chain, j);
      if FileSect(g, chain, j / 16) == f {
        FileSectInjective(g, chain, j / 16, k / 16);
        SameSlice(img[f], sec, k, j);
      }
    }
  }

  lemma SameSlice(a: Sector, b: Sector, k: nat, j: nat)
    requires j / 16 == k / 16 && j != k
    requires forall i :: 0 <= i < 512 && !(32 * (k % 16) <= i < 32 * (k % 16) + 32) ==> a[i] == b[i]
    ensures a[32 * (j % 16)..32 * (j % 16) + 32] == b[32 * (j % 16)..32 * (j % 16) + 32]
  {
    assert j % 16 != k % 16;
  }

  /** A cluster that was cleared and appended adds empty slots behind the old ones. */
  lemma SlotsGrow(g: Geometry, a: Image, b: Image, chain: seq<nat>, c: nat)
    requires g.Ok(|a|) && |b| == |a| && Usable(g, chain + [c]) && Distinct(chain + [c]) && c >= 2
    requires forall s :: 0 <= s < |a| && OnChain(g, chain, s) ==> a[s] == b[s]
    requires forall s :: 0 <= s < |a| && ClustToSect(g, c) <= s < ClustToSect(g, c) + g.Spc() ==> b[s] == ZeroSector()
    ensures Usable(g, chain)
    ensures Slots(g, a, chain) <= Slots(g, b, chain + [c]) && |Slots(g, a, chain)| < |Slots(g, b, chain + [c])|
    ensures forall k :: |Slots(g, a, chain)| <= k < |Slots(g, b, chain + [c])| ==> IsEnd(Slots(g, b, chain + [c])[k])
  {
    hide Geometry.Ok, ClustIndex, OnChain, Slots, ClustToSect;
    var chain' := chain + [c];
    assert Usable(g, chain) by {
      assert forall i :: 0 <= i < |chain| ==> chain[i] == chain'[i];
    }
    CountGrows(g, chain, c);
    var old_, new_ := Slots(g, a, chain), Slots(g, b, chain');
    forall k | 0 <= k < |old_| ensures old_[k] == new_[k] {
      SlotInsideCount(g, chain, k);
      SlotInsideCount(g, chain', k);
      SlotSector(g, |a|, chain, k);
    }
    forall k | |old_| <= k < |new_| ensures IsEnd(new_[k]) {
      SlotInsideCount(g, chain, k);
      SlotInsideCount(g, chain', k);
      SlotSector(g, |a|, chain', k);
      assert ClustIndex(g, k / 16) == |chain|;
    }
  }

  function ZeroSlot(): (z: Slot)
    ensures IsEnd(z)
  {
    seq(32, i => 0)
  }

  /** Slots of which the first `n` were zeroed. */
  function Wiped(z: seq<Slot>, n: nat): (r: seq<Slot>)
    ensures |r| == |z| && forall k :: 0 <= k < |z| ==> r[k] == if k < n then ZeroSlot() else z[k]
  {
    var o: Slot := ZeroSlot();
    seq<Slot>(|z|, k requires 0 <= k < |z| => if k < n then o else z[k])
  }

  lemma WipedNone(z: seq<Slot>)
    ensures Wiped(z, 0) == z
  {
  }

  /** Slot `j` of a lone cluster is the slot so far behind the others when the cluster is appended. */
  lemma SlotBehind(g: Geometry, s: seq<nat>, c: nat, j: nat)
    requires c >= 2 && j < 16 * g.Spc()
    ensures
      var k := SlotCount(g, s) + j;
      && SlotInside(g, s + [c], k) && SlotInside(g, [c], j) && ClustIndex(g, k / 16) == |s| && ClustIndex(g, j / 16) == 0
      && FileSect(g, s + [c], k / 16) == FileSect(g, [c], j / 16) == ClustToSect(g, c) + j / 16 && k % 16 == j % 16
  {
    var n, i := g.Spc(), j / 16;
    QuotAt(|s|, n, i);
    QuotAt(0, n, i);
    hide Times, Quot, Rem, ClustToSect;
    assert (SlotCount(g, s) + j) / 16 == Times(|s|, n) + i;
  }

  lemma QuotAt(m: nat, n: nat, i: nat)
    requires i < n
    ensures Quot(Times(m, n) + i, n) == m && Rem(Times(m, n) + i, n) == i
  {
    hide Quot, Rem;
    QuotRem(Times(m, n) + i, n);
    QuotUnique(Times(m, n) + i, n, Quot(Times(m, n) + i, n), Rem(Times(m, n) + i, n), m, i);
  }

  lemma QuotUnique(k: nat, n: nat, q: nat, r: nat, q': nat, r': nat)
    requires k == q * n + r == q' * n + r' && r < n && r' < n
    ensures q == q' && r == r'
  {
    assert (q - q') * n == r' - r;
    if q > q' { MulAtLeast(q - q', n); } else if q < q' { MulAtLeast(q' - q, n); }
  }

  /** The directory after a cluster was appended and `m` of its sectors were cleared: the old slots, then those of the
      cluster as it was, the first of them zeroed. */
  lemma ClearedSlots(g: Geometry, v: Image, s: seq<nat>, x: Image, c: nat, m: nat)
    requires g.Ok(|v|) && |x| == |v| && SameElsewhere(g, x, v) && 2 <= c < g.clustCnt && m <= g.Spc()
    requires Usable(g, s + [c]) && Distinct(s + [c])
    ensures Usable(g, s) && Usable(g, [c])
    ensures Slots(g, Cleared(g, x, c, m), s + [c]) == Slots(g, v, s) + Wiped(Slots(g, v, [c]), 16 * m)
  {
    hide Geometry.Ok, ClustIndex, OnChain, ClustToSect, FileSect, SlotCount, Wiped, Cleared;
    var s', y := s + [c], Cleared(g, x, c, m);
    UsablePrefix(g, s, s');
    CountGrows(g, s, c);
    CountOne(g, c);
    var l, r := Slots(g, y, s'), Slots(g, v, s) + Wiped(Slots(g, v, [c]), 16 * m);
    forall k | 0 <= k < |l| ensures l[k] == r[k] {
      if k < SlotCount(g, s) {
        OldSlot(g, v, s, x, c, m, k);
      } else {
        NewSlot(g, v, s, x, c, m, k - SlotCount(g, s));
      }
    }
  }

  lemma CountOne(g: Geometry, c: nat)
    ensures SlotCount(g, [c]) == 16 * g.Spc()
  {
  }

  lemma OldSlot(g: Geometry, v: Image, s: seq<nat>, x: Image, c: nat, m: nat, k: nat)
    requires g.Ok(|v|) && |x| == |v| && SameElsewhere(g, x, v) && 2 <= c < g.clustCnt && m <= g.Spc()
    requires Usable(g, s) && Usable(g, s + [c]) && Distinct(s + [c]) && k < SlotCount(g, s)
    ensures k < SlotCount(g, s + [c]) && Slots(g, Cleared(g, x, c, m), s + [c])[k] == Slots(g, v, s)[k]
  {
    hide Geometry.Ok, ClustIndex, OnChain, ClustToSect, SlotCount, Cleared;
    SlotInsideCount(g, s, k);
    SlotInsideCount(g, s + [c], k);
    SlotSector(g, |v|, s, k);
    DataElsewhere(g, |v|, FileSect(g, s, k / 16));
    if ClustToSect(g, c) <= FileSect(g, s, k / 16) < ClustToSect(g, c) + g.Spc() {
      OnNewCluster(g, s, c, FileSect(g, s, k / 16));
    }
  }

  lemma NewSlot(g: Geometry, v: Image, s: seq<nat>, x: Image, c: nat, m: nat, j: nat)
    requires g.Ok(|v|) && |x| == |v| && SameElsewhere(g, x, v) && 2 <= c < g.clustCnt && m <= g.Spc()
    requires Usable(g, [c]) && Usable(g, s + [c]) && j < 16 * g.Spc()
    ensures SlotCount(g, s) + j < SlotCount(g, s + [c]) && j < SlotCount(g, [c])
    ensures Slots(g, Cleared(g, x, c, m), s + [c])[SlotCount(g, s) + j] == Wiped(Slots(g, v, [c]), 16 * m)[j]
  {
    SlotBehind(g, s, c, j);
    hide Geometry.Ok, ClustIndex, OnChain, ClustToSect, SlotCount, Cleared;
    SlotInsideCount(g, s + [c], SlotCount(g, s) + j);
    SlotInsideCount(g, [c], j);
    SlotSector(g, |v|, [c], j);
    DataElsewhere(g, |v|, FileSect(g, [c], j / 16));
    ZeroSlice(j % 16);
  }

  lemma ZeroSlice(i: nat)
    requires i < 16
    ensures ZeroSector()[32 * i..32 * i + 32] == ZeroSlot()
  {
  }

  lemma CountGrows(g: Geometry, chain: seq<nat>, c: nat)
    ensures SlotCount(g, chain + [c]) == SlotCount(g, chain) + 16 * g.Spc()
  {
    assert (|chain| + 1) * g.Spc() == |chain| * g.Spc() + g.Spc();
  }

  // ---------------------------------------------------------------- walking

  /** The next sector of a chain is the next sector of the device, unless that starts a cluster. */
  lemma SectStep(g: Geometry, size: nat, chain: seq<nat>, k: nat)
    requires g.Ok(size) && Usable(g, chain) && ClustIndex(g, k) < |chain|
    ensures Rem(FileSect(g, chain, k) + 1, g.Spc()) != 0 ==>
      ClustIndex(g, k + 1) == ClustIndex(g, k) && FileSect(g, chain, k + 1) == FileSect(g, chain, k) + 1
    ensures Rem(FileSect(g, chain, k) + 1, g.Spc()) == 0 ==>
      ClustIndex(g, k + 1) == ClustIndex(g, k) + 1 && SectIndex(g, k + 1) == 0
  {
    var n, c, j := g.Spc(), chain[ClustIndex(g, k)], SectIndex(g, k);
    QuotRemSucc(k, n);
    hide Quot, Rem, ClustToSect, Pow2;
    if j + 1 < n {
      ClustSectRoundTrip(g, c, j + 1);
    } else {
      ClustSectRoundTrip(g, c + 1, 0);
      ClustNext(g, c);
    }
  }

  // ---------------------------------------------------------------- what directory work leaves alone

  /** Writing a sector of the chain. */
  lemma KeptOver(g: Geometry, v: Image, s: seq<nat>, k: nat, b: Sector)
    requires g.Ok(|v|) && IsChain(Fat0(g, v), s) && OnChain(g, s, k)
    ensures Kept(g, v, s, Over(v, k, b), s) && IsChain(Fat0(g, Over(v, k, b)), s)
  {
    hide Geometry.Ok, Fat0, Fat1, IsChain, Over;
    OverTables(g, v, k, b);
    ExtendsRefl(Fat0(g, v), s);
    OverElsewhere(v, k, b);
  }

  lemma OverElsewhere(v: Image, k: nat, b: Sector)
    ensures forall s :: 0 <= s < |v| && s != k ==> Over(v, k, b)[s] == v[s]
  {
  }

  /** `b` is `a` with empty slots behind it. */
  ghost predicate Longer(a: seq<Slot>, b: seq<Slot>)
  {
    a <= b && forall k :: |a| <= k < |b| ==> IsEnd(b[k])
  }

  lemma ClusterOffTables(g: Geometry, size: nat, c: nat, s: nat)
    requires g.Ok(size) && 2 <= c < g.clustCnt
    ensures ClustToSect(g, c) <= s < ClustToSect(g, c) + g.Spc() ==> !g.InFat(s)
  {
    hide ClustToSect;
    if ClustToSect(g, c) <= s < ClustToSect(g, c) + g.Spc() {
      ClustInData(g, c, s - ClustToSect(g, c));
      DataElsewhere(g, size, s);
    }
  }

  /** Clearing a cluster touches no table. */
  lemma ClearedTables(g: Geometry, v: Image, c: nat, n: nat)
    requires g.Ok(|v|) && 2 <= c < g.clustCnt && n <= g.Spc()
    ensures Fat0(g, Cleared(g, v, c, n)) == Fat0(g, v) && Fat1(g, Cleared(g, v, c, n)) == Fat1(g, v)
  {
    hide Entry, ClustToSect;
    var r := Cleared(g, v, c, n);
    forall s | 0 <= s < |v| && g.InFat(s) ensures r[s] == v[s] {
      ClusterOffTables(g, |v|, c, s);
    }
    SameSectorsSameTable(g, v, r, g.fatSect0);
    if g.fatSect1 != 0 { SameSectorsSameTable(g, v, r, g.fatSect1); }
  }

  /** Appending a cluster to a directory and clearing it: old slots stay, empty ones follow. */
  lemma GrowAndClear(g: Geometry, v: Image, s: seq<nat>, v1: Image, c: nat)
    requires Moved(g, v, s, v1, s + [c]) && 2 <= c < g.clustCnt && Usable(g, s + [c])
    ensures
      var v2 := Cleared(g, v1, c, g.Spc());
      && Kept(g, v, s, v2, s + [c]) && IsChain(Fat0(g, v2), s + [c]) && Usable(g, s)
      && Longer(Slots(g, v, s), Slots(g, v2, s + [c])) && |Slots(g, v, s)| < |Slots(g, v2, s + [c])|
  {
    hide Geometry.Ok, Fat0, Fat1, IsChain, Slots, Cleared, ClustToSect;
    var s', v2 := s + [c], Cleared(g, v1, c, g.Spc());
    ClearedTables(g, v1, c, g.Spc());
    ExtendsChain(Fat0(g, v), s, Fat0(g, v1), s');
    UsablePrefix(g, s, s');
    forall k | 0 <= k < |v| && !g.InFat(k) && k != g.infoSect && !(ClustToSect(g, c) <= k < ClustToSect(g, c) + g.Spc())
      ensures v2[k] == v[k]
    {
    }
    forall k | 0 <= k < |v| && ClustToSect(g, c) <= k < ClustToSect(g, c) + g.Spc()
      ensures OnChain(g, s', k) && !OnChain(g, s, k)
    {
      OnNewCluster(g, s, c, k);
    }
    forall k | 0 <= k < |v| && OnChain(g, s, k) ensures v[k] == v2[k] {
      DataElsewhere(g, |v|, k);
    }
    SlotsGrow(g, v, v2, s, c);
  }

  lemma UsablePrefix(g: Geometry, s: seq<nat>, s': seq<nat>)
    requires s <= s' && Usable(g, s')
    ensures Usable(g, s)
  {
    assert forall i :: 0 <= i < |s| ==> s[i] == s'[i];
  }

  lemma OnNewCluster(g: Geometry, s: seq<nat>, c: nat, k: nat)
    requires 2 <= c < g.clustCnt && Distinct(s + [c]) && ClustToSect(g, c) <= k < ClustToSect(g, c) + g.Spc()
    ensures OnChain(g, s + [c], k) && !OnChain(g, s, k)
  {
    ClustInData(g, c, k - ClustToSect(g, c));
    ClustSectRoundTrip(g, c, k - ClustToSect(g, c));
    var s' := s + [c];
    assert s'[|s|] == c;
    assert forall i :: 0 <= i < |s| ==> s'[i] == s[i] && s'[i] != s'[|s|];
  }
}
