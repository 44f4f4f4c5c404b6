/** Where the bytes of a cluster chain lie, and how chains and images may grow together. */
module FileLayout {
  import opened Bytes
  import opened Volume
  import opened Chains

  /** Bytes in a cluster. */
  function ClustSize(g: Geometry): (n: nat)
    ensures n > 0
  {
    512 * g.Spc()
  }

  /** Which cluster of a chain holds sector `k` of it. */
  function ClustIndex(g: Geometry, k: nat): (i: nat) { Quot(k, g.Spc()) }

  /** Which sector of its cluster that is. */
  function SectIndex(g: Geometry, k: nat): (j: nat)
    ensures j < g.Spc()
  {
    Rem(k, g.Spc())
  }

  /** The device sector that holds sector `k` of a chain. */
  function FileSect(g: Geometry, chain: seq<nat>, k: nat): (s: nat)
    requires ClustIndex(g, k) < |chain| && chain[ClustIndex(g, k)] >= 2
  {
    ClustToSect(g, chain[ClustIndex(g, k)]) + SectIndex(g, k)
  }

  /** Every member is a usable cluster. */
  ghost predicate Usable(g: Geometry, chain: seq<nat>)
  {
    forall i :: 0 <= i < |chain| ==> 2 <= chain[i] < g.clustCnt
  }

  /** Data sector `s` belongs to the chain. */
  predicate OnChain(g: Geometry, chain: seq<nat>, s: nat)
  {
    g.InData(s) && SectToClust(g, s) in chain
  }

  /** Sectors of a chain are data sectors of the chain. */
  lemma FileSectOnChain(g: Geometry, chain: seq<nat>, k: nat)
    requires Usable(g, chain) && ClustIndex(g, k) < |chain|
    ensures OnChain(g, chain, FileSect(g, chain, k))
    ensures SectToClust(g, FileSect(g, chain, k)) == chain[ClustIndex(g, k)]
  {
    ClustInData(g, chain[ClustIndex(g, k)], SectIndex(g, k));
    ClustSectRoundTrip(g, chain[ClustIndex(g, k)], SectIndex(g, k));
  }

  /** Different sectors of an acyclic chain lie at different places. */
  lemma FileSectInjective(g: Geometry, chain: seq<nat>, k: nat, l: nat)
    requires Usable(g, chain) && Distinct(chain) && ClustIndex(g, k) < |chain| && ClustIndex(g, l) < |chain|
    requires FileSect(g, chain, k) == FileSect(g, chain, l)
    ensures k == l
  {
    hide ClustToSect, Quot, Rem;
    var i, j := ClustIndex(g, k), ClustIndex(g, l);
    ClustersApart(g, chain[i], SectIndex(g, k), chain[j], SectIndex(g, l));
    assert i == j;
    QuotRem(k, g.Spc());
    QuotRem(l, g.Spc());
  }

  /** Dividing by the cluster size is dividing by the sector size and then by sectors per cluster. */
  lemma DivClust(g: Geometry, off: nat)
    ensures Quot(off, ClustSize(g)) == ClustIndex(g, off / 512)
  {
    QuotQuot(off, g.Spc());
  }

  // ---------------------------------------------------------------- bytes

  /** Byte `i` of the chain lies inside it. */
  predicate Inside(g: Geometry, chain: seq<nat>, i: nat) { ClustIndex(g, i / 512) < |chain| }

  /** Byte `i` of the chain. */
  function FileByte(g: Geometry, img: Image, chain: seq<nat>, i: nat): (b: byte)
    requires g.Ok(|img|) && Inside(g, chain, i)
    requires 2 <= chain[ClustIndex(g, i / 512)] < g.clustCnt
  {
    ClustInData(g, chain[ClustIndex(g, i / 512)], SectIndex(g, i / 512));
    img[FileSect(g, chain, i / 512)][i % 512]
  }

  /** Where that byte is on the device, counted in bytes: behind the clusters before its own, which start at cluster 2. */
  lemma BytePlace(g: Geometry, chain: seq<nat>, i: nat)
    requires Inside(g, chain, i) && chain[ClustIndex(g, i / 512)] >= 2
    ensures
      var n := ClustSize(g);
      && Quot(i, n) == ClustIndex(g, i / 512) < |chain|
      && 512 * FileSect(g, chain, i / 512) + i % 512 == 512 * g.dataSect + Times(chain[Quot(i, n)] - 2, n) + Rem(i, n)
  {
    DivClust(g, i);
    hide ClustIndex;
    var m, c := g.Spc(), chain[Quot(i, ClustSize(g))] - 2;
    RemRem(i, m);
    assert 512 * (c * m) == c * (512 * m);
  }

  lemma RemRem(i: nat, m: nat)
    requires m > 0
    ensures Rem(i, 512 * m) == 512 * Rem(i / 512, m) + i % 512
  {
    QuotQuot(i, m);
    hide Quot, Rem;
    QuotRem(i, 512 * m);
    QuotRem(i / 512, m);
    var q := Quot(i / 512, m);
    assert q * (512 * m) == 512 * (q * m);
  }

  /** Overwriting bytes of one sector of the chain changes exactly those bytes of the file. */
  lemma PatchSector(g: Geometry, img: Image, chain: seq<nat>, k: nat, patched: Sector, i: nat)
    requires g.Ok(|img|) && Usable(g, chain) && Distinct(chain) && ClustIndex(g, k) < |chain| && Inside(g, chain, i)
    requires FileSect(g, chain, k) < |img|
    ensures FileByte(g, img[FileSect(g, chain, k) := patched], chain, i) ==
      if i / 512 == k then patched[i % 512] else FileByte(g, img, chain, i)
  {
    hide FileSect, Geometry.Ok, Quot, Rem, ClustIndex;
    FileSectOnChain(g, chain, i / 512);
    DataElsewhere(g, |img|, FileSect(g, chain, i / 512));
    if i / 512 != k && FileSect(g, chain, i / 512) == FileSect(g, chain, k) {
      FileSectInjective(g, chain, i / 512, k);
    }
  }

  /** Agreement outside the tables and FSInfo is agreement on every byte of every chain. */
  lemma ElsewhereBytes(g: Geometry, a: Image, b: Image, chain: seq<nat>, i: nat)
    requires g.Ok(|a|) && SameElsewhere(g, a, b) && Usable(g, chain) && Inside(g, chain, i)
    ensures FileByte(g, a, chain, i) == FileByte(g, b, chain, i)
  {
    FileSectOnChain(g, chain, i / 512);
    DataElsewhere(g, |a|, FileSect(g, chain, i / 512));
  }

  /** Data sectors are neither table sectors nor FSInfo. */
  lemma DataElsewhere(g: Geometry, size: nat, s: nat)
    requires g.Ok(size) && g.InData(s)
    ensures s < size && !g.InFat(s) && s != g.infoSect && s != 0
  {
  }

  // ---------------------------------------------------------------- growing chains

  /** In table `t'` chain `s'` continues what was chain `s` in table `t`: the added clusters were free,
      and no entry off the new chain has changed. */
  ghost predicate Extends(t: Table, s: seq<nat>, t': Table, s': seq<nat>)
  {
    && |t'| == |t| && s <= s' && IsChain(t', s')
    && (forall c :: 0 <= c < |t| && c !in s' ==> t'[c] == t[c])
    && (forall i :: |s| <= i < |s'| ==> s'[i] < |t| && IsFree(t[s'[i]]))
  }

  lemma ExtendsRefl(t: Table, s: seq<nat>)
    requires IsChain(t, s)
    ensures Extends(t, s, t, s)
  {
  }

  lemma ExtendsTrans(t: Table, s: seq<nat>, t': Table, s': seq<nat>, t'': Table, s'': seq<nat>)
    requires IsChain(t, s) && Extends(t, s, t', s') && Extends(t', s', t'', s'')
    ensures Extends(t, s, t'', s'')
  {
    forall i | |s| <= i < |s''|
      ensures s''[i] < |t| && IsFree(t[s''[i]])
    {
      if i < |s'| {
        assert s''[i] == s'[i];
      } else {
        FreeOffChain(t', s', s''[i]);
      }
    }
    forall c | 0 <= c < |t| && c !in s''
      ensures t''[c] == t[c]
    {
      InPrefix(s', s'', c);
    }
  }

  lemma InPrefix(s: seq<nat>, s': seq<nat>, c: nat)
    requires s <= s'
    ensures c in s ==> c in s'
  {
    assert forall i :: 0 <= i < |s| ==> s[i] == s'[i];
  }

  /** One growth step extends the chain it was made for. */
  lemma StretchIsExtension(t: Table, s: seq<nat>, c: nat)
    requires IsChain(t, s) && 2 <= c < |t| < BAD && IsFree(t[c]) && s[|s| - 1] != 0
    ensures Extends(t, s, Stretched(t, s[|s| - 1], c), s + [c])
  {
    StretchExtends(t, s, c);
    var r, s' := Stretched(t, s[|s| - 1], c), s + [c];
    assert s'[|s| - 1] == s[|s| - 1] && s'[|s|] == c;
    assert forall d :: 0 <= d < |t| && d !in s' ==> d != c && d != s[|s| - 1];
  }

  /** A chain apart from the old one is untouched and stays apart from the new one. */
  lemma ExtensionKeepsOthers(t: Table, s: seq<nat>, t': Table, s': seq<nat>, q: seq<nat>)
    requires IsChain(t, s) && Extends(t, s, t', s') && IsChain(t, q) && Disjoint(s, q)
    ensures IsChain(t', q) && Disjoint(s', q)
  {
    forall i, j | 0 <= i < |s'| && 0 <= j < |q|
      ensures s'[i] != q[j]
    {
      if i < |s| {
        assert s'[i] == s[i];
      } else if s'[i] == q[j] {
        FreeOffChain(t, q, s'[i]);
      }
    }
    ChainFrame(t, t', q);
  }

  // ---------------------------------------------------------------- growing images

  /** From image `v` to image `v'` the volume did nothing but let chain `s` grow into `s'`. */
  ghost predicate Moved(g: Geometry, v: Image, s: seq<nat>, v': Image, s': seq<nat>)
  {
    && g.Ok(|v|) && |v'| == |v| && SameElsewhere(g, v', v)
    && Extends(Fat0(g, v), s, Fat0(g, v'), s')
    && (Mirrored(g, v) ==> Mirrored(g, v'))
  }

  lemma MovedRefl(g: Geometry, v: Image, s: seq<nat>)
    requires g.Ok(|v|) && IsChain(Fat0(g, v), s)
    ensures Moved(g, v, s, v, s)
  {
  }

  lemma MovedTrans(g: Geometry, v: Image, s: seq<nat>, v': Image, s': seq<nat>, v'': Image, s'': seq<nat>)
    requires g.Ok(|v|) && IsChain(Fat0(g, v), s) && Moved(g, v, s, v', s') && Moved(g, v', s', v'', s'')
    ensures Moved(g, v, s, v'', s'')
  {
    ExtendsTrans(Fat0(g, v), s, Fat0(g, v'), s', Fat0(g, v''), s'');
    SameElsewhereTrans(g, v'', v', v);
  }

  /** `v` with sector `s` replaced, when there is such a sector. */
  function Over(v: Image, s: nat, b: Sector): (r: Image)
    ensures |r| == |v|
  {
    if s < |v| then v[s := b] else v
  }

  /** Writing a data sector leaves the tables alone. */
  lemma OverTables(g: Geometry, v: Image, s: nat, b: Sector)
    requires g.Ok(|v|) && (s < |v| ==> g.InData(s))
    ensures Fat0(g, Over(v, s, b)) == Fat0(g, v) && Fat1(g, Over(v, s, b)) == Fat1(g, v)
  {
    hide Entry;
    var r := Over(v, s, b);
    if s < |v| { DataElsewhere(g, |v|, s); }
    assert forall c :: 0 <= c < g.clustCnt ==> r[g.fatSect0 + c / 128] == v[g.fatSect0 + c / 128];
    assert g.fatSect1 != 0 ==> forall c :: 0 <= c < g.clustCnt ==> r[g.fatSect1 + c / 128] == v[g.fatSect1 + c / 128];
    SameSectorsSameTable(g, v, r, g.fatSect0);
    if g.fatSect1 != 0 { SameSectorsSameTable(g, v, r, g.fatSect1); }
  }

  lemma SameSectorsSameTable(g: Geometry, a: Image, b: Image, fs: nat)
    requires |a| == |b| && fs + g.FatLen() <= |a|
    requires forall c :: 0 <= c < g.clustCnt ==> a[fs + c / 128] == b[fs + c / 128]
    ensures TableOf(g, a, fs) == TableOf(g, b, fs)
  {
  }

  /** A buffer laid over a data sector does not care that the volume moved underneath. */
  lemma MovedOver(g: Geometry, v: Image, s: seq<nat>, v': Image, s': seq<nat>, k: nat, b: Sector)
    requires Moved(g, v, s, v', s') && (k < |v| ==> g.InData(k))
    ensures Moved(g, Over(v, k, b), s, Over(v', k, b), s')
  {
    hide Fat0, Fat1, Extends, Geometry.Ok;
    OverTables(g, v, k, b);
    OverTables(g, v', k, b);
  }

  /** What one growth of a chain does to the volume. */
  lemma MovedByStretch(g: Geometry, v: Image, s: seq<nat>, v': Image, s': seq<nat>)
    requires g.Ok(|v|) && |v'| == |v| && SameElsewhere(g, v', v) && Extends(Fat0(g, v), s, Fat0(g, v'), s')
    requires Fat0(g, v) == Fat1(g, v) ==> Fat0(g, v') == Fat1(g, v')
    ensures Moved(g, v, s, v', s')
  {
  }

  lemma TableNotData(g: Geometry, size: nat, c: nat)
    requires g.Ok(size) && c < g.clustCnt
    ensures !g.InData(g.fatSect0 + c / 128)
  {
  }
}
