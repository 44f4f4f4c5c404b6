/** Reading and writing as operations on the byte sequence of a chain. */
module FileBytes {
  import opened Bytes
  import opened Volume
  import opened Chains
  import opened FileLayout

  /** `s` with `d` copied in at `at`. */
  function Patch(s: Sector, at: nat, d: seq<byte>): (r: Sector)
    requires at + |d| <= 512
    ensures forall i :: 0 <= i < 512 ==> r[i] == if at <= i < at + |d| then d[i - at] else s[i]
  {
    s[..at] + d + s[at + |d|..]
  }

  /** A byte of a chain is the same byte of any continuation of it. */
  lemma PrefixByte(g: Geometry, v: Image, s: seq<nat>, s': seq<nat>, i: nat)
    requires g.Ok(|v|) && s <= s' && Usable(g, s') && Inside(g, s, i)
    ensures Usable(g, s) && Inside(g, s', i) && FileByte(g, v, s, i) == FileByte(g, v, s', i)
  {
  }

  /** From `v` to `v'` the chain grew from `s` to `s'`, its bytes `[o, o + |data|)` became `data`, every
      other byte of it stayed, and so did every sector that is on neither the chain nor a table. */
  ghost predicate Wrote(g: Geometry, v: Image, s: seq<nat>, v': Image, s': seq<nat>, o: nat, data: seq<byte>)
  {
    && g.Ok(|v|) && |v'| == |v| && Usable(g, s')
    && Extends(Fat0(g, v), s, Fat0(g, v'), s') && (Mirrored(g, v) ==> Mirrored(g, v'))
    && (forall i :: o <= i < o + |data| ==> Inside(g, s', i))
    && BytesAre(g, v, v', s', o, data)
    && SameOff(g, v, v', s')
  }

  ghost predicate BytesAre(g: Geometry, v: Image, v': Image, s': seq<nat>, o: nat, data: seq<byte>)
    requires g.Ok(|v|) && |v'| == |v| && Usable(g, s')
  {
    forall i: nat {:trigger FileByte(g, v', s', i)} :: Inside(g, s', i) ==>
      FileByte(g, v', s', i) == if o <= i < o + |data| then data[i - o] else FileByte(g, v, s', i)
  }

  /** Agreement on everything but the tables, FSInfo and the chain. */
  ghost predicate SameOff(g: Geometry, v: Image, v': Image, s': seq<nat>)
    requires |v'| == |v|
  {
    forall k :: 0 <= k < |v| && !g.InFat(k) && k != g.infoSect && !OnChain(g, s', k) ==> v'[k] == v[k]
  }

  lemma WroteNothing(g: Geometry, v: Image, s: seq<nat>, o: nat)
    requires g.Ok(|v|) && Usable(g, s) && IsChain(Fat0(g, v), s)
    ensures Wrote(g, v, s, v, s, o, [])
  {
    hide FileByte, Fat0, Fat1, Geometry.Ok;
  }

  /** Copying a chunk into the sector where the written range ends extends the range. */
  lemma WroteChunk(g: Geometry, v: Image, s: seq<nat>, v1: Image, s1: seq<nat>, o: nat, data: seq<byte>,
                   chunk: seq<byte>, k: nat, v2: Image)
    requires Wrote(g, v, s, v1, s1, o, data)
    requires ClustIndex(g, k) < |s1| && 512 * k <= o + |data| && o + |data| + |chunk| <= 512 * k + 512
    requires FileSect(g, s1, k) < |v1|
    requires v2 == Over(v1, FileSect(g, s1, k), Patch(v1[FileSect(g, s1, k)], o + |data| - 512 * k, chunk))
    ensures Wrote(g, v, s, v2, s1, o, data + chunk)
  {
    hide Extends, Geometry.Ok, Fat0, Fat1, FileByte, FileSect, ClustIndex, OnChain, Patch, IsChain;
    var f := FileSect(g, s1, k);
    var p := Patch(v1[f], o + |data| - 512 * k, chunk);
    FileSectOnChain(g, s1, k);
    ExtendsChain(Fat0(g, v), s, Fat0(g, v1), s1);
    OnData(g, s1, f);
    OverTables(g, v1, f, p);
    forall i: nat | Inside(g, s1, i)
      ensures FileByte(g, v2, s1, i) ==
        if o <= i < o + |data + chunk| then (data + chunk)[i - o] else FileByte(g, v, s1, i)
    {
      PatchSector(g, v1, s1, k, p, i);
      if i / 512 == k {
        ByteOfSector(g, v1, s1, i);
      }
    }
    assert BytesAre(g, v, v2, s1, o, data + chunk);
    forall i | o <= i < o + |data + chunk| ensures Inside(g, s1, i) {
      if i >= o + |data| { assert i / 512 == k; }
    }
  }

  lemma OnData(g: Geometry, s: seq<nat>, k: nat)
    requires OnChain(g, s, k)
    ensures g.InData(k)
  {
  }

  lemma ExtendsChain(t: Table, s: seq<nat>, t': Table, s': seq<nat>)
    requires Extends(t, s, t', s')
    ensures IsChain(t', s') && Distinct(s') && s <= s'
  {
    ChainDistinct(t', s');
  }

  lemma ByteOfSector(g: Geometry, v: Image, s: seq<nat>, i: nat)
    requires g.Ok(|v|) && Usable(g, s) && Inside(g, s, i) && FileSect(g, s, i / 512) < |v|
    ensures FileByte(g, v, s, i) == v[FileSect(g, s, i / 512)][i % 512]
  {
  }

  /** Letting the chain grow afterwards does not disturb what was written. */
  lemma WroteMoved(g: Geometry, v: Image, s: seq<nat>, v1: Image, s1: seq<nat>, o: nat, data: seq<byte>,
                   v2: Image, s2: seq<nat>)
    requires Wrote(g, v, s, v1, s1, o, data) && Moved(g, v1, s1, v2, s2)
    requires IsChain(Fat0(g, v), s) && Usable(g, s2)
    ensures Wrote(g, v, s, v2, s2, o, data)
  {
    hide Extends, Geometry.Ok, Fat0, Fat1, FileByte, FileSect, ClustIndex, OnChain, IsChain;
    ExtendsTrans(Fat0(g, v), s, Fat0(g, v1), s1, Fat0(g, v2), s2);
    ExtendsChain(Fat0(g, v1), s1, Fat0(g, v2), s2);
    forall i: nat | Inside(g, s2, i)
      ensures FileByte(g, v2, s2, i) == if o <= i < o + |data| then data[i - o] else FileByte(g, v, s2, i)
    {
      ElsewhereBytes(g, v2, v1, s2, i);
      if Inside(g, s1, i) {
        PrefixByte(g, v1, s1, s2, i);
        PrefixByte(g, v, s1, s2, i);
      } else {
        BeyondChain(g, s1, s2, i);
        ByteOfSector2(g, v, v1, s2, i);
      }
    }
    forall i | o <= i < o + |data| ensures Inside(g, s2, i) {
      PrefixByte(g, v, s1, s2, i);
    }
    forall k | 0 <= k < |v| && !OnChain(g, s2, k) ensures !OnChain(g, s1, k) {
      OnChainPrefix(g, s1, s2, k);
    }
  }

  ghost predicate ChainIn(g: Geometry, v: Image, s: seq<nat>) { g.Ok(|v|) && IsChain(Fat0(g, v), s) }

  lemma ChainOf(g: Geometry, v: Image, s: seq<nat>)
    requires g.Ok(|v|) && IsChain(Fat0(g, v), s)
    ensures ChainIn(g, v, s)
  {
  }

  lemma WroteOn(g: Geometry, v: Image, s: seq<nat>, v1: Image, s1: seq<nat>, o: nat, data: seq<byte>, v2: Image, s2: seq<nat>)
    requires ChainIn(g, v, s) && Wrote(g, v, s, v1, s1, o, data) && Moved(g, v1, s1, v2, s2) && Usable(g, s2)
    ensures Wrote(g, v, s, v2, s2, o, data)
  {
    WroteMoved(g, v, s, v1, s1, o, data, v2, s2);
  }

  lemma OnChainPrefix(g: Geometry, s: seq<nat>, s': seq<nat>, k: nat)
    requires s <= s'
    ensures OnChain(g, s, k) ==> OnChain(g, s', k)
  {
  }

  /** Bytes behind the end of a chain lie in clusters that are not on it. */
  lemma BeyondChain(g: Geometry, s: seq<nat>, s': seq<nat>, i: nat)
    requires s <= s' && Distinct(s') && Usable(g, s') && Inside(g, s', i) && !Inside(g, s, i)
    ensures !OnChain(g, s, FileSect(g, s', i / 512))
  {
    hide FileSect, ClustIndex;
    FileSectOnChain(g, s', i / 512);
    var j := ClustIndex(g, i / 512);
    assert forall l :: 0 <= l < |s| ==> s[l] == s'[l] && s'[l] != s'[j];
  }

  lemma ByteOfSector2(g: Geometry, v: Image, v': Image, s: seq<nat>, i: nat)
    requires g.Ok(|v|) && |v'| == |v| && Usable(g, s) && Inside(g, s, i)
    requires
      var f := FileSect(g, s, i / 512);
      f < |v| && !g.InFat(f) && f != g.infoSect ==> v'[f] == v[f]
    ensures FileByte(g, v', s, i) == FileByte(g, v, s, i)
  {
    FileSectOnChain(g, s, i / 512);
    DataElsewhere(g, |v|, FileSect(g, s, i / 512));
  }

  // ---------------------------------------------------------------- what a read delivers

  /** Byte `i` of the chain; 0 where there is none. */
  function StoredByte(g: Geometry, v: Image, s: seq<nat>, i: nat): (b: byte)
  {
    if g.Ok(|v|) && Inside(g, s, i) && 2 <= s[ClustIndex(g, i / 512)] < g.clustCnt then FileByte(g, v, s, i) else 0
  }

  /** Bytes `[o, o + n)` of the chain. */
  function Stored(g: Geometry, v: Image, s: seq<nat>, o: nat, n: nat): (r: seq<byte>)
    ensures |r| == n
    ensures forall j :: 0 <= j < n ==> r[j] == StoredByte(g, v, s, o + j)
  {
    seq<byte>(n, j requires j >= 0 => StoredByte(g, v, s, o + j))
  }

  /** Two stretches are equal when they are equal byte by byte. */
  lemma StoredEq(g: Geometry, v: Image, s: seq<nat>, v': Image, s': seq<nat>, o: nat, n: nat)
    requires forall i: nat :: o <= i < o + n ==> StoredByte(g, v, s, i) == StoredByte(g, v', s', i)
    ensures Stored(g, v, s, o, n) == Stored(g, v', s', o, n)
  {
    hide StoredByte;
  }

  lemma StoredSplit(g: Geometry, v: Image, s: seq<nat>, o: nat, m: nat, n: nat)
    ensures Stored(g, v, s, o, m + n) == Stored(g, v, s, o, m) + Stored(g, v, s, o + m, n)
  {
    hide StoredByte;
  }

  /** Everything before a byte inside the chain is inside the chain. */
  lemma InsideBelow(g: Geometry, s: seq<nat>, i: nat, j: nat)
    requires j <= i && Inside(g, s, i)
    ensures Inside(g, s, j)
  {
    QuotMonotone(j / 512, i / 512, g.Spc());
  }

  /** Moving changes no byte of the chain. */
  lemma StoredMoved(g: Geometry, v: Image, s: seq<nat>, v': Image, s': seq<nat>, o: nat, n: nat)
    requires Moved(g, v, s, v', s') && Usable(g, s')
    ensures Stored(g, v', s', o, n) == Stored(g, v, s', o, n)
  {
    hide Extends, Geometry.Ok, Fat0, Fat1, FileByte, IsChain, ClustIndex;
    forall i: nat | o <= i < o + n ensures StoredByte(g, v', s', i) == StoredByte(g, v, s', i) {
      if Inside(g, s', i) {
        ElsewhereBytes(g, v', v, s', i);
        InsideUsable(g, s', i);
      }
    }
    StoredEq(g, v', s', v, s', o, n);
  }

  /** Nor does a longer chain. */
  lemma StoredLonger(g: Geometry, v: Image, s: seq<nat>, s': seq<nat>, o: nat, n: nat)
    requires g.Ok(|v|) && s <= s' && Usable(g, s') && (n > 0 ==> Inside(g, s, o + n - 1))
    ensures Stored(g, v, s, o, n) == Stored(g, v, s', o, n)
  {
    hide Geometry.Ok, FileByte, ClustIndex, Inside;
    forall i: nat | o <= i < o + n ensures StoredByte(g, v, s, i) == StoredByte(g, v, s', i) {
      InsideBelow(g, s, o + n - 1, i);
      PrefixByte(g, v, s, s', i);
      InsideUsable(g, s, i);
      InsideUsable(g, s', i);
    }
    StoredEq(g, v, s, v, s', o, n);
  }

  lemma InsideUsable(g: Geometry, s: seq<nat>, i: nat)
    requires Usable(g, s) && Inside(g, s, i)
    ensures ClustIndex(g, i / 512) < |s| && 2 <= s[ClustIndex(g, i / 512)] < g.clustCnt
  {
  }

  lemma InsideByte(g: Geometry, v: Image, s: seq<nat>, i: nat)
    requires g.Ok(|v|) && Usable(g, s) && Inside(g, s, i) && FileSect(g, s, i / 512) < |v|
    ensures StoredByte(g, v, s, i) == v[FileSect(g, s, i / 512)][i % 512]
  {
    hide Geometry.Ok, FileSect, ClustIndex, FileByte;
    InsideUsable(g, s, i);
    ByteOfSector(g, v, s, i);
  }

  /** A stretch of one sector of the chain. */
  lemma StoredChunk(g: Geometry, v: Image, s: seq<nat>, o: nat, n: nat)
    requires g.Ok(|v|) && Usable(g, s) && Inside(g, s, o) && o % 512 + n <= 512 && FileSect(g, s, o / 512) < |v|
    ensures Stored(g, v, s, o, n) == v[FileSect(g, s, o / 512)][o % 512..o % 512 + n]
  {
    hide Geometry.Ok, FileSect, ClustIndex, FileByte, StoredByte;
    var a, b := Stored(g, v, s, o, n), v[FileSect(g, s, o / 512)][o % 512..o % 512 + n];
    forall j | 0 <= j < n ensures a[j] == b[j] {
      assert (o + j) / 512 == o / 512 && (o + j) % 512 == o % 512 + j;
      InsideByte(g, v, s, o + j);
    }
  }

  // ---------------------------------------------------------------- reading what was written

  /** What was written is what a read of the same range delivers. */
  lemma WroteReadsBack(g: Geometry, v: Image, s: seq<nat>, v': Image, s': seq<nat>, o: nat, data: seq<byte>)
    requires Wrote(g, v, s, v', s', o, data)
    ensures Stored(g, v', s', o, |data|) == data
  {
    hide Geometry.Ok, Wrote, StoredByte;
    var r := Stored(g, v', s', o, |data|);
    forall j | 0 <= j < |data| ensures r[j] == data[j] {
      WroteByte(g, v, s, v', s', o, data, j);
    }
  }

  lemma WroteByte(g: Geometry, v: Image, s: seq<nat>, v': Image, s': seq<nat>, o: nat, data: seq<byte>, j: nat)
    requires Wrote(g, v, s, v', s', o, data) && j < |data|
    ensures StoredByte(g, v', s', o + j) == data[j]
  {
    hide Geometry.Ok, Extends, FileByte, ClustIndex, OnChain, SameOff, StoredByte, Fat0, Fat1;
    assert Inside(g, s', o + j);
    StoredInside(g, v', s', o + j);
    assert FileByte(g, v', s', o + j) == data[j];
  }

  /** A write leaves the rest of its own file as it was. */
  lemma WroteKeepsRest(g: Geometry, v: Image, s: seq<nat>, v': Image, s': seq<nat>, o: nat, data: seq<byte>, p: nat, n: nat)
    requires Wrote(g, v, s, v', s', o, data) && (p + n <= o || o + |data| <= p) && (n > 0 ==> Inside(g, s, p + n - 1))
    ensures Stored(g, v', s', p, n) == Stored(g, v, s, p, n)
  {
    hide Geometry.Ok, FileByte, ClustIndex, OnChain, StoredByte, IsChain;
    forall i: nat | p <= i < p + n ensures StoredByte(g, v', s', i) == StoredByte(g, v, s, i) {
      InsideBelow(g, s, p + n - 1, i);
      PrefixByte(g, v, s, s', i);
      StoredInside(g, v', s', i);
      StoredInside(g, v, s, i);
      assert FileByte(g, v', s', i) == FileByte(g, v, s', i);
    }
    StoredEq(g, v', s', v, s, p, n);
  }

  lemma StoredInside(g: Geometry, v: Image, s: seq<nat>, i: nat)
    requires g.Ok(|v|) && Usable(g, s) && Inside(g, s, i)
    ensures StoredByte(g, v, s, i) == FileByte(g, v, s, i)
  {
    InsideUsable(g, s, i);
  }

  /** A write leaves every other file as it was: its chain is still its chain and its bytes are still its bytes. */
  lemma WroteKeepsOthers(g: Geometry, v: Image, s: seq<nat>, v': Image, s': seq<nat>, o: nat, data: seq<byte>,
                         q: seq<nat>, p: nat, n: nat)
    requires Wrote(g, v, s, v', s', o, data)
    requires IsChain(Fat0(g, v), s) && IsChain(Fat0(g, v), q) && Disjoint(s, q) && Usable(g, q)
    ensures IsChain(Fat0(g, v'), q) && Disjoint(s', q)
    ensures Stored(g, v', q, p, n) == Stored(g, v, q, p, n)
  {
    hide Geometry.Ok, FileByte, ClustIndex, OnChain, StoredByte, IsChain, Fat0, Extends, FileSect;
    ExtensionKeepsOthers(Fat0(g, v), s, Fat0(g, v'), s', q);
    forall i: nat | p <= i < p + n ensures StoredByte(g, v', q, i) == StoredByte(g, v, q, i) {
      if Inside(g, q, i) {
        OffOtherChain(g, s', q, i);
        ByteOfSector2(g, v, v', q, i);
        StoredInside(g, v', q, i);
        StoredInside(g, v, q, i);
      } else {
        NotStored(g, v, q, i);
        NotStored(g, v', q, i);
      }
    }
    StoredEq(g, v', q, v, q, p, n);
  }

  lemma NotStored(g: Geometry, v: Image, s: seq<nat>, i: nat)
    requires !Inside(g, s, i)
    ensures StoredByte(g, v, s, i) == 0
  {
  }

  /** Sectors of one chain are not on a disjoint one. */
  lemma OffOtherChain(g: Geometry, s: seq<nat>, q: seq<nat>, i: nat)
    requires Disjoint(s, q) && Usable(g, q) && Inside(g, q, i)
    ensures !OnChain(g, s, FileSect(g, q, i / 512))
  {
    FileSectOnChain(g, q, i / 512);
  }

  // ---------------------------------------------------------------- what work on one chain leaves alone

  /** From `v` to `v'` nothing changed but the sectors of the chain, which may have grown from `s` to `s'`. */
  ghost predicate Kept(g: Geometry, v: Image, s: seq<nat>, v': Image, s': seq<nat>)
  {
    && g.Ok(|v|) && |v'| == |v|
    && Extends(Fat0(g, v), s, Fat0(g, v'), s') && (Mirrored(g, v) ==> Mirrored(g, v'))
    && SameOff(g, v, v', s')
  }

  lemma KeptRefl(g: Geometry, v: Image, s: seq<nat>)
    requires g.Ok(|v|) && IsChain(Fat0(g, v), s)
    ensures Kept(g, v, s, v, s)
  {
  }

  lemma KeptTrans(g: Geometry, v: Image, s: seq<nat>, v': Image, s': seq<nat>, v'': Image, s'': seq<nat>)
    requires g.Ok(|v|) && IsChain(Fat0(g, v), s) && Kept(g, v, s, v', s') && Kept(g, v', s', v'', s'')
    ensures Kept(g, v, s, v'', s'')
  {
    hide Geometry.Ok, Fat0, Fat1, IsChain, OnChain;
    ExtendsTrans(Fat0(g, v), s, Fat0(g, v'), s', Fat0(g, v''), s'');
    assert s' <= s'';
    forall k | 0 <= k < |v| && !OnChain(g, s'', k) ensures !OnChain(g, s', k) {
      OnChainPrefix(g, s', s'', k);
    }
  }

  /** Growing a chain is work on that chain. */
  lemma MovedIsKept(g: Geometry, v: Image, s: seq<nat>, v': Image, s': seq<nat>)
    requires Moved(g, v, s, v', s')
    ensures Kept(g, v, s, v', s')
  {
    hide Geometry.Ok, Fat0, Fat1, OnChain;
  }

  /** Sector `k'` is `k`, or a sector of the chain, or no data sector. */
  ghost predicate Parked(g: Geometry, s: seq<nat>, k: nat, k': nat) { k' == k || !g.InData(k') || OnChain(g, s, k') }

  /** Work on chain `s`: nothing changed off it but tables and FSInfo, and the volume's buffer, which was at sector `k`
      and now is at `k'`, went nowhere else. */
  ghost predicate Local(g: Geometry, v: Image, k: nat, s: seq<nat>, v': Image, k': nat, s': seq<nat>)
  {
    Kept(g, v, s, v', s') && Parked(g, s', k, k')
  }

  lemma LocalRefl(g: Geometry, v: Image, k: nat, s: seq<nat>)
    requires g.Ok(|v|) && IsChain(Fat0(g, v), s)
    ensures Local(g, v, k, s, v, k, s)
  {
    hide Geometry.Ok, Fat0, IsChain, Kept;
    KeptRefl(g, v, s);
  }

  lemma LocalTrans(g: Geometry, v: Image, k: nat, s: seq<nat>, v1: Image, k1: nat, s1: seq<nat>, v2: Image, k2: nat, s2: seq<nat>)
    requires g.Ok(|v|) && IsChain(Fat0(g, v), s) && Local(g, v, k, s, v1, k1, s1) && Local(g, v1, k1, s1, v2, k2, s2)
    ensures Local(g, v, k, s, v2, k2, s2)
  {
    KeptLonger(g, v1, s1, v2, s2);
    hide Geometry.Ok, Fat0, IsChain, Kept, OnChain;
    KeptTrans(g, v, s, v1, s1, v2, s2);
    OnChainPrefix(g, s1, s2, k1);
  }

  lemma KeptLonger(g: Geometry, v: Image, s: seq<nat>, v': Image, s': seq<nat>)
    requires Kept(g, v, s, v', s')
    ensures s <= s' && g.Ok(|v|) && |v'| == |v| && IsChain(Fat0(g, v'), s')
  {
  }

  /** Growing a chain, with the volume's buffer ending up outside the data. */
  lemma LocalMoved(g: Geometry, v: Image, k: nat, s: seq<nat>, v': Image, k': nat, s': seq<nat>)
    requires Moved(g, v, s, v', s') && Parked(g, s', k, k')
    ensures Local(g, v, k, s, v', k', s')
  {
    hide Geometry.Ok, Fat0, Fat1, OnChain, Parked, Kept;
    MovedIsKept(g, v, s, v', s');
  }

  /** Two images that are the same with a sector of the chain laid over each are the same off the chain. */
  lemma OverKept(g: Geometry, s: seq<nat>, v: Image, k: nat, b: Sector, v': Image, k': nat, b': Sector)
    requires g.Ok(|v|) && |v'| == |v| && IsChain(Fat0(g, v), s)
    requires Over(v, k, b) == Over(v', k', b') && (k < |v| ==> OnChain(g, s, k)) && (k' < |v| ==> OnChain(g, s, k'))
    ensures Kept(g, v, s, v', s)
  {
    OverTables(g, v, k, b);
    OverTables(g, v', k', b');
    hide Geometry.Ok, Fat0, Fat1, IsChain, OnChain;
    ExtendsRefl(Fat0(g, v), s);
    forall i | 0 <= i < |v| && i != k && i != k' ensures v'[i] == v[i] {
      assert Over(v, k, b)[i] == Over(v', k', b')[i];
    }
  }

  /** Chain `q` is a chain still, and its sectors hold what they held. */
  ghost predicate Undisturbed(g: Geometry, q: seq<nat>, v: Image, v': Image)
  {
    && g.Ok(|v|) && |v'| == |v| && IsChain(Fat0(g, v'), q)
    && forall i :: 0 <= i < |v| && OnChain(g, q, i) ==> v'[i] == v[i]
  }

  /** Work on one chain does not disturb a chain apart from it, nor bring the volume's buffer there. */
  lemma LocalUndisturbed(g: Geometry, v: Image, k: nat, s: seq<nat>, v': Image, k': nat, s': seq<nat>, q: seq<nat>)
    requires Local(g, v, k, s, v', k', s') && IsChain(Fat0(g, v), s)
    requires IsChain(Fat0(g, v), q) && Disjoint(s, q)
    ensures Undisturbed(g, q, v, v') && Disjoint(s', q) && (!OnChain(g, q, k) ==> !OnChain(g, q, k'))
  {
    hide Geometry.Ok, Fat0, Fat1, IsChain, Extends;
    ExtensionKeepsOthers(Fat0(g, v), s, Fat0(g, v'), s', q);
    forall i | 0 <= i < |v| && OnChain(g, q, i) ensures v'[i] == v[i] {
      DataElsewhere(g, |v|, i);
      OnOne(g, s', q, i);
    }
    if OnChain(g, q, k') && k' != k { OnOne(g, s', q, k'); }
  }

  lemma OnOne(g: Geometry, s: seq<nat>, q: seq<nat>, i: nat)
    requires Disjoint(s, q) && OnChain(g, q, i)
    ensures !OnChain(g, s, i)
  {
  }

  /** Then its bytes are what they were. */
  lemma UndisturbedBytes(g: Geometry, q: seq<nat>, v: Image, v': Image, p: nat, n: nat)
    requires g.Ok(|v|) && |v'| == |v| && Usable(g, q)
    requires forall i :: 0 <= i < |v| && OnChain(g, q, i) ==> v'[i] == v[i]
    ensures Stored(g, v', q, p, n) == Stored(g, v, q, p, n)
  {
    hide Geometry.Ok, FileByte, ClustIndex, OnChain, StoredByte, FileSect;
    forall i: nat | p <= i < p + n ensures StoredByte(g, v', q, i) == StoredByte(g, v, q, i) {
      if Inside(g, q, i) {
        FileSectOnChain(g, q, i / 512);
        OnData(g, q, FileSect(g, q, i / 512));
        DataElsewhere(g, |v|, FileSect(g, q, i / 512));
        ByteOfSector(g, v, q, i);
        ByteOfSector(g, v', q, i);
        StoredInside(g, v', q, i);
        StoredInside(g, v, q, i);
      } else {
        NotStored(g, v, q, i);
        NotStored(g, v', q, i);
      }
    }
    StoredEq(g, v', q, v, q, p, n);
  }
}
