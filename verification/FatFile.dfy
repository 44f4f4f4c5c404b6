/** Open files: a seek position, a private sector buffer and the byte sequence they stand for. */
module FatFile {
  import opened Bytes
  import opened Powers
  import opened Volume
  import opened Chains
  import opened Disks
  import opened FatVolume
  import opened Growth
  import opened FileLayout
  import opened FileBytes

  const NO_SECT := 0xffff_ffff

  datatype Whence = Start | Curr | End

  class File {
    const fat: Fat?
    const buf: array<byte>
    const sclust: nat
    const dirSect: nat
    const dirIdx: nat
    const canRead: bool
    const canWrite: bool
    var clust: nat
    var sect: nat
    var size: nat
    var offset: nat
    var accessed: bool
    var modified: bool
    var dirty: bool

    /** The clusters of the file, in order. */
    ghost var chain: seq<nat>

    ghost function Repr(): set<object>
    {
      {this, buf} + if fat == null then {} else {fat, fat.buf, fat.disk}
    }

    /** The file hangs on a sound volume by a sound chain, and the volume's own buffer is not on it:
        file sectors go through the file's buffer only. */
    ghost predicate Attached()
      reads Repr()
    {
      && fat != null && buf.Length == 512 && buf != fat.buf && fat.Valid()
      && IsChain(Fat0(fat.geo, fat.View()), chain) && Usable(fat.geo, chain) && chain[0] == sclust
      && !OnChain(fat.geo, chain, fat.sect)
    }

    /** Attached, and positioned: the cluster and the sector are the ones that hold byte `offset`.
        A file that was just opened has no sector loaded. */
    ghost predicate Valid()
      reads Repr()
    {
      && Attached() && size < TWO_32 && offset < TWO_32
      && Inside(fat.geo, chain, offset) && clust == chain[ClustIndex(fat.geo, offset / 512)]
      && (sect == NO_SECT ==> !dirty && offset == 0)
      && (sect != NO_SECT ==>
            && sect == FileSect(fat.geo, chain, offset / 512) && sect < |fat.disk.image|
            && (!dirty ==> buf[..] == fat.disk.image[sect]))
    }

    /** The volume with the file's buffer laid over it. */
    ghost function Logical(): (img: Image)
      requires Attached()
      reads Repr()
      ensures |img| == |fat.disk.image|
    {
      if sect < |fat.disk.image| then fat.View()[sect := buf[..]] else fat.View()
    }

    ghost function Entries(): (t: Table)
      requires Attached()
      reads Repr()
    {
      Fat0(fat.geo, fat.View())
    }

    /** The file stands on its last cluster and no further one can be found: the table is full or broken. */
    ghost predicate Stuck()
      reads Repr()
    {
      Attached() && clust == chain[|chain| - 1] && !Choose(Entries(), fat.lastUsed, clust).Found?
    }

    /** The last cluster of the file. */
    ghost function Tail(): (c: nat)
      requires Attached()
      reads Repr()
      ensures c < |Entries()|
    {
      chain[|chain| - 1]
    }

    /** The chain can be made long enough to hold byte `to`: by the number of clusters it lacks, whatever the table. */
    ghost predicate Reaches(to: nat)
      requires Attached()
      reads Repr()
    {
      Room(fat, chain, ClustIndex(fat.geo, to / 512) + 1)
    }

    lemma ReachesMeans(to: nat)
      requires Attached()
      ensures InTable(Entries(), fat.lastUsed)
      ensures Reaches(to) <==> CanGrow(Entries(), fat.lastUsed, Tail(), Need(|chain|, ClustIndex(fat.geo, to / 512) + 1))
    {
    }

    lemma NowAttached()
      requires Valid()
      ensures Attached()
    {
    }

    /** Nothing was taken yet. */
    lemma NoneTaken()
      requires Attached()
      ensures Taken(fat, chain, Entries(), fat.lastUsed, Tail(), 0)
    {
      hide Geometry.Ok, Fat0, Fat.View, Taken;
      TakenNone(fat, chain);
    }

    lemma TakenHere(t: Table, last: nat, prev: nat, m: int)
      requires Attached() && Taken(fat, chain, t, last, prev, m)
      ensures m >= 0 && InTable(t, last) && prev < |t| && InTable(Entries(), fat.lastUsed)
      ensures Grew(t, last, prev, m, Entries(), fat.lastUsed, Tail())
    {
      hide Geometry.Ok, Fat0, Fat.View, Taken, Grew;
      TakenMeans(fat, chain, t, last, prev, m);
    }

    /** Since the view was `v`, with the volume's buffer at `k`, the chain `c` and the table `t`: work was done on this
        file's chain only, and clusters were taken as far as it is longer. */
    ghost predicate Since(v: Image, k: nat, c: seq<nat>, t: Table, last: nat, prev: nat)
      reads Repr()
    {
      && Attached() && Local(fat.geo, v, k, c, fat.View(), fat.sect, chain)
      && Taken(fat, chain, t, last, prev, |chain| - |c|)
    }

    lemma SinceNow()
      requires Attached()
      ensures Since(fat.View(), fat.sect, chain, Entries(), fat.lastUsed, Tail())
      ensures ChainIn(fat.geo, fat.View(), chain)
    {
      hide Geometry.Ok, Fat0, Fat.View, Taken, Local, IsChain;
      NoneTaken();
      LocalRefl(fat.geo, fat.View(), fat.sect, chain);
    }

    lemma SinceParts(v: Image, k: nat, c: seq<nat>, t: Table, last: nat, prev: nat)
      requires Since(v, k, c, t, last, prev)
      ensures Attached() && Local(fat.geo, v, k, c, fat.View(), fat.sect, chain)
      ensures Taken(fat, chain, t, last, prev, |chain| - |c|)
      ensures |chain| >= |c| && InTable(t, last) && prev < |t| && InTable(Entries(), fat.lastUsed)
      ensures Grew(t, last, prev, |chain| - |c|, Entries(), fat.lastUsed, Tail())
    {
      hide Geometry.Ok, Fat0, Fat.View, Taken, Local, IsChain, Grew;
      TakenHere(t, last, prev, |chain| - |c|);
    }

    lemma SinceOn(v: Image, k: nat, c: seq<nat>, t: Table, last: nat, prev: nat,
                  v1: Image, k1: nat, c1: seq<nat>, t1: Table, last1: nat, prev1: nat)
      requires Attached() && ChainIn(fat.geo, v, c) && Local(fat.geo, v, k, c, v1, k1, c1)
      requires InTable(t, last) && prev < |t| && |c1| >= |c| && Grew(t, last, prev, |c1| - |c|, t1, last1, prev1)
      requires Local(fat.geo, v1, k1, c1, fat.View(), fat.sect, chain) && Taken(fat, chain, t1, last1, prev1, |chain| - |c1|)
      ensures Since(v, k, c, t, last, prev)
    {
      hide Geometry.Ok, Fat0, Fat.View, Taken, Local, IsChain, Grew;
      LocalTrans(fat.geo, v, k, c, v1, k1, c1, fat.View(), fat.sect, chain);
      TakenOn(fat, chain, t, last, prev, |c1| - |c|, t1, last1, prev1, |chain| - |c1|);
    }

    /** A file that has come to its position shows that the chain could be made long enough for it. */
    lemma CameTo(t: Table, last: nat, prev: nat, have: nat)
      requires Valid() && Taken(fat, chain, t, last, prev, |chain| - have)
      ensures InTable(t, last) && prev < |t| && offset < TWO_32
      ensures CanGrow(t, last, prev, Need(have, ClustIndex(fat.geo, offset / 512) + 1))
    {
      hide Geometry.Ok, Fat0, Fat.View, CanGrow, Taken, ClustIndex, FileSect;
      GotThere(fat, chain, t, last, prev, have, ClustIndex(fat.geo, offset / 512) + 1);
    }

    /** A file stuck before byte `p` shows that it could not be made long enough for any byte from there on. */
    lemma StuckBefore(t: Table, last: nat, prev: nat, have: nat, p: nat, to: nat)
      requires Stuck() && Taken(fat, chain, t, last, prev, |chain| - have) && !Inside(fat.geo, chain, p) && p <= to
      ensures InTable(t, last) && prev < |t| && !CanGrow(t, last, prev, Need(have, ClustIndex(fat.geo, to / 512) + 1))
    {
      hide Geometry.Ok, Fat0, Fat.View, CanGrow, Taken, Choose;
      QuotMonotone(p / 512, to / 512, fat.geo.Spc());
      FellShort(fat, chain, t, last, prev, have, ClustIndex(fat.geo, to / 512) + 1);
    }

    /** The end of `fat_file_open`, before its seek: the directory entry at (`dir`, `idx`) names a chain. */
    constructor (f: Fat, dir: nat, idx: nat, first: nat, length: nat, read: bool, write: bool, trunc: bool, ghost s: seq<nat>)
      requires f.Valid() && length < TWO_32
      requires IsChain(Fat0(f.geo, f.View()), s) && Usable(f.geo, s) && s[0] == first && !OnChain(f.geo, s, f.sect)
      ensures Valid() && fat == f && chain == s && fresh(buf) && offset == 0 && sect == 0xffff_ffff && Logical() == f.View()
      ensures size == (if trunc then 0 else length) && modified == (trunc && length != 0) && !accessed
      ensures canRead == read && canWrite == write && dirSect == dir && dirIdx == idx && sclust == first
    {
      hide Geometry.Ok, Fat0, IsChain, Fat.View, Quot, SectToClust, FileSect, ClustIndex;
      fat, dirSect, dirIdx, sclust, clust := f, dir, idx, first, first;
      sect, offset, size := NO_SECT, 0, length;
      canRead, canWrite := read, write;
      accessed, modified, dirty := false, false, false;
      chain := s;
      buf := new byte[512](i => 0);
      new;
      if size != 0 && trunc {
        size := 0;
        modified := true;
      }
      SizeBelow(f.geo, |f.disk.image|);
      FirstCluster(f.geo);
      TailInChain(Fat0(f.geo, f.View()), s);
    }

    /** Adds a cluster behind the last one. */
    method AppendCluster() returns (err: int, next: nat)
      requires Attached() && clust == chain[|chain| - 1]
      modifies `chain, fat, fat.buf, fat.disk
      ensures err != ERR_EOF
      ensures |fat.disk.image| == old(|fat.disk.image|)
      ensures fat.disk.faults >= old(fat.disk.faults) && (err == ERR_IO ==> fat.disk.faults > old(fat.disk.faults))
      ensures err == ERR_NONE || fat.disk.faults == old(fat.disk.faults) ==>
        Attached() && Local(fat.geo, old(fat.View()), old(fat.sect), old(chain), fat.View(), fat.sect, chain)
        && Taken(fat, chain, old(Entries()), old(fat.lastUsed), old(Tail()), |chain| - old(|chain|))
      ensures err != ERR_NONE && fat.disk.faults == old(fat.disk.faults) ==>
        Stuck() && chain == old(chain) && fat.View() == old(fat.View())
      ensures err == ERR_NONE ==>
        && Attached() && chain == old(chain) + [next]
        && Moved(fat.geo, old(fat.View()), old(chain), fat.View(), chain)
    {
      hide Geometry.Ok, Fat0, Fat1, PutInfo, GrowthImage, GrowthImages, SameElsewhere, Stretched, Choose, InfoHolds, Logged,
        Extends, Add32, SectToClust, IsChain, Fat.View, Local, Moved, OnChain, Geometry.InFat, Grew;
      ghost var t, last, v, k := Entries(), fat.lastUsed, fat.View(), fat.sect;
      LocalRefl(fat.geo, v, k, chain);
      GrewNone(t, last, Tail());
      TailInChain(t, chain);
      ghost var ok;
      var junk: nat := *;
      err, next, ok := fat.StretchChain(clust, junk);
      if err != ERR_NONE {
        if fat.disk.faults == old(fat.disk.faults) { StayedOff(fat.geo, v, chain, k, fat.sect); }
        return;
      }
      ChooseFree(t, last, clust);
      GrewOne(t, last, clust, next);
      StretchIsExtension(t, chain, next);
      StretchExtends(t, chain, next);
      InfoNotData(fat.geo, |fat.disk.image|);
      MovedByStretch(fat.geo, v, chain, fat.View(), chain + [next]);
      chain := chain + [next];
      NotData(fat.geo, chain, fat.sect);
      LocalMoved(fat.geo, v, k, chain[..|chain| - 1], fat.View(), fat.sect, chain);
      assert chain[..|chain| - 1] == old(chain);
    }

    /** One round of the loop in `fat_file_seek`: to the next cluster, adding one at the end of the chain. */
    method StepCluster(ghost i: nat) returns (err: int)
      requires Attached() && i < |chain| && clust == chain[i]
      modifies `clust, `chain, fat, fat.buf, fat.disk
      ensures err != ERR_EOF
      ensures |fat.disk.image| == old(|fat.disk.image|)
      ensures fat.disk.faults >= old(fat.disk.faults) && (err == ERR_IO ==> fat.disk.faults > old(fat.disk.faults))
      ensures err == ERR_NONE || fat.disk.faults == old(fat.disk.faults) ==>
        Attached() && Local(fat.geo, old(fat.View()), old(fat.sect), old(chain), fat.View(), fat.sect, chain)
        && Taken(fat, chain, old(Entries()), old(fat.lastUsed), old(Tail()), |chain| - old(|chain|))
      ensures err != ERR_NONE && fat.disk.faults == old(fat.disk.faults) ==>
        Stuck() && chain == old(chain) && |chain| == i + 1 && clust == old(clust) && fat.View() == old(fat.View())
      ensures err == ERR_NONE ==>
        && Attached() && i + 1 < |chain| && clust == chain[i + 1]
        && Moved(fat.geo, old(fat.View()), old(chain), fat.View(), chain) && (chain == old(chain) || |chain| == i + 2)
    {
      hide Geometry.Ok, Fat0, Fat1, Logged, Moved, SectToClust, Fat.View, Local, OnChain, Geometry.InFat, Choose, Grew;
      MovedRefl(fat.geo, fat.View(), chain);
      ghost var v, k := fat.View(), fat.sect;
      GrewNone(Entries(), fat.lastUsed, Tail());
      var next, flags;
      err, next, flags := fat.GetFat(clust);
      if err != ERR_NONE {
        return;
      }
      if flags == CLUST_BAD || flags == CLUST_FREE {
        return ERR_BROKEN;
      }
      TableNotData(fat.geo, |fat.disk.image|, clust);
      NotData(fat.geo, chain, fat.sect);
      LocalMoved(fat.geo, v, k, chain, fat.View(), fat.sect, chain);
      ghost var v1, k1 := fat.View(), fat.sect;
      if flags == CLUST_LAST {
        err, next := AppendCluster();
        if err == ERR_NONE || fat.disk.faults == old(fat.disk.faults) {
          LocalTrans(fat.geo, v, k, old(chain), v1, k1, old(chain), fat.View(), fat.sect, chain);
        }
        if err != ERR_NONE {
          return;
        }
      }
      clust := next;
    }

    /** The loop in `fat_file_seek`. */
    method Follow(steps: nat, ghost i: nat) returns (err: int)
      requires Attached() && i < |chain| && clust == chain[i]
      modifies `clust, `chain, fat, fat.buf, fat.disk
      ensures err != ERR_EOF
      ensures |fat.disk.image| == old(|fat.disk.image|)
      ensures fat.disk.faults >= old(fat.disk.faults) && (err == ERR_IO ==> fat.disk.faults > old(fat.disk.faults))
      ensures err == ERR_NONE || fat.disk.faults == old(fat.disk.faults) ==>
        Attached() && Local(fat.geo, old(fat.View()), old(fat.sect), old(chain), fat.View(), fat.sect, chain)
        && Taken(fat, chain, old(Entries()), old(fat.lastUsed), old(Tail()), |chain| - old(|chain|))
      ensures err != ERR_NONE && fat.disk.faults == old(fat.disk.faults) ==>
        && Stuck() && |chain| <= i + steps
        && !CanGrow(old(Entries()), old(fat.lastUsed), old(Tail()), Need(old(|chain|), i + steps + 1))
        && (steps <= 1 ==> chain == old(chain) && clust == old(clust) && fat.View() == old(fat.View()))
      ensures err == ERR_NONE ==> CanGrow(old(Entries()), old(fat.lastUsed), old(Tail()), Need(old(|chain|), i + steps + 1))
      ensures err == ERR_NONE ==>
        && Attached() && i + steps < |chain| && clust == chain[i + steps]
        && Moved(fat.geo, old(fat.View()), old(chain), fat.View(), chain)
        && (chain == old(chain) || |chain| == i + steps + 1)
    {
      hide Geometry.Ok, Fat0, Moved, SectToClust, Fat.View, IsChain, Local, OnChain, Choose, Taken, Grew, CanGrow;
      MovedRefl(fat.geo, fat.View(), chain);
      ghost var v, c, q := fat.View(), chain, fat.sect;
      LocalRefl(fat.geo, v, q, c);
      ghost var t, last, tail := Entries(), fat.lastUsed, Tail();
      TakenNone(fat, chain);
      var k := 0;
      while k < steps
        invariant 0 <= k <= steps && |fat.disk.image| == |v|
        invariant Attached() && i + k < |chain| && clust == chain[i + k]
        invariant Moved(fat.geo, v, c, fat.View(), chain)
        invariant chain == c || |chain| == i + k + 1
        invariant k == 0 ==> chain == c && clust == old(clust) && fat.View() == v
        invariant Local(fat.geo, v, q, c, fat.View(), fat.sect, chain) && fat.disk.faults >= old(fat.disk.faults)
        invariant Taken(fat, chain, t, last, tail, |chain| - |c|)
      {
        ghost var v1, c1, q1, f1 := fat.View(), chain, fat.sect, fat.disk.faults;
        ghost var t1, last1, tail1 := Entries(), fat.lastUsed, Tail();
        TakenMeans(fat, chain, t, last, tail, |chain| - |c|);
        err := StepCluster(i + k);
        if err == ERR_NONE || fat.disk.faults == f1 {
          LocalTrans(fat.geo, v, q, c, v1, q1, c1, fat.View(), fat.sect, chain);
          TakenOn(fat, chain, t, last, tail, |c1| - |c|, t1, last1, tail1, |chain| - |c1|);
        }
        if err != ERR_NONE && fat.disk.faults == old(fat.disk.faults) {
          FellShort(fat, chain, t, last, tail, |c|, i + steps + 1);
        }
        if err != ERR_NONE {
          return;
        }
        MovedTrans(fat.geo, v, c, v1, c1, fat.View(), chain);
        k := k + 1;
      }
      GotThere(fat, chain, t, last, tail, |c|, i + steps + 1);
      return ERR_NONE;
    }

    /** The end of `fat_file_seek`: when the position has left sector `from`, a dirty buffer is written
        there before the buffer is loaded again. Nothing changes logically. */
    method SwitchBuf(from: nat) returns (err: int)
      requires Attached() && OnChain(fat.geo, chain, sect) && sect < |fat.disk.image|
      requires from == NO_SECT ==> !dirty
      requires from != NO_SECT ==>
        OnChain(fat.geo, chain, from) && from < |fat.disk.image| && (!dirty ==> buf[..] == fat.disk.image[from])
      modifies `dirty, buf, fat.disk
      ensures err != ERR_EOF
      ensures |fat.disk.image| == old(|fat.disk.image|)
      ensures fat.disk.faults >= old(fat.disk.faults) && (err == ERR_IO ==> fat.disk.faults > old(fat.disk.faults))
      ensures err == ERR_NONE || err == ERR_IO
      ensures err == ERR_NONE ==> Kept(fat.geo, old(fat.View()), chain, fat.View(), chain)
      ensures err == ERR_NONE ==>
        && Attached() && Entries() == old(Entries())
        && (!dirty ==> buf[..] == fat.disk.image[sect]) && (dirty ==> sect == from)
        && Over(fat.View(), sect, buf[..]) == Over(old(fat.View()), from, old(buf[..]))
    {
      hide Geometry.Ok, Fat0, Fat1, SectToClust, IsChain, Kept;
      ghost var v, b := fat.View(), buf[..];
      SizeBelow(fat.geo, |v|);
      if sect != from {
        if dirty {
          var ok := fat.disk.Write(buf, from);
          if !ok {
            return ERR_IO;
          }
          assert fat.View() == Over(v, from, b);
          OverTables(fat.geo, v, from, b);
          dirty := false;
        }
        ghost var w := fat.View();
        assert w == Over(v, from, b);
        var ok := fat.disk.Read(buf, sect);
        if !ok {
          return ERR_IO;
        }
        assert fat.View() == w;
        assert Over(w, sect, buf[..]) == w;
      }
      OverKept(fat.geo, chain, v, from, b, fat.View(), sect, buf[..]);
      return ERR_NONE;
    }

    /** The file stands where it stood, with the same logical volume. */
    ghost predicate Same(v: Image, c: seq<nat>, o: nat, q: nat)
      reads Repr()
    {
      Attached() && Logical() == v && chain == c && offset == o && sect == q
    }

    lemma SameMeans(v: Image, c: seq<nat>, o: nat, q: nat)
      requires Same(v, c, o, q)
      ensures Attached() && Logical() == v && chain == c && offset == o && sect == q
    {
    }

    /** Where a seek leads. */
    ghost function Target(off: int, whence: Whence): int
      reads this
    {
      off + match whence case Start => 0 case Curr => offset case End => size
    }

    /** The part of `fat_file_seek` that finds the cluster and sector of byte `to`. */
    method Walk(to: nat) returns (err: int)
      requires Valid() && to < TWO_32
      modifies `clust, `sect, `offset, `chain, fat, fat.buf, fat.disk
      ensures err != ERR_EOF
      ensures |fat.disk.image| == old(|fat.disk.image|)
      ensures fat.disk.faults >= old(fat.disk.faults) && (err == ERR_IO ==> fat.disk.faults > old(fat.disk.faults))
      ensures err == ERR_NONE || fat.disk.faults == old(fat.disk.faults) ==>
        Attached() && Local(fat.geo, old(fat.View()), old(fat.sect), old(chain), fat.View(), fat.sect, chain)
        && Taken(fat, chain, old(Entries()), old(fat.lastUsed), old(Tail()), |chain| - old(|chain|))
      ensures err != ERR_NONE && fat.disk.faults == old(fat.disk.faults) ==>
        && Stuck() && !Inside(fat.geo, chain, to)
        && (Near(fat.geo, old(offset), to) ==>
              && chain == old(chain) && clust == old(clust) && sect == old(sect) && offset == old(offset)
              && fat.View() == old(fat.View()))
      ensures fat.disk.faults == old(fat.disk.faults) ==> (err == ERR_NONE <==> old(Reaches(to)))
      ensures err == ERR_NONE ==>
        && Attached() && offset == to && Inside(fat.geo, chain, to) && clust == chain[ClustIndex(fat.geo, to / 512)]
        && sect == FileSect(fat.geo, chain, to / 512) && OnChain(fat.geo, chain, sect)
        && sect < |fat.disk.image| && sect != NO_SECT
        && Moved(fat.geo, old(fat.View()), old(chain), fat.View(), chain)
        && (chain == old(chain) || |chain| == ClustIndex(fat.geo, to / 512) + 1)
    {
      hide Geometry.Ok, Fat0, Moved, Fat.View, IsChain, ClustIndex, SectIndex, FileSect, OnChain, Quot, Rem, Pow2, ClustToSect,
        Local, Choose, Taken, CanGrow, Need, File.Stuck, Fat.Valid;
      var dst, src := Quot(to, ClustSize(fat.geo)), Quot(offset, ClustSize(fat.geo));
      DivClust(fat.geo, to);
      DivClust(fat.geo, offset);
      if dst < src {
        clust := sclust;
        sect := ClustToSect(fat.geo, sclust);
        offset := 0;
        src := 0;
      }
      err := Follow(dst - src, src);
      if err != ERR_NONE {
        return;
      }
      sect := ClustToSect(fat.geo, clust) + Rem(to / 512, fat.geo.Spc());
      offset := to;
      LandedOn(to);
    }

    /** The body of `fat_file_seek` once the target is known to be in range. */
    method MoveTo(to: nat) returns (err: int)
      requires Valid() && to < TWO_32
      modifies `clust, `sect, `offset, `dirty, `chain, buf, fat, fat.buf, fat.disk
      ensures err != ERR_EOF
      ensures |fat.disk.image| == old(|fat.disk.image|)
      ensures fat.disk.faults >= old(fat.disk.faults) && (err == ERR_IO ==> fat.disk.faults > old(fat.disk.faults))
      ensures err == ERR_NONE || fat.disk.faults == old(fat.disk.faults) ==>
        Attached() && Local(fat.geo, old(fat.View()), old(fat.sect), old(chain), fat.View(), fat.sect, chain)
        && Taken(fat, chain, old(Entries()), old(fat.lastUsed), old(Tail()), |chain| - old(|chain|))
      ensures err != ERR_NONE && fat.disk.faults == old(fat.disk.faults) ==>
        && Stuck() && !Inside(fat.geo, chain, to)
        && (Near(fat.geo, old(offset), to) ==> Valid() && Same(old(Logical()), old(chain), old(offset), old(sect)))
      ensures fat.disk.faults == old(fat.disk.faults) ==> (err == ERR_NONE <==> old(Reaches(to)))
      ensures err == ERR_NONE ==>
        && Valid() && sect != NO_SECT && offset == to
        && Moved(fat.geo, old(Logical()), old(chain), Logical(), chain)
        && (chain == old(chain) || |chain| == ClustIndex(fat.geo, offset / 512) + 1)
    {
      hide Geometry.Ok, Fat0, Moved, Fat.View, IsChain, ClustIndex, FileSect, OnChain, Local, Choose, Kept, Grew, CanGrow, Usable,
        File.Stuck;
      var ssect := sect;
      ghost var v, c, b, k := fat.View(), chain, buf[..], fat.sect;
      SizeBelow(fat.geo, |v|);
      if sect != NO_SECT {
        FileSectOnChain(fat.geo, chain, offset / 512);
        OnDisk(sect);
      }
      err := Walk(to);
      if err != ERR_NONE {
        if fat.disk.faults == old(fat.disk.faults) && Near(fat.geo, old(offset), to) && sect != NO_SECT { OnDisk(sect); }
        return;
      }
      ghost var v1, k1 := fat.View(), fat.sect;
      OnLonger(fat.geo, v, c, v1, chain, ssect);
      if ssect != NO_SECT { OnDisk(ssect); }
      err := SwitchBuf(ssect);
      if err != ERR_NONE {
        return;
      }
      LocalKept(fat.geo, v1, k1, chain, fat.View());
      LocalTrans(fat.geo, v, k, c, v1, k1, chain, fat.View(), k1, chain);
      MovedOver(fat.geo, v, c, v1, chain, ssect, b);
    }

    /** `fat_file_seek`: afterwards the position is the one asked for, the chain has grown no further than
        needed, and the file and everything else on the volume hold the bytes they held. */
    method Seek(off: int, whence: Whence) returns (err: int)
      requires fat == null || Valid()
      modifies Repr()
      ensures size == old(size) && accessed == old(accessed) && modified == old(modified)
      ensures fat == null ==> err == ERR_PARAM
      ensures fat != null ==> |fat.disk.image| == old(|fat.disk.image|)
      ensures fat != null ==> (err == ERR_EOF <==> !(0 <= old(Target(off, whence)) < TWO_32))
      ensures fat != null && whence == Start ==> (err == ERR_EOF <==> !(0 <= off < TWO_32)) && (err == ERR_NONE ==> offset == off)
      ensures fat != null && whence == Curr ==>
        (err == ERR_EOF <==> !(0 <= old(offset) + off < TWO_32)) && (err == ERR_NONE ==> offset == old(offset) + off)
      ensures fat != null && whence == End ==>
        (err == ERR_EOF <==> !(0 <= old(size) + off < TWO_32)) && (err == ERR_NONE ==> offset == old(size) + off)
      ensures fat != null ==>
        && fat.disk.faults >= old(fat.disk.faults) && (err == ERR_IO ==> fat.disk.faults > old(fat.disk.faults))
        && (err == ERR_NONE || fat.disk.faults == old(fat.disk.faults) ==>
              Attached() && Local(fat.geo, old(fat.View()), old(fat.sect), old(chain), fat.View(), fat.sect, chain)
              && Taken(fat, chain, old(Entries()), old(fat.lastUsed), old(Tail()), |chain| - old(|chain|)))
        && (err != ERR_NONE && err != ERR_EOF && fat.disk.faults == old(fat.disk.faults) ==>
              && Stuck() && !Inside(fat.geo, chain, old(Target(off, whence)))
              && (Near(fat.geo, old(offset), old(Target(off, whence))) ==>
                    Valid() && Same(old(Logical()), old(chain), old(offset), old(sect))))
      ensures fat != null && fat.disk.faults == old(fat.disk.faults) && 0 <= old(Target(off, whence)) < TWO_32 ==>
        (err == ERR_NONE <==> old(Reaches(Target(off, whence))))
      ensures err == ERR_EOF ==>
        Valid() && Logical() == old(Logical()) && chain == old(chain) && offset == old(offset) && sect == old(sect)
      ensures err == ERR_NONE ==>
        && fat != null && Valid() && sect != NO_SECT && offset == old(Target(off, whence))
        && Moved(fat.geo, old(Logical()), old(chain), Logical(), chain)
        && (chain == old(chain) || |chain| == ClustIndex(fat.geo, offset / 512) + 1)
    {
      hide Geometry.Ok, Fat0, Moved, Fat.View, IsChain, ClustIndex, FileSect, OnChain, Local, Choose, Inside, Grew, CanGrow, Taken, File.Reaches;
      if fat == null {
        return ERR_PARAM;
      }
      LocalRefl(fat.geo, fat.View(), fat.sect, chain);
      TakenNone(fat, chain);
      var off64 := match whence case Start => 0 case Curr => offset case End => size;
      off64 := off64 + off;
      if off64 < 0 || off64 > 0xffff_ffff {
        return ERR_EOF;
      }
      err := MoveTo(off64);
    }

    /** Sectors of the file are never in the volume's buffer. */
    lemma OnDisk(s: nat)
      requires Attached() && OnChain(fat.geo, chain, s)
      ensures s < |fat.disk.image| && fat.View()[s] == fat.disk.image[s]
    {
      DataElsewhere(fat.geo, |fat.disk.image|, s);
    }

    /** The arithmetic at the end of a seek finds the sector that holds byte `to`. */
    lemma LandedOn(to: nat)
      requires Attached() && Inside(fat.geo, chain, to) && clust == chain[ClustIndex(fat.geo, to / 512)]
      requires sect == ClustToSect(fat.geo, clust) + Rem(to / 512, fat.geo.Spc())
      ensures sect == FileSect(fat.geo, chain, to / 512)
      ensures OnChain(fat.geo, chain, sect) && sect < |fat.disk.image| && sect != NO_SECT
    {
      FileSectOnChain(fat.geo, chain, to / 512);
      DataElsewhere(fat.geo, |fat.disk.image|, sect);
    }

    // ---------------------------------------------------------------- reading and writing

    /** The file's buffer lies over a data sector, so the tables show through. */
    lemma LogicalTables()
      requires Valid()
      ensures Attached() && fat != null && fat.geo.Ok(|Logical()|) && Usable(fat.geo, chain) && size < TWO_32
      ensures Fat0(fat.geo, Logical()) == Entries() && IsChain(Fat0(fat.geo, Logical()), chain)
    {
      hide Fat0, Fat1, Geometry.Ok, IsChain, FileSect, ClustIndex;
      SizeBelow(fat.geo, |fat.disk.image|);
      if sect != NO_SECT { FileSectOnChain(fat.geo, chain, offset / 512); }
      OverTables(fat.geo, fat.View(), sect, buf[..]);
      assert Logical() == Over(fat.View(), sect, buf[..]);
    }

    /** The chain is a chain in the volume's own view. */
    lemma ViewChain()
      requires Valid()
      ensures fat != null && fat.buf.Length == 512 && fat.geo.Ok(|fat.View()|) && IsChain(Fat0(fat.geo, fat.View()), chain)
    {
    }

    /** The loaded sector is the one that holds byte `offset`. */
    lemma Here()
      requires Valid() && sect != NO_SECT
      ensures Attached() && ClustIndex(fat.geo, offset / 512) < |chain| && chain[ClustIndex(fat.geo, offset / 512)] >= 2
      ensures sect == FileSect(fat.geo, chain, offset / 512) && sect < |Logical()|
    {
    }

    /** The copy into the file's buffer in `fat_file_write`. */
    method PutChunk(chunk: seq<byte>)
      requires Valid() && sect != NO_SECT && offset % 512 + |chunk| <= 512
      modifies `dirty, buf
      ensures fat.View() == old(fat.View())
      ensures Valid() && Attached() && sect < |old(Logical())|
      ensures Logical() == Over(old(Logical()), sect, Patch(old(Logical())[sect], offset % 512, chunk))
    {
      hide Geometry.Ok, Fat0, Fat.View, IsChain, ClustIndex, FileSect, OnChain;
      ghost var b := buf[..];
      var idx := offset % 512;
      for j := 0 to |chunk|
        invariant forall i :: 0 <= i < 512 ==> buf[i] == if idx <= i < idx + j then chunk[i - idx] else b[i]
        invariant fat.Valid() && fat.View() == old(fat.View())
        invariant Valid() || dirty || j > 0
      {
        buf[idx + j] := chunk[j];
      }
      dirty := true;
      assert buf[..] == Patch(b, idx, chunk);
    }

    /** One round of the loop of `fat_file_write`, after `data` was written at `o`. */
    method WriteChunk(chunk: seq<byte>, ghost v: Image, ghost c: seq<nat>, ghost o: nat, ghost data: seq<byte>) returns (err: int)
      requires Valid() && Attached() && sect != NO_SECT && offset % 512 + |chunk| <= 512 && |chunk| > 0
      requires offset == o + |data| && ChainIn(fat.geo, v, c) && Wrote(fat.geo, v, c, Logical(), chain, o, data)
      modifies Repr()
      ensures size == old(size) && accessed == old(accessed) && modified == old(modified)
      ensures fat.disk.faults >= old(fat.disk.faults) && |fat.disk.image| == old(|fat.disk.image|)
      ensures err == ERR_NONE || fat.disk.faults == old(fat.disk.faults) ==>
        && Attached() && Local(fat.geo, old(fat.View()), old(fat.sect), old(chain), fat.View(), fat.sect, chain)
        && Taken(fat, chain, old(Entries()), old(fat.lastUsed), old(Tail()), |chain| - old(|chain|))
        && Valid() && sect != NO_SECT && Wrote(fat.geo, v, c, Logical(), chain, o, data + chunk)
        && offset == (if err == ERR_NONE then old(offset) + |chunk| else old(offset))
      ensures err != ERR_NONE && fat.disk.faults == old(fat.disk.faults) ==>
        old(offset) + |chunk| >= TWO_32 || (Stuck() && !Inside(fat.geo, chain, old(offset) + |chunk|))
    {
      hide Geometry.Ok, Fat0, Fat.View, Fat.Valid, IsChain, ClustIndex, FileSect, OnChain, Wrote, Moved, Patch, Over, Usable,
        Inside, File.Valid, File.Attached, File.Logical, Local, Choose, File.Stuck, Near, File.Same, Taken, Grew, ChainIn;
      LogicalTables();
      ViewChain();
      ghost var v1 := Logical();
      Here();
      ghost var t1, tail1 := Entries(), Tail();
      PutChunk(chunk);
      ghost var v2, s1 := Logical(), chain;
      WroteChunk(fat.geo, v, c, v1, s1, o, data, chunk, offset / 512, v2);
      NearBy(fat.geo, offset, |chunk|);
      ghost var o2, q2, f1 := offset, sect, fat.disk.faults;
      err := Seek(|chunk|, Curr);
      if err != ERR_NONE {
        if err != ERR_EOF && fat.disk.faults == f1 { SameMeans(v2, s1, o2, q2); }
        return;
      }
      LogicalTables();
      WroteOn(fat.geo, v, c, v2, s1, o, data + chunk, Logical(), chain);
    }

    /** The loop of `fat_file_write`; it stops at the first seek that fails. */
    method WriteLoop(src: seq<byte>) returns (bytes: nat, ok: bool)
      requires Valid() && sect != NO_SECT
      modifies Repr()
      ensures size == old(size) && accessed == old(accessed) && modified == old(modified)
      ensures fat.disk.faults >= old(fat.disk.faults)
      ensures ok || fat.disk.faults == old(fat.disk.faults) ==>
        && Attached() && Local(fat.geo, old(fat.View()), old(fat.sect), old(chain), fat.View(), fat.sect, chain)
        && Valid() && sect != NO_SECT && bytes <= |src|
        && old(Attached()) && Wrote(fat.geo, old(Logical()), old(chain), Logical(), chain, old(offset), src[..bytes])
      ensures ok ==> bytes == |src| && offset == old(offset) + |src|
      ensures !ok && fat.disk.faults == old(fat.disk.faults) ==> CutShort(old(offset), |src|, bytes, offset)
      ensures fat.disk.faults == old(fat.disk.faults) ==>
        (ok <==> old(offset) + |src| < TWO_32 && old(Attached()) && old(Reaches(offset + |src|)))
    {
      hide *;
      bytes := 0;
      LogicalTables();
      ghost var v, c, o := Logical(), chain, offset;
      WroteNothing(fat.geo, v, c, o);
      ViewChain();
      ghost var w, q, t, last, tail := fat.View(), fat.sect, Entries(), fat.lastUsed, Tail();
      SinceNow();
      ReachesMeans(o + |src|);
      ChainOf(fat.geo, v, c);
      EdgeStart(o, |src|);
      assert src[..0] == [];
      while bytes < |src|
        invariant bytes <= |src| && |fat.disk.image| == |v|
        invariant size == old(size) && accessed == old(accessed) && modified == old(modified)
        invariant Valid() && Attached() && sect != NO_SECT && offset == o + bytes
        invariant AtEdge(o, |src|, bytes)
        invariant Wrote(fat.geo, v, c, Logical(), chain, o, src[..bytes])
        invariant Since(w, q, c, t, last, tail) && fat.disk.faults >= old(fat.disk.faults)
      {
        var cnt := Least(|src| - bytes, 512 - offset % 512);
        ChunkFits(o, |src|, bytes, cnt);
        ghost var w1, s1, q1, f1, t1, last1, tail1 := fat.View(), chain, fat.sect, fat.disk.faults, Entries(), fat.lastUsed, Tail();
        SinceParts(w, q, c, t, last, tail);
        ghost var end := offset + cnt;
        var e := WriteChunk(src[bytes..bytes + cnt], v, c, o, src[..bytes]);
        bytes := bytes + cnt;
        SliceOn(src, bytes - cnt, bytes);
        if e == ERR_NONE || fat.disk.faults == f1 {
          SinceOn(w, q, c, t, last, tail, w1, q1, s1, t1, last1, tail1);
          SinceParts(w, q, c, t, last, tail);
        }
        if e != ERR_NONE {
          if fat.disk.faults == old(fat.disk.faults) && end < TWO_32 { StuckBefore(t, last, tail, |c|, end, o + |src|); }
          return bytes, false;
        }
      }
      assert src[..|src|] == src;
      SinceParts(w, q, c, t, last, tail);
      CameTo(t, last, tail, |c|);
      return bytes, true;
    }

    /** `fat_file_write`: a write at position `o` is `Wrote` at `o`, provided every seek succeeded. An
        error of the inner seek is assigned to a variable that shadows the result, so the call reports
        success whatever happened; `ok`, which the C function does not return, tells the two apart. */
    method Write(src: seq<byte>) returns (err: int, bytes: nat, ok: bool)
      requires fat == null || (Valid() && sect != NO_SECT)
      modifies Repr()
      ensures err == (if fat == null then ERR_PARAM else if !canWrite then ERR_DENIED else ERR_NONE)
      ensures err != ERR_NONE ==> bytes == 0 && !ok && offset == old(offset) && chain == old(chain)
      ensures err != ERR_NONE ==> size == old(size) && modified == old(modified) && accessed == old(accessed)
      ensures fat != null && !canWrite ==> Valid() && Logical() == old(Logical())
      ensures fat != null && canWrite ==> modified && accessed && size == (if offset > old(size) then offset else old(size))
      ensures fat != null ==> fat.disk.faults >= old(fat.disk.faults)
      ensures ok || (fat != null && fat.disk.faults == old(fat.disk.faults)) ==>
        Attached() && Local(fat.geo, old(fat.View()), old(fat.sect), old(chain), fat.View(), fat.sect, chain)
      ensures fat != null && canWrite && fat.disk.faults == old(fat.disk.faults) ==>
        (ok <==> old(offset) + |src| < TWO_32 && old(Reaches(offset + |src|)))
      ensures fat != null && canWrite && !ok && fat.disk.faults == old(fat.disk.faults) ==>
        && Valid() && bytes <= |src| && CutShort(old(offset), |src|, bytes, offset)
        && Wrote(fat.geo, old(Logical()), old(chain), Logical(), chain, old(offset), src[..bytes])
      ensures ok ==>
        && bytes == |src| && fat != null && Valid() && sect != NO_SECT
        && offset == old(offset) + |src|
        && Wrote(fat.geo, old(Logical()), old(chain), Logical(), chain, old(offset), src)
    {
      hide Geometry.Ok, Fat0, Fat.View, IsChain, ClustIndex, FileSect, OnChain, Wrote, Moved, Local, Choose, CanGrow, Grew, CutShort;
      if fat == null {
        return ERR_PARAM, 0, false;
      }
      LocalRefl(fat.geo, fat.View(), fat.sect, chain);
      if !canWrite {
        return ERR_DENIED, 0, false;
      }
      modified, accessed := true, true;
      var done;
      bytes, done := WriteLoop(src);
      assert done ==> src[..bytes] == src;
      if offset > size {
        size := offset;
      }
      return ERR_NONE, bytes, done;
    }

    /** The copy out of the file's buffer in `fat_file_read`. */
    method GetChunk(dst: array<byte>, at: nat, cnt: nat)
      requires Valid() && sect != NO_SECT && offset % 512 + cnt <= 512 && at + cnt <= dst.Length && dst !in Repr()
      modifies dst
      ensures cnt > 0 ==> Inside(fat.geo, chain, offset + cnt - 1)
      ensures dst[..] == Splice(old(dst[..]), at, Stored(fat.geo, Logical(), chain, offset, cnt))
    {
      hide Geometry.Ok, Fat0, Fat.View, IsChain, ClustIndex, FileSect, OnChain, Stored;
      StoredChunk(fat.geo, Logical(), chain, offset, cnt);
      assert Logical()[sect] == buf[..];
      CopyOut(buf, offset % 512, dst, at, cnt);
      assert cnt > 0 ==> (offset + cnt - 1) / 512 == offset / 512;
    }

    /** One round of `fat_file_read`. */
    method ReadChunk(dst: array<byte>, at: nat, cnt: nat) returns (err: int)
      requires Valid() && sect != NO_SECT && 0 < cnt && offset % 512 + cnt <= 512 && offset + cnt < TWO_32
      requires at + cnt <= dst.Length && dst !in Repr()
      modifies Repr(), dst
      ensures size == old(size) && accessed == old(accessed) && modified == old(modified)
      ensures |fat.disk.image| == old(|fat.disk.image|)
      ensures fat.disk.faults >= old(fat.disk.faults) && (err == ERR_IO ==> fat.disk.faults > old(fat.disk.faults))
      ensures err == ERR_NONE || fat.disk.faults == old(fat.disk.faults) ==>
        Attached() && Local(fat.geo, old(fat.View()), old(fat.sect), old(chain), fat.View(), fat.sect, chain)
        && Taken(fat, chain, old(Entries()), old(fat.lastUsed), old(Tail()), |chain| - old(|chain|))
      ensures err != ERR_NONE && fat.disk.faults == old(fat.disk.faults) ==>
        Stuck() && !Inside(fat.geo, chain, old(offset) + cnt) && Valid() && Same(old(Logical()), old(chain), old(offset), old(sect))
      ensures old(Inside(fat.geo, chain, offset + cnt - 1))
      ensures dst[..] == Splice(old(dst[..]), at, old(Stored(fat.geo, Logical(), chain, offset, cnt)))
      ensures err == ERR_NONE ==>
        && Valid() && sect != NO_SECT && offset == old(offset) + cnt
        && Moved(fat.geo, old(Logical()), old(chain), Logical(), chain)
    {
      hide Geometry.Ok, Fat0, Fat.View, IsChain, ClustIndex, FileSect, OnChain, Moved, Inside, Stored, Splice, Local, Choose,
        Near, File.Same, Grew, Taken;
      GetChunk(dst, at, cnt);
      NearBy(fat.geo, offset, cnt);
      err := Seek(cnt, Curr);
    }

    /** The same with what was delivered before. */
    method ReadOn(dst: array<byte>, at: nat, cnt: nat, ghost v: Image, ghost c: seq<nat>, ghost o: nat, ghost d: seq<byte>)
        returns (err: int)
      requires Valid() && Attached() && sect != NO_SECT && 0 < cnt && offset % 512 + cnt <= 512 && offset + cnt < TWO_32
      requires at + cnt <= dst.Length && dst !in Repr()
      requires ChainIn(fat.geo, v, c) && offset == o + at && Delivered(fat.geo, v, c, Logical(), chain, o, at, d, dst[..])
      modifies Repr(), dst
      ensures size == old(size) && accessed == old(accessed) && modified == old(modified)
      ensures |fat.disk.image| == old(|fat.disk.image|)
      ensures fat.disk.faults >= old(fat.disk.faults) && (err == ERR_IO ==> fat.disk.faults > old(fat.disk.faults))
      ensures err == ERR_NONE || fat.disk.faults == old(fat.disk.faults) ==>
        && Attached() && Local(fat.geo, old(fat.View()), old(fat.sect), old(chain), fat.View(), fat.sect, chain)
        && Taken(fat, chain, old(Entries()), old(fat.lastUsed), old(Tail()), |chain| - old(|chain|))
        && Valid() && sect != NO_SECT && Delivered(fat.geo, v, c, Logical(), chain, o, at + cnt, d, dst[..])
        && offset == (if err == ERR_NONE then old(offset) + cnt else old(offset))
      ensures err != ERR_NONE && fat.disk.faults == old(fat.disk.faults) ==> Stuck() && !Inside(fat.geo, chain, old(offset) + cnt)
    {
      hide *;
      LogicalTables();
      ghost var v1, c1, d1, o1, s1, f1 := Logical(), chain, dst[..], offset, sect, fat.disk.faults;
      err := ReadChunk(dst, at, cnt);
      if err != ERR_NONE {
        if fat.disk.faults == f1 {
          SameMeans(v1, c1, o1, s1);
          MovedRefl(fat.geo, v1, c1);
          LogicalTables();
          ReadStepOn(fat.geo, v, c, v1, c1, Logical(), chain, o, at, cnt, d, d1, dst[..]);
        }
        return;
      }
      LogicalTables();
      ReadStepOn(fat.geo, v, c, v1, c1, Logical(), chain, o, at, cnt, d, d1, dst[..]);
    }

    /** The loop of `fat_file_read`. */
    method ReadLoop(dst: array<byte>, len: nat) returns (err: int, bytes: nat)
      requires Valid() && sect != NO_SECT && len <= dst.Length && dst !in Repr()
      modifies Repr(), dst
      ensures size == old(size) && accessed == old(accessed) && modified == old(modified)
      ensures bytes <= len
      ensures fat.disk.faults >= old(fat.disk.faults) && (err == ERR_IO ==> fat.disk.faults > old(fat.disk.faults))
      ensures err == ERR_NONE || fat.disk.faults == old(fat.disk.faults) ==>
        Attached() && Local(fat.geo, old(fat.View()), old(fat.sect), old(chain), fat.View(), fat.sect, chain)
      ensures err != ERR_NONE && fat.disk.faults == old(fat.disk.faults) ==>
        && Valid() && sect != NO_SECT && offset < old(offset) + bytes <= offset + 512
        && Delivered(fat.geo, old(Logical()), old(chain), Logical(), chain, old(offset), bytes, old(dst[..]), dst[..])
      ensures fat.disk.faults == old(fat.disk.faults) ==>
        (err == ERR_NONE <==> old(Attached()) && old(Reaches(offset + Least(len, if offset < size then size - offset else 0))))
      ensures err == ERR_NONE ==>
        && Valid() && sect != NO_SECT && bytes == Least(len, if old(offset) < size then size - old(offset) else 0)
        && offset == old(offset) + bytes
        && Delivered(fat.geo, old(Logical()), old(chain), Logical(), chain, old(offset), bytes, old(dst[..]), dst[..])
    {
      hide *;
      CodesDiffer();
      bytes := 0;
      LogicalTables();
      ghost var v, c, o, d := Logical(), chain, offset, dst[..];
      DeliveredNone(fat.geo, v, c, o, d);
      ChainOf(fat.geo, v, c);
      ViewChain();
      ghost var w, q := fat.View(), fat.sect;
      ghost var t, last, tail := Entries(), fat.lastUsed, Tail();
      ghost var goal := o + Least(len, if o < size then size - o else 0);
      SinceNow();
      ReachesMeans(goal);
      while bytes < len && offset < size
        invariant bytes <= len && |fat.disk.image| == |v| && (bytes == 0 || offset <= size)
        invariant Valid() && Attached() && sect != NO_SECT && offset == o + bytes
        invariant size == old(size) && accessed == old(accessed) && modified == old(modified)
        invariant Delivered(fat.geo, v, c, Logical(), chain, o, bytes, d, dst[..])
        invariant Since(w, q, c, t, last, tail) && fat.disk.faults >= old(fat.disk.faults)
      {
        var cnt := Least(len - bytes, Least(512 - offset % 512, size - offset));
        ghost var o1, t1, last1, tail1 := offset, Entries(), fat.lastUsed, Tail();
        SinceParts(w, q, c, t, last, tail);
        ghost var c1, w1, q1, f1 := chain, fat.View(), fat.sect, fat.disk.faults;
        err := ReadOn(dst, bytes, cnt, v, c, o, d);
        bytes := bytes + cnt;
        if err == ERR_NONE || fat.disk.faults == f1 {
          SinceOn(w, q, c, t, last, tail, w1, q1, c1, t1, last1, tail1);
          SinceParts(w, q, c, t, last, tail);
        }
        if err != ERR_NONE {
          if fat.disk.faults == old(fat.disk.faults) { StuckBefore(t, last, tail, |c|, o1 + cnt, goal); }
          return;
        }
      }
      SinceParts(w, q, c, t, last, tail);
      CameTo(t, last, tail, |c|);
      return ERR_NONE, bytes;
    }

    /** `fat_file_read`: delivers the stored bytes from the position up to `len` of them or the end of the
        file, and moves past them. */
    method Read(dst: array<byte>, len: nat) returns (err: int, bytes: nat)
      requires fat == null || (Valid() && sect != NO_SECT)
      requires len <= dst.Length && dst !in Repr()
      modifies Repr(), dst
      ensures fat == null ==> err == ERR_PARAM
      ensures fat != null && !canRead ==> err == ERR_DENIED
      ensures bytes <= len && size == old(size) && modified == old(modified)
      ensures accessed == (old(accessed) || (fat != null && canRead))
      ensures fat == null || !canRead ==> bytes == 0 && offset == old(offset) && chain == old(chain) && dst[..] == old(dst[..])
      ensures fat != null && !canRead ==> Valid() && Logical() == old(Logical())
      ensures fat != null ==>
        && fat.disk.faults >= old(fat.disk.faults) && (err == ERR_IO ==> fat.disk.faults > old(fat.disk.faults))
        && (err == ERR_NONE || fat.disk.faults == old(fat.disk.faults) ==>
              Attached() && Local(fat.geo, old(fat.View()), old(fat.sect), old(chain), fat.View(), fat.sect, chain))
        && (canRead && fat.disk.faults == old(fat.disk.faults) ==>
              (err == ERR_NONE <==> old(Reaches(offset + Least(len, if offset < size then size - offset else 0)))))
        && (canRead && err != ERR_NONE && fat.disk.faults == old(fat.disk.faults) ==>
              && Valid() && size == old(size) && offset < old(offset) + bytes <= offset + 512
              && Moved(fat.geo, old(Logical()), old(chain), Logical(), chain)
              && dst[..] == Stored(fat.geo, old(Logical()), chain, old(offset), bytes) + old(dst[..])[bytes..])
      ensures err == ERR_NONE ==>
        && fat != null && canRead && Valid() && sect != NO_SECT && size == old(size) && accessed
        && bytes == Least(len, if old(offset) < size then size - old(offset) else 0)
        && offset == old(offset) + bytes
        && Moved(fat.geo, old(Logical()), old(chain), Logical(), chain)
        && dst[..] == Stored(fat.geo, old(Logical()), chain, old(offset), bytes) + old(dst[..])[bytes..]
    {
      hide Geometry.Ok, Fat0, Fat.View, IsChain, ClustIndex, FileSect, OnChain, Moved, Inside, Stored, Local, Choose, CanGrow, Grew;
      if fat == null {
        return ERR_PARAM, 0;
      }
      LocalRefl(fat.geo, fat.View(), fat.sect, chain);
      if !canRead {
        return ERR_DENIED, 0;
      }
      accessed := true;
      err, bytes := ReadLoop(dst, len);
    }

    /** Where the directory entry of the file is: in a data sector that is not the file's own. */
    ghost predicate Listed()
      reads Repr()
    {
      && fat != null && 0 < dirSect < |fat.disk.image| && fat.geo.InData(dirSect)
      && !OnChain(fat.geo, chain, dirSect) && dirIdx + 32 <= 512
    }

    /** The part of `fat_file_sync` that writes the file's buffer out. Before the first successful seek the sector is
        0xffffffff, which the driver asks the device for all the same; no device has it, so that ends in an I/O
        error. Nowhere else is a sector addressed that the device does not have. */
    method FlushFile() returns (err: int)
      requires Valid()
      modifies fat.disk
      ensures err == ERR_NONE || err == ERR_IO
      ensures |fat.disk.image| == old(|fat.disk.image|)
      ensures fat.disk.faults >= old(fat.disk.faults) && (err == ERR_IO ==> fat.disk.faults > old(fat.disk.faults) || sect == NO_SECT)
      ensures err == ERR_NONE ==>
        && Valid() && sect != NO_SECT && Logical() == old(Logical()) == fat.View() && buf[..] == fat.disk.image[sect]
        && Entries() == old(Entries())
    {
      hide Geometry.Ok, Fat0, Fat1, ClustIndex, FileSect, OnChain, IsChain;
      ghost var v, b := fat.View(), buf[..];
      SizeBelow(fat.geo, |v|);
      if sect != NO_SECT {
        FileSectOnChain(fat.geo, chain, offset / 512);
        OnData(fat.geo, chain, sect);
      }
      if sect == NO_SECT {
        return ERR_IO;
      }
      var ok := fat.disk.Write(buf, sect);
      if !ok {
        return ERR_IO;
      }
      OverTables(fat.geo, v, sect, b);
      assert fat.View() == Over(v, sect, b);
      return ERR_NONE;
    }

    /** Rewrites a sector in the volume's buffer; a sector that is not the file's own. */
    method StampBuf(date: nat, time: nat)
      requires fat != null && fat.buf.Length == 512 && dirIdx + 32 <= 512 && date < 0x1_0000 && time < 0x1_0000 && size < TWO_32
      modifies fat.buf
      ensures fat.buf[..] == Stamped(old(fat.buf[..]), dirIdx, accessed, modified, size, date, time)
    {
      hide PutLe16, PutLe32, Archived;
      if accessed {
        Store16(fat.buf, dirIdx + 18, date);
      }
      if modified {
        fat.buf[dirIdx + 11] := Archived(fat.buf[dirIdx + 11]);
        Store32(fat.buf, dirIdx + 28, size);
        Store16(fat.buf, dirIdx + 24, date);
        Store16(fat.buf, dirIdx + 22, time);
      }
    }

    /** The part of `fat_file_sync` that stamps the directory entry, in the volume's buffer. */
    method StampEntry(date: nat, time: nat) returns (err: int)
      requires Valid() && Listed() && sect != NO_SECT && buf[..] == fat.disk.image[sect] && date < 0x1_0000 && time < 0x1_0000
      modifies fat, fat.buf, fat.disk
      ensures err == ERR_NONE || err == ERR_IO
      ensures |fat.disk.image| == old(|fat.disk.image|)
      ensures fat.disk.faults >= old(fat.disk.faults) && (err == ERR_IO ==> fat.disk.faults > old(fat.disk.faults))
      ensures err == ERR_NONE ==>
        && Valid() && Listed() && buf[..] == fat.disk.image[sect] && Entries() == old(Entries())
        && fat.sect == dirSect
        && fat.View() == Over(old(fat.View()), dirSect,
                              Stamped(old(fat.View())[dirSect], dirIdx, accessed, modified, size, date, time))
    {
      hide Geometry.Ok, Fat0, Fat1, ClustIndex, FileSect, OnChain, IsChain, Logged, Stamped;
      ghost var v := fat.View();
      FileSectOnChain(fat.geo, chain, offset / 512);
      OnDisk(sect);
      err := fat.UpdateBuf(dirSect);
      if err != ERR_NONE {
        return;
      }
      OnDisk(sect);
      fat.bufDirty := true;
      StampBuf(date, time);
      OverTables(fat.geo, v, dirSect, fat.buf[..]);
      assert fat.View() == Over(v, dirSect, fat.buf[..]);
    }

    /** The end of `fat_file_sync`. */
    method SyncVolume() returns (err: int)
      requires Valid() && Listed() && sect != NO_SECT && buf[..] == fat.disk.image[sect]
      modifies fat, fat.buf, fat.disk
      ensures err == ERR_NONE || err == ERR_IO
      ensures |fat.disk.image| == old(|fat.disk.image|)
      ensures fat.disk.faults >= old(fat.disk.faults) && (err == ERR_IO ==> fat.disk.faults > old(fat.disk.faults))
      ensures err == ERR_NONE ==>
        && Valid() && Listed() && fat.disk.image == fat.View() == Logical() && Entries() == old(Entries())
        && (fat.sect == old(fat.sect) || fat.sect == fat.geo.infoSect)
        && (forall k :: 0 <= k < |fat.disk.image| && k != fat.geo.infoSect ==> fat.disk.image[k] == old(fat.View())[k])
    {
      hide Geometry.Ok, Fat0, Fat1, ClustIndex, FileSect, OnChain, IsChain, Logged, InfoHolds, Fat.View, PutInfo;
      ghost var v := fat.View();
      FileSectOnChain(fat.geo, chain, offset / 512);
      OnDisk(sect);
      NotOnChain(fat.geo, |v|, chain, sect);
      err := fat.SyncFs();
      if err != ERR_NONE {
        return;
      }
      PutInfoTables(fat.geo, v, fat.freeCnt, fat.lastUsed);
    }

    /** `fat_file_sync` up to the end: the bytes on the device, the entry in the volume's buffer. */
    method FlushAndStamp(date: nat, time: nat) returns (err: int)
      requires Valid() && Listed() && date < 0x1_0000 && time < 0x1_0000
      modifies fat, fat.buf, fat.disk
      ensures err == ERR_NONE || err == ERR_IO
      ensures |fat.disk.image| == old(|fat.disk.image|)
      ensures fat.disk.faults >= old(fat.disk.faults) && (err == ERR_IO ==> fat.disk.faults > old(fat.disk.faults) || sect == NO_SECT)
      ensures err == ERR_NONE ==>
        && Valid() && Listed() && sect != NO_SECT && buf[..] == fat.disk.image[sect] && Entries() == old(Entries())
        && (fat.sect == old(fat.sect) || fat.sect == dirSect)
        && fat.View() == Over(old(Logical()), dirSect,
             if accessed || modified then
               Stamped(old(Logical())[dirSect], dirIdx, accessed, modified, size, date, time)
             else old(Logical())[dirSect])
    {
      hide Geometry.Ok, Fat0, Fat1, ClustIndex, FileSect, OnChain, IsChain, Stamped, Fat.View;
      err := FlushFile();
      if err != ERR_NONE {
        return;
      }
      if accessed || modified {
        err := StampEntry(date, time);
      }
    }

    /** `fat_file_sync` but for the flags it clears at the end. */
    method SyncAll(date: nat, time: nat) returns (err: int)
      requires Valid() && Listed() && date < 0x1_0000 && time < 0x1_0000
      modifies fat, fat.buf, fat.disk
      ensures err == ERR_NONE || err == ERR_IO
      ensures fat.disk.faults >= old(fat.disk.faults) && (err == ERR_IO ==> fat.disk.faults > old(fat.disk.faults) || sect == NO_SECT)
      ensures err == ERR_NONE ==>
        && Valid() && Listed() && fat.disk.image == Logical() && Entries() == old(Entries())
        && |fat.disk.image| == old(|fat.disk.image|)
        && (fat.sect == old(fat.sect) || fat.sect == dirSect || fat.sect == fat.geo.infoSect)
        && (forall k :: 0 <= k < |fat.disk.image| && k != dirSect && k != fat.geo.infoSect ==>
              fat.disk.image[k] == old(Logical())[k])
        && fat.disk.image[dirSect] ==
           if accessed || modified then Stamped(old(Logical())[dirSect], dirIdx, accessed, modified, size, date, time)
           else old(Logical())[dirSect]
    {
      hide Geometry.Ok, Fat0, Fat1, ClustIndex, FileSect, OnChain, IsChain, Stamped, Fat.View, Over, File.Valid;
      LogicalTables();
      ghost var v := Logical();
      err := FlushAndStamp(date, time);
      if err != ERR_NONE {
        return;
      }
      ghost var w := fat.View();
      InfoNotData(fat.geo, |fat.disk.image|);
      err := SyncVolume();
      if err != ERR_NONE {
        return;
      }
      OverAt(v, dirSect, w);
    }

    /** `fat_file_sync`: afterwards the device itself holds the file's bytes, and the directory entry its size. */
    method Sync(date: nat, time: nat) returns (err: int)
      requires fat == null || (Valid() && Listed())
      requires date < 0x1_0000 && time < 0x1_0000
      modifies Repr()
      ensures fat == null ==> err == ERR_PARAM
      ensures fat != null ==> err == ERR_NONE || err == ERR_IO
      ensures fat != null ==>
        fat.disk.faults >= old(fat.disk.faults) && (err == ERR_IO ==> fat.disk.faults > old(fat.disk.faults) || sect == NO_SECT)
      ensures size == old(size) && chain == old(chain) && offset == old(offset)
      ensures err != ERR_NONE ==> accessed == old(accessed) && modified == old(modified)
      ensures err == ERR_NONE ==>
        && fat != null && Valid() && Listed() && fat.disk.image == Logical() && !accessed && !modified
        && (fat.sect == old(fat.sect) || fat.sect == dirSect || fat.sect == fat.geo.infoSect)
        && Entries() == old(Entries()) && |fat.disk.image| == old(|fat.disk.image|)
        && (forall k :: 0 <= k < |fat.disk.image| && k != dirSect && k != fat.geo.infoSect ==>
              fat.disk.image[k] == old(Logical())[k])
        && fat.disk.image[dirSect] ==
           if old(accessed || modified) then
             Stamped(old(Logical())[dirSect], dirIdx, old(accessed), old(modified), size, date, time)
           else old(Logical())[dirSect]
    {
      hide Geometry.Ok, Fat0, Fat1, ClustIndex, FileSect, OnChain, IsChain, Stamped, Fat.View, Fat.Valid, Usable, Inside;
      if fat == null {
        return ERR_PARAM;
      }
      err := SyncAll(date, time);
      if err != ERR_NONE {
        return;
      }
      accessed, modified := false, false;
    }
  }

  /** The buffer of a volume that stayed where it was or went to a table is on no chain it was not on. */
  lemma StayedOff(g: Geometry, v: Image, s: seq<nat>, k: nat, k': nat)
    requires g.Ok(|v|) && IsChain(Fat0(g, v), s) && !OnChain(g, s, k) && (k' == k || g.InFat(k'))
    ensures !OnChain(g, s, k') && Local(g, v, k, s, v, k', s)
  {
    KeptRefl(g, v, s);
    hide Fat0, IsChain, Kept;
  }

  /** What laying a sector over an image means, sector by sector. */
  lemma OverAt(v: Image, k: nat, w: Image)
    requires k < |v| == |w|
    ensures forall b: Sector :: w == Over(v, k, b) ==> w[k] == b && forall i :: 0 <= i < |v| && i != k ==> w[i] == v[i]
  {
  }

  /** A write of `len` bytes at `o` stopped with `bytes` of them in place, its position still at `at`, where the last
      chunk begins: at the start or at the edge of a sector. */
  predicate CutShort(o: nat, len: nat, bytes: nat, at: nat)
  {
    at < o + bytes == Least(o + len, at - at % 512 + 512) && (at == o || at % 512 == 0)
  }

  /** Rounds of `fat_file_write` end at the edge of a sector, or at the end. */
  predicate AtEdge(o: nat, len: nat, bytes: nat) { bytes == 0 || bytes == len || (o + bytes) % 512 == 0 }

  lemma SliceOn(s: seq<byte>, m: nat, n: nat)
    requires m <= n <= |s|
    ensures s[..n] == s[..m] + s[m..n]
  {
  }

  lemma EdgeStart(o: nat, len: nat)
    ensures AtEdge(o, len, 0)
  {
  }

  lemma ChunkFits(o: nat, len: nat, bytes: nat, cnt: nat)
    requires bytes < len && cnt == Least(len - bytes, 512 - (o + bytes) % 512) && AtEdge(o, len, bytes)
    ensures 0 < cnt && (o + bytes) % 512 + cnt <= 512 && AtEdge(o, len, bytes + cnt)
    ensures CutShort(o, len, bytes + cnt, o + bytes)
  {
  }

  /** Byte `to` is in the cluster of byte `from` or in the next one. */
  predicate Near(g: Geometry, from: nat, to: nat)
  {
    ClustIndex(g, from / 512) <= ClustIndex(g, to / 512) <= ClustIndex(g, from / 512) + 1
  }

  /** A step of up to a sector leads to the same cluster or to the next one. */
  lemma NearBy(g: Geometry, o: nat, n: nat)
    requires n <= 512
    ensures Near(g, o, o + n)
  {
    var k := o / 512;
    assert k <= (o + n) / 512 <= k + 1;
    QuotRemSucc(k, g.Spc());
    hide Quot, Rem;
  }

  lemma NotData(g: Geometry, s: seq<nat>, k: nat)
    requires !g.InData(k)
    ensures !OnChain(g, s, k) && forall j :: Parked(g, s, j, k)
  {
  }

  /** Work on the device sectors of a chain, with the volume's buffer left where it is. */
  lemma LocalKept(g: Geometry, v: Image, k: nat, s: seq<nat>, v': Image)
    requires Kept(g, v, s, v', s)
    ensures Local(g, v, k, s, v', k, s)
  {
  }

  /** The FSInfo sector is on no chain. */
  lemma NotOnChain(g: Geometry, size: nat, s: seq<nat>, k: nat)
    requires g.Ok(size)
    ensures !OnChain(g, s, g.infoSect) && (OnChain(g, s, k) ==> k != g.infoSect && k < size)
  {
    if OnChain(g, s, k) { DataElsewhere(g, size, k); }
  }

  lemma FirstCluster(g: Geometry)
    ensures ClustIndex(g, 0) == 0
  {
  }

  /** The directory entry at `idx` after `fat_file_sync` has stamped it. */
  function Stamped(s: Sector, idx: nat, accessed: bool, modified: bool, size: nat, date: nat, time: nat): (r: Sector)
    requires idx + 32 <= 512 && size < TWO_32 && date < 0x1_0000 && time < 0x1_0000
    ensures forall i :: 0 <= i < 512 && i - idx !in {11, 18, 19, 22, 23, 24, 25, 28, 29, 30, 31} ==> r[i] == s[i]
    ensures r[idx + 11] == if modified then Archived(s[idx + 11]) else s[idx + 11]
    ensures modified ==> Le32(r, idx + 28) == size && Le16(r, idx + 24) == date && Le16(r, idx + 22) == time
    ensures accessed ==> Le16(r, idx + 18) == date
    ensures !modified ==> forall i :: idx + 22 <= i < idx + 32 ==> r[i] == s[i]
    ensures !accessed ==> r[idx + 18] == s[idx + 18] && r[idx + 19] == s[idx + 19]
  {
    var a := if accessed then PutLe16(s, idx + 18, date) else s;
    if modified then
      var b := a[idx + 11 := Archived(a[idx + 11])];
      PutLe16(PutLe16(PutLe32(b, idx + 28, size), idx + 24, date), idx + 22, time)
    else a
  }

  /** Attributes with the archive bit 0x20 set. */
  function Archived(attr: byte): (r: byte)
    ensures r / 0x20 % 2 == 1 && r / 0x40 == attr / 0x40 && r % 0x20 == attr % 0x20
  {
    if attr / 0x20 % 2 == 0 then attr + 0x20 else attr
  }

  /** `memcpy` between two buffers. */
  method CopyOut(src: array<byte>, from: nat, dst: array<byte>, at: nat, cnt: nat)
    requires from + cnt <= src.Length && at + cnt <= dst.Length && src != dst
    modifies dst
    ensures dst[..] == Splice(old(dst[..]), at, src[from..from + cnt])
  {
    for j := 0 to cnt
      invariant forall i :: 0 <= i < dst.Length && !(at <= i < at + j) ==> dst[i] == old(dst[i])
      invariant dst[at..at + j] == src[from..from + j]
    {
      dst[at + j] := src[from + j];
      assert dst[at..at + j + 1] == dst[at..at + j] + [src[from + j]];
    }
  }

  /** `a` with `b` copied over it at `at`. */
  function Splice(a: seq<byte>, at: nat, b: seq<byte>): (r: seq<byte>)
    requires at + |b| <= |a|
  {
    a[..at] + b + a[at + |b|..]
  }

  function Least(a: nat, b: nat): (c: nat)
    ensures c <= a && c <= b && (c == a || c == b)
  {
    if a < b then a else b
  }

  /** Chain `s` may have grown into `s'`, and `got` is `d` with its first `n` bytes replaced by those of the
      file from `o` on. */
  ghost predicate Delivered(g: Geometry, v: Image, s: seq<nat>, v': Image, s': seq<nat>, o: nat, n: nat,
                            d: seq<byte>, got: seq<byte>)
  {
    Moved(g, v, s, v', s') && n <= |d| && got == Stored(g, v, s', o, n) + d[n..]
  }

  lemma DeliveredNone(g: Geometry, v: Image, s: seq<nat>, o: nat, d: seq<byte>)
    requires g.Ok(|v|) && IsChain(Fat0(g, v), s)
    ensures Delivered(g, v, s, v, s, o, 0, d, d)
  {
    hide Stored, Moved, Geometry.Ok, Fat0, IsChain;
    MovedRefl(g, v, s);
  }

  /** One round of reading: what was delivered so far and the next chunk are one longer stretch of the file. */
  lemma ReadStep(g: Geometry, v: Image, s: seq<nat>, v1: Image, s1: seq<nat>, v2: Image, s2: seq<nat>,
                 o: nat, m: nat, n: nat, d: seq<byte>, had: seq<byte>, got: seq<byte>)
    requires Delivered(g, v, s, v1, s1, o, m, d, had) && Moved(g, v1, s1, v2, s2) && Usable(g, s1) && Usable(g, s2)
    requires IsChain(Fat0(g, v), s) && n > 0 && Inside(g, s1, o + m + n - 1) && m + n <= |had|
    requires got == Splice(had, m, Stored(g, v1, s1, o + m, n))
    ensures Delivered(g, v, s, v2, s2, o, m + n, d, got)
  {
    hide Stored, Extends, Fat0, Fat1, Geometry.Ok, IsChain, Inside;
    StoredMoved(g, v, s, v1, s1, o + m, n);
    StoredSplit(g, v, s1, o, m, n);
    MovedTrans(g, v, s, v1, s1, v2, s2);
    ExtendsChain(Fat0(g, v1), s1, Fat0(g, v2), s2);
    StoredLonger(g, v, s1, s2, o, m + n);
  }

  lemma ReadStepOn(g: Geometry, v: Image, s: seq<nat>, v1: Image, s1: seq<nat>, v2: Image, s2: seq<nat>,
                   o: nat, m: nat, n: nat, d: seq<byte>, had: seq<byte>, got: seq<byte>)
    requires ChainIn(g, v, s) && Delivered(g, v, s, v1, s1, o, m, d, had) && Moved(g, v1, s1, v2, s2)
    requires Usable(g, s1) && Usable(g, s2) && n > 0 && Inside(g, s1, o + m + n - 1) && m + n <= |had|
    requires got == Splice(had, m, Stored(g, v1, s1, o + m, n))
    ensures Delivered(g, v, s, v2, s2, o, m + n, d, got)
  {
    ReadStep(g, v, s, v1, s1, v2, s2, o, m, n, d, had, got);
  }

  /** A sector of the old chain is a sector of the new one. */
  lemma OnLonger(g: Geometry, v: Image, s: seq<nat>, v': Image, s': seq<nat>, k: nat)
    requires Moved(g, v, s, v', s')
    ensures OnChain(g, s, k) ==> OnChain(g, s', k) && g.InData(k) && k < |v| && v'[k] == v[k]
  {
    if OnChain(g, s, k) { DataElsewhere(g, |v|, k); }
  }

  lemma SizeBelow(g: Geometry, size: nat)
    requires g.Ok(size)
    ensures size < TWO_32
  {
  }

  lemma InfoNotData(g: Geometry, size: nat)
    requires g.Ok(size)
    ensures !g.InData(g.infoSect)
  {
  }
}
