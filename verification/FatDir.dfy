/** Directory cursors: walking, growing, adding, removing and reading entries. */
module FatDir {
  import opened Bytes
  import opened Powers
  import opened Volume
  import opened Chains
  import opened Disks
  import opened FatVolume
  import opened Growth
  import opened FileLayout
  import opened FileBytes
  import opened LongName
  import opened ShortName
  import opened DirSlots
  import opened DirLayout
  import opened SlotWriter
  import opened Timestamps

  /** The name buffer that all parsing shares. */
  class Scratch {
    const buf: array<byte>
    var len: nat
    var crc: byte

    constructor ()
      ensures buf.Length == 512 && fresh(buf)
    {
      buf := new byte[512](i => 0);
      len, crc := 0, 0;
    }
  }

  class Dir {
    const fat: Fat
    var sclust: nat
    var clust: nat
    var sect: nat
    var idx: nat

    /** The clusters of the directory, and the number of the slot the cursor is at. */
    ghost var chain: seq<nat>
    ghost var pos: nat

    ghost function Repr(): set<object> { {this, fat, fat.buf, fat.disk} }

    ghost predicate Attached()
      reads Repr()
    {
      && fat.Valid() && IsChain(Fat0(fat.geo, fat.View()), chain) && Usable(fat.geo, chain) && chain[0] == sclust
    }

    ghost predicate Valid()
      reads Repr()
    {
      && Attached() && SlotInside(fat.geo, chain, pos) && clust == chain[ClustIndex(fat.geo, pos / 16)]
      && sect == FileSect(fat.geo, chain, pos / 16) && idx == 32 * (pos % 16)
    }

    /** `dir_enter`; cluster 0 stands for the root directory. */
    constructor (f: Fat, c: nat, ghost s: seq<nat>)
      requires f.Valid() && IsChain(Fat0(f.geo, f.View()), s) && Usable(f.geo, s)
      requires s[0] == if c == 0 then f.geo.rootClust else c
      ensures Valid() && fat == f && chain == s && pos == 0
    {
      hide Geometry.Ok, Fat0, Fat.View, ClustIndex, FileSect, SlotInside;
      fat := f;
      sclust := if c == 0 then f.geo.rootClust else c;
      clust := if c == 0 then f.geo.rootClust else c;
      sect := ClustToSect(f.geo, if c == 0 then f.geo.rootClust else c);
      idx := 0;
      chain, pos := s, 0;
      new;
      AtStart(f.geo, s, 0);
    }

    /** The slots of the directory. */
    ghost function Content(): (s: seq<Slot>)
      requires Attached()
      reads Repr()
    {
      Slots(fat.geo, fat.View(), chain)
    }

    ghost function Entries(): (t: Table)
      requires Attached()
      reads Repr()
    {
      Fat0(fat.geo, fat.View())
    }

    /** The last cluster of the directory. */
    ghost function Tail(): (c: nat)
      requires Attached()
      reads Repr()
    {
      chain[|chain| - 1]
    }

    /** The directory can be made long enough to have slot `p`. */
    ghost predicate Reaches(p: nat)
      requires Attached()
      reads Repr()
    {
      Room(fat, chain, ClustIndex(fat.geo, p / 16) + 1)
    }

    lemma ReachesMeans(p: nat)
      requires Attached()
      ensures InTable(Entries(), fat.lastUsed) && Tail() < |Entries()|
      ensures Reaches(p) <==> CanGrow(Entries(), fat.lastUsed, Tail(), Need(|chain|, ClustIndex(fat.geo, p / 16) + 1))
    {
    }

    lemma NoneTaken()
      requires Attached()
      ensures Taken(fat, chain, Entries(), fat.lastUsed, Tail(), 0)
    {
      hide Geometry.Ok, Fat0, Fat.View, Taken;
      TakenNone(fat, chain);
    }

    lemma TakenHere(t: Table, last: nat, prev: nat, m: int)
      requires Attached() && Taken(fat, chain, t, last, prev, m)
      ensures m >= 0 && InTable(t, last) && prev < |t| && InTable(Entries(), fat.lastUsed) && Tail() < |Entries()|
      ensures Grew(t, last, prev, m, Entries(), fat.lastUsed, Tail())
    {
      hide Geometry.Ok, Fat0, Fat.View, Taken, Grew;
      TakenMeans(fat, chain, t, last, prev, m);
    }

    /** What was taken stays taken while table, scan and chain stay. */
    lemma StillTaken(t: Table, last: nat, prev: nat, m: int, t1: Table, last1: nat, prev1: nat)
      requires Attached() && m >= 0 && InTable(t, last) && prev < |t| && Grew(t, last, prev, m, t1, last1, prev1)
      requires Entries() == t1 && fat.lastUsed == last1 && Tail() == prev1
      ensures Taken(fat, chain, t, last, prev, m)
    {
      hide Geometry.Ok, Fat0, Fat.View, Grew;
    }

    /** Since the view was `v`, with the volume's buffer at `k`, the chain `c`, the slots `s` and the table `t`: work was
        done on this directory only, which added empty slots and took clusters as far as the chain is longer. */
    ghost predicate Since(v: Image, k: nat, c: seq<nat>, s: seq<Slot>, t: Table, last: nat, prev: nat)
      reads Repr()
    {
      && Attached() && Local(fat.geo, v, k, c, fat.View(), fat.sect, chain) && Longer(s, Content())
      && Taken(fat, chain, t, last, prev, |chain| - |c|)
    }

    lemma SinceNow()
      requires Attached()
      ensures Since(fat.View(), fat.sect, chain, Content(), Entries(), fat.lastUsed, Tail())
    {
      hide Geometry.Ok, Fat0, Fat.View, Taken, Local, Slots, IsChain;
      NoneTaken();
      LocalRefl(fat.geo, fat.View(), fat.sect, chain);
    }

    lemma SinceParts(v: Image, k: nat, c: seq<nat>, s: seq<Slot>, t: Table, last: nat, prev: nat)
      requires Since(v, k, c, s, t, last, prev)
      ensures Attached() && Local(fat.geo, v, k, c, fat.View(), fat.sect, chain) && Longer(s, Content())
      ensures Taken(fat, chain, t, last, prev, |chain| - |c|)
      ensures |chain| >= |c| && InTable(t, last) && prev < |t| && InTable(Entries(), fat.lastUsed) && Tail() < |Entries()|
      ensures Grew(t, last, prev, |chain| - |c|, Entries(), fat.lastUsed, Tail())
    {
      hide Geometry.Ok, Fat0, Fat.View, Taken, Local, Slots, IsChain, Grew;
      TakenHere(t, last, prev, |chain| - |c|);
    }

    lemma SinceOn(v: Image, k: nat, c: seq<nat>, s: seq<Slot>, t: Table, last: nat, prev: nat,
                  v1: Image, k1: nat, c1: seq<nat>, s1: seq<Slot>, t1: Table, last1: nat, prev1: nat)
      requires ChainIn(fat.geo, v, c) && Local(fat.geo, v, k, c, v1, k1, c1) && Longer(s, s1)
      requires InTable(t, last) && prev < |t| && |c1| >= |c| && Grew(t, last, prev, |c1| - |c|, t1, last1, prev1)
      requires Since(v1, k1, c1, s1, t1, last1, prev1)
      ensures Since(v, k, c, s, t, last, prev)
    {
      hide Geometry.Ok, Fat0, Fat.View, Taken, Local, Slots, IsChain, Grew, Longer;
      LocalTrans(fat.geo, v, k, c, v1, k1, c1, fat.View(), fat.sect, chain);
      LongerTrans(s, s1, Content());
      TakenOn(fat, chain, t, last, prev, |c1| - |c|, t1, last1, prev1, |chain| - |c1|);
    }

    lemma ChainNow()
      requires Attached()
      ensures ChainIn(fat.geo, fat.View(), chain)
    {
    }

    /** A directory that has a slot `p` shows that it could be made long enough for it. */
    lemma CameTo(t: Table, last: nat, prev: nat, have: nat, p: nat)
      requires Attached() && SlotInside(fat.geo, chain, p) && Taken(fat, chain, t, last, prev, |chain| - have)
      ensures InTable(t, last) && prev < |t| && CanGrow(t, last, prev, Need(have, ClustIndex(fat.geo, p / 16) + 1))
    {
      hide Geometry.Ok, Fat0, Fat.View, CanGrow, Taken, ClustIndex;
      GotThere(fat, chain, t, last, prev, have, ClustIndex(fat.geo, p / 16) + 1);
    }

    /** A directory stuck before slot `p` shows that it could not be made long enough for any slot from there on. */
    lemma StuckBefore(t: Table, last: nat, prev: nat, have: nat, p: nat, to: nat)
      requires Stuck() && Taken(fat, chain, t, last, prev, |chain| - have) && !SlotInside(fat.geo, chain, p) && p <= to
      ensures InTable(t, last) && prev < |t| && !CanGrow(t, last, prev, Need(have, ClustIndex(fat.geo, to / 16) + 1))
    {
      hide Geometry.Ok, Fat0, Fat.View, CanGrow, Taken, Choose;
      QuotMonotone(p / 16, to / 16, fat.geo.Spc());
      FellShort(fat, chain, t, last, prev, have, ClustIndex(fat.geo, to / 16) + 1);
    }

    /** No cluster can be found to lengthen the directory with: the table is full or broken. */
    ghost predicate Stuck()
      reads Repr()
    {
      Attached() && !Choose(Fat0(fat.geo, fat.View()), fat.lastUsed, chain[|chain| - 1]).Found?
    }

    /** `dir_at_clust`. */
    method AtClust(c: nat, ghost i: nat)
      requires Attached() && i < |chain| && c == chain[i]
      modifies `clust, `sect, `idx, `pos
      ensures Valid() && pos == 16 * Times(i, fat.geo.Spc()) && clust == c
    {
      hide Geometry.Ok, Fat0, IsChain, Fat.View, ClustIndex, FileSect, Times, SlotInside;
      AtStart(fat.geo, chain, i);
      clust := c;
      sect := ClustToSect(fat.geo, c);
      idx := 0;
      pos := 16 * Times(i, fat.geo.Spc());
    }

    /** `fat_dir_rewind`. */
    method Rewind()
      requires Attached()
      modifies `clust, `sect, `idx, `pos
      ensures Valid() && pos == 0
    {
      AtClust(sclust, 0);
    }

    /** `dir_next`: one slot on, EOF behind the last slot of the chain. */
    method Next() returns (err: int)
      requires Valid()
      modifies `clust, `sect, `idx, `pos, fat`sect, fat`bufDirty, fat.buf, fat.disk
      ensures err == ERR_NONE || err == ERR_EOF || err == ERR_IO
      ensures |fat.disk.image| == old(|fat.disk.image|)
      ensures fat.disk.faults >= old(fat.disk.faults) && (err == ERR_IO ==> fat.disk.faults > old(fat.disk.faults))
      ensures err != ERR_IO ==> Attached() && fat.View() == old(fat.View()) && Parked(fat.geo, chain, old(fat.sect), fat.sect)
      ensures err == ERR_NONE ==> Valid() && pos == old(pos) + 1
      ensures err == ERR_EOF ==> clust == chain[|chain| - 1] && old(pos) + 1 == SlotCount(fat.geo, chain)
    {
      hide Geometry.Ok, Fat0, IsChain, Fat.View, ClustIndex, FileSect, Quot, Rem, Pow2, Logged, SlotCount, SlotInside, OnChain;
      ghost var k := pos / 16;
      idx := idx + 32;
      if idx < 512 {
        pos := pos + 1;
        SameSector(fat.geo, chain, pos - 1);
        return ERR_NONE;
      }
      idx := 0;
      sect := sect + 1;
      NextSector(fat.geo, |fat.disk.image|, chain, pos);
      if Rem(sect, fat.geo.Spc()) != 0 {
        pos := pos + 1;
        return ERR_NONE;
      }
      var next, flags;
      err, next, flags := NextCluster(ClustIndex(fat.geo, k));
      if err != ERR_NONE {
        return;
      }
      clust := next;
      sect := ClustToSect(fat.geo, next);
      pos := pos + 1;
    }

    /** The part of `dir_next` that asks the table for the next cluster. */
    method NextCluster(ghost i: nat) returns (err: int, next: nat, flags: nat)
      requires Attached() && i < |chain| && clust == chain[i]
      modifies fat`sect, fat`bufDirty, fat.buf, fat.disk
      ensures err == ERR_NONE || err == ERR_EOF || err == ERR_IO
      ensures |fat.disk.image| == old(|fat.disk.image|)
      ensures fat.disk.faults >= old(fat.disk.faults) && (err == ERR_IO ==> fat.disk.faults > old(fat.disk.faults))
      ensures err != ERR_IO ==> Attached() && fat.View() == old(fat.View()) && Parked(fat.geo, chain, old(fat.sect), fat.sect)
      ensures err == ERR_NONE ==> i + 1 < |chain| && next == chain[i + 1]
      ensures err == ERR_EOF ==> i + 1 == |chain|
    {
      hide Geometry.Ok, Fat0, Fat.View, Logged, OnChain;
      TableNotData(fat.geo, |fat.disk.image|, clust);
      err, next, flags := fat.GetFat(clust);
      if err != ERR_NONE {
        return;
      }
      if flags == CLUST_BAD || flags == CLUST_FREE {
        return ERR_BROKEN, next, flags;
      }
      if flags == CLUST_LAST {
        return ERR_EOF, next, flags;
      }
    }

    /** The part of `dir_next_stretch` that adds a cluster. */
    method Link() returns (err: int)
      requires Attached() && clust == chain[|chain| - 1]
      modifies `clust, `sect, `idx, `pos, `chain, fat, fat.buf, fat.disk
      ensures err != ERR_EOF
      ensures |fat.disk.image| == old(|fat.disk.image|)
      ensures fat.disk.faults >= old(fat.disk.faults) && (err == ERR_IO ==> fat.disk.faults > old(fat.disk.faults))
      ensures err == ERR_NONE || fat.disk.faults == old(fat.disk.faults) ==>
        Local(fat.geo, old(fat.View()), old(fat.sect), old(chain), fat.View(), fat.sect, chain)
        && Taken(fat, chain, old(Entries()), old(fat.lastUsed), old(Tail()), |chain| - old(|chain|))
      ensures err != ERR_NONE && fat.disk.faults == old(fat.disk.faults) ==>
        Stuck() && chain == old(chain) && fat.View() == old(fat.View())
      ensures err == ERR_NONE ==>
        && Valid() && pos == old(SlotCount(fat.geo, chain)) && 2 <= clust < fat.geo.clustCnt
        && fat.disk.image == fat.View()
        && chain == old(chain) + [clust] && Moved(fat.geo, old(fat.View()), old(chain), fat.View(), chain)
    {
      hide Geometry.Ok, Fat0, Fat1, PutInfo, GrowthImage, GrowthImages, SameElsewhere, Stretched, Choose, InfoHolds, Logged,
        Extends, Add32, IsChain, Fat.View, ClustIndex, FileSect, SlotInside, Times, Local, Moved, OnChain, Geometry.InFat, Parked, Grew;
      ghost var t, last, v, k, c := Fat0(fat.geo, fat.View()), fat.lastUsed, fat.View(), fat.sect, chain;
      TailInChain(t, chain);
      GrewNone(t, last, Tail());
      var next;
      ghost var ok;
      var junk: nat := *;
      err, next, ok := fat.StretchChain(clust, junk);
      if err != ERR_NONE {
        if fat.disk.faults == old(fat.disk.faults) { StayedLocal(fat.geo, v, c, k, fat.sect); }
        return;
      }
      ChooseFree(t, last, clust);
      GrewOne(t, last, clust, next);
      StretchIsExtension(t, chain, next);
      StretchExtends(t, chain, next);
      MovedByStretch(fat.geo, v, c, fat.View(), c + [next]);
      InfoLocal(fat.geo, v, k, c, fat.View(), c + [next]);
      chain := chain + [next];
      AtClust(next, |chain| - 1);
    }

    /** The part of `dir_next_stretch` that adds a cluster and clears it. */
    method Append() returns (err: int)
      requires Attached() && clust == chain[|chain| - 1]
      modifies `clust, `sect, `idx, `pos, `chain, fat, fat.buf, fat.disk
      ensures err != ERR_EOF
      ensures |fat.disk.image| == old(|fat.disk.image|)
      ensures fat.disk.faults >= old(fat.disk.faults) && (err == ERR_IO ==> fat.disk.faults > old(fat.disk.faults))
      ensures err == ERR_NONE || fat.disk.faults == old(fat.disk.faults) ==>
        Attached() && Taken(fat, chain, old(Entries()), old(fat.lastUsed), old(Tail()), |chain| - old(|chain|))
      ensures err == ERR_NONE ==> |chain| == old(|chain|) + 1
      ensures err != ERR_NONE && fat.disk.faults == old(fat.disk.faults) ==>
        && Stuck() && chain == old(chain) && fat.View() == old(fat.View())
        && Local(fat.geo, old(fat.View()), old(fat.sect), old(chain), fat.View(), fat.sect, chain)
      ensures err == ERR_NONE ==>
        && Valid() && pos == old(SlotCount(fat.geo, chain))
        && Local(fat.geo, old(fat.View()), old(fat.sect), old(chain), fat.View(), fat.sect, chain)
        && Longer(old(Content()), Content())
    {
      hide Geometry.Ok, Fat0, Moved, IsChain, Fat.View, Slots, Cleared, Kept, Longer, SlotCount, ClustIndex, FileSect, SlotInside,
        ClustToSect, Local, OnChain, Parked, Taken, Grew;
      ghost var v, s := fat.View(), chain;
      err := Link();
      if err != ERR_NONE {
        return;
      }
      GrowAndClear(fat.geo, v, s, fat.View(), clust);
      ghost var k1, v1 := fat.sect, fat.View();
      ghost var t, last, tail, t1, tail1 := old(Entries()), old(fat.lastUsed), old(Tail()), Entries(), Tail();
      TakenHere(t, last, tail, |chain| - |s|);
      ClearedTables(fat.geo, v1, clust, fat.geo.Spc());
      err := fat.ClustClear(clust);
      if err == ERR_NONE { ClearedLocal(fat.geo, v, old(fat.sect), s, fat.View(), fat.sect, clust); }
      if err == ERR_NONE { StillTaken(t, last, tail, |chain| - |s|, t1, fat.lastUsed, tail1); }
    }

    /** `dir_next_stretch`: one slot on, into a new empty cluster when the chain ends here. */
    method NextStretch() returns (err: int)
      requires Valid()
      modifies `clust, `sect, `idx, `pos, `chain, fat, fat.buf, fat.disk
      ensures err != ERR_EOF
      ensures |fat.disk.image| == old(|fat.disk.image|)
      ensures fat.disk.faults >= old(fat.disk.faults) && (err == ERR_IO ==> fat.disk.faults > old(fat.disk.faults))
      ensures err == ERR_NONE || fat.disk.faults == old(fat.disk.faults) ==>
        Since(old(fat.View()), old(fat.sect), old(chain), old(Content()), old(Entries()), old(fat.lastUsed), old(Tail()))
      ensures fat.disk.faults == old(fat.disk.faults) ==> (err == ERR_NONE <==> old(Reaches(pos + 1)))
      ensures err != ERR_NONE && fat.disk.faults == old(fat.disk.faults) ==> !SlotInside(fat.geo, chain, old(pos) + 1)
      ensures err != ERR_NONE && fat.disk.faults == old(fat.disk.faults) ==> Stuck()
      ensures err == ERR_NONE ==>
        Valid() && pos == old(pos) + 1
    {
      hide Geometry.Ok, Fat0, IsChain, Fat.View, Slots, Kept, FileSect, ClustIndex, SlotInside, SlotCount, Local, Parked,
        Longer, Choose, Taken, Grew, CanGrow;
      ghost var v, k, c := fat.View(), fat.sect, chain;
      LongerRefl(Content());
      NoneTaken();
      ReachesMeans(pos + 1);
      ghost var t, last, tail, to := Entries(), fat.lastUsed, Tail(), pos + 1;
      TakenHere(t, last, tail, 0);
      err := Next();
      if err != ERR_IO {
        LocalParked(fat.geo, v, k, c, fat.sect);
        StillTaken(t, last, tail, 0, t, last, tail);
      }
      if err == ERR_NONE { CameTo(t, last, tail, |c|, to); }
      if err != ERR_EOF {
        return;
      }
      ghost var k1 := fat.sect;
      SlotInsideCount(fat.geo, c, to);
      err := Append();
      if err == ERR_NONE { CameTo(t, last, tail, |c|, to); }
      if err != ERR_NONE && fat.disk.faults == old(fat.disk.faults) { StuckBefore(t, last, tail, |c|, to, to); }
      if err == ERR_NONE || fat.disk.faults == old(fat.disk.faults) {
        LocalTrans(fat.geo, v, k, c, v, k1, c, fat.View(), fat.sect, chain);
      }
    }

    // ---------------------------------------------------------------- one slot

    /** Loads the sector of the cursor; the slot is then in the buffer at `idx`. */
    method Load() returns (err: int)
      requires Valid()
      modifies fat`sect, fat`bufDirty, fat.buf, fat.disk
      ensures err == ERR_NONE || err == ERR_IO
      ensures |fat.disk.image| == old(|fat.disk.image|)
      ensures fat.disk.faults >= old(fat.disk.faults) && (err == ERR_IO ==> fat.disk.faults > old(fat.disk.faults))
      ensures err == ERR_NONE ==>
        && Valid() && fat.View() == old(fat.View()) && fat.sect == sect && OnChain(fat.geo, chain, fat.sect) && idx + 32 <= 512
        && pos < |Content()| && fat.buf[..] == fat.View()[sect] && fat.buf[idx..idx + 32] == Content()[pos]
    {
      hide Geometry.Ok, Fat0, IsChain, Fat.View, ClustIndex, FileSect, SlotCount, Logged, OnChain;
      SlotSector(fat.geo, |fat.disk.image|, chain, pos);
      SlotInsideCount(fat.geo, chain, pos);
      err := fat.UpdateBuf(sect);
    }

    /** After the slot at the cursor was rewritten in the buffer, the directory has that slot rewritten. */
    lemma Rewritten(v: Image)
      requires fat.Valid() && |v| == |fat.disk.image| && IsChain(Fat0(fat.geo, v), chain) && Usable(fat.geo, chain)
      requires chain[0] == sclust && SlotInside(fat.geo, chain, pos) && clust == chain[ClustIndex(fat.geo, pos / 16)]
      requires sect == FileSect(fat.geo, chain, pos / 16) && idx == 32 * (pos % 16) && sect < |v|
      requires fat.View() == v[sect := fat.buf[..]] && SameOutside(fat.buf[..], v[sect], idx)
      ensures Valid() && Kept(fat.geo, v, chain, fat.View(), chain) && pos < SlotCount(fat.geo, chain)
      ensures Content() == Slots(fat.geo, v, chain)[pos := fat.buf[idx..idx + 32]]
    {
      hide Geometry.Ok, Fat0, Fat1, IsChain, Fat.View, ClustIndex, FileSect, SlotCount, Kept, Slots;
      SlotSector(fat.geo, |v|, chain, pos);
      ChainDistinct(Fat0(fat.geo, v), chain);
      KeptOver(fat.geo, v, chain, sect, fat.buf[..]);
      SlotsPut(fat.geo, v, chain, pos, fat.buf[..]);
    }

    /** Writes a long-name slot at the cursor. */
    method WriteFrag(frag: seq<byte>, seqNo: byte, crc: byte) returns (err: int)
      requires Valid() && |frag| <= 13
      modifies fat`sect, fat`bufDirty, fat.buf, fat.disk
      ensures err == ERR_NONE || err == ERR_IO
      ensures |fat.disk.image| == old(|fat.disk.image|)
      ensures fat.disk.faults >= old(fat.disk.faults) && (err == ERR_IO ==> fat.disk.faults > old(fat.disk.faults))
      ensures err == ERR_NONE ==>
        && Valid() && Local(fat.geo, old(fat.View()), old(fat.sect), chain, fat.View(), fat.sect, chain) && pos < |Content()|
        && IsFragSlot(Content()[pos], frag, seqNo, crc) && Content() == old(Content())[pos := Content()[pos]]
    {
      hide Geometry.Ok, Fat0, IsChain, ClustIndex, FileSect, SlotCount, Kept, Slots, IsFragSlot, Local, OnChain;
      ghost var k := fat.sect;
      ghost var v := fat.View();
      err := Load();
      if err != ERR_NONE {
        return;
      }
      fat.bufDirty := true;
      PutFragSlot(fat.buf, idx, frag, seqNo, crc);
      SlotSector(fat.geo, |v|, chain, pos);
      assert fat.View() == v[sect := fat.buf[..]];
      Rewritten(v);
      LocalAt(fat.geo, v, k, chain, fat.View(), fat.sect);
    }

    /** Writes a whole slot at the cursor. */
    method WriteSlot(s: Slot) returns (err: int)
      requires Valid()
      modifies fat`sect, fat`bufDirty, fat.buf, fat.disk
      ensures err == ERR_NONE || err == ERR_IO
      ensures |fat.disk.image| == old(|fat.disk.image|)
      ensures fat.disk.faults >= old(fat.disk.faults) && (err == ERR_IO ==> fat.disk.faults > old(fat.disk.faults))
      ensures err == ERR_NONE ==>
        && Valid() && Local(fat.geo, old(fat.View()), old(fat.sect), chain, fat.View(), fat.sect, chain) && pos < |Content()|
        && Content() == old(Content())[pos := s]
    {
      hide Geometry.Ok, Fat0, IsChain, ClustIndex, FileSect, SlotCount, Kept, Slots, Local, OnChain;
      ghost var k := fat.sect;
      ghost var v := fat.View();
      err := Load();
      if err != ERR_NONE {
        return;
      }
      fat.bufDirty := true;
      PutSlot(fat.buf, idx, s);
      SlotSector(fat.geo, |v|, chain, pos);
      assert fat.View() == v[sect := fat.buf[..]];
      Rewritten(v);
      LocalAt(fat.geo, v, k, chain, fat.View(), fat.sect);
    }

    /** Overwrites the first byte of the slot at the cursor, which is what frees it or makes it the end. */
    method Mark(b: byte) returns (err: int)
      requires Valid()
      modifies fat`sect, fat`bufDirty, fat.buf, fat.disk
      ensures err == ERR_NONE || err == ERR_IO
      ensures |fat.disk.image| == old(|fat.disk.image|)
      ensures fat.disk.faults >= old(fat.disk.faults) && (err == ERR_IO ==> fat.disk.faults > old(fat.disk.faults))
      ensures err == ERR_NONE ==>
        && Valid() && Local(fat.geo, old(fat.View()), old(fat.sect), chain, fat.View(), fat.sect, chain)
        && pos < |Content()| == old(|Content()|)
        && Content() == old(Content())[pos := old(Content())[pos][0 := b]]
    {
      hide Geometry.Ok, Fat0, IsChain, ClustIndex, FileSect, SlotCount, Kept, Slots, Local, OnChain;
      ghost var k := fat.sect;
      ghost var v, c := fat.View(), Content();
      err := Load();
      if err != ERR_NONE {
        return;
      }
      fat.bufDirty := true;
      fat.buf[idx] := b;
      SlotSector(fat.geo, |v|, chain, pos);
      assert fat.View() == v[sect := fat.buf[..]];
      assert fat.buf[idx..idx + 32] == c[pos][0 := b];
      Rewritten(v);
      LocalAt(fat.geo, v, k, chain, fat.View(), fat.sect);
    }

    // ---------------------------------------------------------------- adding an entry

    lemma HerePlace()
      requires Valid()
      ensures Place(fat.geo, chain, pos, sect, idx)
    {
    }

    lemma HereInside()
      requires Valid()
      ensures pos < |Content()|
    {
      SlotInsideCount(fat.geo, chain, pos);
    }

    /** The first half of a round of the search in `dir_add`: counts the slot at the cursor, or starts over. */
    method Tally(cnt: nat, rsect: nat, ridx: nat, eod: bool)
        returns (err: int, cnt': nat, rsect': nat, ridx': nat, eod': bool)
      requires Valid() && cnt <= pos && (cnt > 0 ==> Place(fat.geo, chain, pos - cnt, rsect, ridx))
      modifies fat`sect, fat`bufDirty, fat.buf, fat.disk
      ensures err == ERR_NONE || err == ERR_IO
      ensures |fat.disk.image| == old(|fat.disk.image|)
      ensures fat.disk.faults >= old(fat.disk.faults) && (err == ERR_IO ==> fat.disk.faults > old(fat.disk.faults))
      ensures err == ERR_NONE ==>
        && Valid() && Attached() && fat.View() == old(fat.View()) && Content() == old(Content())
        && Entries() == old(Entries()) && Tail() == old(Tail()) && pos < |Content()|
        && Local(fat.geo, fat.View(), old(fat.sect), chain, fat.View(), fat.sect, chain)
        && cnt' == (if eod || IsVacant(Content()[pos]) then cnt + 1 else 0) && eod' == (eod || IsEnd(Content()[pos]))
        && (cnt' > 0 ==> Place(fat.geo, chain, pos + 1 - cnt', rsect', ridx'))
    {
      hide Geometry.Ok, Fat0, IsChain, Fat.View, ClustIndex, FileSect, SlotInside, SlotCount, Slots, Place, Local, OnChain;
      cnt', rsect', ridx', eod' := cnt, rsect, ridx, eod;
      ghost var k := fat.sect;
      err := Load();
      if err != ERR_NONE {
        return;
      }
      LocalHere(fat.geo, fat.View(), k, chain, fat.sect);
      HerePlace();
      var first := fat.buf[idx];
      assert first == Content()[pos][0];
      if eod || first == SLOT_LAST || first == SLOT_FREE {
        if cnt == 0 {
          rsect', ridx' := sect, idx;
        }
        cnt' := cnt + 1;
      } else {
        cnt' := 0;
      }
      if first == SLOT_LAST {
        eod' := true;
      }
    }

    lemma NowAttached()
      requires Valid()
      ensures Attached() && fat.buf.Length == 512 && fat.geo.Ok(|fat.View()|)
    {
    }

    lemma HereSlot()
      requires Valid()
      ensures SlotInside(fat.geo, chain, pos)
    {
    }

    /** One round of the search in `dir_add`: counts the slot at the cursor and goes on to the next. */
    method TallyOne(cnt: nat, rsect: nat, ridx: nat, eod: bool)
        returns (err: int, cnt': nat, rsect': nat, ridx': nat, eod': bool)
      requires Valid() && cnt <= pos < |Content()| && (cnt > 0 ==> Place(fat.geo, chain, pos - cnt, rsect, ridx))
      modifies `clust, `sect, `idx, `pos, `chain, fat, fat.buf, fat.disk
      ensures |fat.disk.image| == old(|fat.disk.image|)
      ensures fat.disk.faults >= old(fat.disk.faults) && (err == ERR_IO ==> fat.disk.faults > old(fat.disk.faults))
      ensures err == ERR_NONE || fat.disk.faults == old(fat.disk.faults) ==>
        Attached() && Since(old(fat.View()), old(fat.sect), old(chain), old(Content()), old(Entries()), old(fat.lastUsed), old(Tail()))
      ensures fat.disk.faults == old(fat.disk.faults) ==> (err == ERR_NONE <==> old(Reaches(pos + 1)))
      ensures err != ERR_NONE && fat.disk.faults == old(fat.disk.faults) ==> Stuck() && !SlotInside(fat.geo, chain, old(pos) + 1)
      ensures err == ERR_NONE ==>
        && Valid() && pos == old(pos) + 1 < |Content()|
        && cnt' == (if eod || IsVacant(old(Content())[old(pos)]) then cnt + 1 else 0)
        && (eod' <==> eod || IsEnd(old(Content())[old(pos)]))
        && cnt' <= pos && (cnt' > 0 ==> Place(fat.geo, chain, pos - cnt', rsect', ridx'))
    {
      hide Geometry.Ok, Fat0, IsChain, Fat.View, ClustIndex, FileSect, SlotInside, SlotCount, Kept, Slots, Place, Longer,
        Local, Parked, OnChain, Choose, Taken, Grew, CanGrow, Dir.Since, Dir.Reaches, Dir.Stuck, ChainIn, Dir.Content;
      ghost var s, v, c, k := Content(), fat.View(), chain, fat.sect;
      ghost var t, last, tail := Entries(), fat.lastUsed, Tail();
      ChainNow();
      ReachesMeans(pos + 1);
      LongerRefl(s);
      err, cnt', rsect', ridx', eod' := Tally(cnt, rsect, ridx, eod);
      if err != ERR_NONE {
        return;
      }
      ghost var k1 := fat.sect;
      NoneTaken();
      TakenHere(t, last, tail, 0);
      ReachesMeans(pos + 1);
      err := NextStretch();
      if err == ERR_NONE || fat.disk.faults == old(fat.disk.faults) {
        SinceOn(v, k, c, s, t, last, tail, v, k1, c, s, t, last, tail);
        SinceParts(v, k, c, s, t, last, tail);
      }
      if err != ERR_NONE {
        return;
      }
      HereInside();
      if cnt' > 0 { LocalPlaces(fat.geo, v, k, c, fat.View(), fat.sect, chain, pos - cnt', rsect', ridx'); }
    }

    /** The same with what the search knows of the slots behind it. */
    method SearchOne(cnt: nat, rsect: nat, ridx: nat, eod: bool, ghost stop: nat)
        returns (err: int, cnt': nat, rsect': nat, ridx': nat, eod': bool, ghost stop': nat)
      requires Valid() && Searching(Content(), pos, cnt, eod, stop)
      requires cnt > 0 ==> Place(fat.geo, chain, pos - cnt, rsect, ridx)
      modifies `clust, `sect, `idx, `pos, `chain, fat, fat.buf, fat.disk
      ensures |fat.disk.image| == old(|fat.disk.image|)
      ensures fat.disk.faults >= old(fat.disk.faults) && (err == ERR_IO ==> fat.disk.faults > old(fat.disk.faults))
      ensures err == ERR_NONE || fat.disk.faults == old(fat.disk.faults) ==>
        Attached() && Since(old(fat.View()), old(fat.sect), old(chain), old(Content()), old(Entries()), old(fat.lastUsed), old(Tail()))
      ensures fat.disk.faults == old(fat.disk.faults) ==> (err == ERR_NONE <==> old(Reaches(pos + 1)))
      ensures err != ERR_NONE && fat.disk.faults == old(fat.disk.faults) ==> Stuck() && !SlotInside(fat.geo, chain, old(pos) + 1)
      ensures err == ERR_NONE ==>
        && Valid() && pos == old(pos) + 1 < |Content()| && Searching(Content(), pos, cnt', eod', stop')
        && cnt' == (if eod || IsVacant(old(Content())[old(pos)]) then cnt + 1 else 0)
        && (eod' <==> eod || IsEnd(old(Content())[old(pos)]))
        && cnt' <= pos && (cnt' > 0 ==> Place(fat.geo, chain, pos - cnt', rsect', ridx'))
    {
      hide *;
      NowAttached();
      SearchingBounds(Content(), pos, cnt, eod, stop);
      ghost var s, v, c, k, p := Content(), fat.View(), chain, fat.sect, pos;
      ghost var t, last, tail := Entries(), fat.lastUsed, Tail();
      stop' := if eod then stop else if IsEnd(s[pos]) then pos else pos + 1;
      err, cnt', rsect', ridx', eod' := TallyOne(cnt, rsect, ridx, eod);
      if err != ERR_NONE {
        return;
      }
      SinceParts(v, k, c, s, t, last, tail);
      SearchStep(s, Content(), p, cnt, eod, stop, cnt', eod', stop');
    }

    /** The search of `dir_add` for `n` slots to use, lengthening the directory where it must. It ends behind
        the run and reports where the run starts and whether the end marker was passed. */
    method Search(n: nat) returns (err: int, rsect: nat, ridx: nat, eod: bool, ghost stop: nat)
      requires Valid() && pos == 0 && n > 0
      modifies `clust, `sect, `idx, `pos, `chain, fat, fat.buf, fat.disk
      ensures |fat.disk.image| == old(|fat.disk.image|)
      ensures fat.disk.faults >= old(fat.disk.faults) && (err == ERR_IO ==> fat.disk.faults > old(fat.disk.faults))
      ensures err == ERR_NONE || fat.disk.faults == old(fat.disk.faults) ==>
        Attached() && Since(old(fat.View()), old(fat.sect), old(chain), old(Content()), old(Entries()), old(fat.lastUsed), old(Tail()))
      ensures fat.disk.faults == old(fat.disk.faults) ==> (err == ERR_NONE <==> old(Reaches(SearchEnd(Content(), 0, 0, n))))
      ensures err != ERR_NONE && fat.disk.faults == old(fat.disk.faults) ==> Stuck()
      ensures err == ERR_NONE ==>
        && Valid() && n <= pos == old(SearchEnd(Content(), 0, 0, n)) && FreeRun(Content(), pos - n, n, stop, eod)
        && Place(fat.geo, chain, pos - n, rsect, ridx)
    {
      hide *;
      CodesDiffer();
      NowAttached();
      ghost var v, c, s, k := fat.View(), chain, Content(), fat.sect;
      ChainNow();
      SinceNow();
      HereInside();
      ghost var t, last, tail, end := Entries(), fat.lastUsed, Tail(), SearchEnd(s, 0, 0, n);
      ReachesMeans(end);
      ExpectedStart(s, n);
      var cnt: nat := 0;
      rsect, ridx, eod, stop := 0, 0, false, 0;
      SearchingStart(s);
      while cnt < n
        invariant Valid() && Attached() && cnt <= n && |fat.disk.image| == |v|
        invariant fat.disk.faults >= old(fat.disk.faults)
        invariant Since(v, k, c, s, t, last, tail)
        invariant Searching(Content(), pos, cnt, eod, stop) && cnt <= pos < |Content()|
        invariant cnt > 0 ==> Place(fat.geo, chain, pos - cnt, rsect, ridx)
        invariant !eod ==> pos <= |s|
        invariant Expected(Content(), pos, cnt, eod, n) == end
        decreases if eod then 0 else 1, if eod then n - cnt else |s| - pos
      {
        NowAttached();
        ghost var s1, v1, c1, k1, f1 := Content(), fat.View(), chain, fat.sect, fat.disk.faults;
        ghost var t1, last1, tail1, p, cnt1, eod1 := Entries(), fat.lastUsed, Tail(), pos, cnt, eod;
        HereInside();
        SinceParts(v, k, c, s, t, last, tail);
        if pos >= |s| { LongerEnds(s, s1, pos); }
        err, cnt, rsect, ridx, eod, stop := SearchOne(cnt, rsect, ridx, eod, stop);
        if err == ERR_NONE || fat.disk.faults == f1 {
          SinceParts(v1, k1, c1, s1, t1, last1, tail1);
          SinceOn(v, k, c, s, t, last, tail, v1, k1, c1, s1, t1, last1, tail1);
        }
        if err != ERR_NONE {
          if fat.disk.faults == old(fat.disk.faults) {
            SinceParts(v, k, c, s, t, last, tail);
            StuckBefore(t, last, tail, |c|, p + 1, end);
          }
          return;
        }
        ExpectedOn(s1, Content(), p, cnt1, eod1, n, cnt, eod);
      }
      SinceParts(v, k, c, s, t, last, tail);
      SearchingFree(Content(), pos, n, eod, stop);
      HereSlot();
      CameTo(t, last, tail, |c|, end);
      return ERR_NONE, rsect, ridx, eod, stop;
    }

    /** Moves the cursor back to a place it has recorded. */
    method JumpTo(rsect: nat, ridx: nat, ghost k: nat)
      requires Attached() && Place(fat.geo, chain, k, rsect, ridx)
      modifies `clust, `sect, `idx, `pos
      ensures Valid() && pos == k
    {
      hide Geometry.Ok, Fat0, IsChain, Fat.View, ClustToSect, ClustIndex;
      FileSectOnChain(fat.geo, chain, k / 16);
      clust := SectToClust(fat.geo, rsect);
      sect := rsect;
      idx := ridx;
      pos := k;
    }

    /** The loop of `dir_add` that writes the long-name slots, the last fragment first. */
    method WriteFrags(name: seq<byte>, crc: byte) returns (err: int)
      requires Valid() && 1 <= |name| <= 255 && pos + FragCount(|name|) < |Content()|
      modifies `clust, `sect, `idx, `pos, fat`sect, fat`bufDirty, fat.buf, fat.disk
      ensures err == ERR_NONE || err == ERR_IO
      ensures |fat.disk.image| == old(|fat.disk.image|)
      ensures fat.disk.faults >= old(fat.disk.faults) && (err == ERR_IO ==> fat.disk.faults > old(fat.disk.faults))
      ensures err == ERR_NONE ==>
        && Valid() && pos == old(pos) + FragCount(|name|)
        && Local(fat.geo, old(fat.View()), old(fat.sect), chain, fat.View(), fat.sect, chain)
        && |Content()| == old(|Content()|) && HoldsName(Content(), old(pos), name, crc)
        && SameBut(old(Content()), Content(), old(pos), pos)
    {
      hide Geometry.Ok, Fat0, IsChain, Fat.View, ClustIndex, FileSect, SlotInside, SlotCount, Kept, Slots, IsFragSlot, FragOf,
        Local, Parked;
      var n := FragCount(|name|);
      ghost var v, c, p, k := fat.View(), Content(), pos, fat.sect;
      LocalRefl(fat.geo, v, k, chain);
      var i := n;
      while i > 0
        invariant 0 <= i <= n && Valid() && pos == p + (n - i) && |fat.disk.image| == |v|
        invariant Local(fat.geo, v, k, chain, fat.View(), fat.sect, chain) && fat.disk.faults >= old(fat.disk.faults)
        invariant |Content()| == |c| && SameBut(c, Content(), p, pos)
        invariant FragsFrom(Content(), p, name, crc, i)
      {
        ghost var v1, c1, k1 := fat.View(), Content(), fat.sect;
        err := WriteFrag(FragOf(name, i), SeqNo(i, n), crc);
        if err != ERR_NONE {
          return;
        }
        LocalTrans(fat.geo, v, k, chain, v1, k1, chain, fat.View(), fat.sect, chain);
        FragsStep(c1, Content(), p, name, crc, i);
        ghost var c2, v2, k2 := Content(), fat.View(), fat.sect;
        err := Next();
        if err != ERR_NONE {
          return;
        }
        LocalParked(fat.geo, v2, k2, chain, fat.sect);
        LocalTrans(fat.geo, v, k, chain, v2, k2, chain, fat.View(), fat.sect, chain);
        i := i - 1;
      }
      return ERR_NONE;
    }

    /** The writing half of `dir_add`: fragments, then the short slot. */
    method WriteEntry(name: seq<byte>, sfn: Slot) returns (err: int)
      requires Valid() && 1 <= |name| <= 255 && pos + FragCount(|name|) < |Content()| && !IsVacant(sfn)
      modifies `clust, `sect, `idx, `pos, fat`sect, fat`bufDirty, fat.buf, fat.disk
      ensures err == ERR_NONE || err == ERR_IO
      ensures |fat.disk.image| == old(|fat.disk.image|)
      ensures fat.disk.faults >= old(fat.disk.faults) && (err == ERR_IO ==> fat.disk.faults > old(fat.disk.faults))
      ensures err == ERR_NONE ==>
        && Valid() && pos == old(pos) + FragCount(|name|)
        && Local(fat.geo, old(fat.View()), old(fat.sect), chain, fat.View(), fat.sect, chain)
        && HoldsEntry(Content(), old(pos), name, sfn) && SameBut(old(Content()), Content(), old(pos), pos + 1)
    {
      hide Geometry.Ok, Fat0, IsChain, Fat.View, ClustIndex, FileSect, SlotInside, SlotCount, Kept, Slots, IsFragSlot, Crc, Local;
      ghost var v, c, p, k := fat.View(), Content(), pos, fat.sect;
      var crc := GetCrc(sfn[..11]);
      err := WriteFrags(name, crc);
      if err != ERR_NONE {
        return;
      }
      ghost var v1, c1, k1 := fat.View(), Content(), fat.sect;
      err := WriteSlot(sfn);
      if err != ERR_NONE {
        return;
      }
      LocalTrans(fat.geo, v, k, chain, v1, k1, chain, fat.View(), fat.sect, chain);
      HoldsNameFrame(c1, Content(), p, name, crc);
    }

    /** The searching half of `dir_add`: a run of slots, an end marker behind it when the old one will be
        overwritten, and the cursor at the start of the run. */
    method MakeRoom(n: nat) returns (err: int, ghost grown: seq<Slot>, ghost eod: bool, ghost stop: nat)
      requires Attached() && n > 0
      modifies `clust, `sect, `idx, `pos, `chain, fat, fat.buf, fat.disk
      ensures |fat.disk.image| == old(|fat.disk.image|)
      ensures fat.disk.faults >= old(fat.disk.faults) && (err == ERR_IO ==> fat.disk.faults > old(fat.disk.faults))
      ensures err == ERR_NONE || fat.disk.faults == old(fat.disk.faults) ==>
        Local(fat.geo, old(fat.View()), old(fat.sect), old(chain), fat.View(), fat.sect, chain)
      ensures fat.disk.faults == old(fat.disk.faults) ==> (err == ERR_NONE <==> old(Reaches(SearchEnd(Content(), 0, 0, n))))
      ensures err != ERR_NONE && fat.disk.faults == old(fat.disk.faults) ==> Stuck() && Longer(old(Content()), Content())
      ensures err == ERR_NONE ==>
        && Valid()
        && pos + n == old(SearchEnd(Content(), 0, 0, n)) && Longer(old(Content()), grown) && FreeRun(grown, pos, n, stop, eod) && |Content()| == |grown|
        && SameBut(grown, Content(), pos + n, pos + n + 1)
        && (if eod then IsEnd(Content()[pos + n]) else Content()[pos + n] == grown[pos + n])
    {
      hide Geometry.Ok, Fat0, IsChain, Fat.View, ClustIndex, FileSect, SlotInside, SlotCount, Kept, Slots, Place, Longer,
        Local, Choose, SearchEnd, Dir.Reaches, Taken, FreeRun;
      ghost var v, c, k := fat.View(), chain, fat.sect;
      ReachesMeans(SearchEnd(Content(), 0, 0, n));
      Rewind();
      ReachesMeans(SearchEnd(Content(), 0, 0, n));
      var rsect, ridx, seen;
      err, rsect, ridx, seen, stop := Search(n);
      eod, grown := seen, [];
      if err != ERR_NONE {
        return;
      }
      grown := Content();
      ghost var v1, c1, at, k1 := fat.View(), chain, pos - n, fat.sect;
      if seen {
        err := Mark(SLOT_LAST);
        if err != ERR_NONE {
          return;
        }
        LocalTrans(fat.geo, v, k, c, v1, k1, c1, fat.View(), fat.sect, chain);
      }
      JumpTo(rsect, ridx, at);
    }

    /** The body of `dir_add` once name and short slot are known. */
    method AddNamed(name: seq<byte>, sfn: Slot, ghost signed: bool) returns (err: int)
      requires Attached() && 1 <= |name| <= 255 && !IsVacant(sfn)
      modifies `clust, `sect, `idx, `pos, `chain, fat, fat.buf, fat.disk
      ensures |fat.disk.image| == old(|fat.disk.image|)
      ensures fat.disk.faults >= old(fat.disk.faults) && (err == ERR_IO ==> fat.disk.faults > old(fat.disk.faults))
      ensures err == ERR_NONE || fat.disk.faults == old(fat.disk.faults) ==>
        Local(fat.geo, old(fat.View()), old(fat.sect), old(chain), fat.View(), fat.sect, chain)
      ensures fat.disk.faults == old(fat.disk.faults) ==>
        (err == ERR_NONE <==> old(Reaches(SearchEnd(Content(), 0, 0, FragCount(|name|) + 1))))
      ensures err != ERR_NONE && fat.disk.faults == old(fat.disk.faults) ==> Stuck() && Longer(old(Content()), Content())
      ensures err == ERR_NONE ==>
        && Valid() && pos < |Content()| && Content()[pos] == sfn
        && pos + 1 == old(SearchEnd(Content(), 0, 0, FragCount(|name|) + 1))
        && Placed(old(Content()), Content(), pos - FragCount(|name|), name, sfn)
        && Inserts(old(Content()), Content(), Entry(name, sfn), signed)
    {
      hide Geometry.Ok, Fat0, IsChain, Fat.View, ClustIndex, FileSect, SlotInside, SlotCount, Kept, Slots, Longer, Inserts, FreeRun,
        HoldsName, Local, Choose, SameBut, Dir.Stuck, Dir.Reaches, Dir.Content, SearchEnd, Placed;
      ghost var v, c, s, k := fat.View(), chain, Content(), fat.sect;
      ghost var grown, eod, stop;
      err, grown, eod, stop := MakeRoom(FragCount(|name|) + 1);
      if err != ERR_NONE {
        return;
      }
      ghost var v1, c1, s1, at, k1 := fat.View(), chain, Content(), pos, fat.sect;
      RunFits(grown, at, FragCount(|name|) + 1, stop, eod);
      err := WriteEntry(name, sfn);
      if err != ERR_NONE {
        return;
      }
      LocalTrans(fat.geo, v, k, c, v1, k1, c1, fat.View(), fat.sect, chain);
      AddInserts(s, grown, s1, Content(), at, stop, name, sfn, eod, signed);
    }

    /** `dir_add`: on a sound directory, success inserts exactly one entry, the new name, into the listing. The
        cursor is left on its short slot, and nothing off the directory's chain has changed. */
    method DirAdd(name: seq<byte>, attr: byte, first: nat, date: nat, time: nat, ghost signed: bool) returns (err: int)
      requires Attached() && first < TWO_32 && date < 0x1_0000 && time < 0x1_0000
      modifies `clust, `sect, `idx, `pos, `chain, fat, fat.buf, fat.disk
      ensures !(1 <= |name| <= 255) ==> err == ERR_PARAM && Attached() && Content() == old(Content())
      ensures |fat.disk.image| == old(|fat.disk.image|)
      ensures fat.disk.faults >= old(fat.disk.faults) && (err == ERR_IO ==> fat.disk.faults > old(fat.disk.faults))
      ensures err == ERR_NONE || fat.disk.faults == old(fat.disk.faults) ==>
        Local(fat.geo, old(fat.View()), old(fat.sect), old(chain), fat.View(), fat.sect, chain)
      ensures 1 <= |name| <= 255 && fat.disk.faults == old(fat.disk.faults) ==>
        (err == ERR_NONE <==> old(Reaches(SearchEnd(Content(), 0, 0, FragCount(|name|) + 1))))
      ensures 1 <= |name| <= 255 && err != ERR_NONE && fat.disk.faults == old(fat.disk.faults) ==>
        Stuck() && Longer(old(Content()), Content())
      ensures err == ERR_NONE ==>
        && 1 <= |name| <= 255 && Valid()
        && pos < |Content()| && Content()[pos] == SfnSlot(SfnName(name), attr, first, date, time)
        && pos + 1 == old(SearchEnd(Content(), 0, 0, FragCount(|name|) + 1))
        && Placed(old(Content()), Content(), pos - FragCount(|name|), name, Content()[pos])
        && Inserts(old(Content()), Content(), Entry(name, Content()[pos]), signed)
    {
      hide Geometry.Ok, Fat0, IsChain, Fat.View, ClustIndex, FileSect, SlotInside, SlotCount, Kept, Slots, Longer, SfnSlot, Inserts,
        SfnName, Local, Choose, Dir.Stuck, Placed;
      LocalRefl(fat.geo, fat.View(), fat.sect, chain);
      if |name| == 0 || |name| > 255 {
        return ERR_PARAM;
      }
      var sfnName := new byte[11];
      PutSfnName(sfnName, name);
      var sfn := SfnSlot(sfnName[..], attr, first, date, time);
      SfnInUse(name, attr, first, date, time);
      err := AddNamed(name, sfn, signed);
    }

    // ---------------------------------------------------------------- removing an entry

    /** `remove_entries`: marks the slots from the recorded place up to the cursor as free, and no other. When those
        are the slots of one entry of a sound directory, the listing loses exactly that entry. */
    method RemoveEntries(lsect: nat, lidx: nat, ghost first: nat, ghost signed: bool) returns (err: int)
      requires Valid() && Place(fat.geo, chain, first, lsect, lidx) && first <= pos
      modifies `clust, `sect, `idx, `pos, fat`sect, fat`bufDirty, fat.buf, fat.disk
      ensures err == ERR_NONE || err == ERR_IO
      ensures |fat.disk.image| == old(|fat.disk.image|)
      ensures fat.disk.faults >= old(fat.disk.faults) && (err == ERR_IO ==> fat.disk.faults > old(fat.disk.faults))
      ensures err == ERR_NONE ==>
        && Valid() && pos == old(pos) && Local(fat.geo, old(fat.View()), old(fat.sect), chain, fat.View(), fat.sect, chain)
        && Freed(old(Content()), Content(), first, pos) && Removes(old(Content()), Content(), first, pos, signed)
    {
      hide Geometry.Ok, Fat0, IsChain, Fat.View, ClustIndex, FileSect, SlotInside, SlotCount, Kept, Slots, Place, Local,
        Parked, Removes, Freed;
      var esect, eidx := sect, idx;
      ghost var v, c, end, k := fat.View(), Content(), pos, fat.sect;
      LocalRefl(fat.geo, v, k, chain);
      HereInside();
      HerePlace();
      JumpTo(lsect, lidx, first);
      while true
        invariant Valid() && first <= pos <= end < |Content()| && |fat.disk.image| == |v|
        invariant Place(fat.geo, chain, end, esect, eidx)
        invariant Local(fat.geo, v, k, chain, fat.View(), fat.sect, chain) && fat.disk.faults >= old(fat.disk.faults)
        invariant FreedTo(c, Content(), first, pos)
        decreases end - pos
      {
        ghost var v1, c1, k1 := fat.View(), Content(), fat.sect;
        err := Mark(SLOT_FREE);
        if err != ERR_NONE {
          return;
        }
        LocalTrans(fat.geo, v, k, chain, v1, k1, chain, fat.View(), fat.sect, chain);
        FreedStep(c, c1, Content(), first, pos);
        HerePlace();
        PlaceUnique(fat.geo, Fat0(fat.geo, fat.View()), chain, pos, sect, idx, end, esect, eidx);
        if sect == esect && idx == eidx {
          FreedRemoves(c, Content(), first, pos, signed);
          return ERR_NONE;
        }
        ghost var v2, k2 := fat.View(), fat.sect;
        err := Next();
        if err != ERR_NONE {
          return;
        }
        LocalParked(fat.geo, v2, k2, chain, fat.sect);
        LocalTrans(fat.geo, v, k, chain, v2, k2, chain, fat.View(), fat.sect, chain);
      }
    }

    // ---------------------------------------------------------------- reading an entry

    /** The inner loop of `parse_lfn_name`: the characters of the slot at the cursor go to `g.buf[at..]`. */
    method ReadChars(g: Scratch, at: nat, signed: bool) returns (broken: bool, n: nat)
      requires fat.buf.Length == 512 && idx + 32 <= 512 && g.buf.Length == 512 && at + 13 <= 512 && g.buf != fat.buf
      modifies g.buf
      ensures
        var r := ReadFrag(fat.buf[idx..idx + 32], 0, signed);
        && broken == r.Broken? && (!broken ==> n == |r.chars| && n <= 13 && g.buf[at..at + n] == r.chars)
      ensures forall i :: 0 <= i < 512 && !(at <= i < at + 13) ==> g.buf[i] == old(g.buf[i])
    {
      hide CharAt, ReadFrag, Join;
      ghost var s: Slot := fat.buf[idx..idx + 32];
      ghost var r := ReadFrag(s, 0, signed);
      n := 0;
      JoinNone(r);
      assert g.buf[at..at + n] == [];
      while n < 13
        invariant n <= 13
        invariant r == Join(Chars(g.buf[at..at + n]), ReadFrag(s, n, signed))
        invariant forall i :: 0 <= i < 512 && !(at <= i < at + 13) ==> g.buf[i] == old(g.buf[i])
      {
        var c := fat.buf[idx + CharAt(n)];
        ghost var before := g.buf[at..at + n];
        ReadFragStep(s, n, before, signed);
        if c == 0xff && !signed {
          return true, n;
        }
        if c == 0 {
          return false, n;
        }
        g.buf[at + n] := c;
        n := n + 1;
        assert g.buf[at..at + n] == before + [c];
      }
      ReadFragEnd(s, signed);
      JoinNone(Chars(g.buf[at..at + n]));
      return false, n;
    }

    /** Moves to the next slot and loads it. */
    method Advance() returns (err: int)
      requires Valid()
      modifies `clust, `sect, `idx, `pos, fat`sect, fat`bufDirty, fat.buf, fat.disk
      ensures err == ERR_NONE || err == ERR_EOF || err == ERR_IO
      ensures |fat.disk.image| == old(|fat.disk.image|)
      ensures fat.disk.faults >= old(fat.disk.faults) && (err == ERR_IO ==> fat.disk.faults > old(fat.disk.faults))
      ensures err != ERR_IO ==>
        Attached() && fat.View() == old(fat.View()) && Parked(fat.geo, chain, old(fat.sect), fat.sect)
      ensures err == ERR_EOF ==> old(pos) + 1 == |Content()|
      ensures err == ERR_NONE ==>
        && Valid() && pos == old(pos) + 1 < |Content()|
        && idx + 32 <= 512 && fat.buf[idx..idx + 32] == Content()[pos]
    {
      hide Geometry.Ok, Fat0, IsChain, Fat.View, ClustIndex, FileSect, SlotInside, SlotCount, Slots, OnChain;
      err := Next();
      if err != ERR_NONE {
        return;
      }
      err := Load();
    }

    /** The first half of a round of `parse_lfn_name`: the fragment at the cursor goes before those already assembled. */
    method TakeFrag(g: Scratch, cnt: nat, signed: bool, ghost s: seq<Slot>, ghost p: nat) returns (broken: bool)
      requires fat.buf.Length == 512 && p <= pos < |s| && cnt < 20
      requires idx + 32 <= 512 && fat.buf[idx..idx + 32] == s[pos]
      requires g.buf.Length == 512 && g.buf != fat.buf && g.crc == s[p][13]
      requires Tracking(g.buf[..], g.len, s, p, pos - p, cnt + 1, signed)
      modifies g`len, g.buf
      ensures
        var r := ParseFrom(s, pos, cnt + 1, old(g.len), g.crc, signed);
        if broken then r == Bad
        else if pos + 1 == |s| then r == RanOut
        else r == ParseFrom(s, pos + 1, cnt, g.len, g.crc, signed)
      ensures !broken ==> Tracking(g.buf[..], g.len, s, p, pos + 1 - p, cnt, signed)
    {
      hide ReadName, ReadFrag, Tracking, ParseFrom;
      ParseStep(s, pos, cnt + 1, g.len, g.crc, signed);
      assert fat.buf[idx + 11] == s[pos][11] && fat.buf[idx + 13] == s[pos][13];
      if fat.buf[idx + 11] != ATTR_LFN || fat.buf[idx + 13] != g.crc {
        return true;
      }
      ghost var before := g.buf[..];
      var bad, m := ReadChars(g, 13 * cnt, signed);
      if bad {
        return true;
      }
      TrackStep(before, g.buf[..], g.len, m, s, p, pos - p, cnt, signed);
      g.len := g.len + m;
      return false;
    }

    /** One round of `parse_lfn_name`: a fragment goes before those already assembled, and the cursor moves on. */
    method ParseSlot(g: Scratch, cnt: nat, signed: bool, ghost s: seq<Slot>, ghost p: nat) returns (err: int)
      requires Valid() && Content() == s && p <= pos < |s| && cnt < 20
      requires idx + 32 <= 512 && fat.buf[idx..idx + 32] == s[pos]
      requires g.buf.Length == 512 && g.buf != fat.buf && g.crc == s[p][13]
      requires Tracking(g.buf[..], g.len, s, p, pos - p, cnt + 1, signed)
      modifies `clust, `sect, `idx, `pos, fat`sect, fat`bufDirty, fat.buf, fat.disk, g`len, g.buf
      ensures err == ERR_NONE || err == ERR_BROKEN || err == ERR_EOF || err == ERR_IO
      ensures |fat.disk.image| == old(|fat.disk.image|)
      ensures fat.disk.faults >= old(fat.disk.faults) && (err == ERR_IO ==> fat.disk.faults > old(fat.disk.faults))
      ensures err != ERR_IO ==>
        Attached() && fat.View() == old(fat.View()) && Parked(fat.geo, chain, old(fat.sect), fat.sect)
      ensures err == ERR_BROKEN ==> ParseFrom(s, old(pos), cnt + 1, old(g.len), g.crc, signed) == Bad
      ensures err == ERR_EOF ==> ParseFrom(s, old(pos), cnt + 1, old(g.len), g.crc, signed) == RanOut
      ensures err == ERR_NONE ==>
        && Valid() && pos == old(pos) + 1 < |s| && idx + 32 <= 512 && fat.buf[idx..idx + 32] == s[pos]
        && ParseFrom(s, old(pos), cnt + 1, old(g.len), g.crc, signed) == ParseFrom(s, pos, cnt, g.len, g.crc, signed)
        && Tracking(g.buf[..], g.len, s, p, pos - p, cnt, signed)
    {
      hide Geometry.Ok, Fat0, IsChain, Fat.View, ClustIndex, FileSect, SlotInside, SlotCount, Slots, ReadName, ReadFrag, Crc,
        Tracking,
        LongEntry, LongSlot, ParseFrom, Parked;
      ParkedRefl(fat.geo, chain, fat.sect);
      var broken := TakeFrag(g, cnt, signed, s, p);
      if broken {
        return ERR_BROKEN;
      }
      err := Advance();
    }

    /** The loop of `parse_lfn_name`: all announced fragments, the last one of the name first. */
    method ParseFrags(g: Scratch, n: nat, signed: bool, ghost s: seq<Slot>, ghost p: nat) returns (err: int)
      requires Valid() && Content() == s && pos == p < |s| && n <= 20
      requires idx + 32 <= 512 && fat.buf[idx..idx + 32] == s[pos]
      requires g.buf.Length == 512 && g.buf != fat.buf && g.crc == s[p][13] && g.len == 0
      requires Tracking(g.buf[..], g.len, s, p, 0, n, signed)
      modifies `clust, `sect, `idx, `pos, fat`sect, fat`bufDirty, fat.buf, fat.disk, g`len, g.buf
      ensures err == ERR_NONE || err == ERR_BROKEN || err == ERR_EOF || err == ERR_IO
      ensures |fat.disk.image| == old(|fat.disk.image|)
      ensures fat.disk.faults >= old(fat.disk.faults) && (err == ERR_IO ==> fat.disk.faults > old(fat.disk.faults))
      ensures err != ERR_IO ==>
        Attached() && fat.View() == old(fat.View()) && Parked(fat.geo, chain, old(fat.sect), fat.sect)
      ensures err == ERR_BROKEN ==> ParseFrom(s, p, n, 0, g.crc, signed) == Bad
      ensures err == ERR_EOF ==> ParseFrom(s, p, n, 0, g.crc, signed) == RanOut
      ensures err == ERR_NONE ==>
        && Valid() && pos == p + n < |s| && Tracking(g.buf[..], g.len, s, p, n, 0, signed)
        && ParseFrom(s, p, n, 0, g.crc, signed) == if g.len <= 255 then Done else Bad
    {
      hide Geometry.Ok, Fat0, IsChain, Fat.View, ClustIndex, FileSect, SlotInside, SlotCount, Slots, Tracking, LongEntry, ParseFrom,
        Parked, OnChain;
      var cnt := n;
      ghost var v, k := fat.View(), fat.sect;
      ParkedRefl(fat.geo, chain, k);
      err := ERR_NONE;
      while cnt > 0
        invariant Valid() && fat.View() == v && pos == p + (n - cnt) < |s| && |fat.disk.image| == |v|
        invariant 0 <= cnt <= n && idx + 32 <= 512 && fat.buf[idx..idx + 32] == s[pos]
        invariant Tracking(g.buf[..], g.len, s, p, pos - p, cnt, signed) && g.crc == s[p][13]
        invariant ParseFrom(s, p, n, 0, g.crc, signed) == ParseFrom(s, pos, cnt, g.len, g.crc, signed)
        invariant err == ERR_NONE && fat.disk.faults >= old(fat.disk.faults) && Parked(fat.geo, chain, k, fat.sect)
      {
        cnt := cnt - 1;
        ghost var k1 := fat.sect;
        err := ParseSlot(g, cnt, signed, s, p);
        if err != ERR_IO { ParkedTrans(fat.geo, chain, k, k1, fat.sect); }
        if err != ERR_NONE {
          return;
        }
      }
      ParseNone(s, pos, g.len, g.crc, signed);
    }

    /** `parse_lfn_name`, on any slots: it reads the name, finds it broken or runs out of the directory as
        `ParseLong` says. A name it reads stands in the name buffer, if the entry is a sound one. */
    method ParseLfn(g: Scratch, signed: bool) returns (err: int)
      requires Valid() && pos < |Content()| && g.buf.Length == 512 && g.buf != fat.buf
      modifies `clust, `sect, `idx, `pos, fat`sect, fat`bufDirty, fat.buf, fat.disk, g, g.buf
      ensures err == ERR_NONE || err == ERR_BROKEN || err == ERR_EOF || err == ERR_IO
      ensures |fat.disk.image| == old(|fat.disk.image|)
      ensures fat.disk.faults >= old(fat.disk.faults) && (err == ERR_IO ==> fat.disk.faults > old(fat.disk.faults))
      ensures err != ERR_IO ==>
        Attached() && fat.View() == old(fat.View()) && Parked(fat.geo, chain, old(fat.sect), fat.sect)
      ensures err != ERR_IO ==> err == Code(ParseLong(Content(), old(pos), signed))
      ensures err == ERR_NONE ==>
        && Valid() && pos == old(pos) + Announced(Content()[old(pos)]) < |Content()| && g.crc == Content()[old(pos)][13]
        && NameIn(g.buf[..], g.len, Content(), old(pos), signed)
    {
      hide Geometry.Ok, Fat0, IsChain, Fat.View, ClustIndex, FileSect, SlotInside, SlotCount, Slots, ReadName, ReadFrag, Crc,
        LongSlot,
        LongEntry, Tracking, ParseFrom, Parked, OnChain, NameIn;
      ghost var s, p, v, k := Content(), pos, fat.View(), fat.sect;
      err := Load();
      if err != ERR_NONE {
        return;
      }
      ParkedOn(fat.geo, chain, k, fat.sect);
      g.crc := fat.buf[idx + 13];
      g.len := 0;
      assert fat.buf[idx] == s[p][0] && fat.buf[idx + 13] == s[p][13];
      if fat.buf[idx] / 64 % 2 == 0 {
        return ERR_BROKEN;
      }
      var cnt: nat := fat.buf[idx] % 32;
      if cnt > 20 {
        return ERR_BROKEN;
      }
      TrackNone(g.buf[..], s, p, signed);
      ghost var k1 := fat.sect;
      err := ParseFrags(g, cnt, signed, s, p);
      if err != ERR_IO { ParkedTrans(fat.geo, chain, k, k1, fat.sect); }
      if err != ERR_NONE {
        return;
      }
      TrackEnd(g.buf[..], g.len, s, p, signed);
      return if g.len <= 255 then ERR_NONE else ERR_BROKEN;
    }

    /** The end of `fat_dir_read` for a long entry: the name, and the short slot that must belong to it. */
    method ReadLong(g: Scratch, signed: bool) returns (err: int, name: seq<byte>)
      requires Valid() && pos < |Content()| && IsLong(Content()[pos]) && !IsVacant(Content()[pos])
      requires g.buf.Length == 512 && g.buf != fat.buf
      modifies `clust, `sect, `idx, `pos, fat`sect, fat`bufDirty, fat.buf, fat.disk, g, g.buf
      ensures err == ERR_NONE || err == ERR_BROKEN || err == ERR_EOF || err == ERR_IO
      ensures |fat.disk.image| == old(|fat.disk.image|)
      ensures fat.disk.faults >= old(fat.disk.faults) && (err == ERR_IO ==> fat.disk.faults > old(fat.disk.faults))
      ensures err != ERR_IO ==>
        Attached() && fat.View() == old(fat.View()) && Parked(fat.geo, chain, old(fat.sect), fat.sect)
      ensures err != ERR_IO ==> err == Code(ReadAt(Content(), old(pos), signed))
      ensures err == ERR_NONE ==> Valid() && Delivers(Content(), old(pos), pos, name, signed)
      ensures err == ERR_NONE ==> pos < |Content()| && idx + 32 <= 512 && fat.buf[idx..idx + 32] == Content()[pos]
    {
      hide Geometry.Ok, Fat0, IsChain, Fat.View, ClustIndex, FileSect, SlotInside, SlotCount, Slots, ReadName, ReadFrag, Crc,
        LongSlot, LongEntry, ParseLong, ReadAt, Parked, OnChain, NameIn, Delivers;
      ghost var s, p, k := Content(), pos, fat.sect;
      LongCode(s, p, signed);
      name := [];
      err := ParseLfn(g, signed);
      if err != ERR_NONE {
        return;
      }
      ghost var k1 := fat.sect;
      err := Load();
      if err != ERR_NONE {
        return;
      }
      ParkedOn(fat.geo, chain, k, fat.sect);
      assert fat.buf[idx] == s[pos][0] && fat.buf[idx..idx + 11] == s[pos][..11];
      var crc := GetCrc(fat.buf[idx..idx + 11]);
      if fat.buf[idx] == SLOT_LAST || fat.buf[idx] == SLOT_FREE || g.crc != crc {
        return ERR_BROKEN, [];
      }
      NameDelivered(g.buf[..], g.len, s, p, signed);
      name := g.buf[..g.len];
    }

    /** The end of `fat_dir_read`: delivers the entry that begins at the loaded slot. */
    method ReadHere(g: Scratch, signed: bool) returns (err: int, name: seq<byte>)
      requires Valid() && g.buf.Length == 512 && g.buf != fat.buf && pos < |Content()| && !IsVacant(Content()[pos])
      requires idx + 32 <= 512 && fat.buf[idx..idx + 32] == Content()[pos]
      modifies `clust, `sect, `idx, `pos, fat`sect, fat`bufDirty, fat.buf, fat.disk, g, g.buf
      ensures err == ERR_NONE || err == ERR_BROKEN || err == ERR_EOF || err == ERR_IO
      ensures |fat.disk.image| == old(|fat.disk.image|)
      ensures fat.disk.faults >= old(fat.disk.faults) && (err == ERR_IO ==> fat.disk.faults > old(fat.disk.faults))
      ensures err != ERR_IO ==>
        Attached() && fat.View() == old(fat.View()) && Parked(fat.geo, chain, old(fat.sect), fat.sect)
      ensures err != ERR_IO ==> err == Code(ReadAt(Content(), old(pos), signed))
      ensures err == ERR_NONE ==> Valid() && Delivers(Content(), old(pos), pos, name, signed)
      ensures err == ERR_NONE ==> pos < |Content()| && idx + 32 <= 512 && fat.buf[idx..idx + 32] == Content()[pos]
    {
      hide Geometry.Ok, Fat0, IsChain, Fat.View, ClustIndex, FileSect, SlotInside, SlotCount, Slots, ReadName, LongEntry, ParseSfn,
        Parked, OnChain;
      assert fat.buf[idx + 11] == Content()[pos][11];
      ParkedRefl(fat.geo, chain, fat.sect);
      if fat.buf[idx + 11] == ATTR_LFN {
        err, name := ReadLong(g, signed);
      } else {
        err, name := ERR_NONE, ParseSfn(fat.buf[idx..idx + 32]);
      }
    }

    /** The loop of `fat_dir_read`. */
    method ReadNext(g: Scratch, signed: bool) returns (err: int, name: seq<byte>)
      requires Valid() && g.buf.Length == 512 && g.buf != fat.buf
      modifies `clust, `sect, `idx, `pos, fat`sect, fat`bufDirty, fat.buf, fat.disk, g, g.buf
      ensures err == ERR_NONE || err == ERR_BROKEN || err == ERR_EOF || err == ERR_IO
      ensures |fat.disk.image| == old(|fat.disk.image|)
      ensures fat.disk.faults >= old(fat.disk.faults) && (err == ERR_IO ==> fat.disk.faults > old(fat.disk.faults))
      ensures err != ERR_IO ==>
        Attached() && fat.View() == old(fat.View()) && Parked(fat.geo, chain, old(fat.sect), fat.sect)
      ensures err != ERR_IO ==> err == ReadCode(Content(), old(pos), signed)
      ensures err == ERR_NONE ==> Valid() && Delivers(Content(), FirstUsed(Content(), old(pos)), pos, name, signed)
      ensures err == ERR_NONE ==> pos < |Content()| && idx + 32 <= 512 && fat.buf[idx..idx + 32] == Content()[pos]
    {
      hide Geometry.Ok, Fat0, IsChain, Fat.View, ClustIndex, FileSect, SlotInside, SlotCount, Slots, ReadName, LongEntry, ParseSfn,
        Parked, OnChain, Delivers, ReadAt, FirstUsed;
      ghost var s, p, v, k := Content(), pos, fat.View(), fat.sect;
      name := [];
      ParkedRefl(fat.geo, chain, k);
      while true
        invariant Valid() && fat.View() == v && |fat.disk.image| == |v|
        invariant FirstUsed(s, p) == FirstUsed(s, pos) && Parked(fat.geo, chain, k, fat.sect)
        invariant fat.disk.faults >= old(fat.disk.faults)
        decreases |s| - pos
      {
        HereInside();
        err := Load();
        if err != ERR_NONE {
          return;
        }
        ParkedOn(fat.geo, chain, k, fat.sect);
        assert fat.buf[idx] == s[pos][0];
        PassVacant(s, pos);
        if fat.buf[idx] == SLOT_LAST {
          return ERR_EOF, [];
        }
        if fat.buf[idx] != SLOT_FREE {
          ghost var k1 := fat.sect;
          err, name := ReadHere(g, signed);
          if err != ERR_IO { ParkedTrans(fat.geo, chain, k, k1, fat.sect); }
          return;
        }
        ghost var k1 := fat.sect;
        err := Next();
        if err != ERR_IO { ParkedTrans(fat.geo, chain, k, k1, fat.sect); }
        if err != ERR_NONE {
          return;
        }
      }
    }

    /** `fat_dir_read`, on any directory: EOF, BROKEN or an entry, as `ReadCode` says. It stops on the short slot
        of the entry it delivers, so that `dir_next` leads to the rest. On a sound directory it delivers the head
        of the listing, and EOF means that there is none. */
    method DirRead(g: Scratch, signed: bool) returns (err: int, name: seq<byte>, info: DirInfo)
      requires Valid() && g.buf.Length == 512 && g.buf != fat.buf
      modifies `clust, `sect, `idx, `pos, fat`sect, fat`bufDirty, fat.buf, fat.disk, g, g.buf
      ensures err == ERR_NONE || err == ERR_BROKEN || err == ERR_EOF || err == ERR_IO
      ensures |fat.disk.image| == old(|fat.disk.image|)
      ensures fat.disk.faults >= old(fat.disk.faults) && (err == ERR_IO ==> fat.disk.faults > old(fat.disk.faults))
      ensures err != ERR_IO ==>
        Attached() && fat.View() == old(fat.View()) && Parked(fat.geo, chain, old(fat.sect), fat.sect)
      ensures err != ERR_IO ==> err == ReadCode(Content(), old(pos), signed)
      ensures err == ERR_NONE ==> Valid() && Delivers(Content(), FirstUsed(Content(), old(pos)), pos, name, signed)
      ensures err == ERR_NONE ==> pos < |Content()| && idx + 32 <= 512 && fat.buf[idx..idx + 32] == Content()[pos]
      ensures err != ERR_IO ==> ReadsHead(Content(), old(pos), err, pos, name, signed)
      ensures err == ERR_NONE ==> info == InfoOf(Content()[pos])
    {
      hide Geometry.Ok, Fat0, IsChain, Fat.View, ClustIndex, FileSect, SlotInside, SlotCount, Slots, Sound, List, Parked, OnChain,
        Delivers, ReadCode, ReadsHead;
      ghost var s, p := Content(), pos;
      info := *;
      err, name := ReadNext(g, signed);
      if err != ERR_IO { ReadMeans(s, p, signed, err, pos, name); }
      if err == ERR_NONE {
        info := InfoOf(fat.buf[idx..idx + 32]);
      }
    }

    /** How a directory is listed: `fat_dir_rewind`, then `fat_dir_read` and `fat_dir_next` in turn up to EOF. On a
        sound directory that enumerates exactly its listing, in order. */
    method ReadAll(g: Scratch, signed: bool) returns (err: int, entries: seq<Entry>)
      requires Attached() && Sound(Content(), 0, signed) && g.buf.Length == 512 && g.buf != fat.buf
      modifies `clust, `sect, `idx, `pos, fat`sect, fat`bufDirty, fat.buf, fat.disk, g, g.buf
      ensures err == ERR_NONE || err == ERR_IO
      ensures |fat.disk.image| == old(|fat.disk.image|)
      ensures fat.disk.faults >= old(fat.disk.faults) && (err == ERR_IO ==> fat.disk.faults > old(fat.disk.faults))
      ensures err == ERR_NONE ==>
        && Attached() && fat.View() == old(fat.View()) && Parked(fat.geo, chain, old(fat.sect), fat.sect)
        && entries == List(Content(), 0, signed)
    {
      hide Geometry.Ok, Fat0, IsChain, Fat.View, ClustIndex, FileSect, SlotInside, SlotCount, Slots, Sound, List, Parked, OnChain,
        Delivers, ReadCode, FirstUsed, ReadsHead, ListedUpTo, InfoOf;
      ghost var s, v, k := Content(), fat.View(), fat.sect;
      ParkedRefl(fat.geo, chain, k);
      entries := [];
      ListedNone(s, signed);
      Rewind();
      while true
        invariant Valid() && fat.View() == v && |fat.disk.image| == |v| && fat.disk.faults >= old(fat.disk.faults)
        invariant ListedUpTo(s, pos, entries, signed)
        invariant Parked(fat.geo, chain, k, fat.sect)
        decreases |s| - pos
      {
        ghost var p, k1 := pos, fat.sect;
        HereInside();
        var name, info;
        err, name, info := DirRead(g, signed);
        if err != ERR_IO {
          ParkedTrans(fat.geo, chain, k, k1, fat.sect);
          ListedStep(s, p, err, pos, name, entries, signed);
        }
        if err == ERR_EOF {
          return ERR_NONE, entries;
        }
        if err != ERR_NONE {
          return;
        }
        DeliversOn(s, p, pos, name, signed);
        ghost var q, k2 := pos, fat.sect;
        entries := entries + [Entry(name, fat.buf[idx..idx + 32])];
        err := Next();
        if err != ERR_IO { ParkedTrans(fat.geo, chain, k, k2, fat.sect); }
        if err == ERR_EOF {
          ListedAll(s, q + 1, entries, signed);
          return ERR_NONE, entries;
        }
        if err != ERR_NONE {
          return;
        }
      }
    }
  }

  /** The error code for the way a parse ends. */
  function Code(r: Parsed): (err: int)
  {
    match r case Done => ERR_NONE case Bad => ERR_BROKEN case RanOut => ERR_EOF
  }

  /** What `fat_dir_read` returns from slot `p` on, when no transfer fails. */
  function ReadCode(s: seq<Slot>, p: nat, signed: bool): (err: int)
  {
    var f := FirstUsed(s, p);
    if f >= |s| || IsEnd(s[f]) then ERR_EOF else Code(ReadAt(s, f, signed))
  }

  /** If the directory is sound from `p` on: it is never broken, EOF means that nothing is listed from there, and an
      entry delivered is the head of the listing, with the rest behind its short slot `q`. */
  ghost predicate ReadsHead(s: seq<Slot>, p: nat, err: int, q: nat, name: seq<byte>, signed: bool)
  {
    Sound(s, p, signed) ==>
      && err != ERR_BROKEN && (err == ERR_EOF ==> List(s, p, signed) == [])
      && (err == ERR_NONE ==>
            q < |s| && Sound(s, q + 1, signed) && List(s, p, signed) == [Entry(name, s[q])] + List(s, q + 1, signed))
  }

  /** What has been read up to slot `p` and what is listed from there on is the whole listing. */
  ghost predicate ListedUpTo(s: seq<Slot>, p: nat, entries: seq<Entry>, signed: bool)
  {
    Sound(s, 0, signed) && Sound(s, p, signed) && List(s, 0, signed) == entries + List(s, p, signed)
  }

  lemma ListedStep(s: seq<Slot>, p: nat, err: int, q: nat, name: seq<byte>, entries: seq<Entry>, signed: bool)
    requires ListedUpTo(s, p, entries, signed) && ReadsHead(s, p, err, q, name, signed)
    ensures err != ERR_BROKEN && (err == ERR_EOF ==> List(s, 0, signed) == entries)
    ensures err == ERR_NONE ==> q < |s| && ListedUpTo(s, q + 1, entries + [Entry(name, s[q])], signed)
  {
    hide Sound, List;
    if err == ERR_NONE { Assoc(entries, [Entry(name, s[q])], List(s, q + 1, signed)); }
  }

  lemma ListedNone(s: seq<Slot>, signed: bool)
    requires Sound(s, 0, signed)
    ensures ListedUpTo(s, 0, [], signed)
  {
  }

  lemma ListedAll(s: seq<Slot>, p: nat, entries: seq<Entry>, signed: bool)
    requires ListedUpTo(s, p, entries, signed) && p >= |s|
    ensures List(s, 0, signed) == entries
  {
  }

  /** What reading means on a sound directory. */
  lemma ReadMeans(s: seq<Slot>, p: nat, signed: bool, err: int, q: nat, name: seq<byte>)
    requires err == ReadCode(s, p, signed) && (err == ERR_NONE ==> Delivers(s, FirstUsed(s, p), q, name, signed))
    ensures ReadsHead(s, p, err, q, name, signed)
  {
    hide ReadAt, LongEntry, Sound, List;
    if Sound(s, p, signed) { SoundReads(s, p, signed); }
  }

  /** Reading goes forward. */
  lemma DeliversOn(s: seq<Slot>, p: nat, q: nat, name: seq<byte>, signed: bool)
    requires Delivers(s, FirstUsed(s, p), q, name, signed)
    ensures p <= q < |s|
  {
  }

  lemma ParkedRefl(g: Geometry, s: seq<nat>, k: nat)
    ensures Parked(g, s, k, k)
  {
  }

  lemma ParkedOn(g: Geometry, s: seq<nat>, k: nat, k': nat)
    requires OnChain(g, s, k')
    ensures Parked(g, s, k, k')
  {
  }

  lemma ParkedTrans(g: Geometry, s: seq<nat>, k: nat, k1: nat, k2: nat)
    requires Parked(g, s, k, k1) && Parked(g, s, k1, k2)
    ensures Parked(g, s, k, k2)
  {
  }

  lemma ParseStep(s: seq<Slot>, q: nat, cnt: nat, len: nat, crc: byte, signed: bool)
    requires q < |s| && cnt > 0
    ensures
      var r := ParseFrom(s, q, cnt, len, crc, signed);
      if s[q][11] != ATTR_LFN || s[q][13] != crc || ReadFrag(s[q], 0, signed).Broken? then r == Bad
      else if q + 1 == |s| then r == RanOut
      else r == ParseFrom(s, q + 1, cnt - 1, len + |ReadFrag(s[q], 0, signed).chars|, crc, signed)
  {
  }

  /** If the entry at `p` is sound, its first `j` slots are assembled in the name buffer and `m` are to go. */
  ghost predicate Tracking(buf: seq<byte>, len: nat, s: seq<Slot>, p: nat, j: nat, m: nat, signed: bool)
  {
    p < |s| && (LongEntry(s, p, signed) ==> j + m == Announced(s[p]) && Assembled(buf, len, s, p, j, m, signed))
  }

  lemma TrackNone(buf: seq<byte>, s: seq<Slot>, p: nat, signed: bool)
    requires p < |s| && |buf| == 512 && Announced(s[p]) <= 20
    ensures Tracking(buf, 0, s, p, 0, Announced(s[p]), signed)
  {
    ReadNone(s, p, signed);
    hide ReadName, LongEntry;
  }

  lemma TrackStep(a: seq<byte>, b: seq<byte>, len: nat, n: nat, s: seq<Slot>, p: nat, j: nat, m: nat, signed: bool)
    requires Tracking(a, len, s, p, j, m + 1, signed) && |b| == |a| && p + j < |s|
    requires var r := ReadFrag(s[p + j], 0, signed);
      r.Chars? && n == |r.chars| && n <= 13 && 13 * m + n <= |b| && b[13 * m..13 * m + n] == r.chars
    requires forall i :: 0 <= i < |a| && !(13 * m <= i < 13 * m + 13) ==> a[i] == b[i]
    ensures Tracking(b, len + n, s, p, j + 1, m, signed)
  {
    hide ReadName, ReadFrag, LongEntry, Assembled;
    if LongEntry(s, p, signed) { AssembleStep(a, b, len, n, s, p, j, m, signed); }
  }

  /** The name of the entry at `p`, if that is sound, is what the buffer begins with. */
  ghost predicate NameIn(buf: seq<byte>, len: nat, s: seq<Slot>, p: nat, signed: bool)
  {
    && p < |s| && len <= |buf|
    && (LongEntry(s, p, signed) ==> buf[..len] == ReadName(s, p, Announced(s[p]), signed).chars)
  }

  lemma TrackEnd(buf: seq<byte>, len: nat, s: seq<Slot>, p: nat, signed: bool)
    requires p < |s| && Tracking(buf, len, s, p, Announced(s[p]), 0, signed)
    ensures len <= 255 && |buf| == 512 ==> NameIn(buf, len, s, p, signed)
  {
    hide ReadName, LongEntry;
    if LongEntry(s, p, signed) { assert buf[0..len] == buf[..len]; }
  }

  lemma NameDelivered(buf: seq<byte>, len: nat, s: seq<Slot>, p: nat, signed: bool)
    requires NameIn(buf, len, s, p, signed) && IsLong(s[p]) && !IsVacant(s[p]) && p + Announced(s[p]) < |s|
    ensures len <= |buf| && Delivers(s, p, p + Announced(s[p]), buf[..len], signed)
  {
    hide ReadName, LongEntry;
  }

  /** A slot that is marked free is passed over; any other ends the pass. */
  lemma PassVacant(s: seq<Slot>, p: nat)
    requires p < |s|
    ensures FirstUsed(s, p) == if s[p][0] == SLOT_FREE then FirstUsed(s, p + 1) else p
    ensures p + 1 == |s| ==> FirstUsed(s, p + 1) == p + 1
  {
  }

  lemma SearchingBounds(s: seq<Slot>, q: nat, cnt: nat, eod: bool, stop: nat)
    requires Searching(s, q, cnt, eod, stop)
    ensures cnt <= q < |s|
  {
  }

  lemma SearchingFree(s: seq<Slot>, q: nat, n: nat, eod: bool, stop: nat)
    requires Searching(s, q, n, eod, stop)
    ensures n <= q && FreeRun(s, q - n, n, stop, eod)
  {
  }

  lemma SearchingStart(s: seq<Slot>)
    requires |s| > 0
    ensures Searching(s, 0, 0, false, 0)
  {
  }

  lemma ExpectedStart(s: seq<Slot>, n: nat)
    ensures Expected(s, 0, 0, false, n) == SearchEnd(s, 0, 0, n)
  {
  }

  lemma ExpectedOn(s: seq<Slot>, s': seq<Slot>, q: nat, cnt: nat, eod: bool, n: nat, cnt': nat, eod': bool)
    requires q < |s| && cnt < n && Longer(s, s')
    requires cnt' == (if eod || IsVacant(s[q]) then cnt + 1 else 0) && eod' == (eod || IsEnd(s[q]))
    ensures cnt' <= n && Expected(s', q + 1, cnt', eod', n) == Expected(s, q, cnt, eod, n)
  {
    ExpectedStep(s, s', q, cnt, eod, n, cnt', eod');
  }

  /** The state of the search before slot `q`: the last `cnt` slots would do, being vacant up to `stop`, where
      the search stands or the end marker was. */
  ghost predicate Searching(s: seq<Slot>, q: nat, cnt: nat, eod: bool, stop: nat)
  {
    && cnt <= q < |s|
    && (if eod then q - cnt <= stop < q && IsEnd(s[stop]) else stop == q)
    && (forall j :: 0 <= j < stop ==> !IsEnd(s[j]))
    && (forall j :: q - cnt <= j < stop ==> IsVacant(s[j]))
  }

  /** `b` differs from `a` at most in `[p, q)`. */
  ghost predicate SameBut(a: seq<Slot>, b: seq<Slot>, p: nat, q: nat)
  {
    |a| == |b| && forall j :: 0 <= j < |a| && !(p <= j < q) ==> b[j] == a[j]
  }

  /** The fragments above `i` are in place. */
  ghost predicate FragsFrom(s: seq<Slot>, p: nat, name: seq<byte>, crc: byte, i: nat)
  {
    var n := FragCount(|name|);
    && n <= 20 && p + n <= |s|
    && forall k :: i < k <= n ==> 1 <= k && IsFragSlot(s[p + n - k], FragOf(name, k), SeqNo(k, n), crc)
  }

  lemma FragsStep(a: seq<Slot>, b: seq<Slot>, p: nat, name: seq<byte>, crc: byte, i: nat)
    requires FragsFrom(a, p, name, crc, i) && 1 <= i <= FragCount(|name|) && |a| == |b|
    requires var q := p + FragCount(|name|) - i;
      b == a[q := b[q]] && IsFragSlot(b[q], FragOf(name, i), SeqNo(i, FragCount(|name|)), crc)
    ensures FragsFrom(b, p, name, crc, i - 1)
  {
    hide IsFragSlot, FragOf;
  }

  /** `l'` is `l` with `e` inserted somewhere. */
  ghost predicate Inserted(l: seq<Entry>, l': seq<Entry>, e: Entry)
  {
    exists k :: 0 <= k <= |l| && l' == l[..k] + [e] + l[k..]
  }

  /** If directory `s` was sound and the name can be read back, `s'` is sound and lists `e` in addition. */
  ghost predicate Inserts(s: seq<Slot>, s': seq<Slot>, e: Entry, signed: bool)
  {
    Sound(s, 0, signed) && Readable(e.name, signed) ==>
      Sound(s', 0, signed) && Inserted(List(s, 0, signed), List(s', 0, signed), e)
  }

  /** Of any slots `s`: empty ones may have been added behind them, the entry stands in a run of vacant ones, with a new end
      marker behind it when the old one was used up, and all others are as they were. */
  ghost predicate Placed(s: seq<Slot>, s': seq<Slot>, at: nat, name: seq<byte>, sfn: Slot)
  {
    exists grown: seq<Slot>, stop: nat, eod: bool :: PlacedIn(s, grown, stop, eod, s', at, name, sfn)
  }

  ghost predicate PlacedIn(s: seq<Slot>, grown: seq<Slot>, stop: nat, eod: bool, s': seq<Slot>, at: nat, name: seq<byte>, sfn: Slot)
  {
    Longer(s, grown) && FreeRun(grown, at, FragCount(|name|) + 1, stop, eod) && Added(grown, s', at, name, sfn, eod)
  }

  lemma RunFits(s: seq<Slot>, at: nat, n: nat, stop: nat, eod: bool)
    requires FreeRun(s, at, n, stop, eod)
    ensures at + n < |s|
  {
  }

  /** A short slot made from a name is neither free nor an end marker. */
  lemma SfnInUse(name: seq<byte>, attr: byte, clust: nat, date: nat, time: nat)
    requires clust < TWO_32 && date < 0x1_0000 && time < 0x1_0000
    ensures !IsVacant(SfnSlot(SfnName(name), attr, clust, date, time))
  {
    var s, n := SfnSlot(SfnName(name), attr, clust, date, time), SfnName(name);
    assert s[0] == s[..11][0] == n[0] == SfnByte(name, 0);
  }

  lemma HoldsNameFrame(a: seq<Slot>, b: seq<Slot>, p: nat, name: seq<byte>, crc: byte)
    requires HoldsName(a, p, name, crc) && |a| == |b|
    requires forall j :: p <= j < p + FragCount(|name|) ==> a[j] == b[j]
    ensures HoldsName(b, p, name, crc)
  {
    hide IsFragSlot, FragOf;
  }

  /** The steps of `dir_add` put together: growth, a new end marker, the entry. */
  lemma AddInserts(s: seq<Slot>, grown: seq<Slot>, s1: seq<Slot>, s2: seq<Slot>, at: nat, stop: nat,
                   name: seq<byte>, sfn: Slot, eod: bool, signed: bool)
    requires Longer(s, grown)
    requires FreeRun(grown, at, FragCount(|name|) + 1, stop, eod)
    requires var q := at + FragCount(|name|) + 1;
      && SameBut(grown, s1, q, q + 1) && (if eod then IsEnd(s1[q]) else s1[q] == grown[q])
      && SameBut(s1, s2, at, q) && HoldsEntry(s2, at, name, sfn)
    ensures Inserts(s, s2, Entry(name, sfn), signed) && Placed(s, s2, at, name, sfn)
  {
    hide Sound, List, HoldsEntry, Readable;
    assert PlacedIn(s, grown, stop, eod, s2, at, name, sfn);
    if Sound(s, 0, signed) && Readable(name, signed) {
      ExtendList(s, grown, 0, signed);
      var k := AddExact(grown, s2, at, stop, name, sfn, eod, signed);
    }
  }

  /** `l'` is `l` without one occurrence of `e`. */
  ghost predicate Removed(l: seq<Entry>, l': seq<Entry>, e: Entry)
  {
    exists k :: 0 <= k < |l| && l[k] == e && l' == l[..k] + l[k + 1..]
  }

  /** If an entry of the sound directory `s` took the slots from `first` to `last`, `s'` lists all entries but that. */
  ghost predicate Removes(s: seq<Slot>, s': seq<Slot>, first: nat, last: nat, signed: bool)
  {
    && first < |s| && Sound(s, 0, signed) && Reach(s, 0, first) && !IsVacant(s[first]) && last + 1 == After(s, first)
    ==>
    && (IsLong(s[first]) ==> LongEntry(s, first, signed))
    && Sound(s', 0, signed) && Removed(List(s, 0, signed), List(s', 0, signed), EntryAt(s, first, signed))
  }

  lemma FreedRemoves(s: seq<Slot>, s': seq<Slot>, first: nat, last: nat, signed: bool)
    requires Freed(s, s', first, last)
    ensures Removes(s, s', first, last, signed)
  {
    if first < |s| && Sound(s, 0, signed) && Reach(s, 0, first) && !IsVacant(s[first]) && last + 1 == After(s, first) {
      var k := RemoveExact(s, s', first, signed);
      hide LongEntry, List, EntryAt, Reach;
    }
  }

  /** Slots `[first, p)` are marked free, the others as they were. */
  ghost predicate FreedTo(a: seq<Slot>, b: seq<Slot>, first: nat, p: nat)
  {
    && |a| == |b|
    && forall j :: 0 <= j < |a| ==> b[j] == if first <= j < p then a[j][0 := SLOT_FREE] else a[j]
  }

  lemma FreedStep(a: seq<Slot>, b: seq<Slot>, c: seq<Slot>, first: nat, p: nat)
    requires FreedTo(a, b, first, p) && first <= p < |b| && c == b[p := b[p][0 := SLOT_FREE]]
    ensures FreedTo(a, c, first, p + 1) && Freed(a, c, first, p)
  {
  }

  /** Different slots have different places. */
  lemma PlaceUnique(g: Geometry, t: Table, chain: seq<nat>, k: nat, sect: nat, idx: nat, k': nat, sect': nat, idx': nat)
    requires IsChain(t, chain) && Usable(g, chain)
    requires Place(g, chain, k, sect, idx) && Place(g, chain, k', sect', idx')
    ensures sect == sect' && idx == idx' <==> k == k'
  {
    hide FileSect, ClustIndex;
    ChainDistinct(t, chain);
    if sect == sect' && idx == idx' { FileSectInjective(g, chain, k / 16, k' / 16); }
  }

  /** The characters of the first `j` slots of the entry at `p` stand in the name buffer, where `m` more
      fragments of 13 fit before them. */
  ghost predicate Assembled(buf: seq<byte>, len: nat, s: seq<Slot>, p: nat, j: nat, m: nat, signed: bool)
  {
    && p + j <= |s| && ReadName(s, p, j, signed).Chars? && len == |ReadName(s, p, j, signed).chars| <= 13 * j
    && 13 * m + len <= |buf| && buf[13 * m..13 * m + len] == ReadName(s, p, j, signed).chars
  }

  lemma JoinNone(r: Frag)
    ensures Join(Chars([]), r) == r && Join(r, Chars([])) == r
  {
  }

  lemma ReadFragEnd(s: Slot, signed: bool)
    ensures ReadFrag(s, 13, signed) == Chars([])
  {
  }

  /** What one character adds to the fragment read so far. */
  lemma ReadFragStep(s: Slot, i: nat, had: seq<byte>, signed: bool)
    requires i < 13
    ensures
      var c, r := s[CharAt(i)], Join(Chars(had), ReadFrag(s, i, signed));
      if c == 0xff && !signed then r.Broken?
      else if c == 0 then r == Chars(had)
      else r == Join(Chars(had + [c]), ReadFrag(s, i + 1, signed))
  {
    hide CharAt;
    if ReadFrag(s, i + 1, signed).Chars? {
      assert had + ([s[CharAt(i)]] + ReadFrag(s, i + 1, signed).chars) == (had + [s[CharAt(i)]]) + ReadFrag(s, i + 1, signed).chars;
    }
  }

  lemma AssembleStep(a: seq<byte>, b: seq<byte>, len: nat, n: nat, s: seq<Slot>, p: nat, j: nat, m: nat, signed: bool)
    requires p < |s| && LongEntry(s, p, signed) && j < Announced(s[p])
    requires Assembled(a, len, s, p, j, m + 1, signed) && |b| == |a|
    requires var r := ReadFrag(s[p + j], 0, signed);
      r.Chars? && n == |r.chars| && n <= 13 && b[13 * m..13 * m + n] == r.chars
    requires forall i :: 0 <= i < |a| && !(13 * m <= i < 13 * m + 13) ==> a[i] == b[i]
    ensures Assembled(b, len + n, s, p, j + 1, m, signed)
  {
    hide ReadName, ReadFrag;
    ReadNameBack(s, p, j, signed);
    ReadNameSound(s, p, j + 1, signed);
    assert LongSlot(s[p + j], s[p][13], j == 0, signed);
    var f, r := ReadFrag(s[p + j], 0, signed).chars, ReadName(s, p, j, signed).chars;
    if j == 0 {
      ReadNone(s, p, signed);
      assert b[13 * m..13 * m + len + n] == f + r;
    } else {
      assert n == 13;
      assert b[13 * m + 13..13 * m + 13 + len] == a[13 * m + 13..13 * m + 13 + len];
      assert b[13 * m..13 * m + len + n] == b[13 * m..13 * m + 13] + b[13 * m + 13..13 * m + 13 + len];
    }
  }

  lemma LongerRefl(a: seq<Slot>)
    ensures Longer(a, a)
  {
  }

  lemma LongerTrans(a: seq<Slot>, b: seq<Slot>, c: seq<Slot>)
    requires Longer(a, b) && Longer(b, c)
    ensures Longer(a, c)
  {
  }

  lemma LongerEnds(a: seq<Slot>, b: seq<Slot>, k: nat)
    requires Longer(a, b) && |a| <= k < |b|
    ensures IsEnd(b[k])
  {
  }

  lemma SearchStep(s: seq<Slot>, s': seq<Slot>, q: nat, cnt: nat, eod: bool, stop: nat, cnt': nat, eod': bool, stop': nat)
    requires Searching(s, q, cnt, eod, stop) && Longer(s, s') && q + 1 < |s'|
    requires stop' == if eod then stop else if IsEnd(s[q]) then q else q + 1
    requires cnt' == (if eod || IsVacant(s[q]) then cnt + 1 else 0) && eod' == (eod || IsEnd(s[q]))
    ensures Searching(s', q + 1, cnt', eod', stop')
  {
  }

  /** Slots keep their place when the directory grows. */
  lemma LocalPlaces(g: Geometry, v: Image, q: nat, s: seq<nat>, v': Image, q': nat, s': seq<nat>, k: nat, sect: nat, idx: nat)
    requires Local(g, v, q, s, v', q', s') && Place(g, s, k, sect, idx)
    ensures Place(g, s', k, sect, idx)
  {
    hide Fat0, Fat1, Geometry.Ok;
  }

  /** Looking something up changes no sector; only the volume's buffer moves. */
  lemma LocalParked(g: Geometry, v: Image, k: nat, s: seq<nat>, k': nat)
    requires g.Ok(|v|) && IsChain(Fat0(g, v), s) && Parked(g, s, k, k')
    ensures Local(g, v, k, s, v, k', s)
  {
    hide Fat0, Geometry.Ok, IsChain, OnChain, Kept;
    KeptRefl(g, v, s);
  }

  lemma LocalHere(g: Geometry, v: Image, k: nat, s: seq<nat>, k': nat)
    requires g.Ok(|v|) && IsChain(Fat0(g, v), s) && OnChain(g, s, k')
    ensures Local(g, v, k, s, v, k', s)
  {
    LocalParked(g, v, k, s, k');
  }

  /** Writing the chain's own sectors, with the volume's buffer on one of them. */
  lemma LocalAt(g: Geometry, v: Image, k: nat, s: seq<nat>, v': Image, k': nat)
    requires Kept(g, v, s, v', s) && OnChain(g, s, k')
    ensures Local(g, v, k, s, v', k', s)
  {
  }

  lemma StayedLocal(g: Geometry, v: Image, s: seq<nat>, k: nat, k': nat)
    requires g.Ok(|v|) && IsChain(Fat0(g, v), s) && (k' == k || g.InFat(k'))
    ensures Local(g, v, k, s, v, k', s)
  {
    LocalParked(g, v, k, s, k');
  }

  lemma InfoLocal(g: Geometry, v: Image, k: nat, s: seq<nat>, v': Image, s': seq<nat>)
    requires Moved(g, v, s, v', s')
    ensures Local(g, v, k, s, v', g.infoSect, s')
  {
    hide Fat0, Fat1, Extends;
    LocalMoved(g, v, k, s, v', g.infoSect, s');
  }

  lemma ClearedLocal(g: Geometry, v: Image, k: nat, s: seq<nat>, v': Image, k': nat, c: nat)
    requires Kept(g, v, s, v', s + [c]) && 2 <= c < g.clustCnt && ClustToSect(g, c) <= k' < ClustToSect(g, c) + g.Spc()
    ensures Local(g, v, k, s, v', k', s + [c])
  {
    hide Kept;
    OnLast(g, s, c, k');
  }

  lemma OnLast(g: Geometry, s: seq<nat>, c: nat, k: nat)
    requires 2 <= c < g.clustCnt && ClustToSect(g, c) <= k < ClustToSect(g, c) + g.Spc()
    ensures OnChain(g, s + [c], k)
  {
    ClustInData(g, c, k - ClustToSect(g, c));
    ClustSectRoundTrip(g, c, k - ClustToSect(g, c));
    assert (s + [c])[|s|] == c;
  }

  /** The first slot of cluster `i` of a chain. */
  lemma AtStart(g: Geometry, chain: seq<nat>, i: nat)
    requires Usable(g, chain) && i < |chain|
    ensures
      var p := 16 * Times(i, g.Spc());
      && p % 16 == 0 && SlotInside(g, chain, p) && ClustIndex(g, p / 16) == i
      && FileSect(g, chain, p / 16) == ClustToSect(g, chain[i])
  {
    var p := 16 * Times(i, g.Spc());
    assert p / 16 == Times(i, g.Spc());
    DivModUnique(i, g.Spc(), 0);
  }

  /** Slots of one sector share it. */
  lemma SameSector(g: Geometry, chain: seq<nat>, p: nat)
    requires SlotInside(g, chain, p) && p % 16 < 15
    ensures (p + 1) / 16 == p / 16 && (p + 1) % 16 == p % 16 + 1 && SlotInside(g, chain, p + 1)
  {
  }

  /** Behind the last slot of a sector comes the first of the next one, if the chain goes on. */
  lemma NextSector(g: Geometry, size: nat, chain: seq<nat>, p: nat)
    requires g.Ok(size) && Usable(g, chain) && SlotInside(g, chain, p) && p % 16 == 15
    ensures (p + 1) / 16 == p / 16 + 1 && (p + 1) % 16 == 0
    ensures ClustIndex(g, p / 16) < |chain|
    ensures
      var s, i := FileSect(g, chain, p / 16) + 1, ClustIndex(g, p / 16);
      if Rem(s, g.Spc()) != 0 then
        SlotInside(g, chain, p + 1) && ClustIndex(g, (p + 1) / 16) == i && FileSect(g, chain, (p + 1) / 16) == s
      else if i + 1 < |chain| then
        && SlotInside(g, chain, p + 1) && ClustIndex(g, (p + 1) / 16) == i + 1
        && FileSect(g, chain, (p + 1) / 16) == ClustToSect(g, chain[i + 1])
      else p + 1 == SlotCount(g, chain)
  {
    hide Quot, Rem, ClustToSect, SlotCount, Pow2;
    SectStep(g, size, chain, p / 16);
    SlotInsideCount(g, chain, p);
    SlotInsideCount(g, chain, p + 1);
  }
}
