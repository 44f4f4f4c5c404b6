/** What several calls on an open file do together. */
module FileLaws {
  import opened Bytes
  import opened Volume
  import opened Chains
  import opened Disks
  import opened FatVolume
  import opened FileLayout
  import opened FileBytes
  import opened LongName
  import opened DirSlots
  import opened DirLayout
  import opened FatFile
  import opened FatDir
  import opened OpenFiles

  /** A byte before the place of a write, after a seek there and the write. */
  lemma KeptBelow(g: Geometry, v: Image, s: seq<nat>, v1: Image, s1: seq<nat>, v2: Image, s2: seq<nat>, o: nat,
                  src: seq<byte>, i: nat)
    requires Moved(g, v, s, v1, s1) && Usable(g, s1) && Wrote(g, v1, s1, v2, s2, o, src) && i < o && Inside(g, s, i)
    ensures StoredByte(g, v2, s2, i) == StoredByte(g, v, s, i)
  {
    hide StoredByte, Wrote, Fat0, Fat1, IsChain, Geometry.Ok, ClustIndex;
    StoredMoved(g, v, s, v1, s1, i, 1);
    StoredLonger(g, v, s, s1, i, 1);
    InsideLonger(g, s, s1, i);
    WroteKeepsRest(g, v1, s1, v2, s2, o, src, i, 1);
    assert Stored(g, v2, s2, i, 1)[0] == StoredByte(g, v2, s2, i + 0);
    assert Stored(g, v, s, i, 1)[0] == StoredByte(g, v, s, i + 0);
  }

  lemma InsideLonger(g: Geometry, s: seq<nat>, s': seq<nat>, i: nat)
    requires s <= s' && Inside(g, s, i)
    ensures Inside(g, s', i)
  {
  }

  /** Appending: `fat_file_seek` to the end and `fat_file_write`. If both truly succeed the file has its old bytes, then the
      new ones, and nothing behind them. */
  method Append(f: File, src: seq<byte>) returns (err: int, bytes: nat, ok: bool)
    requires f.fat != null && f.Valid()
    modifies f.Repr()
    ensures ok ==>
      && f.fat != null && f.Valid() && bytes == |src| && f.size == old(f.size) + |src| && f.offset == f.size && f.modified
      && Stored(f.fat.geo, f.Logical(), f.chain, old(f.size), |src|) == src
      && forall i: nat :: i < old(f.size) && Inside(f.fat.geo, old(f.chain), i) ==>
           StoredByte(f.fat.geo, f.Logical(), f.chain, i) == StoredByte(f.fat.geo, old(f.Logical()), old(f.chain), i)
  {
    hide Geometry.Ok, Fat0, Fat.View, IsChain, ClustIndex, FileSect, OnChain, Moved, Wrote, Stored, StoredByte, Local, Choose,
      Inside, File.Reaches, File.Valid, File.Stuck, Growth.Taken;
    f.NowAttached();
    ghost var v, s := f.Logical(), f.chain;
    bytes, ok := 0, false;
    err := f.Seek(0, End);
    if err != ERR_NONE {
      return;
    }
    ghost var v1, s1, o := f.Logical(), f.chain, f.offset;
    f.LogicalTables();
    err, bytes, ok := f.Write(src);
    if ok {
      WroteReadsBack(f.fat.geo, v1, s1, f.Logical(), f.chain, o, src);
      forall i: nat | i < o && Inside(f.fat.geo, s, i)
        ensures StoredByte(f.fat.geo, f.Logical(), f.chain, i) == StoredByte(f.fat.geo, v, s, i)
      {
        KeptBelow(f.fat.geo, v, s, v1, s1, f.Logical(), f.chain, o, src, i);
      }
    }
  }

  datatype Move = SeekTo(off: int, whence: Whence) | ReadUpTo(len: nat)

  /** Any seeks and reads, up to the first that fails: the file keeps its size and its mark for the next sync, and a directory
      open beside it its slots. */
  method Moves(f: File, moves: seq<Move>, dst: array<byte>, ghost d: Dir, ghost fat: Fat, ghost files: set<File>,
               ghost dirs: set<Dir>)
      returns (err: int)
    requires f !in files && d !in dirs && OpenOn(fat, files + {f}, dirs + {d}) && d.Attached() && f.sect != NO_SECT
    requires dst !in f.Repr() && forall h :: h in files ==> dst != h.buf
    requires forall i :: 0 <= i < |moves| && moves[i].ReadUpTo? ==> moves[i].len <= dst.Length
    modifies f.Repr(), dst
    ensures f.size == old(f.size) && f.modified == old(f.modified)
    ensures err == ERR_NONE ==>
      OpenOn(fat, files + {f}, dirs + {d}) && d.Attached() && d.Content() == old(d.Content()) && f.sect != NO_SECT
  {
    hide FileOn, DirOn, Fat.View, Fat.Valid, Geometry.Ok, Open, OwnChains, SameContents, File.Valid, IsChain, Fat0, OnChain, Wrote,
      Moved, Stored, Dir.Content, ApartFrom, Disjoint, Usable, Slots, OpenOn, Dir.Attached, File.Attached, File.Logical, Local;
    for i := 0 to |moves|
      invariant OpenOn(fat, files + {f}, dirs + {d}) && d.Attached() && d.Content() == old(d.Content())
      invariant f.sect != NO_SECT && f.size == old(f.size) && f.modified == old(f.modified)
    {
      FatOf(fat, files + {f}, dirs + {d});
      ghost var w := fat.View();
      SingleOutDir(fat, d, files + {f}, dirs);
      ContentIs(d);
      var n;
      match moves[i] {
        case SeekTo(off, whence) => err := SeekBeside(f, off, whence, fat, files, dirs + {d});
        case ReadUpTo(len) => err, n := ReadBeside(f, dst, len, fat, files, dirs + {d});
      }
      if err != ERR_NONE {
        return;
      }
      SingleOutDir(fat, d, files + {f}, dirs);
      SlotsSame(fat, d, files, dirs, w);
    }
    return ERR_NONE;
  }

  lemma FatOf(fat: Fat, files: set<File>, dirs: set<Dir>)
    requires OpenOn(fat, files, dirs)
    ensures fat.Valid()
  {
  }

  /** A write, any seeks and reads after it, and `fat_file_sync`: if all of them succeed, the write truly, the entry of the
      file in its directory says the size that the file has then, which no seek or read has changed. */
  method WriteMovesSync(f: File, src: seq<byte>, moves: seq<Move>, dst: array<byte>, date: nat, time: nat, ghost d: Dir,
                        ghost p: nat, ghost k: nat, ghost signed: bool, ghost fat: Fat, ghost files: set<File>,
                        ghost dirs: set<Dir>)
      returns (done: bool)
    requires f !in files && d !in dirs && OpenOn(fat, files + {f}, dirs + {d}) && d.Attached() && f.sect != NO_SECT
    requires date < 0x1_0000 && time < 0x1_0000 && dst !in f.Repr() && forall h :: h in files ==> dst != h.buf
    requires forall i :: 0 <= i < |moves| && moves[i].ReadUpTo? ==> moves[i].len <= dst.Length
    requires Place(fat.geo, d.chain, k, f.dirSect, f.dirIdx) && ListedAt(d.Content(), p, k, signed)
    modifies f.Repr(), dst
    ensures done ==>
      && OpenOn(fat, files + {f}, dirs + {d}) && d.Attached() && k < |d.Content()| && Le32(d.Content()[k], 28) == f.size
      && f.size == if old(f.offset) + |src| > old(f.size) then old(f.offset) + |src| else old(f.size)
  {
    hide FileOn, DirOn, Fat.View, Fat.Valid, Geometry.Ok, Open, OwnChains, SameContents, File.Valid, IsChain, Fat0, OnChain, Wrote,
      Moved, Stored, SlotStamped, ListedAt, Restamped, Dir.Content, Place, ApartFrom, Disjoint, Usable, Slots, List, Sound, OpenOn,
      Dir.Attached, File.Attached, File.Logical, Local;
    FatOf(fat, files + {f}, dirs + {d});
    ghost var a, v := d.Content(), fat.View();
    SingleOutDir(fat, d, files + {f}, dirs);
    ContentIs(d);
    ListedSlot(a, p, k, signed);
    var err, bytes, ok := WriteBeside(f, src, fat, files, dirs + {d});
    if !ok {
      return false;
    }
    SingleOutDir(fat, d, files + {f}, dirs);
    SlotsSame(fat, d, files, dirs, v);
    err := Moves(f, moves, dst, d, fat, files, dirs);
    if err != ERR_NONE {
      return false;
    }
    ghost var acc := f.accessed;
    err := SyncListed(f, date, time, d, p, k, signed, fat, files, dirs);
    if err != ERR_NONE {
      return false;
    }
    RestampedSlot(a, d.Content(), p, k, signed);
    SizeStamped(a[k], d.Content()[k], acc, f.size, date, time);
    return true;
  }

  lemma RestampedSlot(a: seq<Slot>, b: seq<Slot>, p: nat, k: nat, signed: bool)
    requires ListedAt(a, p, k, signed) && Restamped(a, b, p, k, signed)
    ensures k < |b|
  {
  }

  /** A directory among those that have the slots they had. */
  lemma SlotsSame(fat: Fat, d: Dir, files: set<File>, dirs: set<Dir>, v: Image)
    requires d.fat == fat && d.Attached() && SameContents(fat.geo, v, fat.View(), files, dirs + {d})
    ensures fat.geo.Ok(|v|) && Usable(fat.geo, d.chain) && d.Content() == Slots(fat.geo, v, d.chain)
  {
    assert d in dirs + {d};
  }

  lemma SizeStamped(x: Slot, y: Slot, accessed: bool, size: nat, date: nat, time: nat)
    requires SlotStamped(x, y, accessed, true, size, date, time)
    ensures Le32(y, 28) == size
  {
  }

  lemma ListedSlot(a: seq<Slot>, p: nat, k: nat, signed: bool)
    requires ListedAt(a, p, k, signed)
    ensures k < |a|
  {
  }
}
