/** Several files and directories open on one volume: work on one of them leaves the others as they are. */
module OpenFiles {
  import opened Bytes
  import opened Powers
  import opened Volume
  import opened Chains
  import opened Disks
  import opened FatVolume
  import opened FileLayout
  import opened FileBytes
  import opened LongName
  import opened Timestamps
  import opened DirSlots
  import opened DirLayout
  import opened FatFile
  import opened FatDir

  // ---------------------------------------------------------------- one of them, on a given view of the volume

  /** On view `v` with the volume's buffer at sector `k`, the file is in a sound state. */
  ghost predicate FileOn(f: File, g: Geometry, v: Image, k: nat)
    reads f, f.buf
  {
    && f.buf.Length == 512 && g.Ok(|v|) && IsChain(Fat0(g, v), f.chain) && Usable(g, f.chain) && f.chain[0] == f.sclust
    && !OnChain(g, f.chain, k) && f.size < TWO_32 && f.offset < TWO_32
    && Inside(g, f.chain, f.offset) && f.clust == f.chain[ClustIndex(g, f.offset / 512)]
    && (f.sect == NO_SECT ==> !f.dirty && f.offset == 0)
    && (f.sect != NO_SECT ==>
          f.sect == FileSect(g, f.chain, f.offset / 512) && f.sect < |v| && (!f.dirty ==> f.buf[..] == v[f.sect]))
  }

  /** Bytes `[p, p + n)` of the file, with its buffer laid over the volume. */
  ghost function BytesOf(f: File, g: Geometry, v: Image, p: nat, n: nat): seq<byte>
    requires f.buf.Length == 512
    reads f, f.buf
  {
    Stored(g, Over(v, f.sect, f.buf[..]), f.chain, p, n)
  }

  /** That is what `File.Valid` says, and what `File.Logical` holds. */
  lemma FileOnIsValid(f: File)
    requires f.fat != null && f.buf != f.fat.buf && f.fat.Valid()
    ensures FileOn(f, f.fat.geo, f.fat.View(), f.fat.sect) <==> f.Valid()
    ensures f.Valid() ==> f.Logical() == Over(f.fat.View(), f.sect, f.buf[..])
  {
    hide Geometry.Ok, Fat0, IsChain, ClustIndex, FileSect, OnChain, Fat.View;
    var g, v := f.fat.geo, f.fat.View();
    SizeBelow(g, |v|);
    if f.sect != NO_SECT && Usable(g, f.chain) && Inside(g, f.chain, f.offset) && f.sect == FileSect(g, f.chain, f.offset / 512)
       && !OnChain(g, f.chain, f.fat.sect) {
      FileSectOnChain(g, f.chain, f.offset / 512);
      NotInBuffer(f.fat, f.chain, f.sect);
    }
  }

  lemma NotInBuffer(fat: Fat, s: seq<nat>, k: nat)
    requires fat.Valid() && OnChain(fat.geo, s, k) && !OnChain(fat.geo, s, fat.sect)
    ensures k < |fat.disk.image| && fat.View()[k] == fat.disk.image[k]
  {
    DataElsewhere(fat.geo, |fat.disk.image|, k);
  }

  ghost predicate DirOn(d: Dir, g: Geometry, v: Image)
    reads d
  {
    g.Ok(|v|) && IsChain(Fat0(g, v), d.chain) && Usable(g, d.chain) && d.chain[0] == d.sclust
  }

  /** A file whose chain was not disturbed, and whose sectors the volume's buffer did not enter, goes on as it was. */
  lemma FileStays(f: File, g: Geometry, v: Image, k: nat, v': Image, k': nat)
    requires FileOn(f, g, v, k) && Undisturbed(g, f.chain, v, v') && !OnChain(g, f.chain, k')
    ensures FileOn(f, g, v', k')
    ensures forall p, n :: BytesOf(f, g, v', p, n) == BytesOf(f, g, v, p, n)
  {
    hide Geometry.Ok, Fat0, IsChain, ClustIndex, FileSect, OnChain, Stored;
    if f.sect != NO_SECT { FileSectOnChain(g, f.chain, f.offset / 512); }
    forall p, n ensures BytesOf(f, g, v', p, n) == BytesOf(f, g, v, p, n) {
      UndisturbedBytes(g, f.chain, Over(v, f.sect, f.buf[..]), Over(v', f.sect, f.buf[..]), p, n);
    }
  }

  /** A directory whose chain was not disturbed goes on as it was. */
  lemma DirStays(d: Dir, g: Geometry, v: Image, v': Image)
    requires DirOn(d, g, v) && Undisturbed(g, d.chain, v, v')
    ensures DirOn(d, g, v') && Slots(g, v', d.chain) == Slots(g, v, d.chain)
  {
    hide Geometry.Ok, Fat0, IsChain, OnChain, Slots;
    SlotsFrame(g, v, v', d.chain);
  }

  // ---------------------------------------------------------------- all of them

  /** Every file and every directory is in a sound state, each on a chain of its own. */
  ghost predicate Open(g: Geometry, v: Image, k: nat, files: set<File>, dirs: set<Dir>)
    reads files, dirs, set f | f in files :: f.buf
  {
    && (forall f :: f in files ==> FileOn(f, g, v, k))
    && (forall d :: d in dirs ==> DirOn(d, g, v))
    && OwnChains(files, dirs)
  }

  ghost predicate OwnChains(files: set<File>, dirs: set<Dir>)
    reads files, dirs
  {
    && (forall f, h :: f in files && h in files && f != h ==> f.buf != h.buf && Disjoint(f.chain, h.chain))
    && (forall d, e :: d in dirs && e in dirs && d != e ==> Disjoint(d.chain, e.chain))
    && (forall f, d :: f in files && d in dirs ==> Disjoint(f.chain, d.chain))
  }

  /** Chain `s` is apart from the chains of all of them. */
  ghost predicate ApartFrom(s: seq<nat>, files: set<File>, dirs: set<Dir>)
    reads files, dirs
  {
    (forall f :: f in files ==> Disjoint(s, f.chain)) && (forall d :: d in dirs ==> Disjoint(s, d.chain))
  }

  /** Between two views every file has the same bytes and every directory the same slots. */
  ghost predicate SameContents(g: Geometry, v: Image, v': Image, files: set<File>, dirs: set<Dir>)
    reads files, dirs, set f | f in files :: f.buf
  {
    && (forall f, p, n :: f in files ==> f.buf.Length == 512 && BytesOf(f, g, v', p, n) == BytesOf(f, g, v, p, n))
    && (forall d :: d in dirs ==>
          g.Ok(|v|) && g.Ok(|v'|) && Usable(g, d.chain) && Slots(g, v', d.chain) == Slots(g, v, d.chain))
  }

  /** If none of them was disturbed, and the volume's buffer is on no file, they all go on as they were. */
  lemma AllStay(g: Geometry, v: Image, k: nat, v': Image, k': nat, files: set<File>, dirs: set<Dir>)
    requires Open(g, v, k, files, dirs) && g.Ok(|v|) && |v'| == |v|
    requires forall f :: f in files ==> Undisturbed(g, f.chain, v, v') && !OnChain(g, f.chain, k')
    requires forall d :: d in dirs ==> Undisturbed(g, d.chain, v, v')
    ensures Open(g, v', k', files, dirs) && SameContents(g, v, v', files, dirs)
  {
    hide Geometry.Ok, Fat0, IsChain, OnChain, Stored, Slots, Undisturbed, OwnChains;
    forall f | f in files
      ensures FileOn(f, g, v', k') && forall p, n :: BytesOf(f, g, v', p, n) == BytesOf(f, g, v, p, n)
    {
      FileStays(f, g, v, k, v', k');
    }
    forall d | d in dirs ensures DirOn(d, g, v') && Slots(g, v', d.chain) == Slots(g, v, d.chain) {
      DirStays(d, g, v, v');
    }
  }

  /** Work on a chain apart from all of them: they all go on as they were, and apart from that chain. */
  lemma OthersStay(g: Geometry, v: Image, k: nat, s: seq<nat>, v': Image, k': nat, s': seq<nat>, files: set<File>, dirs: set<Dir>)
    requires Open(g, v, k, files, dirs) && ApartFrom(s, files, dirs)
    requires Local(g, v, k, s, v', k', s') && IsChain(Fat0(g, v), s)
    ensures Open(g, v', k', files, dirs) && ApartFrom(s', files, dirs) && SameContents(g, v, v', files, dirs)
  {
    hide Geometry.Ok, Fat0, IsChain, OnChain, Local, Undisturbed, OwnChains, SameContents;
    KeptOk(g, v, k, s, v', k', s');
    forall f | f in files
      ensures Undisturbed(g, f.chain, v, v') && !OnChain(g, f.chain, k') && Disjoint(s', f.chain)
    {
      LocalUndisturbed(g, v, k, s, v', k', s', f.chain);
    }
    forall d | d in dirs ensures Undisturbed(g, d.chain, v, v') && Disjoint(s', d.chain) {
      LocalUndisturbed(g, v, k, s, v', k', s', d.chain);
    }
    hide Open, ApartFrom;
    AllStay(g, v, k, v', k', files, dirs);
  }

  /** Freeing chain `s` disturbs no chain apart from it. */
  lemma FreedUndisturbed(g: Geometry, v: Image, s: seq<nat>, v': Image, q: seq<nat>)
    requires g.Ok(|v|) && |v'| == |v| && SameElsewhere(g, v', v) && Fat0(g, v') == Zeroed(Fat0(g, v), s)
    requires IsChain(Fat0(g, v), q) && Disjoint(s, q)
    ensures Undisturbed(g, q, v, v') && !OnChain(g, q, g.infoSect)
  {
    hide Geometry.Ok, Fat0, IsChain;
    ZeroedKeeps(Fat0(g, v), s, q);
    forall i | 0 <= i < |v| && OnChain(g, q, i) ensures v'[i] == v[i] {
      DataElsewhere(g, |v|, i);
    }
    InfoNotData(g, |v|);
  }

  lemma KeptOk(g: Geometry, v: Image, k: nat, s: seq<nat>, v': Image, k': nat, s': seq<nat>)
    requires Local(g, v, k, s, v', k', s')
    ensures g.Ok(|v|) && |v'| == |v|
  {
  }

  // ---------------------------------------------------------------- the calls, beside others

  /** They are open on `fat`, beside each other. */
  ghost predicate OpenOn(fat: Fat, files: set<File>, dirs: set<Dir>)
    reads fat, fat.buf, fat.disk, files, dirs, set f | f in files :: f.buf
  {
    && fat.Valid() && Open(fat.geo, fat.View(), fat.sect, files, dirs)
    && (forall f :: f in files ==> f.fat == fat && f.buf != fat.buf)
    && (forall d :: d in dirs ==> d.fat == fat)
  }

  lemma OpenAnother(fat: Fat, f: File, files: set<File>, dirs: set<Dir>)
    requires OpenOn(fat, files, dirs) && f.fat == fat && f.Valid() && ApartFrom(f.chain, files, dirs)
    requires forall h :: h in files && h != f ==> h.buf != f.buf && Disjoint(h.chain, f.chain)
    ensures OpenOn(fat, files + {f}, dirs)
  {
    hide FileOn, DirOn, Fat.View, Geometry.Ok, Fat.Valid;
    ValidParts(f);
    FileOnIsValid(f);
  }

  lemma ValidParts(f: File)
    requires f.Valid()
    ensures f.Attached() && f.fat != null && f.buf != f.fat.buf && f.fat.Valid() && f.fat.geo.Ok(|f.fat.View()|) && f.size < TWO_32
    ensures IsChain(Fat0(f.fat.geo, f.fat.View()), f.chain)
  {
  }

  /** What is said of one of them when it is singled out. */
  lemma SingleOut(fat: Fat, f: File, files: set<File>, dirs: set<Dir>)
    requires f !in files && OpenOn(fat, files + {f}, dirs)
    ensures f.fat == fat && f.buf != fat.buf && f.Valid() && OpenOn(fat, files, dirs) && ApartFrom(f.chain, files, dirs)
    ensures forall h :: h in files ==> h.buf != f.buf && h.buf != fat.buf && Disjoint(h.chain, f.chain)
  {
    hide FileOn, DirOn, Fat.View, Geometry.Ok, Fat.Valid, File.Valid;
    assert f in files + {f};
    FileOnIsValid(f);
  }

  /** `fat_file_write` on one of several open files: all others keep their bytes and go on. */
  method WriteBeside(f: File, src: seq<byte>, ghost fat: Fat, ghost files: set<File>, ghost dirs: set<Dir>)
      returns (err: int, bytes: nat, ok: bool)
    requires f !in files && OpenOn(fat, files + {f}, dirs) && f.sect != NO_SECT
    modifies f.Repr()
    ensures ok || fat.disk.faults == old(fat.disk.faults) ==>
      && OpenOn(fat, files, dirs) && ApartFrom(f.chain, files, dirs)
      && SameContents(fat.geo, old(fat.View()), fat.View(), files, dirs)
    ensures f.canWrite ==>
      && f.modified && f.size == (if f.offset > old(f.size) then f.offset else old(f.size))
      && (fat.disk.faults == old(fat.disk.faults) ==> OpenOn(fat, files + {f}, dirs))
    ensures ok ==>
      && f.canWrite && OpenOn(fat, files + {f}, dirs) && f.sect != NO_SECT && bytes == |src| && f.offset == old(f.offset) + |src|
      && Wrote(fat.geo, old(f.Logical()), old(f.chain), f.Logical(), f.chain, old(f.offset), src)
  {
    hide FileOn, DirOn, Fat.View, Fat.Valid, Geometry.Ok, Local, Wrote, Open, OwnChains, SameContents, File.Valid, File.Logical,
      IsChain, Fat0, File.Stuck, Moved, Stored;
    SingleOut(fat, f, files, dirs);
    ValidParts(f);
    ghost var g, v, k, c := fat.geo, fat.View(), fat.sect, f.chain;
    err, bytes, ok := f.Write(src);
    if ok || fat.disk.faults == old(fat.disk.faults) {
      Stay(fat, g, v, k, c, f.chain, files, dirs);
    }
    if ok || (f.canWrite && fat.disk.faults == old(fat.disk.faults)) { OpenAnother(fat, f, files, dirs); }
  }

  /** `fat_file_read` on one of several open files. */
  method ReadBeside(f: File, dst: array<byte>, len: nat, ghost fat: Fat, ghost files: set<File>, ghost dirs: set<Dir>)
      returns (err: int, bytes: nat)
    requires f !in files && OpenOn(fat, files + {f}, dirs) && f.sect != NO_SECT && len <= dst.Length && dst !in f.Repr()
    requires forall h :: h in files ==> dst != h.buf
    modifies f.Repr(), dst
    ensures bytes <= len && f.size == old(f.size) && f.modified == old(f.modified)
    ensures err == ERR_NONE || fat.disk.faults == old(fat.disk.faults) ==>
      && OpenOn(fat, files, dirs) && ApartFrom(f.chain, files, dirs)
      && SameContents(fat.geo, old(fat.View()), fat.View(), files, dirs)
    ensures err == ERR_NONE ==>
      && OpenOn(fat, files + {f}, dirs) && f.sect != NO_SECT
      && dst[..] == Stored(fat.geo, old(f.Logical()), f.chain, old(f.offset), bytes) + old(dst[..])[bytes..]
  {
    hide FileOn, DirOn, Fat.View, Fat.Valid, Geometry.Ok, Local, Wrote, Open, OwnChains, SameContents, File.Valid, File.Logical,
      IsChain, Fat0, File.Stuck, Moved, Stored;
    SingleOut(fat, f, files, dirs);
    ValidParts(f);
    ghost var g, v, k, c := fat.geo, fat.View(), fat.sect, f.chain;
    err, bytes := f.Read(dst, len);
    if err == ERR_NONE || fat.disk.faults == old(fat.disk.faults) {
      Stay(fat, g, v, k, c, f.chain, files, dirs);
    }
    if err == ERR_NONE { OpenAnother(fat, f, files, dirs); }
  }

  /** `fat_file_seek` on one of several open files. */
  method SeekBeside(f: File, off: int, whence: Whence, ghost fat: Fat, ghost files: set<File>, ghost dirs: set<Dir>)
      returns (err: int)
    requires f !in files && OpenOn(fat, files + {f}, dirs)
    modifies f.Repr()
    ensures f.size == old(f.size) && f.modified == old(f.modified)
    ensures err == ERR_NONE || fat.disk.faults == old(fat.disk.faults) ==>
      && OpenOn(fat, files, dirs) && ApartFrom(f.chain, files, dirs)
      && SameContents(fat.geo, old(fat.View()), fat.View(), files, dirs)
    ensures err == ERR_NONE ==>
      && OpenOn(fat, files + {f}, dirs) && f.sect != NO_SECT
      && f.offset == old(f.Target(off, whence)) && Moved(fat.geo, old(f.Logical()), old(f.chain), f.Logical(), f.chain)
  {
    hide FileOn, DirOn, Fat.View, Fat.Valid, Geometry.Ok, Local, Wrote, Open, OwnChains, SameContents, File.Valid, File.Logical,
      IsChain, Fat0, File.Stuck, Moved, Stored;
    SingleOut(fat, f, files, dirs);
    ValidParts(f);
    ghost var g, v, k, c := fat.geo, fat.View(), fat.sect, f.chain;
    err := f.Seek(off, whence);
    if err == ERR_NONE || fat.disk.faults == old(fat.disk.faults) {
      Stay(fat, g, v, k, c, f.chain, files, dirs);
    }
    if err == ERR_NONE { OpenAnother(fat, f, files, dirs); }
  }

  /** `fat_file_sync` on one of several open files. The directory sector that lists the file changes, so the others
      here are those that do not have it. */
  method SyncBeside(f: File, date: nat, time: nat, ghost fat: Fat, ghost files: set<File>, ghost dirs: set<Dir>)
      returns (err: int)
    requires f !in files && OpenOn(fat, files + {f}, dirs) && f.Listed() && date < 0x1_0000 && time < 0x1_0000
    requires forall h :: h in files ==> !OnChain(fat.geo, h.chain, f.dirSect)
    requires forall d :: d in dirs ==> !OnChain(fat.geo, d.chain, f.dirSect)
    modifies f.Repr()
    ensures err == ERR_NONE || fat.disk.faults > old(fat.disk.faults) || f.sect == NO_SECT
    ensures f.size == old(f.size)
    ensures err == ERR_NONE ==>
      && OpenOn(fat, files + {f}, dirs) && SameContents(fat.geo, old(fat.View()), fat.View(), files, dirs)
      && fat.disk.image == f.Logical()
  {
    hide FileOn, DirOn, Fat.View, Fat.Valid, Geometry.Ok, Open, OwnChains, SameContents, File.Valid, IsChain, Fat0, OnChain, Stamped,
      ClustIndex, FileSect, Over;
    SingleOut(fat, f, files, dirs);
    ValidParts(f);
    FileOnIsValid(f);
    BufferOnChain(f);
    ghost var g, v, k, q, b := fat.geo, fat.View(), fat.sect, f.sect, f.buf[..];
    err := f.Sync(date, time);
    if err == ERR_NONE {
      ValidParts(f);
      FileOnIsValid(f);
      DeviceShown(f);
      SyncedStay(g, v, k, f.chain, q, b, f.dirSect, fat.View(), fat.sect, files, dirs);
      OpenAnother(fat, f, files, dirs);
    }
  }

  lemma DeviceShown(f: File)
    requires f.Valid() && f.fat.disk.image == f.Logical()
    ensures f.fat.View() == f.fat.disk.image
  {
    hide Geometry.Ok, Fat0, IsChain, OnChain, ClustIndex, FileSect;
    if f.sect < |f.fat.disk.image| {
      forall i | 0 <= i < |f.fat.disk.image| ensures f.fat.View()[i] == f.fat.disk.image[i] {
        if i == f.sect { BufferOnChain(f); NotInBuffer(f.fat, f.chain, i); }
      }
    }
  }

  lemma BufferOnChain(f: File)
    requires f.Valid()
    ensures f.sect < |f.fat.View()| ==> OnChain(f.fat.geo, f.chain, f.sect) && !OnChain(f.fat.geo, f.chain, f.fat.sect)
  {
    hide Geometry.Ok, Fat0, IsChain, OnChain, ClustIndex, FileSect, Fat.View;
    SizeBelow(f.fat.geo, |f.fat.View()|);
    if f.sect < |f.fat.View()| { FileSectOnChain(f.fat.geo, f.chain, f.offset / 512); }
  }

  /** The others, after the buffer of a file on chain `s` and the directory sector `e` were written. */
  lemma SyncedStay(g: Geometry, v: Image, k: nat, s: seq<nat>, q: nat, b: Sector, e: nat, v': Image, k': nat,
                   files: set<File>, dirs: set<Dir>)
    requires Open(g, v, k, files, dirs) && ApartFrom(s, files, dirs) && g.Ok(|v|) && |v'| == |v|
    requires Fat0(g, v') == Fat0(g, v) && (q < |v| ==> OnChain(g, s, q))
    requires forall i :: 0 <= i < |v| && i != e && i != g.infoSect ==> v'[i] == Over(v, q, b)[i]
    requires forall h :: h in files ==> !OnChain(g, h.chain, e)
    requires forall d :: d in dirs ==> !OnChain(g, d.chain, e)
    requires k' == k || k' == e || k' == g.infoSect
    ensures Open(g, v', k', files, dirs) && SameContents(g, v, v', files, dirs)
  {
    hide Geometry.Ok, Fat0, IsChain, OnChain, OwnChains, SameContents, Undisturbed;
    InfoNotData(g, |v|);
    forall f | f in files ensures Undisturbed(g, f.chain, v, v') && !OnChain(g, f.chain, k') {
      SyncedUndisturbed(g, v, s, q, b, e, v', f.chain);
      NotOnChain(g, |v|, f.chain, k);
    }
    forall d | d in dirs ensures Undisturbed(g, d.chain, v, v') {
      SyncedUndisturbed(g, v, s, q, b, e, v', d.chain);
    }
    hide Open, ApartFrom;
    AllStay(g, v, k, v', k', files, dirs);
  }

  lemma SyncedUndisturbed(g: Geometry, v: Image, s: seq<nat>, q: nat, b: Sector, e: nat, v': Image, c: seq<nat>)
    requires g.Ok(|v|) && |v'| == |v| && Fat0(g, v') == Fat0(g, v) && (q < |v| ==> OnChain(g, s, q))
    requires forall i :: 0 <= i < |v| && i != e && i != g.infoSect ==> v'[i] == Over(v, q, b)[i]
    requires IsChain(Fat0(g, v), c) && Disjoint(s, c) && !OnChain(g, c, e)
    ensures Undisturbed(g, c, v, v')
  {
    hide Geometry.Ok, Fat0, IsChain, OnChain;
    forall i | 0 <= i < |v| && OnChain(g, c, i) ensures v'[i] == v[i] {
      NotOnChain(g, |v|, c, i);
      OnOne(g, s, c, i);
    }
  }

  // ---------------------------------------------------------------- with the directory that lists the file

  /** Short slot `x` as `fat_file_sync` leaves it. */
  predicate SlotStamped(x: Slot, y: Slot, accessed: bool, modified: bool, size: nat, date: nat, time: nat)
  {
    && (forall j :: 0 <= j < 32 && j !in {11, 18, 19, 22, 23, 24, 25, 28, 29, 30, 31} ==> y[j] == x[j])
    && y[11] == (if modified then Archived(x[11]) else x[11])
    && (modified ==> Le32(y, 28) == size && Le16(y, 24) == date && Le16(y, 22) == time)
    && (!modified ==> forall j :: 22 <= j < 32 ==> y[j] == x[j])
    && (if accessed then Le16(y, 18) == date else y[18] == x[18] && y[19] == x[19])
  }

  lemma StampedSlot(s: Sector, idx: nat, accessed: bool, modified: bool, size: nat, date: nat, time: nat)
    requires idx + 32 <= 512 && size < TWO_32 && date < 0x1_0000 && time < 0x1_0000
    ensures
      var x, y := s[idx..idx + 32], Stamped(s, idx, accessed, modified, size, date, time)[idx..idx + 32];
      SlotStamped(x, y, accessed, modified, size, date, time)
  {
    hide Stamped, Archived;
  }

  /** After it the entry of a file that was written reads with the file's size and the time, and as created when it
      was; the entry of any other file reads as before. */
  lemma StampedInfo(x: Slot, y: Slot, accessed: bool, modified: bool, size: nat, t: Timestamp)
    requires SlotStamped(x, y, accessed, modified, size, EncodeDate(t), EncodeTime(t))
    ensures modified && Fits(t) ==> InfoOf(y) == DirInfo(InfoOf(x).created, t, size, Archived(x[11]))
    ensures !modified ==> InfoOf(y) == InfoOf(x)
  {
    hide Decode, EncodeDate, EncodeTime, Fits, Archived;
    TimestampRoundTrip(t);
    assert Le16(y, 14) == Le16(x, 14) && Le16(y, 16) == Le16(x, 16);
  }

  /** The stamp leaves the name bytes alone, and makes no long-name slot of a short one. */
  lemma StampedName(x: Slot, y: Slot, accessed: bool, modified: bool, size: nat, date: nat, time: nat)
    requires SlotStamped(x, y, accessed, modified, size, date, time)
    ensures y[..11] == x[..11] && (IsLong(y) ==> IsLong(x))
  {
  }

  /** One entry of directory `a` has its short slot at `k`. */
  ghost predicate ListedAt(a: seq<Slot>, p: nat, k: nat, signed: bool)
  {
    && Sound(a, 0, signed) && Reach(a, 0, p) && p < |a| && !IsVacant(a[p]) && k + 1 == After(a, p) && k < |a|
    && (IsLong(a[p]) ==> LongEntry(a, p, signed))
  }

  /** Directory `b` lists what `a` lists, but that entry with the slot that `b` has at `k`. */
  ghost predicate Restamped(a: seq<Slot>, b: seq<Slot>, p: nat, k: nat, signed: bool)
    requires ListedAt(a, p, k, signed)
  {
    && k < |b| && b == a[k := b[k]] && Sound(b, 0, signed)
    && exists i :: 0 <= i < |List(a, 0, signed)| && List(a, 0, signed)[i] == EntryAt(a, p, signed)
                   && List(b, 0, signed) == List(a, 0, signed)[i := Entry(EntryAt(a, p, signed).name, b[k])]
  }

  lemma StampedList(a: seq<Slot>, b: seq<Slot>, p: nat, k: nat, signed: bool, accessed: bool, modified: bool, size: nat,
                    date: nat, time: nat)
    requires ListedAt(a, p, k, signed) && |b| == |a| && b == a[k := b[k]]
    requires SlotStamped(a[k], b[k], accessed, modified, size, date, time)
    ensures Restamped(a, b, p, k, signed)
  {
    hide SlotStamped, Sound, LongEntry, EntryAt, List, Reach, After;
    StampedName(a[k], b[k], accessed, modified, size, date, time);
    var i := RestampExact(a, b, p, k, signed);
  }

  /** The slots of a directory on chain `c`, after the buffer of a file on chain `s` was written and the sector of slot
      `k` became `sec`. */
  lemma SyncedSlots(g: Geometry, v: Image, s: seq<nat>, q: nat, b: Sector, v': Image, c: seq<nat>, k: nat, e: nat, idx: nat)
    requires g.Ok(|v|) && |v'| == |v| && (q < |v| ==> OnChain(g, s, q)) && Fat0(g, v') == Fat0(g, v)
    requires IsChain(Fat0(g, v), c) && Usable(g, c) && Disjoint(s, c) && Place(g, c, k, e, idx) && e < |v|
    requires forall i :: 0 <= i < |v| && i != e && i != g.infoSect ==> v'[i] == Over(v, q, b)[i]
    requires forall i :: 0 <= i < 512 && !(idx <= i < idx + 32) ==> v'[e][i] == v[e][i]
    ensures k < SlotCount(g, c) && Slots(g, v', c) == Slots(g, v, c)[k := v'[e][idx..idx + 32]]
    ensures Slots(g, v, c)[k] == v[e][idx..idx + 32] && Over(v, q, b)[e] == v[e]
  {
    hide Geometry.Ok, Fat0, OnChain, FileSect, ClustIndex, SlotCount, Slots;
    ChainDistinct(Fat0(g, v), c);
    hide IsChain;
    SlotSector(g, |v|, c, k);
    OnOne(g, s, c, e);
    forall i | 0 <= i < |v| && OnChain(g, c, i) ensures v'[i] == v[e := v'[e]][i] {
      NotOnChain(g, |v|, c, i);
      OnOne(g, s, c, i);
    }
    SlotsFrame(g, v', v[e := v'[e]], c);
    SlotsPut(g, v, c, k, v'[e]);
    SlotIs(g, v, c, k);
  }

  lemma SlotIs(g: Geometry, v: Image, c: seq<nat>, k: nat)
    requires g.Ok(|v|) && Usable(g, c) && SlotInside(g, c, k) && FileSect(g, c, k / 16) < |v|
    ensures k < SlotCount(g, c) && Slots(g, v, c)[k] == v[FileSect(g, c, k / 16)][32 * (k % 16)..32 * (k % 16) + 32]
  {
    SlotInsideCount(g, c, k);
    hide Geometry.Ok, FileSect, ClustIndex, SlotCount;
  }

  /** `fat_file_sync` on one of several open files, with the directory that lists the file among the open ones: its
      listing keeps every entry, and of the file's own entry all but size, times and archive bit. */
  method SyncListed(f: File, date: nat, time: nat, ghost d: Dir, ghost p: nat, ghost k: nat, ghost signed: bool, ghost fat: Fat,
                    ghost files: set<File>, ghost dirs: set<Dir>)
      returns (err: int)
    requires f !in files && d !in dirs && OpenOn(fat, files + {f}, dirs + {d}) && d.Attached()
    requires date < 0x1_0000 && time < 0x1_0000
    requires Place(fat.geo, d.chain, k, f.dirSect, f.dirIdx) && ListedAt(d.Content(), p, k, signed)
    modifies f.Repr()
    ensures err == ERR_NONE || fat.disk.faults > old(fat.disk.faults) || f.sect == NO_SECT
    ensures f.size == old(f.size)
    ensures err == ERR_NONE ==>
      && OpenOn(fat, files + {f}, dirs + {d}) && SameContents(fat.geo, old(fat.View()), fat.View(), files, dirs)
      && fat.disk.image == f.Logical() && d.Attached()
      && Restamped(old(d.Content()), d.Content(), p, k, signed)
      && SlotStamped(old(d.Content())[k], d.Content()[k], old(f.accessed), old(f.modified), f.size, date, time)
  {
    hide FileOn, DirOn, Fat.View, Fat.Valid, Geometry.Ok, Open, OwnChains, SameContents, File.Valid, IsChain, Fat0, OnChain, Stamped,
      ClustIndex, FileSect, Over, SlotStamped, ListedAt, Restamped, Dir.Content, Place, ApartFrom, Disjoint, Usable, Slots, List, Sound;
    SingleOutBoth(fat, f, d, files, dirs, k);
    ValidParts(f);
    FileOnIsValid(f);
    BufferOnChain(f);
    ghost var g, v, at, q, b, e := fat.geo, fat.View(), fat.sect, f.sect, f.buf[..], f.dirSect;
    ghost var acc, mod := f.accessed, f.modified;
    ContentIs(d);
    err := f.Sync(date, time);
    if err == ERR_NONE {
      ValidParts(f);
      FileOnIsValid(f);
      DeviceShown(f);
      SyncedStay(g, v, at, f.chain, q, b, e, fat.View(), fat.sect, files, dirs);
      SyncedListing(g, v, f.chain, q, b, fat.View(), d.chain, p, k, e, f.dirIdx, signed, acc, mod, f.size, date, time);
      StillAttached(d, v);
      ContentIs(d);
      OpenDir(fat, d, files, dirs);
      OpenAnother(fat, f, files, dirs + {d});
    }
  }

  lemma ContentIs(d: Dir)
    requires d.Attached()
    ensures d.fat.geo.Ok(|d.fat.View()|) && Usable(d.fat.geo, d.chain) && IsChain(Fat0(d.fat.geo, d.fat.View()), d.chain)
    ensures d.Content() == Slots(d.fat.geo, d.fat.View(), d.chain)
  {
  }

  lemma StillAttached(d: Dir, v: Image)
    requires d.fat.Valid() && DirOn(d, d.fat.geo, v) && Fat0(d.fat.geo, d.fat.View()) == Fat0(d.fat.geo, v)
    ensures d.Attached()
  {
    hide Fat.View, Geometry.Ok;
  }

  /** What `fat_file_sync` of a file on chain `s` makes of the listing on chain `c`. */
  lemma SyncedListing(g: Geometry, v: Image, s: seq<nat>, q: nat, b: Sector, v': Image, c: seq<nat>, p: nat, k: nat, e: nat,
                      idx: nat, signed: bool, accessed: bool, modified: bool, size: nat, date: nat, time: nat)
    requires g.Ok(|v|) && |v'| == |v| && (q < |v| ==> OnChain(g, s, q)) && Fat0(g, v') == Fat0(g, v)
    requires IsChain(Fat0(g, v), c) && Usable(g, c) && Disjoint(s, c) && Place(g, c, k, e, idx) && e < |v|
    requires forall i :: 0 <= i < |v| && i != e && i != g.infoSect ==> v'[i] == Over(v, q, b)[i]
    requires idx + 32 <= 512 && size < TWO_32 && date < 0x1_0000 && time < 0x1_0000
    requires v'[e] == if accessed || modified then Stamped(Over(v, q, b)[e], idx, accessed, modified, size, date, time)
                      else Over(v, q, b)[e]
    requires ListedAt(Slots(g, v, c), p, k, signed)
    ensures Restamped(Slots(g, v, c), Slots(g, v', c), p, k, signed)
    ensures SlotStamped(Slots(g, v, c)[k], Slots(g, v', c)[k], accessed, modified, size, date, time)
  {
    hide Geometry.Ok, Fat0, OnChain, FileSect, ClustIndex, SlotCount, Slots, Place, Over, IsChain, ListedAt, Restamped, SlotStamped,
      Archived;
    PlaceOff(g, v, s, q, b, c, k, e, idx);
    StampedSlot(v[e], idx, accessed, modified, size, date, time);
    StampedNot(v[e], idx, size, date, time);
    SyncedSlots(g, v, s, q, b, v', c, k, e, idx);
    hide Stamped;
    StampedList(Slots(g, v, c), Slots(g, v', c), p, k, signed, accessed, modified, size, date, time);
  }

  lemma StampedNot(s: Sector, idx: nat, size: nat, date: nat, time: nat)
    requires idx + 32 <= 512 && size < TWO_32 && date < 0x1_0000 && time < 0x1_0000
    ensures Stamped(s, idx, false, false, size, date, time) == s
  {
  }

  lemma PlaceOff(g: Geometry, v: Image, s: seq<nat>, q: nat, b: Sector, c: seq<nat>, k: nat, e: nat, idx: nat)
    requires g.Ok(|v|) && Usable(g, c) && Disjoint(s, c) && Place(g, c, k, e, idx) && e < |v| && (q < |v| ==> OnChain(g, s, q))
    ensures Over(v, q, b)[e] == v[e]
  {
    hide Geometry.Ok, OnChain, FileSect, ClustIndex;
    SlotSector(g, |v|, c, k);
    OnOne(g, s, c, e);
  }

  /** What is said of a file and of the directory that lists it when both are singled out. */
  lemma SingleOutBoth(fat: Fat, f: File, d: Dir, files: set<File>, dirs: set<Dir>, k: nat)
    requires f !in files && d !in dirs && OpenOn(fat, files + {f}, dirs + {d}) && Place(fat.geo, d.chain, k, f.dirSect, f.dirIdx)
    ensures f.fat == fat && f.buf != fat.buf && f.Valid() && f.Listed() && d.fat == fat && d.Attached()
    ensures OpenOn(fat, files, dirs) && ApartFrom(f.chain, files, dirs) && ApartFrom(f.chain, files, dirs + {d})
    ensures ApartFrom(d.chain, files, dirs) && Disjoint(f.chain, d.chain) && DirOn(d, fat.geo, fat.View())
    ensures forall h :: h in files ==> h.buf != f.buf && h.buf != fat.buf && Disjoint(h.chain, f.chain)
    ensures forall h :: h in files ==> !OnChain(fat.geo, h.chain, f.dirSect)
    ensures forall h :: h in dirs ==> !OnChain(fat.geo, h.chain, f.dirSect)
  {
    SingleOut(fat, f, files, dirs + {d});
    SingleOutDir(fat, d, files, dirs);
    assert d in dirs + {d};
    assert Disjoint(f.chain, d.chain);
    hide FileOn, Fat.View, Geometry.Ok, Fat.Valid, File.Valid, OnChain, Place, Open;
    assert ApartFrom(f.chain, files, dirs);
    hide ApartFrom;
    ListedHere(f, d, k);
    OffOthers(fat.geo, d.chain, f.dirSect, files, dirs);
  }

  /** What is said of a directory when it is singled out. */
  lemma SingleOutDir(fat: Fat, d: Dir, files: set<File>, dirs: set<Dir>)
    requires d !in dirs && OpenOn(fat, files, dirs + {d})
    ensures d.fat == fat && d.Attached() && OpenOn(fat, files, dirs) && ApartFrom(d.chain, files, dirs)
    ensures DirOn(d, fat.geo, fat.View())
  {
    hide FileOn, Fat.View, Geometry.Ok, Fat.Valid;
    assert d in dirs + {d};
  }

  lemma OpenDir(fat: Fat, d: Dir, files: set<File>, dirs: set<Dir>)
    requires d !in dirs && OpenOn(fat, files, dirs) && d.fat == fat && d.Attached() && ApartFrom(d.chain, files, dirs)
    ensures OpenOn(fat, files, dirs + {d})
  {
    hide FileOn, Fat.View, Geometry.Ok, Fat.Valid, OwnChains;
    OwnMore(d, files, dirs);
    ContentIs(d);
  }

  lemma OwnMore(d: Dir, files: set<File>, dirs: set<Dir>)
    requires d !in dirs && OwnChains(files, dirs) && ApartFrom(d.chain, files, dirs)
    ensures OwnChains(files, dirs + {d})
  {
    hide Disjoint;
    forall e | e in dirs ensures Disjoint(e.chain, d.chain) { DisjointBack(d.chain, e.chain); }
    forall f | f in files ensures Disjoint(f.chain, d.chain) { DisjointBack(d.chain, f.chain); }
  }

  lemma DisjointBack(a: seq<nat>, b: seq<nat>)
    requires Disjoint(a, b)
    ensures Disjoint(b, a)
  {
  }

  /** A file apart from the directory that lists it is listed in a data sector that is not its own. */
  lemma ListedHere(f: File, d: Dir, k: nat)
    requires f.fat == d.fat && d.Attached() && Disjoint(f.chain, d.chain) && Place(d.fat.geo, d.chain, k, f.dirSect, f.dirIdx)
    ensures f.Listed() && OnChain(d.fat.geo, d.chain, f.dirSect)
  {
    hide Geometry.Ok, Fat0, IsChain, ClustIndex, FileSect, OnChain, Fat.View;
    SlotSector(d.fat.geo, |d.fat.View()|, d.chain, k);
    OnOne(d.fat.geo, f.chain, d.chain, f.dirSect);
  }

  lemma OffOthers(g: Geometry, c: seq<nat>, e: nat, files: set<File>, dirs: set<Dir>)
    requires ApartFrom(c, files, dirs) && OnChain(g, c, e)
    ensures forall h :: h in files ==> !OnChain(g, h.chain, e)
    ensures forall d :: d in dirs ==> !OnChain(g, d.chain, e)
  {
    hide OnChain;
    forall h | h in files ensures !OnChain(g, h.chain, e) { OnOne(g, h.chain, c, e); }
    forall d | d in dirs ensures !OnChain(g, d.chain, e) { OnOne(g, d.chain, c, e); }
  }

  /** `dir_add` beside open files and other directories: none of them notices. */
  method AddBeside(d: Dir, name: seq<byte>, attr: byte, first: nat, date: nat, time: nat, ghost signed: bool,
                   ghost files: set<File>, ghost dirs: set<Dir>)
      returns (err: int)
    requires d !in dirs && d.Attached() && OpenOn(d.fat, files, dirs) && ApartFrom(d.chain, files, dirs)
    requires first < TWO_32 && date < 0x1_0000 && time < 0x1_0000
    modifies d, d.fat, d.fat.buf, d.fat.disk
    ensures err == ERR_NONE || d.fat.disk.faults == old(d.fat.disk.faults) ==>
      && OpenOn(d.fat, files, dirs) && ApartFrom(d.chain, files, dirs)
      && SameContents(d.fat.geo, old(d.fat.View()), d.fat.View(), files, dirs)
    ensures err == ERR_NONE ==>
      && d.Valid() && d.pos < |d.Content()|
      && Inserts(old(d.Content()), d.Content(), Entry(name, d.Content()[d.pos]), signed)
  {
    hide FileOn, DirOn, Fat.View, Geometry.Ok, Local, Open, OwnChains, SameContents, IsChain, Fat0, Inserts, Longer, Dir.Content,
      Choose;
    ghost var g, v, k, c := d.fat.geo, d.fat.View(), d.fat.sect, d.chain;
    err := d.DirAdd(name, attr, first, date, time, signed);
    if err == ERR_NONE || d.fat.disk.faults == old(d.fat.disk.faults) {
      Stay(d.fat, g, v, k, c, d.chain, files, dirs);
    }
  }

  /** `remove_entries` beside open files and other directories. */
  method RemoveEntriesBeside(d: Dir, lsect: nat, lidx: nat, ghost first: nat, ghost signed: bool, ghost files: set<File>,
                             ghost dirs: set<Dir>)
      returns (err: int)
    requires d !in dirs && d.Valid() && OpenOn(d.fat, files, dirs) && ApartFrom(d.chain, files, dirs)
    requires Place(d.fat.geo, d.chain, first, lsect, lidx) && first <= d.pos
    modifies d, d.fat, d.fat.buf, d.fat.disk
    ensures err == ERR_NONE || d.fat.disk.faults > old(d.fat.disk.faults)
    ensures err == ERR_NONE ==>
      && OpenOn(d.fat, files, dirs) && ApartFrom(d.chain, files, dirs)
      && SameContents(d.fat.geo, old(d.fat.View()), d.fat.View(), files, dirs)
      && d.Attached() && Removes(old(d.Content()), d.Content(), first, old(d.pos), signed)
  {
    hide FileOn, DirOn, Fat.View, Geometry.Ok, Local, Open, OwnChains, SameContents, IsChain, Fat0, Dir.Content, Removes, Freed,
      Place, SlotInside, FileSect, ClustIndex;
    ghost var g, v, k, c := d.fat.geo, d.fat.View(), d.fat.sect, d.chain;
    err := d.RemoveEntries(lsect, lidx, first, signed);
    if err == ERR_NONE { Stay(d.fat, g, v, k, c, c, files, dirs); }
  }

  /** `create_chain` beside open files and directories: the new chain is apart from all of theirs. */
  method CreateBeside(fat: Fat, junk: nat, ghost files: set<File>, ghost dirs: set<Dir>)
      returns (err: int, clust: nat, ghost ok: bool)
    requires OpenOn(fat, files, dirs)
    modifies fat, fat.buf, fat.disk
    ensures ok || fat.disk.faults == old(fat.disk.faults) ==>
      OpenOn(fat, files, dirs) && SameContents(fat.geo, old(fat.View()), fat.View(), files, dirs)
    ensures ok ==> IsChain(Fat0(fat.geo, fat.View()), [clust]) && Usable(fat.geo, [clust]) && ApartFrom([clust], files, dirs)
  {
    hide Fat.View, Geometry.Ok, Open, SameContents, Fat0, Fat1, SameElsewhere, InfoHolds, ApartFrom, Stretched, Choose, PutInfo,
      GrowthImage, GrowthImages, Logged, IsChain, FirstBad, Add32, OnChain;
    ghost var g, v, k := fat.geo, fat.View(), fat.sect;
    err, clust, ok := fat.StretchChain(0, junk);
    if ok {
      ChooseFree(Fat0(g, v), old(fat.lastUsed), 0);
      NewChain(Fat0(g, v), clust);
      CreatedStay(g, v, k, clust, fat.View(), files, dirs);
    } else if fat.disk.faults == old(fat.disk.faults) {
      SameStay(g, v, k, fat.sect, files, dirs);
    }
  }

  lemma NewChain(t: Table, c: nat)
    requires 2 <= c < |t| < BAD
    ensures IsChain(Stretched(t, 0, c), [c])
  {
  }

  lemma CreatedStay(g: Geometry, v: Image, k: nat, c: nat, v': Image, files: set<File>, dirs: set<Dir>)
    requires Open(g, v, k, files, dirs) && g.Ok(|v|) && |v'| == |v| && SameElsewhere(g, v', v) && 2 <= c < g.clustCnt
    requires IsFree(Fat0(g, v)[c]) && Fat0(g, v') == Stretched(Fat0(g, v), 0, c)
    ensures Open(g, v', g.infoSect, files, dirs) && SameContents(g, v, v', files, dirs) && ApartFrom([c], files, dirs)
  {
    hide Geometry.Ok, Fat0, IsChain, OnChain, Undisturbed, OwnChains, SameContents, SameElsewhere, Stretched;
    forall f | f in files ensures Undisturbed(g, f.chain, v, v') && !OnChain(g, f.chain, g.infoSect) && Disjoint([c], f.chain) {
      CreatedUndisturbed(g, v, c, v', f.chain);
    }
    forall d | d in dirs ensures Undisturbed(g, d.chain, v, v') && Disjoint([c], d.chain) {
      CreatedUndisturbed(g, v, c, v', d.chain);
    }
    hide Open, Disjoint;
    AllStay(g, v, k, v', g.infoSect, files, dirs);
  }

  lemma CreatedUndisturbed(g: Geometry, v: Image, c: nat, v': Image, q: seq<nat>)
    requires g.Ok(|v|) && |v'| == |v| && SameElsewhere(g, v', v) && 2 <= c < g.clustCnt
    requires IsFree(Fat0(g, v)[c]) && Fat0(g, v') == Stretched(Fat0(g, v), 0, c)
    requires IsChain(Fat0(g, v), q) && Usable(g, q)
    ensures Undisturbed(g, q, v, v') && !OnChain(g, q, g.infoSect) && Disjoint([c], q)
  {
    hide Geometry.Ok, Fat0, IsChain;
    StretchKeeps(Fat0(g, v), q, 0, c);
    forall i | 0 <= i < |v| && OnChain(g, q, i) ensures v'[i] == v[i] {
      DataElsewhere(g, |v|, i);
    }
    InfoNotData(g, |v|);
  }

  /** The volume's buffer may go to a table. */
  lemma SameStay(g: Geometry, v: Image, k: nat, k': nat, files: set<File>, dirs: set<Dir>)
    requires Open(g, v, k, files, dirs) && g.Ok(|v|) && (k' == k || g.InFat(k'))
    ensures Open(g, v, k', files, dirs) && SameContents(g, v, v, files, dirs)
  {
    hide Geometry.Ok, Fat0, IsChain, OwnChains, SameContents, Undisturbed;
    forall f | f in files ensures Undisturbed(g, f.chain, v, v) && !OnChain(g, f.chain, k') { SameUndisturbed(g, v, f.chain, k'); }
    forall d | d in dirs ensures Undisturbed(g, d.chain, v, v) { SameUndisturbed(g, v, d.chain, k'); }
    hide Open;
    AllStay(g, v, k, v, k', files, dirs);
  }

  lemma SameUndisturbed(g: Geometry, v: Image, q: seq<nat>, k: nat)
    requires g.Ok(|v|) && IsChain(Fat0(g, v), q)
    ensures Undisturbed(g, q, v, v) && (g.InFat(k) ==> !OnChain(g, q, k))
  {
  }

  /** `fat_dir_read` beside open files and other directories. */
  method ReadDirBeside(d: Dir, g: Scratch, signed: bool, ghost files: set<File>, ghost dirs: set<Dir>)
      returns (err: int, name: seq<byte>, info: DirInfo)
    requires d !in dirs && d.Valid() && OpenOn(d.fat, files, dirs) && ApartFrom(d.chain, files, dirs)
    requires g.buf.Length == 512 && g.buf != d.fat.buf && forall h :: h in files ==> g.buf != h.buf
    modifies d, d.fat, d.fat.buf, d.fat.disk, g, g.buf
    ensures err != ERR_IO ==>
      && OpenOn(d.fat, files, dirs) && ApartFrom(d.chain, files, dirs)
      && SameContents(d.fat.geo, old(d.fat.View()), d.fat.View(), files, dirs)
      && d.Attached() && err == ReadCode(d.Content(), old(d.pos), signed)
    ensures err == ERR_NONE ==> d.Attached() && d.pos < |d.Content()| && info == InfoOf(d.Content()[d.pos])
  {
    hide FileOn, DirOn, Fat.View, Geometry.Ok, Local, Open, OwnChains, SameContents, IsChain, Fat0, Dir.Content, ReadCode,
      ReadsHead,
      Delivers, Parked, SlotInside, FileSect, ClustIndex;
    ghost var geo, v, k, c := d.fat.geo, d.fat.View(), d.fat.sect, d.chain;
    err, name, info := d.DirRead(g, signed);
    if err != ERR_IO {
      LocalParked(geo, v, k, c, d.fat.sect);
      Stay(d.fat, geo, v, k, c, c, files, dirs);
    }
  }

  /** `remove_chain` of a chain that none of them is on. */
  method RemoveBeside(fat: Fat, head: nat, ghost s: seq<nat>, ghost files: set<File>, ghost dirs: set<Dir>) returns (err: int)
    requires OpenOn(fat, files, dirs) && IsChain(Fat0(fat.geo, fat.View()), s) && s[0] == head && ApartFrom(s, files, dirs)
    modifies fat, fat.buf, fat.disk
    ensures err == ERR_NONE || fat.disk.faults > old(fat.disk.faults)
    ensures err == ERR_NONE ==>
      && OpenOn(fat, files, dirs) && SameContents(fat.geo, old(fat.View()), fat.View(), files, dirs)
      && Fat0(fat.geo, fat.View()) == Zeroed(Fat0(fat.geo, old(fat.View())), s)
  {
    hide Fat.View, Geometry.Ok, Open, SameContents, Fat0, RemovalLog, Remove, Zeroed, SameElsewhere, InfoHolds, ApartFrom;
    ghost var g, v, k := fat.geo, fat.View(), fat.sect;
    RemoveChainExact(Fat0(g, v), s);
    HeadIn(Fat0(g, v), s);
    hide IsChain;
    err := fat.RemoveChain(head);
    if err == ERR_NONE { FreedStay(g, v, k, s, fat.View(), files, dirs); }
  }

  /** All of them, after a chain apart from them was freed. */
  lemma FreedStay(g: Geometry, v: Image, k: nat, s: seq<nat>, v': Image, files: set<File>, dirs: set<Dir>)
    requires Open(g, v, k, files, dirs) && ApartFrom(s, files, dirs)
    requires g.Ok(|v|) && |v'| == |v| && SameElsewhere(g, v', v) && Fat0(g, v') == Zeroed(Fat0(g, v), s)
    ensures Open(g, v', g.infoSect, files, dirs) && SameContents(g, v, v', files, dirs)
  {
    hide Geometry.Ok, Fat0, IsChain, OnChain, Undisturbed, OwnChains, SameContents, SameElsewhere, Zeroed;
    forall f | f in files ensures Undisturbed(g, f.chain, v, v') && !OnChain(g, f.chain, g.infoSect) {
      FreedUndisturbed(g, v, s, v', f.chain);
    }
    forall d | d in dirs ensures Undisturbed(g, d.chain, v, v') {
      FreedUndisturbed(g, v, s, v', d.chain);
    }
    hide Open, ApartFrom;
    AllStay(g, v, k, v', g.infoSect, files, dirs);
  }

  lemma HeadIn(t: Table, s: seq<nat>)
    requires IsChain(t, s)
    ensures s[0] < |t|
  {
  }

  /** The others, after work on a chain apart from them. */
  lemma Stay(fat: Fat, g: Geometry, v: Image, k: nat, c: seq<nat>, c': seq<nat>, files: set<File>, dirs: set<Dir>)
    requires fat.geo == g && fat.Valid() && Open(g, v, k, files, dirs) && ApartFrom(c, files, dirs)
    requires Local(g, v, k, c, fat.View(), fat.sect, c') && IsChain(Fat0(g, v), c)
    requires (forall f :: f in files ==> f.fat == fat && f.buf != fat.buf) && (forall d :: d in dirs ==> d.fat == fat)
    ensures OpenOn(fat, files, dirs) && ApartFrom(c', files, dirs) && SameContents(g, v, fat.View(), files, dirs)
  {
    hide Fat.View, Geometry.Ok, Local, Open, SameContents, IsChain, Fat0;
    OthersStay(g, v, k, c, fat.View(), fat.sect, c', files, dirs);
  }
}
