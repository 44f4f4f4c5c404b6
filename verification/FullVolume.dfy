/** The smallest volume on which a write reports success and has not succeeded. */
module FullVolume {
  import opened Bytes
  import opened Powers
  import opened Volume
  import opened Chains
  import opened Disks
  import opened FatVolume
  import opened Growth
  import opened FileLayout
  import opened FileBytes
  import opened FatFile

  /** One cluster of one sector, behind a boot sector, FSInfo and a single table. */
  const SMALL := Geometry(0, 3, 1, 2, 0, 3, 2)

  /** Cluster 2, the only one, is a whole chain. */
  function SmallImage(): (v: Image)
    ensures |v| == 4
  {
    [ZeroSector(), ZeroSector(), PutLe32(ZeroSector(), 8, EOC), ZeroSector()]
  }

  lemma SmallOk()
    ensures SMALL.Ok(4)
  {
    assert SMALL.Spc() == 1 && SMALL.FatLen() == 1 && SMALL.DataLen() == Times(1, 1) == 1;
  }

  lemma SmallTable()
    ensures SMALL.Ok(4) && Fat0(SMALL, SmallImage()) == [0, 0, EOC]
  {
    SmallOk();
    var v := SmallImage();
    var s := v[2];
    assert Le32(s, 0) == 0 && Le32(s, 4) == 0 && Le32(s, 8) == EOC;
    assert EOC % TWO_28 == EOC;
    assert Entry(v, 2, 0) == 0 && Entry(v, 2, 1) == 0 && Entry(v, 2, 2) == EOC;
  }

  /** The volume is full: the chain cannot be made longer. */
  lemma SmallIsFull()
    ensures IsChain([0, 0, EOC], [2]) && !CanGrow([0, 0, EOC], 2, 2, 1)
  {
    assert Succ(3, 2) == 2;
  }

  lemma SmallIndex()
    ensures ClustIndex(SMALL, 0) == 0 && ClustIndex(SMALL, 1) == 1
  {
    assert SMALL.Spc() == 1;
  }

  /** A file of one cluster on that volume can be read and written up to the end of the cluster, and not to its end. */
  lemma OneCluster(f: File)
    requires f.Attached() && f.fat.geo == SMALL && |f.chain| == 1
    ensures f.Reaches(0)
    ensures Taken(f.fat, f.chain, [0, 0, EOC], 2, 2, 0) ==> !f.Reaches(512)
  {
    hide Geometry.Ok, Fat0, Fat.View, IsChain, Choose, ClustIndex, SMALL;
    SmallIndex();
    SmallIsFull();
    f.ReachesMeans(0);
    f.ReachesMeans(512);
    if Taken(f.fat, f.chain, [0, 0, EOC], 2, 2, 0) {
      f.TakenHere([0, 0, EOC], 2, 2, 0);
      assert CanGrow([0, 0, EOC], 2, 2, 0 + 1) <==> CanGrow(f.Entries(), f.fat.lastUsed, f.Tail(), 1);
    }
  }

  /** The file on that volume, just opened. */
  method OpenSmall() returns (f: File)
    ensures fresh(f) && fresh(f.Repr()) && f.Valid() && f.fat.geo == SMALL && f.chain == [2] && f.canRead && f.canWrite
    ensures f.offset == 0 && f.size == 0 && f.Entries() == [0, 0, EOC] && f.fat.lastUsed == 2 && f.fat.disk.faults == 0
  {
    SmallTable();
    SmallIsFull();
    hide Geometry.Ok, Fat0, IsChain, CanGrow, SmallImage;
    var disk := new Disk(SmallImage());
    var fat := new Fat(disk, SMALL, 2, 0);
    f := new File(fat, 3, 0, 2, 0, true, true, false, [2]);
  }

  /** Without a failed transfer, `fat_file_write` of 512 bytes on that volume reports success and 512 bytes written. It has
      not succeeded: position and size are as before, 0. */
  method WriteFalsely() returns (err: int, bytes: nat, ok: bool, f: File)
    ensures fresh(f) && fresh(f.Repr()) && f.fat != null
    ensures f.fat.disk.faults == 0 ==> err == ERR_NONE && bytes == 512 && !ok && f.size == 0 && f.offset == 0
  {
    f := OpenSmall();
    hide Geometry.Ok, Fat0, Fat.View, IsChain, CanGrow, Choose, Local, Moved, Wrote, Taken, ClustIndex, FileSect, OnChain,
      File.Reaches, File.Valid, SMALL, Inside;
    SmallIndex();
    f.NowAttached();
    OneCluster(f);
    err := f.Seek(0, Start);
    bytes, ok := 0, false;
    if err != ERR_NONE {
      return;
    }
    f.NowAttached();
    OneCluster(f);
    err, bytes, ok := f.Write(seq(512, i => 0x41));
  }
}
