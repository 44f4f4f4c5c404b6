/** A mounted volume: the one-sector write-back cache, the table access on top of it, and the
    cluster allocator on top of that. */
module FatVolume {
  import opened Bytes
  import opened Powers
  import opened Volume
  import opened Chains
  import opened Disks

  const ERR_NONE := 0
  const ERR_BROKEN := -2
  const ERR_IO := -3
  const ERR_PARAM := -4
  const ERR_EOF := -6
  const ERR_DENIED := -7
  const ERR_FULL := -8

  const CLUST_FREE := 1
  const CLUST_USED := 2
  const CLUST_LAST := 6
  const CLUST_BAD := 8

  /** The codes as callers see them. */
  lemma CodesDiffer()
    ensures ERR_NONE == 0 && ERR_BROKEN == -2 && ERR_IO == -3 && ERR_PARAM == -4 && ERR_EOF == -6 && ERR_DENIED == -7
    ensures ERR_FULL == -8 && ERR_NONE != ERR_IO
  {
  }

  /** The class `get_fat` reports for a decodable entry. */
  function Class(t: Table, v: nat): (f: nat)
  {
    if IsFree(v) then CLUST_FREE
    else if v == BAD then CLUST_BAD
    else if IsLast(v) then CLUST_LAST
    else if IsLink(t, v) then CLUST_USED
    else 0
  }

  /** The ranges in numbers: 0 is free, 0x0ffffff7 bad, everything above it an end of chain (last and used), a cluster of the
      volume a link (used); all others are refused. The end mark that the driver stores is 0x0fffffff. */
  lemma ClassRanges(t: Table, v: nat)
    requires |t| < 0x0fff_fff7
    ensures v == 0 <==> Class(t, v) == 1
    ensures 2 <= v < |t| <==> Class(t, v) == 2
    ensures v >= 0x0fff_fff8 <==> Class(t, v) == 2 + 4
    ensures v == 0x0fff_fff7 <==> Class(t, v) == 8
    ensures v != 0 && !(2 <= v < |t|) && v < 0x0fff_fff7 <==> Class(t, v) == 0
    ensures Decodable(t, v) <==> v == 0 || 2 <= v < |t| || v >= 0x0fff_fff7
    ensures EOC == 0x0fff_ffff
  {
  }

  /** The image once `clust` is marked and `prev` linked to it. */
  function GrowthImage(g: Geometry, img: Image, prev: nat, clust: nat): (r: Image)
    requires g.Ok(|img|) && prev < g.clustCnt && clust < g.clustCnt
    ensures |r| == |img|
  {
    var a := PutBoth(g, img, clust, EOC);
    if prev != 0 then PutBoth(g, a, prev, clust) else a
  }

  /** In both tables growth is `Stretched`; nothing else on the volume moves. */
  lemma GrowthTables(g: Geometry, img: Image, prev: nat, clust: nat)
    requires g.Ok(|img|) && prev < g.clustCnt && clust < g.clustCnt
    ensures Fat0(g, GrowthImage(g, img, prev, clust)) == Stretched(Fat0(g, img), prev, clust)
    ensures Fat1(g, GrowthImage(g, img, prev, clust)) == Stretched(Fat1(g, img), prev, clust)
    ensures SameElsewhere(g, GrowthImage(g, img, prev, clust), img)
  {
    FitsEntry(g, |img|, clust);
    hide PutBoth, Fat0, Fat1, SameOutsideFat, SameElsewhere, Geometry.Ok;
    var a := PutBoth(g, img, clust, EOC);
    PutBothTables(g, img, clust, EOC);
    OutsideElsewhere(g, a, img);
    if prev != 0 {
      PutBothTables(g, a, prev, clust);
      OutsideElsewhere(g, PutBoth(g, a, prev, clust), a);
      SameElsewhereTrans(g, PutBoth(g, a, prev, clust), a, img);
    }
  }

  /** The volume after `n` table updates of a growing chain, in the order the driver makes them. */
  function GrowthStage(g: Geometry, img: Image, prev: nat, clust: nat, free: nat, n: nat): (r: Image)
    requires g.Ok(|img|) && prev < g.clustCnt && clust < g.clustCnt && n < 6
    ensures |r| == |img|
  {
    var a := PutBoth(g, img, clust, EOC);
    match n
    case 0 => img
    case 1 => PutMirror(g, img, clust, EOC)
    case 2 => a
    case 3 => if prev != 0 then PutMirror(g, a, prev, clust) else a
    case 4 => GrowthImage(g, img, prev, clust)
    case 5 => PutInfo(g, GrowthImage(g, img, prev, clust), Add32(free, -1), clust)
  }

  /** Every image that growing a chain may leave on the device. */
  function GrowthImages(g: Geometry, img: Image, prev: nat, last: nat, free: nat): (r: set<Image>)
    requires g.Ok(|img|) && prev < g.clustCnt && 2 <= last < g.clustCnt
  {
    match Choose(Fat0(g, img), last, prev)
    case Found(c) =>
      ScanExact(Fat0(g, img), last, last);
      {img, GrowthStage(g, img, prev, c, free, 1), GrowthStage(g, img, prev, c, free, 2),
        GrowthStage(g, img, prev, c, free, 3), GrowthStage(g, img, prev, c, free, 4),
        GrowthStage(g, img, prev, c, free, 5)}
    case _ => {img}
  }

  /** An image that removing the chain at `head` may leave on the device: so many rounds done in the active table,
      the same or one more in the mirror, no data sector touched. */
  ghost predicate RemovalImage(g: Geometry, v: Image, head: nat, x: Image)
    requires g.Ok(|v|) && head < g.clustCnt
  {
    && |x| == |v| && SameElsewhere(g, x, v)
    && exists n: nat, m: nat :: n <= m <= n + 1 && AtRound(g, v, head, x, n, m)
  }

  ghost predicate AtRound(g: Geometry, v: Image, head: nat, x: Image, n: nat, m: nat)
    requires g.Ok(|v|) && |x| == |v| && head < g.clustCnt
  {
    && Fat0(g, x) == FreedUpTo(Fat0(g, v), head, n)
    && (Mirrored(g, v) ==> Fat1(g, x) == FreedUpTo(Fat0(g, v), head, m))
  }

  /** `h'` is `h` followed by images of the removal. */
  ghost predicate RemovalLog(g: Geometry, v: Image, head: nat, h: seq<Image>, h': seq<Image>)
    requires g.Ok(|v|) && head < g.clustCnt
  {
    |h| <= |h'| && h'[..|h|] == h && forall k :: |h| <= k < |h'| ==> RemovalImage(g, v, head, h'[k])
  }

  /** What clearing cluster `c` may put on the device: the volume with some number of its sectors cleared. */
  ghost predicate ClearLog(g: Geometry, v: Image, c: nat, h: seq<Image>, h': seq<Image>)
    requires c >= 2
  {
    |h| <= |h'| && h'[..|h|] == h && forall k :: |h| <= k < |h'| ==> PartCleared(g, v, c, h'[k])
  }

  ghost predicate PartCleared(g: Geometry, v: Image, c: nat, x: Image)
    requires c >= 2
  {
    exists m: nat :: m <= g.Spc() && x == Cleared(g, v, c, m)
  }

  lemma ClearedPart(g: Geometry, v: Image, c: nat, m: nat)
    requires c >= 2 && m <= g.Spc()
    ensures PartCleared(g, v, c, v) && PartCleared(g, v, c, Cleared(g, v, c, m))
  {
    ClearNone(g, v, c);
    assert v == Cleared(g, v, c, 0);
  }

  /** Both what came first and each cleared sector keeps the log one of clearing. */
  lemma ClearLogNext(g: Geometry, v: Image, c: nat, h: seq<Image>, h1: seq<Image>, h2: seq<Image>, x: Image)
    requires c >= 2 && ClearLog(g, v, c, h, h1) && Logged(h1, h2, {x}) && PartCleared(g, v, c, x)
    ensures ClearLog(g, v, c, h, h2)
  {
    hide PartCleared;
    assert h2[..|h|] == h2[..|h1|][..|h|];
    forall k | |h| <= k < |h1| ensures h2[k] == h1[k] { assert h2[k] == h2[..|h1|][k]; }
  }

  lemma ClearLogFirst(g: Geometry, v: Image, c: nat, h: seq<Image>, h': seq<Image>)
    requires c >= 2 && Logged(h, h', {v})
    ensures ClearLog(g, v, c, h, h')
  {
    hide PartCleared;
    ClearedPart(g, v, c, 0);
    ClearLogNext(g, v, c, h, h, h', v);
  }

  /** What is logged on top of a removal log keeps it one, if it consists of images of the removal. */
  lemma RemovalLogged(g: Geometry, v: Image, head: nat, h: seq<Image>, h1: seq<Image>, h2: seq<Image>, a: Image, b: Image)
    requires g.Ok(|v|) && head < g.clustCnt && RemovalLog(g, v, head, h, h1) && Logged(h1, h2, {a, b})
    requires RemovalImage(g, v, head, a) && RemovalImage(g, v, head, b)
    ensures RemovalLog(g, v, head, h, h2)
  {
    hide RemovalImage, Geometry.Ok;
    assert h2[..|h|] == h2[..|h1|][..|h|];
    forall k | |h| <= k < |h2| ensures RemovalImage(g, v, head, h2[k]) {
      if k < |h1| { assert h2[k] == h2[..|h1|][k]; }
    }
  }

  /** Where removal stands: at `c`, after `done` rounds that turned the tables of `v` into those of `w`. */
  ghost predicate Removing(g: Geometry, v: Image, head: nat, w: Image, c: nat, done: nat)
    requires g.Ok(|v|) && head < g.clustCnt
  {
    && |w| == |v| && SameElsewhere(g, w, v) && (Mirrored(g, v) ==> Mirrored(g, w)) && c < g.clustCnt
    && forall k: nat :: FreedUpTo(Fat0(g, v), head, done + k) == FreedUpTo(Fat0(g, w), c, k)
  }

  lemma RemovingStart(g: Geometry, v: Image, head: nat)
    requires g.Ok(|v|) && head < g.clustCnt
    ensures Removing(g, v, head, v, head, 0)
  {
    hide Geometry.Ok, Fat0, Fat1, FreedUpTo;
    SameElsewhereRefl(g, v);
  }

  /** The two images a round may write are images of the removal. */
  lemma RemovingImages(g: Geometry, v: Image, head: nat, w: Image, c: nat, done: nat)
    requires g.Ok(|v|) && head < g.clustCnt && Removing(g, v, head, w, c, done)
    requires var t := Fat0(g, w); IsLast(t[c]) || IsLink(t, t[c])
    ensures RemovalImage(g, v, head, w) && RemovalImage(g, v, head, PutMirror(g, w, c, 0))
  {
    hide Geometry.Ok, Fat0, Fat1, PutMirror, SameOutsideFat, SameElsewhere, FreedUpTo;
    RemovingImage(g, v, head, w, c, done);
    var x, t := PutMirror(g, w, c, 0), Fat0(g, w);
    PutMirrorTables(g, w, c, 0);
    OutsideElsewhere(g, x, w);
    SameElsewhereTrans(g, x, w, v);
    OneRound(t, c);
    assert FreedUpTo(Fat0(g, v), head, done + 0) == FreedUpTo(t, c, 0);
    assert FreedUpTo(Fat0(g, v), head, done + 1) == FreedUpTo(t, c, 1);
    assert 0 % TWO_28 == 0;
    if g.fatSect1 != 0 {
      assert AtRound(g, v, head, x, done, done + 1);
    } else {
      Unmirrored(g, x);
      assert AtRound(g, v, head, x, done, done);
    }
  }

  lemma OneRound(t: Table, c: nat)
    requires c < |t| && (IsLast(t[c]) || IsLink(t, t[c]))
    ensures FreedUpTo(t, c, 1) == t[c := 0] && FreedUpTo(t, c, 0) == t
  {
    if !IsLast(t[c]) { assert FreedUpTo(t[c := 0], t[c], 0) == t[c := 0]; }
  }

  lemma Unmirrored(g: Geometry, x: Image)
    requires g.Ok(|x|) && g.fatSect1 == 0
    ensures Fat1(g, x) == Fat0(g, x)
  {
  }

  lemma RemovingImage(g: Geometry, v: Image, head: nat, w: Image, c: nat, done: nat)
    requires g.Ok(|v|) && head < g.clustCnt && Removing(g, v, head, w, c, done)
    ensures RemovalImage(g, v, head, w)
  {
    hide Geometry.Ok, Fat0, Fat1, SameElsewhere;
    assert FreedUpTo(Fat0(g, w), c, 0) == Fat0(g, w);
    hide FreedUpTo;
    assert FreedUpTo(Fat0(g, v), head, done + 0) == FreedUpTo(Fat0(g, w), c, 0);
    assert AtRound(g, v, head, w, done, done);
  }

  /** A round keeps the log one of the removal, whether it frees an entry or not. */
  lemma RoundLogged(g: Geometry, v: Image, head: nat, w: Image, c: nat, done: nat, h: seq<Image>, h1: seq<Image>, h2: seq<Image>)
    requires g.Ok(|v|) && head < g.clustCnt && Removing(g, v, head, w, c, done) && RemovalLog(g, v, head, h, h1)
    requires var t := Fat0(g, w);
      Logged(h1, h2, if IsLast(t[c]) || IsLink(t, t[c]) then {w, PutMirror(g, w, c, 0)} else {w})
    ensures RemovalLog(g, v, head, h, h2)
  {
    hide Geometry.Ok, Fat0, RemovalLog, RemovalImage, PutMirror, Logged;
    var t := Fat0(g, w);
    if IsLast(t[c]) || IsLink(t, t[c]) {
      RemovingImages(g, v, head, w, c, done);
      RemovalLogged(g, v, head, h, h1, h2, w, PutMirror(g, w, c, 0));
    } else {
      RemovingImage(g, v, head, w, c, done);
      LoggedWiden(h1, h2, {w}, {w, w});
      RemovalLogged(g, v, head, h, h1, h2, w, w);
    }
  }

  lemma RemovalLogNone(g: Geometry, v: Image, head: nat, h: seq<Image>)
    requires g.Ok(|v|) && head < g.clustCnt
    ensures RemovalLog(g, v, head, h, h)
  {
  }

  /** The counters are no part of a removal's tables. */
  lemma RemovalInfo(g: Geometry, v: Image, head: nat, w: Image, free: nat, next: nat)
    requires g.Ok(|v|) && head < g.clustCnt && RemovalImage(g, v, head, w) && free < TWO_32 && next < TWO_32
    ensures RemovalImage(g, v, head, PutInfo(g, w, free, next))
  {
    hide Geometry.Ok, Fat0, Fat1, SameElsewhere, PutInfo, FreedUpTo;
    var x := PutInfo(g, w, free, next);
    PutInfoTables(g, w, free, next);
    SameElsewhereTrans(g, x, w, v);
    var n: nat, m: nat :| n <= m <= n + 1 && AtRound(g, v, head, w, n, m);
    assert AtRound(g, v, head, x, n, m);
  }

  /** One round on. */
  lemma RemovingStep(g: Geometry, v: Image, head: nat, w: Image, c: nat, done: nat, w': Image)
    requires g.Ok(|v|) && head < g.clustCnt && Removing(g, v, head, w, c, done)
    requires |w'| == |w| && SameElsewhere(g, w', w)
    requires Fat0(g, w') == Fat0(g, w)[c := 0] && Fat1(g, w') == Fat1(g, w)[c := 0]
    ensures var t := Fat0(g, w); !IsLast(t[c]) && IsLink(t, t[c]) ==> Removing(g, v, head, w', t[c], done + 1)
    ensures var t := Fat0(g, w); IsLast(t[c]) ==> RemovalImage(g, v, head, w')
  {
    hide Geometry.Ok, Fat0, Fat1, SameElsewhere;
    var t := Fat0(g, w);
    SameElsewhereTrans(g, w', w, v);
    if !IsLast(t[c]) && IsLink(t, t[c]) {
      forall k: nat ensures FreedUpTo(Fat0(g, v), head, done + 1 + k) == FreedUpTo(Fat0(g, w'), t[c], k) {
        assert FreedUpTo(Fat0(g, v), head, done + (k + 1)) == FreedUpTo(t, c, k + 1);
      }
    }
    if IsLast(t[c]) {
      assert FreedUpTo(Fat0(g, v), head, done + 1) == FreedUpTo(t, c, 1);
      assert AtRound(g, v, head, w', done + 1, done + 1);
    }
  }

  lemma DataInside(g: Geometry, size: nat, s: nat)
    requires g.Ok(size) && g.InData(s)
    ensures 0 < g.dataSect && s < size
  {
  }

  class Fat {
    const geo: Geometry
    const disk: Disk
    const buf: array<byte>
    var sect: nat
    var bufDirty: bool
    var infoDirty: bool
    var lastUsed: nat
    var freeCnt: nat

    /** Mounting sets `sect` to 0 without loading the buffer, so a buffer for sector 0 means nothing. */
    ghost predicate Valid()
      reads this, buf, disk
    {
      && buf.Length == 512
      && geo.Ok(|disk.image|)
      && sect < |disk.image|
      && (sect == 0 ==> !bufDirty)
      && (sect != 0 && !bufDirty ==> buf[..] == disk.image[sect])
      && 2 <= lastUsed < geo.clustCnt < BAD
      && freeCnt < TWO_32
    }

    /** The disk as the driver sees it: the buffer where it is loaded, the device elsewhere. */
    ghost function View(): (v: Image)
      requires buf.Length == 512
      reads this, buf, disk
      ensures |v| == |disk.image|
    {
      if 0 < sect < |disk.image| then disk.image[sect := buf[..]] else disk.image
    }

    constructor (d: Disk, g: Geometry, last: nat, free: nat)
      requires g.Ok(|d.image|) && 2 <= last < g.clustCnt && free < TWO_32
      ensures Valid() && disk == d && geo == g && fresh(buf) && View() == d.image && sect == 0
      ensures lastUsed == last && freeCnt == free && !infoDirty && !bufDirty
    {
      disk := d;
      geo := g;
      buf := new byte[512](i => 0);
      sect, bufDirty, infoDirty := 0, false, false;
      lastUsed, freeCnt := last, free;
    }

    /** A clean cache shows the device itself. */
    lemma CleanView()
      requires Valid() && !bufDirty
      ensures View() == disk.image
    {
    }

    /** `sync_buf`. */
    method SyncBuf() returns (err: int)
      requires Valid()
      modifies `bufDirty, disk
      ensures err == ERR_NONE || err == ERR_IO
      ensures disk.faults >= old(disk.faults) && (err == ERR_IO ==> disk.faults > old(disk.faults))
      ensures Valid() && View() == old(View())
      ensures err == ERR_NONE ==> !bufDirty && disk.image == View()
      ensures Logged(old(disk.history), disk.history, {old(View())})
    {
      if bufDirty {
        var ok := disk.Write(buf, sect);
        if !ok {
          return ERR_IO;
        }
        bufDirty := false;
      }
      return ERR_NONE;
    }

    /** `update_buf`: afterwards the buffer holds sector `s`, and nothing has changed logically. */
    method UpdateBuf(s: nat) returns (err: int)
      requires Valid() && 0 < s < |disk.image|
      modifies `sect, `bufDirty, buf, disk
      ensures err == ERR_NONE || err == ERR_IO
      ensures disk.faults >= old(disk.faults) && (err == ERR_IO ==> disk.faults > old(disk.faults))
      ensures |disk.image| == old(|disk.image|)
      ensures err == ERR_NONE ==> Valid() && View() == old(View()) && sect == s && buf[..] == View()[s]
      ensures Logged(old(disk.history), disk.history, {old(View())})
    {
      if sect != s {
        err := SyncBuf();
        if err != ERR_NONE {
          return;
        }
        var ok := disk.Read(buf, s);
        if !ok {
          return ERR_IO;
        }
        sect := s;
      }
      return ERR_NONE;
    }

    /** The part of `sync_fs` that stores the counters in FSInfo. */
    method SyncInfo() returns (err: int)
      requires Valid() && !bufDirty
      modifies `sect, `bufDirty, `infoDirty, buf, disk
      ensures err == ERR_NONE || err == ERR_IO
      ensures disk.faults >= old(disk.faults) && (err == ERR_IO ==> disk.faults > old(disk.faults))
      ensures |disk.image| == old(|disk.image|)
      ensures err == ERR_NONE ==>
        && Valid() && !bufDirty && !infoDirty && sect == geo.infoSect
        && disk.image == View() == PutInfo(geo, old(View()), freeCnt, lastUsed)
      ensures Logged(old(disk.history), disk.history,
                     {old(View()), PutInfo(geo, old(View()), freeCnt, lastUsed)})
    {
      hide Logged, PutLe32;
      ghost var v, h := View(), disk.history;
      ghost var w := PutInfo(geo, v, freeCnt, lastUsed);
      err := UpdateBuf(geo.infoSect);
      ghost var h1 := disk.history;
      LoggedWiden(h, h1, {v}, {v, w});
      if err != ERR_NONE {
        return;
      }
      bufDirty := true;
      Store32(buf, INFO_NEXT, lastUsed);
      Store32(buf, INFO_FREE, freeCnt);
      assert View() == w;
      err := SyncBuf();
      LoggedTrans(h, h1, disk.history, {v}, {w}, {v, w});
      if err != ERR_NONE {
        return;
      }
      infoDirty := false;
    }

    /** `sync_fs`. */
    method SyncFs() returns (err: int)
      requires Valid()
      modifies `sect, `bufDirty, `infoDirty, buf, disk
      ensures err == ERR_NONE || err == ERR_IO
      ensures disk.faults >= old(disk.faults) && (err == ERR_IO ==> disk.faults > old(disk.faults))
      ensures |disk.image| == old(|disk.image|)
      ensures err == ERR_NONE ==>
        && Valid() && !bufDirty && !infoDirty && disk.image == View()
        && View() == (if old(infoDirty) then PutInfo(geo, old(View()), freeCnt, lastUsed) else old(View()))
        && sect == (if old(infoDirty) then geo.infoSect else old(sect))
      ensures Logged(old(disk.history), disk.history,
                     {old(View()), PutInfo(geo, old(View()), freeCnt, lastUsed)})
    {
      hide Logged, PutInfo;
      ghost var v, h := View(), disk.history;
      ghost var w := PutInfo(geo, v, freeCnt, lastUsed);
      err := SyncBuf();
      ghost var h1 := disk.history;
      LoggedWiden(h, h1, {v}, {v, w});
      if err != ERR_NONE {
        return;
      }
      if infoDirty {
        err := SyncInfo();
        LoggedTrans(h, h1, disk.history, {v, w}, {v, w}, {v, w});
      }
    }

    /** One round of `clust_clear`: the zeroed buffer goes to sector `s`. */
    method ClearSector(s: nat) returns (err: int)
      requires buf.Length == 512 && geo.Ok(|disk.image|) && buf[..] == ZeroSector() && 0 < s < |disk.image|
      requires 2 <= lastUsed < geo.clustCnt < BAD && freeCnt < TWO_32
      modifies `sect, `bufDirty, disk
      ensures err == ERR_NONE || err == ERR_IO
      ensures disk.faults >= old(disk.faults) && (err == ERR_IO ==> disk.faults > old(disk.faults))
      ensures |disk.image| == old(|disk.image|)
      ensures err == ERR_NONE ==> Valid() && !bufDirty && sect == s && disk.image == old(disk.image)[s := ZeroSector()]
      ensures Logged(old(disk.history), disk.history, {old(disk.image)[s := ZeroSector()]})
    {
      hide Geometry.Ok, Logged;
      bufDirty := true;
      sect := s;
      err := SyncBuf();
    }

    /** `clust_clear`: exactly the sectors of cluster `c` become zero, on the device. */
    method ClustClear(c: nat) returns (err: int)
      requires Valid() && 2 <= c < geo.clustCnt
      modifies `sect, `bufDirty, buf, disk
      ensures err == ERR_NONE || err == ERR_IO
      ensures disk.faults >= old(disk.faults) && (err == ERR_IO ==> disk.faults > old(disk.faults))
      ensures |disk.image| == old(|disk.image|)
      ensures err == ERR_NONE ==> Valid() && !bufDirty && View() == Cleared(geo, old(View()), c, geo.Spc())
      ensures err == ERR_NONE ==> ClustToSect(geo, c) <= sect < ClustToSect(geo, c) + geo.Spc()
      ensures ClearLog(geo, old(View()), c, old(disk.history), disk.history)
    {
      hide Logged, PartCleared, ClearLog, ClustToSect, Cleared, ZeroSector;
      ghost var h := disk.history;
      err := SyncBuf();
      ClearLogFirst(geo, old(View()), c, h, disk.history);
      if err != ERR_NONE {
        return;
      }
      ghost var v := disk.image;
      ClearNone(geo, v, c);
      ClustInData(geo, c, geo.Spc() - 1);
      DataInside(geo, |v|, ClustToSect(geo, c) + geo.Spc() - 1);
      hide Geometry.Ok;
      var s := ClustToSect(geo, c);
      Fill(buf, ZeroSector());
      var i := 0;
      while i < geo.Spc()
        invariant 0 <= i <= geo.Spc() && s == ClustToSect(geo, c) + i
        invariant buf[..] == ZeroSector() && |disk.image| == |v|
        invariant disk.image == Cleared(geo, v, c, i)
        invariant i > 0 ==> Valid() && !bufDirty && sect == s - 1
        invariant i == 0 ==> !bufDirty
        invariant disk.faults >= old(disk.faults) && ClearLog(geo, v, c, h, disk.history)
      {
        ghost var h1 := disk.history;
        err := ClearSector(s);
        ClearOne(geo, v, c, i);
        ClearedPart(geo, v, c, i + 1);
        ClearLogNext(geo, v, c, h, h1, disk.history, Cleared(geo, v, c, i + 1));
        s := s + 1;
        if err != ERR_NONE {
          return;
        }
        i := i + 1;
      }
      CleanView();
      return ERR_NONE;
    }

    // ---------------------------------------------------------------- the allocation table

    /** `get_fat`: the active table's entry and its class, or BROKEN when it has none. */
    method GetFat(c: nat) returns (err: int, val: nat, flags: nat)
      requires Valid() && c < geo.clustCnt
      modifies `sect, `bufDirty, buf, disk
      ensures err == ERR_NONE || err == ERR_BROKEN || err == ERR_IO
      ensures disk.faults >= old(disk.faults) && (err == ERR_IO ==> disk.faults > old(disk.faults))
      ensures |disk.image| == old(|disk.image|)
      ensures err != ERR_IO ==>
        Valid() && View() == old(View()) && sect == geo.fatSect0 + c / 128
      ensures err == ERR_BROKEN ==> !Decodable(Fat0(geo, View()), Fat0(geo, View())[c])
      ensures err == ERR_NONE ==> val == Fat0(geo, View())[c] && flags == Class(Fat0(geo, View()), val)
      ensures err == ERR_NONE ==> Decodable(Fat0(geo, View()), val)
      ensures Logged(old(disk.history), disk.history, {old(View())})
    {
      val, flags := 0, 0;
      err := UpdateBuf(geo.fatSect0 + c / 128);
      if err != ERR_NONE {
        return;
      }
      var v := Le32(buf[..], 4 * (c % 128)) % TWO_28;
      assert v == Fat0(geo, View())[c];
      if v == 0 {
        flags := CLUST_FREE;
      } else if v == BAD {
        flags := CLUST_BAD;
      } else if v > BAD {
        flags := CLUST_LAST;
      } else if 2 <= v < geo.clustCnt {
        flags := CLUST_USED;
      } else {
        return ERR_BROKEN, 0, 0;
      }
      return ERR_NONE, v, flags;
    }

    /** `put_fat2`: one entry of the table at `fs`. */
    method PutFat2(fs: nat, c: nat, val: nat) returns (err: int)
      requires Valid() && c < geo.clustCnt
      requires fs == geo.fatSect0 || (fs == geo.fatSect1 && fs != 0)
      modifies `sect, `bufDirty, buf, disk
      ensures err == ERR_NONE || err == ERR_IO
      ensures disk.faults >= old(disk.faults) && (err == ERR_IO ==> disk.faults > old(disk.faults))
      ensures |disk.image| == old(|disk.image|)
      ensures err == ERR_NONE ==> Valid() && View() == PutEntry(old(View()), fs, c, val) && sect == fs + c / 128
      ensures Logged(old(disk.history), disk.history, {old(View())})
    {
      ghost var v := View();
      err := UpdateBuf(fs + c / 128);
      if err != ERR_NONE {
        return;
      }
      var item := Le32(buf[..], 4 * (c % 128));
      Store32(buf, 4 * (c % 128), Merge(item, val));
      bufDirty := true;
      assert View() == PutEntry(v, fs, c, val);
      return ERR_NONE;
    }

    /** `put_fat`: the mirror, when there is one, and then the active table. */
    method PutFat(c: nat, val: nat) returns (err: int)
      requires Valid() && c < geo.clustCnt
      modifies `sect, `bufDirty, buf, disk
      ensures err == ERR_NONE || err == ERR_IO
      ensures disk.faults >= old(disk.faults) && (err == ERR_IO ==> disk.faults > old(disk.faults))
      ensures |disk.image| == old(|disk.image|)
      ensures err == ERR_NONE ==>
        Valid() && View() == PutBoth(geo, old(View()), c, val) && sect == geo.fatSect0 + c / 128
      ensures Logged(old(disk.history), disk.history, {old(View()), PutMirror(geo, old(View()), c, val)})
    {
      hide PutEntry, Logged;
      ghost var v, h := View(), disk.history;
      LoggedRefl(h, {v});
      if geo.fatSect1 != 0 {
        err := PutFat2(geo.fatSect1, c, val);
        LoggedWiden(h, disk.history, {v}, {v, PutMirror(geo, v, c, val)});
        if err != ERR_NONE {
          return;
        }
      }
      ghost var h1 := disk.history;
      err := PutFat2(geo.fatSect0, c, val);
      LoggedTrans(h, h1, disk.history, {v}, {PutMirror(geo, v, c, val)}, {v, PutMirror(geo, v, c, val)});
    }

    // ---------------------------------------------------------------- chains

    /** Everything is on the device, and FSInfo there carries the counters. */
    ghost predicate Synced()
      reads this, buf, disk
    {
      Valid() && !bufDirty && !infoDirty && disk.image == View() && InfoHolds(geo, disk.image, freeCnt, lastUsed)
    }

    /** One round of `remove_chain`: reads the entry of `clust` and frees it. */
    method FreeOne(clust: nat) returns (err: int, next: nat, last: bool)
      requires Valid() && clust < geo.clustCnt
      modifies `sect, `bufDirty, `freeCnt, buf, disk
      ensures err == ERR_NONE || err == ERR_BROKEN || err == ERR_IO
      ensures disk.faults >= old(disk.faults) && (err == ERR_IO ==> disk.faults > old(disk.faults))
      ensures |disk.image| == old(|disk.image|)
      ensures err == ERR_BROKEN ==>
        var t := Fat0(geo, View());
        && Valid() && View() == old(View()) && freeCnt == old(freeCnt)
        && !IsLast(t[clust]) && !IsLink(t, t[clust])
      ensures err == ERR_NONE ==>
        var t := Fat0(geo, old(View()));
        && Valid() && SameElsewhere(geo, View(), old(View())) && freeCnt == Add32(old(freeCnt), 1)
        && next == t[clust] && (if last then IsLast(next) else !IsLast(next) && IsLink(t, next))
        && Fat0(geo, View()) == t[clust := 0] && Fat1(geo, View()) == Fat1(geo, old(View()))[clust := 0]
      ensures
        var t := Fat0(geo, old(View()));
        Logged(old(disk.history), disk.history,
               if IsLast(t[clust]) || IsLink(t, t[clust]) then {old(View()), PutMirror(geo, old(View()), clust, 0)}
               else {old(View())})
    {
      hide Geometry.Ok, PutBoth, PutEntry, PutMirror, TableOf, Fat0, Fat1, Logged, Add32, SameOutsideFat;
      ghost var v, h := View(), disk.history;
      ghost var m := PutMirror(geo, v, clust, 0);
      var flags;
      last := false;
      err, next, flags := GetFat(clust);
      ghost var h1 := disk.history;
      LoggedWiden(h, h1, {v}, {v, m});
      if err != ERR_NONE {
        return;
      }
      if flags == CLUST_BAD || flags == CLUST_FREE {
        return ERR_BROKEN, next, false;
      }
      err := PutFat(clust, 0);
      LoggedTrans(h, h1, disk.history, {v}, {v, m}, {v, m});
      if err != ERR_NONE {
        return;
      }
      PutBothTables(geo, v, clust, 0);
      freeCnt := Add32(freeCnt, 1);
      last := flags == CLUST_LAST;
    }

    /** The loop of `remove_chain`. */
    method FreeAll(head: nat) returns (err: int)
      requires Valid() && head < geo.clustCnt
      modifies `sect, `bufDirty, `freeCnt, buf, disk
      ensures err == ERR_NONE || err == ERR_BROKEN || err == ERR_IO
      ensures disk.faults >= old(disk.faults) && (err == ERR_IO ==> disk.faults > old(disk.faults))
      ensures |disk.image| == old(|disk.image|)
      ensures err != ERR_IO ==>
        var r := Remove(Fat0(geo, old(View())), head);
        && Valid() && SameElsewhere(geo, View(), old(View()))
        && Fat0(geo, View()) == r.table && (err == ERR_NONE <==> r.ok)
        && (old(Mirrored(geo, View())) ==> Mirrored(geo, View()))
        && freeCnt == Add32(old(freeCnt), r.count)
      ensures RemovalLog(geo, old(View()), head, old(disk.history), disk.history)
      ensures err == ERR_NONE ==> RemovalImage(geo, old(View()), head, View())
    {
      hide Geometry.Ok, TableOf, SameElsewhere, Remove, FreeFrom, Add32, IsLast, Fat0, Fat1, Logged, Removing, RemovalImage,
        RemovalLog, PutMirror, FreedUpTo;
      var clust: nat := head;
      ghost var v := View();
      ghost var r, done := Remove(Fat0(geo, v), head), 0;
      Add32Zero(freeCnt);
      SameElsewhereRefl(geo, v);
      RemovingStart(geo, v, head);
      RemovalLogNone(geo, v, head, disk.history);
      while true
        invariant disk.faults >= old(disk.faults)
        invariant Removing(geo, v, head, View(), clust, done)
        invariant RemovalLog(geo, v, head, old(disk.history), disk.history)
        invariant Valid() && clust < geo.clustCnt && |disk.image| == |v|
        invariant SameElsewhere(geo, View(), v)
        invariant Mirrored(geo, v) ==> Mirrored(geo, View())
        invariant freeCnt == Add32(old(freeCnt), done)
        invariant r == Remove(Fat0(geo, View()), clust).Plus(done)
        decreases |Fat0(geo, View())| - FreeFrom(Fat0(geo, View()), 0)
      {
        ghost var w, t := View(), Fat0(geo, View());
        var next, last;
        RemoveStep(t, clust);
        ghost var h := disk.history;
        err, next, last := FreeOne(clust);
        RoundLogged(geo, v, head, w, clust, done, old(disk.history), h, disk.history);
        if err != ERR_NONE {
          return;
        }
        RemovingStep(geo, v, head, w, clust, done, View());
        SameElsewhereTrans(geo, View(), w, v);
        Add32Assoc(old(freeCnt), done, 1);
        done := done + 1;
        if last {
          return ERR_NONE;
        }
        clust := next;
      }
    }

    /** `remove_chain`: what `Remove` says of the table, whatever the table looks like. */
    method RemoveChain(head: nat) returns (err: int)
      requires Valid() && head < geo.clustCnt
      modifies `sect, `bufDirty, `infoDirty, `freeCnt, buf, disk
      ensures err == ERR_NONE || err == ERR_BROKEN || err == ERR_IO
      ensures disk.faults >= old(disk.faults) && (err == ERR_IO ==> disk.faults > old(disk.faults))
      ensures |disk.image| == old(|disk.image|)
      ensures err != ERR_IO ==>
        var r := Remove(Fat0(geo, old(View())), head);
        && Valid() && SameElsewhere(geo, View(), old(View()))
        && Fat0(geo, View()) == r.table && (err == ERR_NONE <==> r.ok)
        && (old(Mirrored(geo, View())) ==> Mirrored(geo, View()))
        && freeCnt == Add32(old(freeCnt), r.count)
      ensures err == ERR_NONE ==> Synced() && sect == geo.infoSect
      ensures RemovalLog(geo, old(View()), head, old(disk.history), disk.history)
    {
      hide Geometry.Ok, TableOf, SameElsewhere, Remove, PutInfo, InfoHolds, Add32, Fat0, Fat1, Logged, RemovalImage, RemovalLog;
      ghost var v := View();
      infoDirty := true;
      err := FreeAll(head);
      if err != ERR_NONE {
        return;
      }
      ghost var w, h := View(), disk.history;
      RemovalInfo(geo, v, head, w, freeCnt, lastUsed);
      err := SyncFs();
      RemovalLogged(geo, v, head, old(disk.history), h, disk.history, w, PutInfo(geo, w, freeCnt, lastUsed));
      PutInfoTables(geo, w, freeCnt, lastUsed);
      SameElsewhereTrans(geo, PutInfo(geo, w, freeCnt, lastUsed), w, v);
    }

    /** The scan of `stretch_chain`, which starts behind `last_used`. It returns the class of the entry read last
        instead of an error; `flags0` is that class before the scan. */
    method ScanFree(flags0: nat) returns (err: int, clust: nat, ok: bool)
      requires Valid()
      modifies `sect, `bufDirty, buf, disk
      ensures |disk.image| == old(|disk.image|) && disk.faults >= old(disk.faults)
      ensures ok ==>
        && err == ERR_NONE && Scan(Fat0(geo, old(View())), lastUsed, lastUsed) == Found(clust)
        && Valid() && View() == old(View())
      ensures err == ERR_FULL ==>
        !ok && Scan(Fat0(geo, old(View())), lastUsed, lastUsed) == Full && Valid() && View() == old(View())
      ensures (err == ERR_FULL || err >= 0) && (flags0 != 0 ==> (ok <==> err == ERR_NONE))
      ensures disk.faults == old(disk.faults) ==>
        && Valid() && View() == old(View()) && (sect == old(sect) || geo.InFat(sect))
        && (ok <==> Scan(Fat0(geo, old(View())), lastUsed, lastUsed).Found?)
        && (err == ERR_FULL <==> Scan(Fat0(geo, old(View())), lastUsed, lastUsed).Full?)
        && (err == ERR_NONE && !ok <==> flags0 == 0 && FirstBad(Fat0(geo, old(View())), lastUsed))
      ensures Logged(old(disk.history), disk.history, {old(View())})
    {
      hide Geometry.Ok, Geometry.InFat, TableOf, Fat0, Logged;
      var flags, next := flags0, 0;
      ghost var v, t := View(), Fat0(geo, View());
      LoggedRefl(disk.history, {v});
      clust := lastUsed;
      while true
        invariant Valid() && View() == v && 2 <= clust < geo.clustCnt && |disk.image| == |v|
        invariant Scan(t, lastUsed, lastUsed) == Scan(t, lastUsed, clust)
        invariant flags0 != 0 || clust != lastUsed ==> flags != 0
        invariant clust == lastUsed ==> flags == flags0
        invariant clust != lastUsed ==> !FirstBad(t, lastUsed)
        invariant disk.faults >= old(disk.faults) && (sect == old(sect) || geo.InFat(sect))
        invariant Logged(old(disk.history), disk.history, {v})
        decreases Gap(geo.clustCnt, clust, lastUsed)
      {
        clust := Succ(geo.clustCnt, clust);
        if clust == lastUsed {
          return ERR_FULL, clust, false;
        }
        var f;
        ghost var h := disk.history;
        EntrySector(geo, clust);
        err, next, f := GetFat(clust);
        LoggedTrans(old(disk.history), h, disk.history, {v}, {v}, {v});
        if err != ERR_NONE {
          return flags, clust, false;
        }
        flags := f;
        if flags == CLUST_FREE {
          return ERR_NONE, clust, true;
        }
      }
    }

    /** The part of `stretch_chain` that picks the cluster to take. The function returns the entry's
        class instead of the error when the scan fails, and that class is uninitialised when nothing
        was read before: it then is `junk`. `ok` says whether control goes on with a cluster. */
    method FindFree(prev: nat, junk: nat) returns (err: int, clust: nat, ok: bool)
      requires Valid() && (prev == 0 || 2 <= prev < geo.clustCnt)
      modifies `sect, `bufDirty, buf, disk
      ensures |disk.image| == old(|disk.image|)
      ensures ok ==>
        err == ERR_NONE && Choose(Fat0(geo, old(View())), lastUsed, prev) == Found(clust)
        && Valid() && View() == old(View())
      ensures err == ERR_FULL ==>
        !ok && Choose(Fat0(geo, old(View())), lastUsed, prev) == Full && Valid() && View() == old(View())
      ensures ok ==> Picks(Fat0(geo, old(View())), lastUsed, prev, Found(clust))
      ensures err == ERR_FULL ==> Picks(Fat0(geo, old(View())), lastUsed, prev, Full)
      ensures prev != 0 || junk != 0 ==> (ok <==> err == ERR_NONE)
      ensures err != ERR_EOF
      ensures disk.faults >= old(disk.faults) && (err == ERR_IO ==> disk.faults > old(disk.faults))
      ensures disk.faults == old(disk.faults) ==>
        && Valid() && View() == old(View())
        && (ok <==> Choose(Fat0(geo, old(View())), lastUsed, prev).Found?)
        && (err == ERR_FULL <==> Choose(Fat0(geo, old(View())), lastUsed, prev).Full?)
        && (err == ERR_NONE && !ok <==> prev == 0 && junk == 0 && FirstBad(Fat0(geo, old(View())), lastUsed))
        && (!ok && err != ERR_FULL ==> Picks(Fat0(geo, old(View())), lastUsed, prev, Broken))
        && (sect == old(sect) || geo.InFat(sect))
      ensures Logged(old(disk.history), disk.history, {old(View())})
    {
      hide Geometry.Ok, Geometry.InFat, TableOf, Fat0, Logged, Scan, FirstBad, Picks;
      ChoosePicks(Fat0(geo, View()), lastUsed, prev);
      var flags, next := junk, 0;
      ghost var v := View();
      if prev != 0 {
        clust := Succ(geo.clustCnt, prev);
        EntrySector(geo, clust);
        err, next, flags := GetFat(clust);
        if err != ERR_NONE {
          return err, clust, false;
        }
        if flags == CLUST_FREE {
          return ERR_NONE, clust, true;
        }
      }
      ghost var h := disk.history;
      LoggedRefl(old(disk.history), {v});
      err, clust, ok := ScanFree(flags);
      LoggedTrans(old(disk.history), h, disk.history, {v}, {v}, {v});
    }

    /** The part of `stretch_chain` that marks the new cluster and links `prev` to it. */
    method LinkNew(prev: nat, clust: nat) returns (err: int)
      requires Valid() && prev < geo.clustCnt && 2 <= clust < geo.clustCnt
      modifies `sect, `bufDirty, buf, disk
      ensures err == ERR_NONE || err == ERR_IO
      ensures disk.faults >= old(disk.faults) && (err == ERR_IO ==> disk.faults > old(disk.faults))
      ensures |disk.image| == old(|disk.image|)
      ensures err == ERR_NONE ==> Valid() && View() == GrowthImage(geo, old(View()), prev, clust)
      ensures
        Logged(old(disk.history), disk.history,
               {old(View()), GrowthStage(geo, old(View()), prev, clust, freeCnt, 1),
                GrowthStage(geo, old(View()), prev, clust, freeCnt, 2),
                GrowthStage(geo, old(View()), prev, clust, freeCnt, 3)})
    {
      hide Geometry.Ok, PutBoth, PutEntry, PutMirror, Logged;
      ghost var v, h := View(), disk.history;
      ghost var a := PutBoth(geo, v, clust, EOC);
      ghost var a' := if prev != 0 then PutMirror(geo, a, prev, clust) else a;
      ghost var first, second := {v, PutMirror(geo, v, clust, EOC)}, {a, a'};
      err := PutFat(clust, EOC);
      ghost var h1 := disk.history;
      LoggedWiden(h, h1, first, first + second);
      if err == ERR_NONE && prev != 0 {
        err := PutFat(prev, clust);
        LoggedTrans(h, h1, disk.history, first, second, first + second);
      }
      assert first + second == {v, GrowthStage(geo, v, prev, clust, freeCnt, 1), GrowthStage(geo, v, prev, clust, freeCnt, 2),
        GrowthStage(geo, v, prev, clust, freeCnt, 3)};
    }

    /** `stretch_chain`: takes the cluster that `Choose` names, marks it as the end of a chain and
        links `prev` to it. `prev` is 0 to start a new chain; `junk` is what an uninitialised variable holds. Without
        a failed transfer the report is false exactly when that is 0 and the first entry of the scan is undecodable. */
    method StretchChain(prev: nat, junk: nat) returns (err: int, clust: nat, ghost ok: bool)
      requires Valid() && (prev == 0 || 2 <= prev < geo.clustCnt)
      modifies `sect, `bufDirty, `infoDirty, `lastUsed, `freeCnt, buf, disk
      ensures |disk.image| == old(|disk.image|)
      ensures ok ==>
        && err == ERR_NONE && Choose(Fat0(geo, old(View())), old(lastUsed), prev) == Found(clust)
        && 2 <= clust < geo.clustCnt
        && Synced() && sect == geo.infoSect && lastUsed == clust && freeCnt == Add32(old(freeCnt), -1)
        && View() == PutInfo(geo, GrowthImage(geo, old(View()), prev, clust), freeCnt, lastUsed)
        && Fat0(geo, View()) == Stretched(Fat0(geo, old(View())), prev, clust)
        && Fat1(geo, View()) == Stretched(Fat1(geo, old(View())), prev, clust)
        && SameElsewhere(geo, View(), old(View()))
      ensures err == ERR_FULL ==>
        && !ok && Choose(Fat0(geo, old(View())), old(lastUsed), prev) == Full
        && Valid() && View() == old(View()) && lastUsed == old(lastUsed) && freeCnt == old(freeCnt)
      ensures ok ==> Picks(Fat0(geo, old(View())), old(lastUsed), prev, Found(clust))
      ensures err == ERR_FULL ==> Picks(Fat0(geo, old(View())), old(lastUsed), prev, Full)
      ensures prev != 0 || junk != 0 ==> (ok <==> err == ERR_NONE)
      ensures err != ERR_EOF
      ensures disk.faults >= old(disk.faults) && (err == ERR_IO ==> disk.faults > old(disk.faults))
      ensures disk.faults == old(disk.faults) ==>
        && (ok <==> Choose(Fat0(geo, old(View())), old(lastUsed), prev).Found?)
        && (err == ERR_FULL <==> Choose(Fat0(geo, old(View())), old(lastUsed), prev).Full?)
        && (!ok ==> Valid() && View() == old(View()) && lastUsed == old(lastUsed) && freeCnt == old(freeCnt))
        && (err == ERR_NONE && !ok <==> prev == 0 && junk == 0 && FirstBad(Fat0(geo, old(View())), old(lastUsed)))
        && (!ok && err != ERR_FULL ==> Picks(Fat0(geo, old(View())), old(lastUsed), prev, Broken))
        && (!ok ==> sect == old(sect) || geo.InFat(sect))
      ensures Logged(old(disk.history), disk.history,
                     GrowthImages(geo, old(View()), prev, old(lastUsed), old(freeCnt)))
    {
      hide Geometry.Ok, Geometry.InFat, PutBoth, PutEntry, PutMirror, TableOf, Fat0, Fat1, Logged, Add32, PutInfo, InfoHolds,
        GrowthImage, Choose, Stretched, SameElsewhere, FirstBad, Picks;
      ghost var v, h, t := View(), disk.history, Fat0(geo, View());
      ghost var all := GrowthImages(geo, v, prev, lastUsed, freeCnt);
      infoDirty := true;
      ok := false;
      var found;
      err, clust, found := FindFree(prev, junk);
      LoggedWiden(h, disk.history, {v}, all);
      if !found {
        return;
      }
      ChooseFree(t, lastUsed, prev);
      ghost var h1 := disk.history;
      err := LinkNew(prev, clust);
      LoggedTrans(h, h1, disk.history, {v},
        {v, GrowthStage(geo, v, prev, clust, freeCnt, 1), GrowthStage(geo, v, prev, clust, freeCnt, 2),
         GrowthStage(geo, v, prev, clust, freeCnt, 3)}, all);
      if err != ERR_NONE {
        return;
      }
      lastUsed := clust;
      freeCnt := Add32(freeCnt, -1);
      ghost var w, h2 := View(), disk.history;
      assert w == GrowthStage(geo, v, prev, clust, old(freeCnt), 4);
      assert PutInfo(geo, w, freeCnt, lastUsed) == GrowthStage(geo, v, prev, clust, old(freeCnt), 5);
      err := SyncFs();
      LoggedTrans(h, h2, disk.history, all, {w, PutInfo(geo, w, freeCnt, lastUsed)}, all);
      PutInfoTables(geo, w, freeCnt, lastUsed);
      GrowthTables(geo, v, prev, clust);
      SameElsewhereTrans(geo, PutInfo(geo, w, freeCnt, lastUsed), w, v);
      ok := err == ERR_NONE;
    }
  }
}
