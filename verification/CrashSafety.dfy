/** What a power cut during the growth of a chain can leave behind. */
module CrashSafety {
  import opened Bytes
  import opened Powers
  import opened Volume
  import opened Chains
  import opened Disks
  import opened FatVolume
  import opened FileLayout
  import opened LongName
  import opened DirSlots
  import opened DirLayout

  /** Table `t'` is a safe thing to find after growing the chain that ends at `prev` (0: starting a
      new one) by cluster `c` was interrupted, when the table was `t`. Every chain is still there, at
      most extended by `c`; no link to a free cluster has appeared; no cluster but `c` has been used up. */
  ghost predicate SafeAfter(t: Table, prev: nat, c: nat, t': Table)
  {
    && |t'| == |t|
    && (forall s :: IsChain(t, s) ==> Survives(t', s, prev, c))
    && (forall d :: 0 <= d < |t| && IsLink(t', t'[d]) && IsFree(t'[t'[d]]) ==> t'[d] == t[d] && IsFree(t[t[d]]))
    && (forall d :: 0 <= d < |t| && d != c && IsFree(t[d]) ==> IsFree(t'[d]))
    && (forall d :: 0 <= d < |t| && !IsFree(t[d]) ==> !IsFree(t'[d]))
  }

  /** Chain `s` is a chain of the table `t'` as it was, or, when it ended at `prev`, extended by `c`. */
  ghost predicate Survives(t': Table, s: seq<nat>, prev: nat, c: nat)
  {
    IsChain(t', s) || (|s| > 0 && s[|s| - 1] == prev && IsChain(t', s + [c]))
  }

  /** The three tables that growth can leave in either copy. */
  ghost predicate GrowthTable(t: Table, prev: nat, c: nat, t': Table)
    requires prev < |t| && c < |t|
  {
    t' == t || t' == t[c := EOC] || t' == Stretched(t, prev, c)
  }

  /** All three are safe, provided `prev` ends its chain. */
  lemma GrowthTableSafe(t: Table, prev: nat, c: nat, t': Table)
    requires 2 <= c < |t| < BAD && IsFree(t[c]) && prev < |t| && (prev != 0 ==> IsLast(t[prev]))
    requires GrowthTable(t, prev, c, t')
    ensures SafeAfter(t, prev, c, t')
  {
    hide IsChain;
    forall s | IsChain(t, s)
      ensures Survives(t', s, prev, c)
    {
      ChainAfterGrowth(t, prev, c, t', s);
    }
  }

  lemma ChainAfterGrowth(t: Table, prev: nat, c: nat, t': Table, s: seq<nat>)
    requires 2 <= c < |t| < BAD && IsFree(t[c]) && prev < |t| && (prev != 0 ==> IsLast(t[prev]))
    requires GrowthTable(t, prev, c, t') && IsChain(t, s)
    ensures Survives(t', s, prev, c)
  {
    if t' == t {
    } else if t' == t[c := EOC] || prev == 0 {
      StretchKeeps0(t, s, c);
    } else if prev in s {
      var i :| 0 <= i < |s| && s[i] == prev;
      assert i == |s| - 1;
      StretchExtends(t, s, c);
    } else {
      StretchKeeps(t, s, prev, c);
    }
  }

  /** Marking a free cluster as an end of chain disturbs no chain. */
  lemma StretchKeeps0(t: Table, s: seq<nat>, c: nat)
    requires IsChain(t, s) && c < |t| && IsFree(t[c])
    ensures IsChain(t[c := EOC], s)
  {
    assert forall i :: 0 <= i < |s| ==> t[s[i]] != 0;
    ChainFrame(t, t[c := EOC], s);
  }

  /** Both copies of the table in image `x` are safe. */
  ghost predicate SafeImage(g: Geometry, v: Image, prev: nat, c: nat, x: Image)
    requires g.Ok(|v|)
  {
    && |x| == |v|
    && SafeAfter(Fat0(g, v), prev, c, Fat0(g, x))
    && SafeAfter(Fat0(g, v), prev, c, Fat1(g, x))
  }

  /** Each image that `StretchChain` may write has one of the three tables in each copy. */
  lemma GrowthStageTables(g: Geometry, v: Image, prev: nat, c: nat, free: nat, n: nat)
    requires g.Ok(|v|) && prev < g.clustCnt && 2 <= c < g.clustCnt && Mirrored(g, v) && n < 6
    ensures
      var x := GrowthStage(g, v, prev, c, free, n);
      GrowthTable(Fat0(g, v), prev, c, Fat0(g, x)) && GrowthTable(Fat0(g, v), prev, c, Fat1(g, x))
  {
    FitsEntry(g, |v|, c);
    hide PutBoth, PutMirror, PutInfo, TableOf, SameOutsideFat, SameElsewhere, GrowthImage, InfoHolds, Fat0, Fat1, Add32,
      Geometry.Ok;
    match n {
      case 0 =>
      case 1 => PutMirrorTables(g, v, c, EOC);
      case 2 => PutBothTables(g, v, c, EOC);
      case 3 =>
        PutBothTables(g, v, c, EOC);
        PutMirrorTables(g, PutBoth(g, v, c, EOC), prev, c);
      case 4 => GrowthTables(g, v, prev, c);
      case 5 =>
        GrowthTables(g, v, prev, c);
        PutInfoTables(g, GrowthImage(g, v, prev, c), Add32(free, -1), c);
    }
  }

  /** Crash consistency of growth: cut the power before, between or after any of the sector writes of
      one `stretch_chain` call, successful or not, and both copies of the table are safe. `before` is
      the device when the call starts; no table sector is dirty then. */
  lemma GrowthIsCrashSafe(g: Geometry, before: Image, v: Image, h: seq<Image>, h': seq<Image>,
                          prev: nat, last: nat, free: nat, k: nat)
    requires g.Ok(|v|) && (prev == 0 || 2 <= prev < g.clustCnt) && 2 <= last < g.clustCnt && free < TWO_32
    requires Mirrored(g, v) && (prev != 0 ==> IsLast(Fat0(g, v)[prev]))
    requires |before| == |v| && Fat0(g, before) == Fat0(g, v) && Fat1(g, before) == Fat1(g, v)
    requires Logged(h, h', GrowthImages(g, v, prev, last, free))
    requires |h| <= k <= |h'|
    ensures
      var x := if k == |h| then before else h'[k - 1];
      match Choose(Fat0(g, v), last, prev)
      case Found(c) => SafeImage(g, v, prev, c, x)
      case _ => |x| == |v| && Fat0(g, x) == Fat0(g, v) && Fat1(g, x) == Fat0(g, v)
  {
    hide PutBoth, PutMirror, PutInfo, TableOf, SafeAfter, GrowthImage, Choose, GrowthTable, Fat0, Fat1;
    var x := if k == |h| then before else h'[k - 1];
    var t := Fat0(g, v);
    match Choose(t, last, prev) {
      case Found(c) =>
        ChooseFree(t, last, prev);
        UnchangedIsGrowth(t, prev, c);
        if k > |h| {
          assert x in GrowthImages(g, v, prev, last, free);
          assert v == GrowthStage(g, v, prev, c, free, 0);
          var n :| 0 <= n < 6 && x == GrowthStage(g, v, prev, c, free, n);
          GrowthStageTables(g, v, prev, c, free, n);
        }
        GrowthTableSafe(t, prev, c, Fat0(g, x));
        GrowthTableSafe(t, prev, c, Fat1(g, x));
      case _ =>
    }
  }

  lemma UnchangedIsGrowth(t: Table, prev: nat, c: nat)
    requires prev < |t| && c < |t|
    ensures GrowthTable(t, prev, c, t)
  {
  }

  // ---------------------------------------------------------------- removal

  /** Exactly the first `n` clusters of chain `s` are freed: what is left of it is still a chain, and so is every
      chain apart from it. */
  ghost predicate PrefixFreed(t: Table, s: seq<nat>, n: nat, t': Table)
    requires n <= |s|
  {
    && t' == Zeroed(t, s[..n]) && (n < |s| ==> IsChain(t', s[n..]))
    && forall q :: IsChain(t, q) && Disjoint(s, q) ==> IsChain(t', q)
  }

  lemma FreedPrefixSafe(t: Table, s: seq<nat>, n: nat)
    requires IsChain(t, s)
    ensures var k := if n < |s| then n else |s|; PrefixFreed(t, s, k, FreedUpTo(t, s[0], n))
  {
    hide IsChain, FreedUpTo;
    var k := if n < |s| then n else |s|;
    FreedUpToChain(t, s, n);
    if k < |s| { RestIsChain(t, s, k); }
    forall q | IsChain(t, q) && Disjoint(s, q) ensures IsChain(Zeroed(t, s[..k]), q) {
      ZeroedKeeps(t, s[..k], q);
    }
  }

  /** A chain without its first `k` clusters is a chain, and stays one when those are freed. */
  lemma RestIsChain(t: Table, s: seq<nat>, k: nat)
    requires IsChain(t, s) && k < |s|
    ensures IsChain(Zeroed(t, s[..k]), s[k..])
  {
    ChainDistinct(t, s);
    var r := s[k..];
    assert forall i :: 0 <= i < |r| ==> r[i] == s[k + i];
    assert IsChain(t, r);
    hide IsChain;
    ZeroedKeeps(t, s[..k], r);
  }

  /** Crash consistency of removal: cut the power anywhere during one `remove_chain` of the chain `s`. In each copy
      of the table a prefix of `s` is free, in the mirror at most one cluster more, and no other chain is harmed. */
  lemma RemovalIsCrashSafe(g: Geometry, before: Image, v: Image, h: seq<Image>, h': seq<Image>, s: seq<nat>, k: nat)
      returns (n: nat, m: nat)
    requires g.Ok(|v|) && Mirrored(g, v) && IsChain(Fat0(g, v), s) && s[0] < g.clustCnt
    requires |before| == |v| && Fat0(g, before) == Fat0(g, v) && Fat1(g, before) == Fat1(g, v)
    requires RemovalLog(g, v, s[0], h, h') && |h| <= k <= |h'|
    ensures n <= m <= n + 1 && m <= |s|
    ensures
      var x := if k == |h| then before else h'[k - 1];
      |x| == |v| && PrefixFreed(Fat0(g, v), s, n, Fat0(g, x)) && PrefixFreed(Fat0(g, v), s, m, Fat1(g, x))
  {
    hide Geometry.Ok, Fat0, Fat1, SameElsewhere, PrefixFreed, FreedUpTo, IsChain;
    var t := Fat0(g, v);
    FreedNone(t, s);
    if k == |h| {
      return 0, 0;
    }
    var x := h'[k - 1];
    assert RemovalImage(g, v, s[0], x);
    var i: nat, j: nat :| i <= j <= i + 1 && AtRound(g, v, s[0], x, i, j);
    FreedPrefixSafe(t, s, i);
    FreedPrefixSafe(t, s, j);
    n, m := if i < |s| then i else |s|, if j < |s| then j else |s|;
  }

  lemma FreedNone(t: Table, s: seq<nat>)
    requires IsChain(t, s)
    ensures |s| > 0 && PrefixFreed(t, s, 0, t)
  {
    FreedPrefixSafe(t, s, 0);
  }

  // ---------------------------------------------------------------- growth of a directory

  /** Some slot is an end marker. */
  ghost predicate Ended(slots: seq<Slot>) { exists k :: 0 <= k < |slots| && IsEnd(slots[k]) }

  /** `dir_next_stretch` links a new cluster before it clears it. Cut the power at any point from there on: the
      directory has its old slots and behind them those that the formerly free cluster held, less the sectors that
      were cleared. It lists what it listed if it had an end marker or at least one sector was cleared; otherwise
      it lists what the free cluster held as well. */
  lemma DirGrowthCut(g: Geometry, v: Image, s: seq<nat>, x: Image, c: nat, h: seq<Image>, h': seq<Image>, k: nat, signed: bool)
      returns (m: nat)
    requires Moved(g, v, s, x, s + [c]) && 2 <= c < g.clustCnt && Usable(g, s + [c])
    requires ClearLog(g, x, c, h, h') && |h| <= k <= |h'|
    ensures m <= g.Spc() && (k == |h| ==> m == 0) && Usable(g, s) && Usable(g, [c]) && IsFree(Fat0(g, v)[c])
    ensures
      var y := if k == |h| then x else h'[k - 1];
      var was, now, stale := Slots(g, v, s), Slots(g, y, s + [c]), Slots(g, v, [c]);
      && IsChain(Fat0(g, y), s + [c]) && now == was + Wiped(stale, 16 * m)
      && (Sound(was, 0, signed) && (Ended(was) || m > 0) ==>
            Sound(now, 0, signed) && List(now, 0, signed) == List(was, 0, signed))
      && (Sound(was, 0, signed) && !Ended(was) && m == 0 && Sound(stale, 0, signed) ==>
            Sound(now, 0, signed) && List(now, 0, signed) == List(was, 0, signed) + List(stale, 0, signed))
  {
    hide Cleared, Slots, IsChain, Wiped, Geometry.Ok, Fat0, Fat1, Sound, List, Usable, Ended;
    var y := if k == |h| then x else h'[k - 1];
    ClearNone(g, x, c);
    if k == |h| {
      m := 0;
    } else {
      assert PartCleared(g, x, c, h'[k - 1]);
      m :| m <= g.Spc() && h'[k - 1] == Cleared(g, x, c, m);
    }
    ClearedTables(g, x, c, m);
    ChainDistinct(Fat0(g, x), s + [c]);
    ClearedSlots(g, v, s, x, c, m);
    FreeBefore(g, v, s, x, c);
    SomeSlots(g, c);
    if Sound(Slots(g, v, s), 0, signed) { CutLists(Slots(g, v, s), Slots(g, v, [c]), 16 * m, signed); }
  }

  lemma SomeSlots(g: Geometry, c: nat)
    ensures SlotCount(g, [c]) > 0
  {
    CountOne(g, c);
  }

  lemma FreeBefore(g: Geometry, v: Image, s: seq<nat>, x: Image, c: nat)
    requires Moved(g, v, s, x, s + [c])
    ensures c < |Fat0(g, v)| && IsFree(Fat0(g, v)[c])
  {
    hide Fat0, Fat1, IsChain;
    assert (s + [c])[|s|] == c;
  }

  lemma CutLists(was: seq<Slot>, stale: seq<Slot>, n: nat, signed: bool)
    requires Sound(was, 0, signed) && |stale| > 0
    ensures
      var now := was + Wiped(stale, n);
      && (Ended(was) || n > 0 ==> Sound(now, 0, signed) && List(now, 0, signed) == List(was, 0, signed))
      && (!Ended(was) && n == 0 && Sound(stale, 0, signed) ==>
            Sound(now, 0, signed) && List(now, 0, signed) == List(was, 0, signed) + List(stale, 0, signed))
  {
    hide Sound, List, Wiped;
    var now := was + Wiped(stale, n);
    if Ended(was) {
      var e :| 0 <= e < |was| && IsEnd(was[e]);
      StopsAtEnd(was, now, 0, e, signed);
    } else if n > 0 {
      ExtendList(was, now, 0, signed);
    } else if Sound(stale, 0, signed) {
      WipedNone(stale);
      ListsOn(was, stale, 0, signed);
    }
  }
}
