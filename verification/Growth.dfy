/** How far a chain on a volume can be made longer, and how far it was. */
module Growth {
  import opened Bytes
  import opened Volume
  import opened Chains
  import opened Disks
  import opened FatVolume

  /** How many clusters a chain of `have` lacks to one of `want`. */
  function Need(have: nat, want: nat): (n: nat) { if want > have then want - have else 0 }

  /** The chain is a chain of the volume. */
  ghost predicate OnVolume(fat: Fat, chain: seq<nat>)
    reads fat, fat.buf, fat.disk
  {
    fat.Valid() && IsChain(Fat0(fat.geo, fat.View()), chain)
  }

  /** Without a failed transfer the chain can be made at least `want` clusters long. */
  ghost predicate Room(fat: Fat, chain: seq<nat>, want: nat)
    requires OnVolume(fat, chain)
    reads fat, fat.buf, fat.disk
  {
    CanGrow(Fat0(fat.geo, fat.View()), fat.lastUsed, chain[|chain| - 1], Need(|chain|, want))
  }

  /** On a decodable table that is a matter of counting: there must be as many free entries as are lacking, and the first
      one must be found, which fails only where it is the one that the scan never looks at. */
  lemma RoomIff(fat: Fat, chain: seq<nat>, want: nat)
    requires OnVolume(fat, chain) && AllDecodable(Fat0(fat.geo, fat.View())) && chain[|chain| - 1] >= 2
    ensures
      var t := Fat0(fat.geo, fat.View());
      Room(fat, chain, want) <==>
      want <= |chain| || (Choose(t, fat.lastUsed, chain[|chain| - 1]).Found? && want - |chain| <= FreeFrom(t, 2))
  {
    hide Geometry.Ok, Fat0, Fat.View, Choose, FreeFrom, CanGrow, AllDecodable;
    CanGrowIff(Fat0(fat.geo, fat.View()), fat.lastUsed, chain[|chain| - 1], Need(|chain|, want));
  }

  /** No cluster can be found to make the chain longer. */
  ghost predicate Dry(fat: Fat, chain: seq<nat>)
    reads fat, fat.buf, fat.disk
  {
    OnVolume(fat, chain) && !Choose(Fat0(fat.geo, fat.View()), fat.lastUsed, chain[|chain| - 1]).Found?
  }

  /** `m` clusters were taken for the chain since the table was `t`, with the scan at `last` and the end of the chain at
      `prev`. */
  ghost predicate Taken(fat: Fat, chain: seq<nat>, t: Table, last: nat, prev: nat, m: int)
    reads fat, fat.buf, fat.disk
  {
    && OnVolume(fat, chain) && m >= 0 && InTable(t, last) && prev < |t|
    && Grew(t, last, prev, m, Fat0(fat.geo, fat.View()), fat.lastUsed, chain[|chain| - 1])
  }

  lemma TakenNone(fat: Fat, chain: seq<nat>)
    requires OnVolume(fat, chain)
    ensures Taken(fat, chain, Fat0(fat.geo, fat.View()), fat.lastUsed, chain[|chain| - 1], 0)
  {
    hide Geometry.Ok, Fat0, Fat.View, CanGrow;
    GrewNone(Fat0(fat.geo, fat.View()), fat.lastUsed, chain[|chain| - 1]);
  }

  lemma TakenMeans(fat: Fat, chain: seq<nat>, t: Table, last: nat, prev: nat, m: int)
    requires Taken(fat, chain, t, last, prev, m)
    ensures OnVolume(fat, chain) && m >= 0 && InTable(t, last) && prev < |t| && |chain| > 0
    ensures InTable(Fat0(fat.geo, fat.View()), fat.lastUsed) && chain[|chain| - 1] < |Fat0(fat.geo, fat.View())|
    ensures Grew(t, last, prev, m, Fat0(fat.geo, fat.View()), fat.lastUsed, chain[|chain| - 1])
  {
  }

  /** Taking some and then some more. */
  lemma TakenOn(fat: Fat, chain: seq<nat>, t: Table, last: nat, prev: nat, m: int, t1: Table, last1: nat, prev1: nat, n: int)
    requires InTable(t, last) && prev < |t| && m >= 0 && Grew(t, last, prev, m, t1, last1, prev1)
    requires Taken(fat, chain, t1, last1, prev1, n)
    ensures Taken(fat, chain, t, last, prev, m + n)
  {
    hide Geometry.Ok, Fat0, Fat.View, CanGrow, Grew;
    GrewTrans(t, last, prev, m, t1, last1, prev1, n, Fat0(fat.geo, fat.View()), fat.lastUsed, chain[|chain| - 1]);
  }

  /** A chain that has become long enough shows that it could. */
  lemma GotThere(fat: Fat, chain: seq<nat>, t: Table, last: nat, prev: nat, have: nat, want: nat)
    requires Taken(fat, chain, t, last, prev, |chain| - have) && want <= |chain|
    ensures InTable(t, last) && prev < |t| && CanGrow(t, last, prev, Need(have, want))
  {
    hide Geometry.Ok, Fat0, Fat.View, CanGrow;
    GrewCan(t, last, prev, |chain| - have, Fat0(fat.geo, fat.View()), fat.lastUsed, chain[|chain| - 1]);
    CanGrowFewer(t, last, prev, |chain| - have, Need(have, want));
  }

  /** A chain that is still too short when no cluster is left shows that it could not. */
  lemma FellShort(fat: Fat, chain: seq<nat>, t: Table, last: nat, prev: nat, have: nat, want: nat)
    requires Dry(fat, chain) && Taken(fat, chain, t, last, prev, |chain| - have) && want > |chain|
    ensures InTable(t, last) && prev < |t| && !CanGrow(t, last, prev, Need(have, want))
  {
    hide Geometry.Ok, Fat0, Fat.View, CanGrow, Choose;
    GrewStops(t, last, prev, |chain| - have, Fat0(fat.geo, fat.View()), fat.lastUsed, chain[|chain| - 1], Need(have, want));
  }
}
