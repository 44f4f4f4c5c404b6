/** The cluster allocator as a state machine: every run of creations, growths and deletions. */
module Allocator {
  import opened Bytes
  import opened Powers
  import opened Volume
  import opened Chains
  import opened FatVolume

  /** The active table, the two counters, and the chain of every live file or directory by its head. */
  datatype State = State(table: Table, lastUsed: nat, freeCnt: nat, chains: map<nat, seq<nat>>)

  ghost predicate LiveChain(t: Table, h: nat, s: seq<nat>)
  {
    IsChain(t, s) && Distinct(s) && s[0] == h && forall i :: 0 <= i < |s| ==> 2 <= s[i] < |t|
  }

  ghost predicate Separate(m: map<nat, seq<nat>>)
  {
    forall h, k :: h in m && k in m && h != k ==> Disjoint(m[h], m[k])
  }

  /** Live chains are acyclic, terminated, inside the usable range and pairwise disjoint. */
  ghost predicate Inv(s: State)
  {
    && 2 < |s.table| < BAD && 2 <= s.lastUsed < |s.table| && s.freeCnt < TWO_32
    && (forall h :: h in s.chains ==> LiveChain(s.table, h, s.chains[h]))
    && Separate(s.chains)
  }

  datatype Op = Create | Grow(head: nat) | Delete(head: nat)

  /** Growth and deletion are only asked for of a live chain. */
  predicate Enabled(s: State, op: Op) { op.Create? || op.head in s.chains }

  function Tail(s: seq<nat>): nat
    requires |s| > 0
  {
    s[|s| - 1]
  }

  /** The cluster that growing behind `prev` takes, if it takes one. */
  ghost function Pick(s: State, prev: nat): Choice
    requires Inv(s) && prev < |s.table|
  {
    Choose(s.table, s.lastUsed, prev)
  }

  /** One successful operation; a full or undecodable table leaves everything as it is. */
  ghost function Next(s: State, op: Op): (s': State)
    requires Inv(s) && Enabled(s, op)
  {
    match op
    case Create =>
      (match Pick(s, 0)
       case Found(c) =>
         ChooseFree(s.table, s.lastUsed, 0);
         State(Stretched(s.table, 0, c), c, Add32(s.freeCnt, -1), s.chains[c := [c]])
       case _ => s)
    case Grow(h) =>
      var prev := Tail(s.chains[h]);
      (match Pick(s, prev)
       case Found(c) =>
         ChooseFree(s.table, s.lastUsed, prev);
         State(Stretched(s.table, prev, c), c, Add32(s.freeCnt, -1), s.chains[h := s.chains[h] + [c]])
       case _ => s)
    case Delete(h) =>
      State(Zeroed(s.table, s.chains[h]), s.lastUsed, Add32(s.freeCnt, |s.chains[h]|), s.chains - {h})
  }

  // ---------------------------------------------------------------- each step keeps the invariant

  lemma CreateKeepsInv(s: State)
    requires Inv(s)
    ensures Inv(Next(s, Create))
  {
    if Pick(s, 0).Found? {
      var c := Pick(s, 0).clust;
      ChooseFree(s.table, s.lastUsed, 0);
      CreateKeepsChains(s, c);
    }
  }

  lemma CreateKeepsChains(s: State, c: nat)
    requires Inv(s) && 2 <= c < |s.table| && IsFree(s.table[c])
    ensures forall h :: h in s.chains ==>
      LiveChain(Stretched(s.table, 0, c), h, s.chains[h]) && Disjoint(s.chains[h], [c]) && Disjoint([c], s.chains[h])
    ensures LiveChain(Stretched(s.table, 0, c), c, [c])
  {
    forall h | h in s.chains
      ensures IsChain(Stretched(s.table, 0, c), s.chains[h]) && c !in s.chains[h]
    {
      StretchKeeps(s.table, s.chains[h], 0, c);
    }
  }

  lemma GrowKeepsInv(s: State, h: nat)
    requires Inv(s) && h in s.chains
    ensures Inv(Next(s, Grow(h)))
  {
    var prev := Tail(s.chains[h]);
    if Pick(s, prev).Found? {
      var c := Pick(s, prev).clust;
      ChooseFree(s.table, s.lastUsed, prev);
      GrowKeepsChains(s, h, c);
      hide Choose, LiveChain, Disjoint;
    }
  }

  lemma GrowKeepsChains(s: State, h: nat, c: nat)
    requires Inv(s) && h in s.chains && 2 <= c < |s.table| && IsFree(s.table[c])
    ensures
      var t := Stretched(s.table, Tail(s.chains[h]), c);
      && LiveChain(t, h, s.chains[h] + [c])
      && forall k :: k in s.chains && k != h ==>
        LiveChain(t, k, s.chains[k]) && Disjoint(s.chains[k], s.chains[h] + [c]) && Disjoint(s.chains[h] + [c], s.chains[k])
  {
    var a := s.chains[h];
    var prev := Tail(a);
    StretchExtends(s.table, a, c);
    ChainDistinct(Stretched(s.table, prev, c), a + [c]);
    hide IsChain, Stretched;
    forall k | k in s.chains && k != h
      ensures IsChain(Stretched(s.table, prev, c), s.chains[k]) && Disjoint(s.chains[k], a) && c !in s.chains[k]
    {
      assert Disjoint(s.chains[k], a);
      StretchKeeps(s.table, s.chains[k], prev, c);
    }
  }

  lemma DeleteKeepsInv(s: State, h: nat)
    requires Inv(s) && h in s.chains
    ensures Inv(Next(s, Delete(h)))
  {
    hide IsChain, Zeroed;
    var s' := Next(s, Delete(h));
    forall k | k in s'.chains
      ensures LiveChain(s'.table, k, s'.chains[k])
    {
      assert Disjoint(s.chains[h], s.chains[k]);
      ZeroedKeeps(s.table, s.chains[h], s.chains[k]);
    }
  }

  /** Safety of one step, and what it leaves alone: every chain but its own. */
  lemma NextSafe(s: State, op: Op)
    requires Inv(s) && Enabled(s, op)
    ensures Inv(Next(s, op))
    ensures |Next(s, op).table| == |s.table|
    ensures forall h :: h in s.chains && (op.Create? || h != op.head) ==>
      h in Next(s, op).chains && Next(s, op).chains[h] == s.chains[h]
  {
    match op {
      case Create =>
        CreateKeepsInv(s);
        if Pick(s, 0).Found? {
          ChooseFree(s.table, s.lastUsed, 0);
          forall h | h in s.chains ensures h != Pick(s, 0).clust {
            FreeOffChain(s.table, s.chains[h], Pick(s, 0).clust);
          }
        }
      case Grow(h) => GrowKeepsInv(s, h);
      case Delete(h) => DeleteKeepsInv(s, h);
    }
  }

  // ---------------------------------------------------------------- counting

  /** How far the free count is from the number of free entries, modulo 2^32. */
  function Drift(s: State): int { (s.freeCnt - FreeFrom(s.table, 2)) % TWO_32 }

  lemma {:induction false} ZeroedCount(t: Table, s: seq<nat>)
    requires IsChain(t, s) && s[0] >= 2
    ensures FreeFrom(Zeroed(t, s), 2) == FreeFrom(t, 2) + |s|
  {
    RemoveChainExact(t, s);
    RemoveCount(t, s[0], 2);
  }

  lemma DriftMoves(free: nat, n: nat, k: int)
    ensures (Add32(free, k) - (n + k)) % TWO_32 == (free - n) % TWO_32
  {
  }

  /** Taking a cluster keeps the drift. */
  lemma TakeConserves(s: State, prev: nat)
    requires Inv(s) && prev < |s.table| && (prev == 0 || (prev >= 2 && !IsFree(s.table[prev]))) && Pick(s, prev).Found?
    ensures
      var c := Pick(s, prev).clust;
      && c < |s.table|
      && (Add32(s.freeCnt, -1) - FreeFrom(Stretched(s.table, prev, c), 2)) % TWO_32 == Drift(s)
  {
    ChooseFree(s.table, s.lastUsed, prev);
    StretchCount(s.table, prev, Pick(s, prev).clust);
    DriftMoves(s.freeCnt, FreeFrom(s.table, 2), -1);
  }

  /** Conservation: no operation changes the drift. */
  lemma NextConserves(s: State, op: Op)
    requires Inv(s) && Enabled(s, op)
    ensures Drift(Next(s, op)) == Drift(s)
  {
    hide Add32, FreeFrom, Stretched, Zeroed, Pick;
    match op {
      case Create =>
        if Pick(s, 0).Found? { TakeConserves(s, 0); }
      case Grow(h) =>
        var prev := Tail(s.chains[h]);
        if Pick(s, prev).Found? { TakeConserves(s, prev); }
      case Delete(h) =>
        ZeroedCount(s.table, s.chains[h]);
        DriftMoves(s.freeCnt, FreeFrom(s.table, 2), |s.chains[h]|);
    }
  }

  // ---------------------------------------------------------------- runs

  /** A sequence of operations that can be carried out one after the other. */
  ghost predicate Runnable(s: State, ops: seq<Op>)
    requires Inv(s)
    decreases |ops|
  {
    ops == [] || (Enabled(s, ops[0]) && (NextSafe(s, ops[0]); Runnable(Next(s, ops[0]), ops[1..])))
  }

  ghost function Run(s: State, ops: seq<Op>): (s': State)
    requires Inv(s) && Runnable(s, ops)
    decreases |ops|
  {
    if ops == [] then s else
      NextSafe(s, ops[0]);
      Run(Next(s, ops[0]), ops[1..])
  }

  predicate Names(ops: seq<Op>, h: nat) { exists i :: 0 <= i < |ops| && !ops[i].Create? && ops[i].head == h }

  lemma NamesTail(ops: seq<Op>, h: nat)
    requires ops != []
    ensures Names(ops, h) <==> Names(ops[1..], h) || (!ops[0].Create? && ops[0].head == h)
  {
    assert forall i :: 0 <= i < |ops| - 1 ==> ops[1..][i] == ops[i + 1];
  }

  /** Whole-run safety: after any run the chains are sound, chains no operation names are untouched,
      and the free count has drifted no further from the table. */
  lemma {:induction false} RunSafe(s: State, ops: seq<Op>)
    requires Inv(s) && Runnable(s, ops)
    ensures Inv(Run(s, ops)) && |Run(s, ops).table| == |s.table|
    ensures Drift(Run(s, ops)) == Drift(s)
    ensures forall h :: h in s.chains && !Names(ops, h) ==>
      h in Run(s, ops).chains && Run(s, ops).chains[h] == s.chains[h]
    decreases |ops|
  {
    if ops != [] {
      hide Next, Drift, Inv, Names;
      NextSafe(s, ops[0]);
      NextConserves(s, ops[0]);
      RunSafe(Next(s, ops[0]), ops[1..]);
      forall h ensures Names(ops, h) <==> Names(ops[1..], h) || (!ops[0].Create? && ops[0].head == h) {
        NamesTail(ops, h);
      }
    }
  }

  // ---------------------------------------------------------------- the driver carries out the steps

  /** The volume is in abstract state `s`. */
  ghost predicate Shows(fat: Fat, s: State)
    reads fat, fat.buf, fat.disk
  {
    && fat.Valid() && Mirrored(fat.geo, fat.View())
    && Fat0(fat.geo, fat.View()) == s.table && fat.lastUsed == s.lastUsed && fat.freeCnt == s.freeCnt
  }

  /** `create_chain` is the step `Create`. Its report is truthful unless the first entry of the scan is undecodable and
      `junk`, what an uninitialised variable holds, is 0. */
  method CreateChain(fat: Fat, junk: nat, ghost s: State) returns (err: int, clust: nat, ghost ok: bool)
    requires Inv(s) && Shows(fat, s)
    modifies fat`sect, fat`bufDirty, fat`infoDirty, fat`lastUsed, fat`freeCnt, fat.buf, fat.disk
    ensures ok || err == ERR_FULL || fat.disk.faults == old(fat.disk.faults) ==> Shows(fat, Next(s, Create))
    ensures fat.disk.faults == old(fat.disk.faults) ==> (ok <==> Pick(s, 0).Found?) && (err == ERR_FULL <==> Pick(s, 0).Full?)
    ensures junk != 0 ==> (ok <==> err == ERR_NONE)
    ensures fat.disk.faults == old(fat.disk.faults) ==>
      (err == ERR_NONE && !ok <==> junk == 0 && FirstBad(s.table, s.lastUsed))
    ensures ok ==> Pick(s, 0) == Found(clust) && fat.Synced() && SameElsewhere(fat.geo, fat.View(), old(fat.View()))
  {
    hide Fat0, Fat1, Geometry.Ok, Stretched, SameElsewhere, Choose, InfoHolds, Add32, PutInfo, GrowthImage, GrowthImages, FirstBad;
    err, clust, ok := fat.StretchChain(0, junk);
  }

  /** `stretch_chain` at the tail of a live chain is the step `Grow`. */
  method GrowChain(fat: Fat, prev: nat, ghost h: nat, ghost s: State) returns (err: int, clust: nat, ghost ok: bool)
    requires Inv(s) && Shows(fat, s) && h in s.chains && prev == Tail(s.chains[h])
    modifies fat`sect, fat`bufDirty, fat`infoDirty, fat`lastUsed, fat`freeCnt, fat.buf, fat.disk
    ensures ok <==> err == ERR_NONE
    ensures ok || err == ERR_FULL || fat.disk.faults == old(fat.disk.faults) ==> Shows(fat, Next(s, Grow(h)))
    ensures fat.disk.faults == old(fat.disk.faults) ==> (ok <==> Pick(s, prev).Found?) && (err == ERR_FULL <==> Pick(s, prev).Full?)
    ensures ok ==> Pick(s, prev) == Found(clust) && fat.Synced() && SameElsewhere(fat.geo, fat.View(), old(fat.View()))
  {
    hide Fat0, Fat1, Geometry.Ok, Stretched, SameElsewhere, Choose, InfoHolds, Add32, PutInfo, GrowthImage, GrowthImages, FirstBad;
    var junk: nat := *;
    err, clust, ok := fat.StretchChain(prev, junk);
  }

  /** `remove_chain` of a live head is the step `Delete`, and never finds the volume broken. */
  method DeleteChain(fat: Fat, h: nat, ghost s: State) returns (err: int)
    requires Inv(s) && Shows(fat, s) && h in s.chains
    modifies fat`sect, fat`bufDirty, fat`infoDirty, fat`freeCnt, fat.buf, fat.disk
    ensures err == ERR_NONE || (err == ERR_IO && fat.disk.faults > old(fat.disk.faults))
    ensures err == ERR_NONE ==>
      Shows(fat, Next(s, Delete(h))) && fat.Synced() && SameElsewhere(fat.geo, fat.View(), old(fat.View()))
  {
    hide Fat0, Fat1, Geometry.Ok, Zeroed, SameElsewhere, InfoHolds, Add32, Remove, RemovalLog, Fat.View;
    RemoveChainExact(s.table, s.chains[h]);
    err := fat.RemoveChain(h);
  }
}
