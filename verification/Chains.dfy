/** Cluster chains inside an allocation table, and what allocation, growth and removal do to a table. */
module Chains {
  import opened Bytes
  import opened Volume

  // ---------------------------------------------------------------- classes of entries

  predicate IsFree(v: nat) { v == 0 }

  predicate IsLast(v: nat) { v > BAD }

  /** The entry names a following cluster. */
  predicate IsLink(t: Table, v: nat) { 2 <= v < |t| && v < BAD }

  /** `get_fat` accepts the entry. */
  predicate Decodable(t: Table, v: nat) { IsFree(v) || v == BAD || IsLast(v) || IsLink(t, v) }

  // ---------------------------------------------------------------- chains

  /** `s` is the complete chain that starts at `s[0]`: each entry links to the next, the last one ends it. */
  ghost predicate IsChain(t: Table, s: seq<nat>)
  {
    && |s| > 0
    && (forall i :: 0 <= i < |s| ==> s[i] < |t|)
    && (forall i :: 0 <= i < |s| - 1 ==> t[s[i]] == s[i + 1] && IsLink(t, t[s[i]]))
    && IsLast(t[s[|s| - 1]])
  }

  ghost predicate Distinct(s: seq<nat>) { forall i, j :: 0 <= i < j < |s| ==> s[i] != s[j] }

  ghost predicate Disjoint(a: seq<nat>, b: seq<nat>) { forall i, j :: 0 <= i < |a| && 0 <= j < |b| ==> a[i] != b[j] }

  /** A chain determines its suffixes: two chains that meet share everything that follows. */
  lemma {:induction false} ChainSuffix(t: Table, a: seq<nat>, i: nat, b: seq<nat>, j: nat)
    requires IsChain(t, a) && IsChain(t, b) && i < |a| && j < |b| && a[i] == b[j]
    ensures a[i..] == b[j..]
    decreases |a| - i
  {
    if i < |a| - 1 {
      assert t[a[i]] == a[i + 1];
      assert j < |b| - 1;
      ChainSuffix(t, a, i + 1, b, j + 1);
      assert a[i..] == [a[i]] + a[i + 1..];
      assert b[j..] == [b[j]] + b[j + 1..];
    } else {
      assert j == |b| - 1;
    }
  }

  /** Chains are acyclic. */
  lemma ChainDistinct(t: Table, s: seq<nat>)
    requires IsChain(t, s)
    ensures Distinct(s)
  {
    forall i, j | 0 <= i < j < |s|
      ensures s[i] != s[j]
    {
      if s[i] == s[j] {
        ChainSuffix(t, s, i, s, j);
      }
    }
  }

  /** There is one chain per head. */
  lemma ChainUnique(t: Table, a: seq<nat>, b: seq<nat>)
    requires IsChain(t, a) && IsChain(t, b) && a[0] == b[0]
    ensures a == b
  {
    ChainSuffix(t, a, 0, b, 0);
    assert a == a[0..] && b == b[0..];
  }

  /** The last cluster of a chain is a cluster of the table. */
  lemma TailInChain(t: Table, s: seq<nat>)
    requires IsChain(t, s)
    ensures |s| > 0 && s[|s| - 1] < |t|
  {
  }

  /** No cluster of a chain is free. */
  lemma FreeOffChain(t: Table, s: seq<nat>, c: nat)
    requires IsChain(t, s) && c < |t| && IsFree(t[c])
    ensures c !in s
  {
    assert forall i :: 0 <= i < |s| ==> t[s[i]] != 0;
  }

  /** A chain survives every change to entries outside it. */
  lemma ChainFrame(t: Table, t': Table, s: seq<nat>)
    requires IsChain(t, s) && |t'| == |t|
    requires forall i :: 0 <= i < |s| ==> t'[s[i]] == t[s[i]]
    ensures IsChain(t', s)
  {
  }

  // ---------------------------------------------------------------- counting free entries

  /** Number of free entries among clusters `lo` and up. */
  function FreeFrom(t: Table, lo: nat): (n: nat)
    ensures n <= |t|
  {
    if |t| <= lo then 0
    else FreeFrom(t[..|t| - 1], lo) + if IsFree(t[|t| - 1]) then 1 else 0
  }

  /** A point update changes the count by what it does to its own entry. */
  lemma {:induction false} FreeFromPut(t: Table, lo: nat, c: nat, v: nat)
    requires c < |t|
    ensures FreeFrom(t[c := v], lo) ==
      FreeFrom(t, lo) - (if lo <= c && IsFree(t[c]) then 1 else 0) + (if lo <= c && IsFree(v) then 1 else 0)
  {
    if |t| <= lo {
    } else if c == |t| - 1 {
      assert t[c := v][..|t| - 1] == t[..|t| - 1];
    } else {
      assert t[c := v][..|t| - 1] == t[..|t| - 1][c := v];
      FreeFromPut(t[..|t| - 1], lo, c, v);
    }
  }

  // ---------------------------------------------------------------- removal

  datatype Removal = Removal(table: Table, count: nat, ok: bool)
  {
    function Plus(n: nat): (r: Removal) { Removal(table, count + n, ok) }
  }

  /** What `remove_chain` does to any table at all: it frees entries while they can be followed. */
  function Remove(t: Table, c: nat): (r: Removal)
    requires c < |t|
    ensures |r.table| == |t|
    ensures forall d :: 0 <= d < |t| ==> r.table[d] == t[d] || r.table[d] == 0
    decreases |t| - FreeFrom(t, 0)
  {
    if IsLast(t[c]) then Removal(t[c := 0], 1, true)
    else if !IsLink(t, t[c]) then Removal(t, 0, false)
    else
      FreeFromPut(t, 0, c, 0);
      Remove(t[c := 0], t[c]).Plus(1)
  }

  /** One round of removal. */
  lemma RemoveStep(t: Table, c: nat)
    requires c < |t|
    ensures IsLast(t[c]) ==> Remove(t, c) == Removal(t[c := 0], 1, true)
    ensures !IsLast(t[c]) && !IsLink(t, t[c]) ==> Remove(t, c) == Removal(t, 0, false)
    ensures !IsLast(t[c]) && IsLink(t, t[c]) ==>
      Remove(t, c) == Remove(t[c := 0], t[c]).Plus(1) && FreeFrom(t[c := 0], 0) > FreeFrom(t, 0)
  {
    FreeFromPut(t, 0, c, 0);
  }

  /** The table after at most `n` rounds of removal. */
  function FreedUpTo(t: Table, c: nat, n: nat): (r: Table)
    requires c < |t|
    ensures |r| == |t|
    decreases n
  {
    if n == 0 || (!IsLast(t[c]) && !IsLink(t, t[c])) then t
    else if IsLast(t[c]) then t[c := 0]
    else FreedUpTo(t[c := 0], t[c], n - 1)
  }

  /** Rounds of removal along a chain free a prefix of it. */
  lemma {:induction false} FreedUpToChain(t: Table, s: seq<nat>, n: nat)
    requires IsChain(t, s)
    ensures FreedUpTo(t, s[0], n) == Zeroed(t, s[..if n < |s| then n else |s|])
    decreases |s|
  {
    if n == 0 || |s| == 1 {
      FreedUpToShort(t, s, n);
    } else {
      ChainDistinct(t, s);
      ChainFrame2(t, s);
      FreedUpToStep(t, s[0], n);
      assert t[s[0]] == s[1] && IsLink(t, t[s[0]]);
      hide FreedUpTo, IsChain;
      var t', r, k := t[s[0] := 0], s[1..], if n < |s| then n else |s|;
      FreedUpToChain(t', r, n - 1);
      ZeroedStep(t, s, k);
    }
  }

  lemma FreedUpToShort(t: Table, s: seq<nat>, n: nat)
    requires IsChain(t, s) && (n == 0 || |s| == 1)
    ensures FreedUpTo(t, s[0], n) == Zeroed(t, s[..if n < |s| then n else |s|])
  {
    if n > 0 {
      assert t[s[0] := 0] == Zeroed(t, s);
      assert s[..1] == s;
    }
  }

  lemma ZeroedStep(t: Table, s: seq<nat>, k: nat)
    requires 1 <= k <= |s| && s[0] < |t|
    ensures Zeroed(t[s[0] := 0], s[1..][..k - 1]) == Zeroed(t, s[..k])
  {
    assert s[..k] == [s[0]] + s[1..][..k - 1];
  }

  lemma FreedUpToStep(t: Table, c: nat, n: nat)
    requires c < |t| && n > 0
    ensures !IsLast(t[c]) && IsLink(t, t[c]) ==> FreedUpTo(t, c, n) == FreedUpTo(t[c := 0], t[c], n - 1)
  {
  }

  /** `t` with every entry named in `s` freed. */
  function Zeroed(t: Table, s: seq<nat>): (r: Table)
    ensures |r| == |t|
    ensures forall d :: 0 <= d < |t| ==> r[d] == if d in s then 0 else t[d]
  {
    seq(|t|, d requires 0 <= d < |t| => if d in s then 0 else t[d])
  }

  /** Freeing clusters leaves every chain apart from them as it was. */
  lemma ZeroedKeeps(t: Table, a: seq<nat>, b: seq<nat>)
    requires IsChain(t, b) && Disjoint(a, b)
    ensures IsChain(Zeroed(t, a), b)
  {
    ChainFrame(t, Zeroed(t, a), b);
  }

  /** On a well-formed chain removal succeeds and frees exactly that chain. */
  lemma {:induction false} RemoveChainExact(t: Table, s: seq<nat>)
    requires IsChain(t, s)
    ensures Remove(t, s[0]) == Removal(Zeroed(t, s), |s|, true)
    decreases |s|
  {
    hide Remove, FreeFrom;
    ChainDistinct(t, s);
    RemoveStep(t, s[0]);
    if |s| == 1 {
      assert t[s[0] := 0] == Zeroed(t, s);
    } else {
      ChainFrame2(t, s);
      hide IsChain, Distinct;
      RemoveChainExact(t[s[0] := 0], s[1..]);
      ZeroedStep(t, s, |s|);
      WholeSlices(s);
    }
  }

  lemma WholeSlices(s: seq<nat>)
    requires |s| > 0
    ensures s[..|s|] == s && s[1..][..|s| - 1] == s[1..]
  {
  }

  /** Freeing the head leaves the rest of the chain a chain. */
  lemma ChainFrame2(t: Table, s: seq<nat>)
    requires IsChain(t, s) && Distinct(s) && |s| > 1
    ensures IsChain(t[s[0] := 0], s[1..])
  {
    var t', r := t[s[0] := 0], s[1..];
    assert forall i :: 0 <= i < |r| ==> r[i] == s[i + 1] && r[i] != s[0];
  }

  /** Removal succeeds only along a well-formed chain: anything cyclic, cross-linked into freed
      clusters or undecodable ends in BROKEN. */
  lemma {:induction false} RemoveOkChain(t: Table, c: nat) returns (s: seq<nat>)
    requires c < |t| && Remove(t, c).ok
    ensures IsChain(t, s) && s[0] == c
    decreases |t| - FreeFrom(t, 0)
  {
    hide FreeFrom;
    if IsLast(t[c]) {
      s := [c];
    } else {
      FreeFromPut(t, 0, c, 0);
      var r := RemoveOkChain(t[c := 0], t[c]);
      s := [c] + r;
      ChainPrepend(t, c, r);
    }
  }

  /** A chain that does not need the entry of `c` can be entered through it. */
  lemma ChainPrepend(t: Table, c: nat, r: seq<nat>)
    requires c < |t| && IsChain(t[c := 0], r) && t[c] == r[0] && IsLink(t, t[c])
    ensures IsChain(t, [c] + r)
  {
    var t', s := t[c := 0], [c] + r;
    forall i | 0 <= i < |s| - 1
      ensures t[s[i]] == s[i + 1] && IsLink(t, t[s[i]])
    {
      if i > 0 {
        assert s[i] == r[i - 1] && s[i + 1] == r[i];
        assert t'[r[i - 1]] == r[i];
      }
    }
    assert s[|s| - 1] == r[|r| - 1];
  }

  /** Exactly when removal succeeds. */
  lemma RemoveOkIff(t: Table, c: nat)
    requires c < |t|
    ensures Remove(t, c).ok <==> exists s :: IsChain(t, s) && s[0] == c
  {
    if Remove(t, c).ok {
      var s := RemoveOkChain(t, c);
    }
    forall s | IsChain(t, s) && s[0] == c
      ensures Remove(t, c).ok
    {
      RemoveChainExact(t, s);
    }
  }

  /** Each entry of `s` but the last links to the next, and none but the last comes twice. */
  ghost predicate Trail(t: Table, s: seq<nat>)
  {
    && |s| > 0 && (forall i :: 0 <= i < |s| ==> s[i] < |t|)
    && (forall i :: 0 <= i < |s| - 1 ==> t[s[i]] == s[i + 1] && IsLink(t, t[s[i]]))
    && Distinct(s[..|s| - 1])
  }

  /** What a removal that fails leaves: everything it passed is free and counted, up to an entry that it had freed itself, or
      that is neither an end nor a link. */
  lemma {:induction false} RemoveBroken(t: Table, c: nat) returns (s: seq<nat>)
    requires c < |t| && !Remove(t, c).ok
    ensures Trail(t, s) && s[0] == c
    ensures Remove(t, c) == Removal(Zeroed(t, s[..|s| - 1]), |s| - 1, false)
    ensures var e := s[|s| - 1]; e in s[..|s| - 1] || (!IsLast(t[e]) && !IsLink(t, t[e]))
    decreases |t| - FreeFrom(t, 0)
  {
    hide FreeFrom, Remove;
    RemoveStep(t, c);
    if !IsLink(t, t[c]) {
      s := [c];
      assert Zeroed(t, s[..0]) == t;
    } else {
      var r := RemoveBroken(t[c := 0], t[c]);
      s := [c] + r;
      TrailOn(t, c, r);
    }
  }

  lemma TrailOn(t: Table, c: nat, r: seq<nat>)
    requires c < |t| && IsLink(t, t[c]) && Trail(t[c := 0], r) && r[0] == t[c]
    ensures
      var s := [c] + r;
      var e, p := s[|s| - 1], r[..|r| - 1];
      && Trail(t, s) && Zeroed(t, s[..|s| - 1]) == Zeroed(t[c := 0], p)
      && (e in p || (!IsLast(t[c := 0][e]) && !IsLink(t, t[c := 0][e])) ==>
            e in s[..|s| - 1] || (!IsLast(t[e]) && !IsLink(t, t[e])))
  {
    var s, p := [c] + r, r[..|r| - 1];
    assert s[..|s| - 1] == [c] + p;
    TrailLinks(t, c, r);
    TrailDistinct(t, c, r);
    hide Distinct, IsLast, IsLink;
  }

  lemma TrailLinks(t: Table, c: nat, r: seq<nat>)
    requires c < |t| && IsLink(t, t[c]) && Trail(t[c := 0], r) && r[0] == t[c]
    ensures var s := [c] + r; forall i :: 0 <= i < |s| - 1 ==> t[s[i]] == s[i + 1] && IsLink(t, t[s[i]])
  {
    hide Distinct;
    var s := [c] + r;
    forall i | 0 <= i < |s| - 1 ensures t[s[i]] == s[i + 1] && IsLink(t, t[s[i]]) {
      if i > 0 { assert t[c := 0][r[i - 1]] == r[i]; }
    }
  }

  lemma TrailDistinct(t: Table, c: nat, r: seq<nat>)
    requires c < |t| && Trail(t[c := 0], r)
    ensures Distinct([c] + r[..|r| - 1])
  {
    assert forall i :: 0 <= i < |r| - 1 ==> r[i] != c;
  }

  /** Every entry that removal visits becomes free, and the count says how many there were. */
  lemma {:induction false} RemoveCount(t: Table, c: nat, lo: nat)
    requires c < |t| && (lo == 0 || (lo == 2 && c >= 2))
    ensures FreeFrom(Remove(t, c).table, lo) == FreeFrom(t, lo) + Remove(t, c).count
    decreases |t| - FreeFrom(t, 0)
  {
    FreeFromPut(t, 0, c, 0);
    FreeFromPut(t, lo, c, 0);
    if !IsLast(t[c]) && IsLink(t, t[c]) {
      RemoveCount(t[c := 0], t[c], lo);
    }
  }

  // ---------------------------------------------------------------- choosing a cluster

  datatype Choice = Found(clust: nat) | Full | Broken

  /** The cluster after `c`, wrapping past the end of the table to cluster 2. */
  function Succ(n: nat, c: nat): (d: nat)
    requires n > 2
    ensures 2 <= d < n || d == c + 1 < 2
  {
    if c + 1 >= n then 2 else c + 1
  }

  /** Steps of `Succ` from `c` up to the next visit of `last`. */
  function Gap(n: nat, c: nat, last: nat): (k: nat)
    requires 2 <= c < n && 2 <= last < n
  {
    if c < last then last - c else (n - c) + (last - 2)
  }

  /** The cyclic scan: clusters after `c` in turn, giving up when it comes round to `last`. */
  function Scan(t: Table, last: nat, c: nat): (r: Choice)
    requires 2 <= c < |t| && 2 <= last < |t|
    decreases Gap(|t|, c, last)
  {
    var d := Succ(|t|, c);
    if d == last then Full
    else if !Decodable(t, t[d]) then Broken
    else if IsFree(t[d]) then Found(d)
    else Scan(t, last, d)
  }

  /** The scan breaks on the very first entry it looks at. */
  predicate FirstBad(t: Table, last: nat)
    requires 2 <= last < |t|
  {
    Succ(|t|, last) != last && !Decodable(t, t[Succ(|t|, last)])
  }

  /** A table on which it does, although there is a free cluster: entry 3 is neither free, nor an end, nor a link. */
  lemma FirstBadExample()
    ensures var t := [0, 0, EOC, 1, 0]; FirstBad(t, 2) && Scan(t, 2, 2) == Broken && IsFree(t[4])
  {
    assert Succ(5, 2) == 3;
  }

  /** The cluster `stretch_chain` takes: the one after `prev` when that is free, else what the scan finds. */
  function Choose(t: Table, last: nat, prev: nat): (r: Choice)
    requires 2 <= last < |t| && prev < |t|
  {
    if prev == 0 then Scan(t, last, last)
    else
      var d := Succ(|t|, prev);
      if !Decodable(t, t[d]) then Broken
      else if IsFree(t[d]) then Found(d)
      else Scan(t, last, last)
  }

  /** The cluster `i` places behind `c`, counting cluster 2 as the one behind the last. */
  function Ahead(n: nat, c: nat, i: nat): (d: nat)
    requires 2 <= c < n && i <= n - 2
    ensures 2 <= d < n
  {
    if c + i < n then c + i else c + i - (n - 2)
  }

  /** The `i - 1` entries behind `last` are all decodable and in use. */
  ghost predicate Passed(t: Table, last: nat, i: nat)
    requires 2 <= last < |t| && i <= |t| - 2
  {
    forall j: nat {:trigger Ahead(|t|, last, j)} :: 0 < j < i ==>
      Decodable(t, t[Ahead(|t|, last, j)]) && !IsFree(t[Ahead(|t|, last, j)])
  }

  /** `r` is the first free cluster behind `last`, or the scan passes all but `last`, or it meets an undecodable entry. */
  ghost predicate FirstBehind(t: Table, last: nat, r: Choice)
    requires 2 <= last < |t|
  {
    match r
    case Found(d) =>
      exists i: nat :: 0 < i < |t| - 2 && d == Ahead(|t|, last, i) && d < |t| && IsFree(t[d]) && Passed(t, last, i)
    case Full => Passed(t, last, |t| - 2)
    case Broken =>
      exists i: nat :: 0 < i < |t| - 2 && !Decodable(t, t[Ahead(|t|, last, i)]) && Passed(t, last, i)
  }

  /** Of the three outcomes only one can be. */
  lemma FirstBehindOne(t: Table, last: nat, r: Choice, r': Choice)
    requires 2 <= last < |t| && FirstBehind(t, last, r) && FirstBehind(t, last, r')
    ensures r == r'
  {
  }

  lemma {:induction false} ScanFirstBehind(t: Table, last: nat, c: nat, i: nat)
    requires 2 <= c < |t| && 2 <= last < |t| && i < |t| - 2 && c == Ahead(|t|, last, i) && Passed(t, last, i + 1)
    ensures FirstBehind(t, last, Scan(t, last, c))
    decreases Gap(|t|, c, last)
  {
    var d := Succ(|t|, c);
    assert d == Ahead(|t|, last, i + 1);
    if d != last && Decodable(t, t[d]) && !IsFree(t[d]) {
      ScanFirstBehind(t, last, d, i + 1);
    }
  }

  /** The cluster to take: the one behind `prev`, which is 2 at the end of the table, when that is free; none when that is
      undecodable; else, and for a new chain, the first free one behind `last`. */
  ghost predicate Picks(t: Table, last: nat, prev: nat, r: Choice)
    requires 2 <= last < |t| && prev < |t|
  {
    if prev == 0 then FirstBehind(t, last, r) else
      var n := if prev + 1 == |t| then 2 else prev + 1;
      && (t[n] == 0 ==> r == Found(n))
      && (!Decodable(t, t[n]) ==> r == Broken)
      && (t[n] != 0 && Decodable(t, t[n]) ==> FirstBehind(t, last, r))
  }

  /** On any table, that is the choice. */
  lemma ChooseIff(t: Table, last: nat, prev: nat, r: Choice)
    requires 2 <= last < |t| && prev < |t|
    ensures Picks(t, last, prev, r) <==> Choose(t, last, prev) == r
  {
    hide Scan, FirstBehind;
    ScanFirstBehind(t, last, last, 0);
    if FirstBehind(t, last, r) { FirstBehindOne(t, last, r, Scan(t, last, last)); }
  }

  lemma ChoosePicks(t: Table, last: nat, prev: nat)
    requires 2 <= last < |t| && prev < |t|
    ensures Picks(t, last, prev, Choose(t, last, prev))
  {
    ChooseIff(t, last, prev, Choose(t, last, prev));
  }

  /** The scan finds the first free cluster ahead of it, and reports FULL only after passing every one. */
  lemma {:induction false} ScanExact(t: Table, last: nat, c: nat)
    requires 2 <= c < |t| && 2 <= last < |t|
    ensures Scan(t, last, c).Found? ==>
      var d := Scan(t, last, c).clust;
      && 2 <= d < |t| && d != last && IsFree(t[d]) && Gap(|t|, d, last) < Gap(|t|, c, last)
      && forall e :: 2 <= e < |t| && Gap(|t|, d, last) < Gap(|t|, e, last) < Gap(|t|, c, last) ==> !IsFree(t[e])
    ensures Scan(t, last, c).Full? ==>
      forall e :: 2 <= e < |t| && Gap(|t|, e, last) < Gap(|t|, c, last) ==> !IsFree(t[e])
    decreases Gap(|t|, c, last)
  {
    var d := Succ(|t|, c);
    if d != last && Decodable(t, t[d]) && !IsFree(t[d]) {
      ScanExact(t, last, d);
    }
  }

  /** On a decodable table: what is chosen was free, and FULL is reported exactly when no cluster
      other than `last` is free and, when stretching, neither is the cluster after `prev`. */
  lemma ChooseExact(t: Table, last: nat, prev: nat)
    requires 2 <= last < |t| && prev < |t| && prev != 1
    requires forall c :: 2 <= c < |t| ==> Decodable(t, t[c])
    ensures Choose(t, last, prev).Found? ==>
      2 <= Choose(t, last, prev).clust < |t| && IsFree(t[Choose(t, last, prev).clust])
    ensures Choose(t, last, prev).Full? <==>
      && (forall c :: 2 <= c < |t| && c != last ==> !IsFree(t[c]))
      && (prev != 0 ==> !IsFree(t[Succ(|t|, prev)]))
    ensures !Choose(t, last, prev).Broken? && Picks(t, last, prev, Choose(t, last, prev))
  {
    ChoosePicks(t, last, prev);
    ScanExact(t, last, last);
    ScanDecodable(t, last, last);
    assert forall c :: 2 <= c < |t| && c != last ==> Gap(|t|, c, last) < Gap(|t|, last, last);
  }

  /** A decodable table never breaks the scan. */
  lemma {:induction false} ScanDecodable(t: Table, last: nat, c: nat)
    requires 2 <= c < |t| && 2 <= last < |t|
    requires forall d :: 2 <= d < |t| ==> Decodable(t, t[d])
    ensures !Scan(t, last, c).Broken?
    decreases Gap(|t|, c, last)
  {
    var d := Succ(|t|, c);
    if d != last && !IsFree(t[d]) {
      ScanDecodable(t, last, d);
    }
  }

  /** Whatever the table, a chosen cluster was free. */
  lemma ChooseFree(t: Table, last: nat, prev: nat)
    requires 2 <= last < |t| && prev < |t| && prev != 1
    ensures Choose(t, last, prev).Found? ==>
      2 <= Choose(t, last, prev).clust < |t| && IsFree(t[Choose(t, last, prev).clust])
  {
    ScanExact(t, last, last);
  }

  // ---------------------------------------------------------------- growth

  /** The table after `stretch_chain` took cluster `c`: `c` ends a chain, and `prev` links to it. */
  function Stretched(t: Table, prev: nat, c: nat): (r: Table)
    requires c < |t| && prev < |t|
    ensures |r| == |t|
  {
    if prev == 0 then t[c := EOC] else t[c := EOC][prev := c]
  }

  /** Growth appends the new cluster to the chain that ended at `prev`. */
  lemma StretchExtends(t: Table, s: seq<nat>, c: nat)
    requires IsChain(t, s) && 2 <= c < |t| < BAD && IsFree(t[c]) && s[|s| - 1] != 0
    ensures IsChain(Stretched(t, s[|s| - 1], c), s + [c])
    ensures c !in s
  {
    ChainDistinct(t, s);
    var r, s' := Stretched(t, s[|s| - 1], c), s + [c];
    assert forall i :: 0 <= i < |s| ==> t[s[i]] != 0;
    forall i | 0 <= i < |s'| - 1
      ensures r[s'[i]] == s'[i + 1] && IsLink(r, r[s'[i]])
    {
      if i < |s| - 1 {
        assert s[i] != s[|s| - 1] && s[i] != c;
        assert s'[i + 1] == s[i + 1] == t[s[i]];
      }
    }
  }

  /** Growth leaves every chain that does not hold `prev` as it was. */
  lemma StretchKeeps(t: Table, s: seq<nat>, prev: nat, c: nat)
    requires IsChain(t, s) && c < |t| && prev < |t| && IsFree(t[c]) && prev !in s
    ensures IsChain(Stretched(t, prev, c), s) && c !in s
  {
    assert forall i :: 0 <= i < |s| ==> t[s[i]] != 0;
    ChainFrame(t, Stretched(t, prev, c), s);
  }

  /** Growth uses up exactly one free entry. */
  lemma StretchCount(t: Table, prev: nat, c: nat)
    requires 2 <= c < |t| && prev < |t| && IsFree(t[c]) && (prev != 0 ==> !IsFree(t[prev]))
    ensures FreeFrom(Stretched(t, prev, c), 2) == FreeFrom(t, 2) - 1
  {
    FreeFromPut(t, 2, c, EOC);
    if prev != 0 {
      FreeFromPut(t[c := EOC], 2, prev, c);
    }
  }

  // ---------------------------------------------------------------- growing more than once

  /** `k` clusters can be taken one after the other behind `prev`. */
  predicate CanGrow(t: Table, last: nat, prev: nat, k: nat)
    requires 2 <= last < |t| && prev < |t|
    decreases k
  {
    k == 0 ||
    (Choose(t, last, prev).Found? && InTable(t, Choose(t, last, prev).clust)
     && (var c := Choose(t, last, prev).clust; CanGrow(Stretched(t, prev, c), c, c, k - 1)))
  }

  predicate InTable(t: Table, c: nat) { 2 <= c < |t| }

  /** After taking `m` clusters the table is `t'`, with `last'` and the end of the chain at `prev'`: from there on just
      as many can be taken as are missing. */
  ghost predicate Grew(t: Table, last: nat, prev: nat, m: nat, t': Table, last': nat, prev': nat)
    requires InTable(t, last) && prev < |t|
  {
    InTable(t', last') && prev' < |t'| && forall k: nat :: CanGrow(t, last, prev, m + k) <==> CanGrow(t', last', prev', k)
  }

  lemma GrewNone(t: Table, last: nat, prev: nat)
    requires InTable(t, last) && prev < |t|
    ensures Grew(t, last, prev, 0, t, last, prev)
  {
  }

  lemma GrewOne(t: Table, last: nat, prev: nat, c: nat)
    requires InTable(t, last) && prev < |t| && prev != 1 && Choose(t, last, prev) == Found(c)
    ensures c < |t| && Grew(t, last, prev, 1, Stretched(t, prev, c), c, c)
  {
    ChooseFree(t, last, prev);
    hide Choose, Stretched;
    forall k: nat ensures CanGrow(t, last, prev, 1 + k) <==> CanGrow(Stretched(t, prev, c), c, c, k) {
    }
  }

  lemma GrewTrans(t: Table, last: nat, prev: nat, m: nat, t1: Table, last1: nat, prev1: nat, n: nat, t2: Table, last2: nat, prev2: nat)
    requires InTable(t, last) && prev < |t|
    requires Grew(t, last, prev, m, t1, last1, prev1) && Grew(t1, last1, prev1, n, t2, last2, prev2)
    ensures Grew(t, last, prev, m + n, t2, last2, prev2)
  {
    hide CanGrow;
    forall k: nat ensures CanGrow(t, last, prev, m + n + k) <==> CanGrow(t2, last2, prev2, k) {
      assert CanGrow(t, last, prev, m + (n + k)) <==> CanGrow(t1, last1, prev1, n + k);
    }
  }

  /** What was taken could be taken. */
  lemma GrewCan(t: Table, last: nat, prev: nat, m: nat, t': Table, last': nat, prev': nat)
    requires InTable(t, last) && prev < |t| && Grew(t, last, prev, m, t', last', prev')
    ensures CanGrow(t, last, prev, m)
  {
    assert CanGrow(t, last, prev, m + 0) <==> CanGrow(t', last', prev', 0);
  }

  /** Where no cluster is found, no more could be taken from the start. */
  lemma GrewStops(t: Table, last: nat, prev: nat, m: nat, t': Table, last': nat, prev': nat, k: nat)
    requires InTable(t, last) && prev < |t| && Grew(t, last, prev, m, t', last', prev')
    requires InTable(t', last') && prev' < |t'| && !Choose(t', last', prev').Found? && k > m
    ensures !CanGrow(t, last, prev, k)
  {
    assert !CanGrow(t', last', prev', k - m);
    hide CanGrow;
    assert CanGrow(t, last, prev, m + (k - m)) <==> CanGrow(t', last', prev', k - m);
  }

  /** Whoever can take `k` can take fewer. */
  lemma {:induction false} CanGrowFewer(t: Table, last: nat, prev: nat, k: nat, j: nat)
    requires InTable(t, last) && prev < |t| && CanGrow(t, last, prev, k) && j <= k
    ensures CanGrow(t, last, prev, j)
    decreases j
  {
    if j > 0 {
      var c := Choose(t, last, prev).clust;
      CanGrowFewer(Stretched(t, prev, c), c, c, k - 1, j - 1);
    }
  }

  ghost predicate AllDecodable(t: Table) { forall c :: 2 <= c < |t| ==> Decodable(t, t[c]) }

  /** Growth keeps a decodable table decodable. */
  lemma StretchDecodable(t: Table, prev: nat, c: nat)
    requires AllDecodable(t) && prev < |t| && 2 <= c < |t| < BAD
    ensures AllDecodable(Stretched(t, prev, c))
  {
  }

  /** As long as there are free entries behind `lo`, one of them is there. */
  lemma {:induction false} SomeFree(t: Table, lo: nat)
    requires FreeFrom(t, lo) > 0
    ensures exists c :: lo <= c < |t| && IsFree(t[c])
  {
    if !IsFree(t[|t| - 1]) {
      SomeFree(t[..|t| - 1], lo);
      var c :| lo <= c < |t| - 1 && IsFree(t[..|t| - 1][c]);
      assert IsFree(t[c]);
    } else {
      assert lo <= |t| - 1;
    }
  }

  lemma {:induction false} NoneFreeFrom(t: Table, lo: nat)
    requires FreeFrom(t, lo) == 0
    ensures forall c :: lo <= c < |t| ==> !IsFree(t[c])
  {
    if |t| > lo {
      NoneFreeFrom(t[..|t| - 1], lo);
      assert forall c :: lo <= c < |t| - 1 ==> t[c] == t[..|t| - 1][c];
    }
  }

  /** After the last cluster taken, which is not free, a cluster is found exactly when one is free. */
  lemma FoundIfFree(t: Table, last: nat, prev: nat)
    requires AllDecodable(t) && InTable(t, last) && 2 <= prev < |t| && !IsFree(t[last])
    ensures Choose(t, last, prev).Found? <==> FreeFrom(t, 2) > 0
  {
    ChooseExact(t, last, prev);
    if FreeFrom(t, 2) > 0 { SomeFree(t, 2); } else { NoneFreeFrom(t, 2); }
  }

  /** On a decodable table, behind a cluster in use: all free clusters can be taken, provided the first one is found. That
      can fail only when the one free cluster is `last`, which the scan never looks at. */
  lemma {:induction false} CanGrowIff(t: Table, last: nat, prev: nat, k: nat)
    requires AllDecodable(t) && InTable(t, last) && |t| < BAD && 2 <= prev < |t| && !IsFree(t[prev])
    ensures CanGrow(t, last, prev, k) <==> k == 0 || (Choose(t, last, prev).Found? && k <= FreeFrom(t, 2))
    decreases k
  {
    if k > 0 && Choose(t, last, prev).Found? {
      var c := Choose(t, last, prev).clust;
      ChooseFree(t, last, prev);
      StretchCount(t, prev, c);
      StretchDecodable(t, prev, c);
      var t' := Stretched(t, prev, c);
      TakenNotFree(t, prev, c);
      hide Choose, Stretched, FreeFrom, AllDecodable;
      CanGrowIff(t', c, c, k - 1);
      if k > 1 { FoundIfFree(t', c, c); }
    }
  }

  lemma TakenNotFree(t: Table, prev: nat, c: nat)
    requires 2 <= c < |t| && prev < |t| && IsFree(t[c])
    ensures !IsFree(Stretched(t, prev, c)[c])
  {
  }
}
