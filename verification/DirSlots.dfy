/** A directory as a sequence of slots: which entries it lists, and what adding and removing do to the list. */
module DirSlots {
  import opened Bytes
  import opened LongName
  import opened ShortName

  /** What a directory lists for one file: its name and its short-name slot with attributes, cluster and size. */
  datatype Entry = Entry(name: seq<byte>, sfn: Slot)

  /** Number of long-name slots that the first of them announces. */
  function Announced(s: Slot): (n: nat) { s[0] % 32 }

  /** The slots from `p` on are a sound long entry: fragments in use, of one checksum, all but the first of
      them full, and behind them the short slot that the checksum belongs to. */
  ghost predicate LongEntry(slots: seq<Slot>, p: nat, signed: bool)
    requires p < |slots|
  {
    var n := Announced(slots[p]);
    && 1 <= n <= 20 && p + n < |slots| && slots[p][0] / 64 % 2 == 1
    && (forall j :: p <= j < p + n ==> LongSlot(slots[j], slots[p][13], j == p, signed))
    && !IsVacant(slots[p + n]) && Crc(slots[p + n][..11]) == slots[p][13]
    && ReadName(slots, p, n, signed).Chars? && |ReadName(slots, p, n, signed).chars| <= 255
  }

  ghost predicate LongSlot(s: Slot, crc: byte, first: bool, signed: bool)
  {
    && !IsVacant(s) && IsLong(s) && s[13] == crc
    && ReadFrag(s, 0, signed).Chars? && (first || |ReadFrag(s, 0, signed).chars| == 13)
  }

  // ---------------------------------------------------------------- parsing any slots at all

  /** How reading a long name ends: it is read, it is bad, or the directory ends inside it. */
  datatype Parsed = Done | Bad | RanOut

  /** `parse_lfn_name` from slot `q` on, with `cnt` slots to go and `len` characters read. */
  function ParseFrom(slots: seq<Slot>, q: nat, cnt: nat, len: nat, crc: byte, signed: bool): (r: Parsed)
    requires q < |slots|
    ensures r == Done ==> q + cnt < |slots|
    decreases cnt
  {
    if cnt == 0 then (if len <= 255 then Done else Bad)
    else if !IsLong(slots[q]) || slots[q][13] != crc || ReadFrag(slots[q], 0, signed).Broken? then Bad
    else if q + 1 == |slots| then RanOut
    else ParseFrom(slots, q + 1, cnt - 1, len + |ReadFrag(slots[q], 0, signed).chars|, crc, signed)
  }

  /** `parse_lfn_name` at slot `p`. */
  function ParseLong(slots: seq<Slot>, p: nat, signed: bool): (r: Parsed)
    requires p < |slots|
    ensures r == Done ==> p + Announced(slots[p]) < |slots|
  {
    if slots[p][0] / 64 % 2 == 0 || Announced(slots[p]) > 20 then Bad
    else ParseFrom(slots, p, Announced(slots[p]), 0, slots[p][13], signed)
  }

  /** How reading the entry that begins at the slot `p` in use ends, checksum of the short slot included. */
  function ReadAt(slots: seq<Slot>, p: nat, signed: bool): (r: Parsed)
    requires p < |slots|
  {
    if !IsLong(slots[p]) then Done
    else if ParseLong(slots, p, signed) != Done then ParseLong(slots, p, signed)
    else
      var q := p + Announced(slots[p]);
      if IsVacant(slots[q]) || Crc(slots[q][..11]) != slots[p][13] then Bad else Done
  }

  /** A slot that is part of a long name with that checksum, in numbers, and whose characters can be read. */
  ghost predicate Piece(s: Slot, crc: byte, signed: bool)
  {
    s[11] == 0x0f && s[13] == crc && ReadFrag(s, 0, signed).Chars?
  }

  ghost predicate Pieces(slots: seq<Slot>, q: nat, e: nat, crc: byte, signed: bool)
  {
    q <= e <= |slots| && forall j :: q <= j < e ==> Piece(slots[j], crc, signed)
  }

  lemma {:induction false} ParseFromIff(slots: seq<Slot>, q: nat, cnt: nat, len: nat, crc: byte, signed: bool)
    requires q < |slots|
    ensures Pieces(slots, q, q + cnt, crc, signed) ==> ReadName(slots, q, cnt, signed).Chars?
    ensures ParseFrom(slots, q, cnt, len, crc, signed) == Done <==>
      q + cnt < |slots| && Pieces(slots, q, q + cnt, crc, signed) && len + |ReadName(slots, q, cnt, signed).chars| <= 255
    ensures ParseFrom(slots, q, cnt, len, crc, signed) == RanOut <==>
      q + cnt >= |slots| && Pieces(slots, q, |slots|, crc, signed)
    decreases cnt
  {
    hide ReadFrag;
    if cnt == 0 {
      assert !Pieces(slots, q, |slots|, crc, signed) || q + cnt < |slots|;
    } else if q + 1 < |slots| {
      ParseFromIff(slots, q + 1, cnt - 1, if Piece(slots[q], crc, signed) then len + |ReadFrag(slots[q], 0, signed).chars| else len,
                   crc, signed);
      PiecesOn(slots, q, q + cnt, crc, signed);
      PiecesOn(slots, q, |slots|, crc, signed);
    } else {
      PiecesOn(slots, q, q + 1, crc, signed);
    }
  }

  lemma PiecesOn(slots: seq<Slot>, q: nat, e: nat, crc: byte, signed: bool)
    requires q < |slots| && q < e
    ensures Pieces(slots, q, e, crc, signed) <==> Piece(slots[q], crc, signed) && Pieces(slots, q + 1, e, crc, signed)
  {
    hide Piece;
  }

  /** When an entry with a long name is delivered, on any slots: when the first slot carries the mark 0x40 and announces at most
      20 slots, all of them are pieces of the same checksum, the name is at most 255 characters, and the slot behind is in
      use and has that checksum. The directory ends inside it when all slots up to the last are such pieces, and too few. */
  lemma ReadAtIff(slots: seq<Slot>, p: nat, signed: bool)
    requires p < |slots| && slots[p][11] == 0x0f
    ensures
      var n, crc := slots[p][0] % 32, slots[p][13];
      && (ReadAt(slots, p, signed) == Done <==>
            && slots[p][0] / 64 % 2 == 1 && n <= 20 && p + n < |slots| && Pieces(slots, p, p + n, crc, signed)
            && ReadName(slots, p, n, signed).Chars? && |ReadName(slots, p, n, signed).chars| <= 255
            && slots[p + n][0] != 0 && slots[p + n][0] != 0xe5 && Crc(slots[p + n][..11]) == crc)
      && (ReadAt(slots, p, signed) == RanOut <==>
            slots[p][0] / 64 % 2 == 1 && n <= 20 && p + n >= |slots| && Pieces(slots, p, |slots|, crc, signed))
  {
    hide ReadName, ParseFrom, Crc, Pieces;
    ParseFromIff(slots, p, slots[p][0] % 32, 0, slots[p][13], signed);
  }

  lemma LongCode(slots: seq<Slot>, p: nat, signed: bool)
    requires p < |slots| && IsLong(slots[p])
    ensures ParseLong(slots, p, signed) != Done ==> ReadAt(slots, p, signed) == ParseLong(slots, p, signed)
    ensures ParseLong(slots, p, signed) == Done ==>
      var q := p + Announced(slots[p]);
      ReadAt(slots, p, signed) == if IsVacant(slots[q]) || Crc(slots[q][..11]) != slots[p][13] then Bad else Done
  {
    hide ParseLong, Crc;
  }

  /** A sound long entry is read. */
  lemma LongEntryReads(slots: seq<Slot>, p: nat, signed: bool)
    requires p < |slots| && LongEntry(slots, p, signed)
    ensures ParseLong(slots, p, signed) == Done && ReadAt(slots, p, signed) == Done
  {
    hide ReadName, ReadFrag, ParseFrom;
    ReadNone(slots, p, signed);
    ParseRest(slots, p, 0, signed);
  }

  lemma {:induction false} ParseRest(slots: seq<Slot>, p: nat, j: nat, signed: bool)
    requires p < |slots| && LongEntry(slots, p, signed) && j <= Announced(slots[p])
    ensures p + j < |slots| && ReadName(slots, p, j, signed).Chars?
    ensures
      ParseFrom(slots, p + j, Announced(slots[p]) - j, |ReadName(slots, p, j, signed).chars|, slots[p][13], signed) == Done
    decreases Announced(slots[p]) - j
  {
    hide ReadName, ReadFrag, ParseFrom, LongEntry, LongSlot, Announced, Join;
    ReadNameSound(slots, p, j, signed);
    LongEntryParts(slots, p, j, signed);
    var n, len, crc := Announced(slots[p]), |ReadName(slots, p, j, signed).chars|, slots[p][13];
    if j < n {
      ReadNameBack(slots, p, j, signed);
      ParseOver(slots, p + j, n - j, len, crc, j == 0, signed);
      JoinLength(ReadFrag(slots[p + j], 0, signed), ReadName(slots, p, j, signed));
      ParseRest(slots, p, j + 1, signed);
    } else {
      ParseNone(slots, p + j, len, crc, signed);
    }
  }

  lemma JoinLength(a: Frag, b: Frag)
    requires a.Chars? && b.Chars?
    ensures Join(a, b).Chars? && |Join(a, b).chars| == |a.chars| + |b.chars|
  {
  }

  /** What a sound long entry says of its slot `j`, and of its name. */
  lemma LongEntryParts(slots: seq<Slot>, p: nat, j: nat, signed: bool)
    requires p < |slots| && LongEntry(slots, p, signed) && j <= Announced(slots[p])
    ensures p + Announced(slots[p]) < |slots|
    ensures j < Announced(slots[p]) ==> LongSlot(slots[p + j], slots[p][13], j == 0, signed)
    ensures j == Announced(slots[p]) ==> ReadName(slots, p, j, signed).Chars? && |ReadName(slots, p, j, signed).chars| <= 255
  {
    hide ReadName, LongSlot;
  }

  /** Parsing over one sound slot. */
  lemma ParseOver(slots: seq<Slot>, q: nat, cnt: nat, len: nat, crc: byte, first: bool, signed: bool)
    requires q + 1 < |slots| && cnt > 0 && LongSlot(slots[q], crc, first, signed)
    ensures ReadFrag(slots[q], 0, signed).Chars?
    ensures ParseFrom(slots, q, cnt, len, crc, signed) ==
      ParseFrom(slots, q + 1, cnt - 1, len + |ReadFrag(slots[q], 0, signed).chars|, crc, signed)
  {
    hide ReadFrag;
  }

  lemma ParseNone(slots: seq<Slot>, q: nat, len: nat, crc: byte, signed: bool)
    requires q < |slots|
    ensures ParseFrom(slots, q, 0, len, crc, signed) == if len <= 255 then Done else Bad
  {
  }

  /** The first slot at or behind `p` that is not marked free. */
  function FirstUsed(slots: seq<Slot>, p: nat): (q: nat)
    ensures p <= q && (q < |slots| ==> slots[q][0] != SLOT_FREE)
    decreases |slots| - p
  {
    if p >= |slots| || slots[p][0] != SLOT_FREE then p else FirstUsed(slots, p + 1)
  }

  /** All slots before it are marked free, with 0xe5. */
  lemma {:induction false} FirstUsedExact(slots: seq<Slot>, p: nat)
    requires p <= |slots|
    ensures FirstUsed(slots, p) <= |slots| && forall j :: p <= j < FirstUsed(slots, p) ==> slots[j][0] == 0xe5
    decreases |slots| - p
  {
    if p < |slots| && slots[p][0] == SLOT_FREE { FirstUsedExact(slots, p + 1); }
  }

  /** Passing over free slots leaves the rest of the listing. */
  lemma {:induction false} FirstUsedList(slots: seq<Slot>, p: nat, signed: bool)
    requires Sound(slots, p, signed)
    ensures Sound(slots, FirstUsed(slots, p), signed)
    ensures List(slots, FirstUsed(slots, p), signed) == List(slots, p, signed)
    decreases |slots| - p
  {
    if p < |slots| && slots[p][0] == SLOT_FREE { FirstUsedList(slots, p + 1, signed); }
  }

  /** The entry at `p` is delivered with its short slot at `q`: under its name, if it is a sound one. */
  ghost predicate Delivers(slots: seq<Slot>, p: nat, q: nat, name: seq<byte>, signed: bool)
  {
    && p < |slots| && !IsVacant(slots[p]) && q < |slots| && q + 1 == After(slots, p)
    && ((IsLong(slots[p]) ==> LongEntry(slots, p, signed)) ==> Entry(name, slots[q]) == EntryAt(slots, p, signed))
  }

  /** On a sound directory: what is delivered is the head of the listing, and nothing is ever bad. */
  lemma SoundReads(slots: seq<Slot>, p: nat, signed: bool)
    requires Sound(slots, p, signed)
    ensures
      var f := FirstUsed(slots, p);
      if f >= |slots| || IsEnd(slots[f]) then List(slots, p, signed) == []
      else
        && ReadAt(slots, f, signed) == Done
        && forall q: nat, name :: Delivers(slots, f, q, name, signed) ==>
          && Sound(slots, q + 1, signed)
          && List(slots, p, signed) == [Entry(name, slots[q])] + List(slots, q + 1, signed)
  {
    hide ReadName, ReadFrag, LongEntry, ReadAt, FirstUsed, Sound, List;
    var f := FirstUsed(slots, p);
    FirstUsedList(slots, p, signed);
    SoundHead(slots, f, signed);
  }

  lemma SoundHead(slots: seq<Slot>, f: nat, signed: bool)
    requires Sound(slots, f, signed) && (f < |slots| ==> slots[f][0] != SLOT_FREE)
    ensures
      if f >= |slots| || IsEnd(slots[f]) then List(slots, f, signed) == []
      else
        && ReadAt(slots, f, signed) == Done
        && forall q: nat, name :: Delivers(slots, f, q, name, signed) ==>
          && Sound(slots, q + 1, signed)
          && List(slots, f, signed) == [Entry(name, slots[q])] + List(slots, q + 1, signed)
  {
    hide ReadName, ReadFrag, LongEntry, ReadAt, EntryAt;
    if f < |slots| && !IsEnd(slots[f]) && IsLong(slots[f]) { LongEntryReads(slots, f, signed); }
    if f < |slots| && !IsEnd(slots[f]) && !IsLong(slots[f]) { ShortReads(slots, f, signed); }
  }

  lemma ShortReads(slots: seq<Slot>, p: nat, signed: bool)
    requires p < |slots| && !IsLong(slots[p])
    ensures ReadAt(slots, p, signed) == Done
  {
  }

  /** Where the search of `dir_add` for `n` usable slots in a row ends, counting on empty slots behind the last one and
      behind the end marker: `cnt` of them are found just before slot `q`. */
  function SearchEnd(slots: seq<Slot>, q: nat, cnt: nat, n: nat): (e: nat)
    requires cnt <= n
    ensures e >= q + (n - cnt)
    decreases |slots| - q
  {
    if cnt == n || q >= |slots| || IsEnd(slots[q]) then q + (n - cnt)
    else SearchEnd(slots, q + 1, if IsVacant(slots[q]) then cnt + 1 else 0, n)
  }

  /** A slot that a new entry may take: vacant, or behind the end marker, or behind the last slot. */
  ghost predicate Takeable(slots: seq<Slot>, j: nat)
  {
    j >= |slots| || IsVacant(slots[j]) || exists k :: 0 <= k <= j && IsEnd(slots[k])
  }

  /** Some slot from `a` on, fewer than `n` further, must not be taken. */
  ghost predicate Blocked(slots: seq<Slot>, a: nat, n: nat)
  {
    exists j: nat :: a <= j < a + n && !Takeable(slots, j)
  }

  lemma {:induction false} SearchEndFrom(slots: seq<Slot>, q: nat, cnt: nat, n: nat)
    requires cnt <= n && cnt <= q <= |slots| && forall j :: 0 <= j < q ==> !IsEnd(slots[j])
    requires (forall j :: q - cnt <= j < q ==> IsVacant(slots[j])) && forall a: nat :: a < q - cnt ==> Blocked(slots, a, n)
    ensures
      var e := SearchEnd(slots, q, cnt, n);
      e >= n && (forall j: nat :: e - n <= j < e ==> Takeable(slots, j)) && forall a: nat :: a < e - n ==> Blocked(slots, a, n)
    decreases |slots| - q
  {
    if cnt < n && q < |slots| && !IsEnd(slots[q]) {
      if IsVacant(slots[q]) {
        SearchEndFrom(slots, q + 1, cnt + 1, n);
      } else {
        assert !Takeable(slots, q);
        SearchEndFrom(slots, q + 1, 0, n);
      }
    }
  }

  /** The search ends behind the first `n` slots in a row that may be taken. */
  lemma SearchEndExact(slots: seq<Slot>, n: nat)
    ensures
      var e := SearchEnd(slots, 0, 0, n);
      e >= n && (forall j: nat :: e - n <= j < e ==> Takeable(slots, j)) && forall a: nat :: a < e - n ==> Blocked(slots, a, n)
  {
    SearchEndFrom(slots, 0, 0, n);
  }

  /** The same with the end marker passed or not. */
  function Expected(slots: seq<Slot>, q: nat, cnt: nat, eod: bool, n: nat): (e: nat)
    requires cnt <= n
    ensures e >= q + (n - cnt) && (cnt == n ==> e == q)
  {
    if eod then q + (n - cnt) else SearchEnd(slots, q, cnt, n)
  }

  /** Empty slots behind the last one make no difference. */
  lemma {:induction false} SearchEndLonger(a: seq<Slot>, b: seq<Slot>, q: nat, cnt: nat, n: nat)
    requires cnt <= n && a <= b && forall k :: |a| <= k < |b| ==> IsEnd(b[k])
    ensures SearchEnd(a, q, cnt, n) == SearchEnd(b, q, cnt, n)
    decreases |b| - q
  {
    if cnt < n && q < |a| && !IsEnd(a[q]) {
      assert a[q] == b[q];
      SearchEndLonger(a, b, q + 1, if IsVacant(a[q]) then cnt + 1 else 0, n);
    }
  }

  /** One round of the search leads to the same end. */
  lemma ExpectedStep(a: seq<Slot>, b: seq<Slot>, q: nat, cnt: nat, eod: bool, n: nat, cnt': nat, eod': bool)
    requires q < |a| && cnt < n && a <= b && forall k :: |a| <= k < |b| ==> IsEnd(b[k])
    requires cnt' == (if eod || IsVacant(a[q]) then cnt + 1 else 0) && eod' == (eod || IsEnd(a[q]))
    ensures Expected(b, q + 1, cnt', eod', n) == Expected(a, q, cnt, eod, n)
  {
    if !eod && !IsEnd(a[q]) { SearchEndLonger(a, b, q + 1, cnt', n); }
  }

  /** Where the item that starts at `p` ends. */
  function After(slots: seq<Slot>, p: nat): (q: nat)
    requires p < |slots|
    ensures q > p
  {
    if !IsVacant(slots[p]) && IsLong(slots[p]) then p + Announced(slots[p]) + 1 else p + 1
  }

  /** From `p` up to the end marker, or to the end of the slots, every item is vacant or a sound entry. */
  ghost predicate Sound(slots: seq<Slot>, p: nat, signed: bool)
    decreases |slots| - p
  {
    p >= |slots| || IsEnd(slots[p]) ||
    ((!IsVacant(slots[p]) && IsLong(slots[p]) ==> LongEntry(slots, p, signed)) && Sound(slots, After(slots, p), signed))
  }

  /** The entry at `p`, when there is one there. */
  ghost function EntryAt(slots: seq<Slot>, p: nat, signed: bool): (e: Entry)
    requires p < |slots| && (IsLong(slots[p]) ==> LongEntry(slots, p, signed))
  {
    if IsLong(slots[p]) then
      var n := Announced(slots[p]);
      Entry(ReadName(slots, p, n, signed).chars, slots[p + n])
    else Entry(ParseSfn(slots[p]), slots[p])
  }

  /** The entries from `p` on, in order. */
  ghost function List(slots: seq<Slot>, p: nat, signed: bool): (l: seq<Entry>)
    requires Sound(slots, p, signed)
    decreases |slots| - p
  {
    if p >= |slots| || IsEnd(slots[p]) then []
    else if IsVacant(slots[p]) then List(slots, p + 1, signed)
    else [EntryAt(slots, p, signed)] + List(slots, After(slots, p), signed)
  }

  /** What the item at `p` contributes to the list. */
  ghost function Head(slots: seq<Slot>, p: nat, signed: bool): (l: seq<Entry>)
    requires p < |slots| && (IsLong(slots[p]) && !IsVacant(slots[p]) ==> LongEntry(slots, p, signed))
  {
    if IsVacant(slots[p]) then [] else [EntryAt(slots, p, signed)]
  }

  /** One item and the rest. */
  lemma ListStep(slots: seq<Slot>, p: nat, signed: bool)
    requires p < |slots| && !IsEnd(slots[p]) && (IsLong(slots[p]) && !IsVacant(slots[p]) ==> LongEntry(slots, p, signed))
    ensures Sound(slots, p, signed) <==> Sound(slots, After(slots, p), signed)
    ensures Sound(slots, p, signed) ==>
      List(slots, p, signed) == Head(slots, p, signed) + List(slots, After(slots, p), signed)
  {
    hide LongEntry, EntryAt;
  }

  // ---------------------------------------------------------------- item boundaries

  /** Some item starts at `q`, counting from `p`, with no end marker before it. */
  ghost predicate Reach(slots: seq<Slot>, p: nat, q: nat)
    decreases q - p
  {
    p == q || (p < q && p < |slots| && !IsEnd(slots[p]) && Reach(slots, After(slots, p), q))
  }

  /** No slot of a sound long entry is vacant. */
  lemma LongInUse(slots: seq<Slot>, p: nat, q: nat, signed: bool)
    requires p < |slots| && LongEntry(slots, p, signed) && p <= q <= p + Announced(slots[p])
    ensures q < |slots| && !IsVacant(slots[q])
  {
    hide ReadName, ReadFrag, Crc;
    if q < p + Announced(slots[p]) {
      assert LongSlot(slots[q], slots[p][13], q == p, signed);
    }
  }

  /** A vacant slot before the end marker is never inside an entry. */
  lemma {:induction false} VacantIsBoundary(slots: seq<Slot>, p: nat, q: nat, signed: bool)
    requires Sound(slots, p, signed) && p <= q < |slots| && IsVacant(slots[q])
    requires forall j :: p <= j < q ==> !IsEnd(slots[j])
    ensures Reach(slots, p, q) && Sound(slots, q, signed)
    decreases q - p
  {
    if p < q {
      var r := After(slots, p);
      if r > q { LongInUse(slots, p, q, signed); }
      VacantIsBoundary(slots, r, q, signed);
    }
  }

  /** The same fragments read the same. */
  lemma {:induction false} ReadNameFrame(a: seq<Slot>, b: seq<Slot>, p: nat, n: nat, signed: bool)
    requires p + n <= |a| && p + n <= |b| && forall j :: p <= j < p + n ==> a[j] == b[j]
    ensures ReadName(a, p, n, signed) == ReadName(b, p, n, signed)
    decreases n
  {
    if n > 0 { ReadNameFrame(a, b, p + 1, n - 1, signed); }
  }

  lemma LongEntryFrame(a: seq<Slot>, b: seq<Slot>, p: nat, signed: bool)
    requires p < |a| && LongEntry(a, p, signed) && p + Announced(a[p]) < |b|
    requires forall j :: p <= j <= p + Announced(a[p]) ==> a[j] == b[j]
    ensures LongEntry(b, p, signed) && EntryAt(a, p, signed) == EntryAt(b, p, signed)
  {
    hide ReadName, ReadFrag;
    ReadNameFrame(a, b, p, Announced(a[p]), signed);
  }

  /** Slots that agree before a boundary list the same entries before it. */
  lemma {:induction false} PrefixSame(a: seq<Slot>, b: seq<Slot>, p: nat, q: nat, signed: bool) returns (pre: seq<Entry>)
    requires Sound(a, p, signed) && Reach(a, p, q) && q <= |a| && q <= |b| && Sound(b, q, signed)
    requires forall j :: p <= j < q ==> a[j] == b[j]
    ensures Sound(a, q, signed) && Sound(b, p, signed)
    ensures List(a, p, signed) == pre + List(a, q, signed)
    ensures List(b, p, signed) == pre + List(b, q, signed)
    decreases q - p
  {
    if p == q {
      pre := [];
    } else {
      hide LongEntry, EntryAt, List, Head;
      assert IsLong(a[p]) && !IsVacant(a[p]) ==> LongEntry(a, p, signed);
      hide Sound;
      var r := After(a, p);
      ReachLe(a, r, q);
      ListStep(a, p, signed);
      HeadSame(a, b, p, signed);
      var rest := PrefixSame(a, b, r, q, signed);
      ListStep(b, p, signed);
      pre := Head(a, p, signed) + rest;
      Assoc(Head(a, p, signed), rest, List(a, q, signed));
      Assoc(Head(a, p, signed), rest, List(b, q, signed));
    }
  }

  lemma SplitAt(l: seq<Entry>, a: seq<Entry>, b: seq<Entry>)
    requires l == a + b
    ensures l[..|a|] == a && l[|a|..] == b
  {
  }

  lemma Assoc(x: seq<Entry>, y: seq<Entry>, z: seq<Entry>)
    ensures (x + y) + z == x + (y + z)
  {
  }

  /** The item at `p` is the same where its slots are. */
  lemma HeadSame(a: seq<Slot>, b: seq<Slot>, p: nat, signed: bool)
    requires p < |a| && (IsLong(a[p]) && !IsVacant(a[p]) ==> LongEntry(a, p, signed)) && After(a, p) <= |b|
    requires forall j :: p <= j < After(a, p) ==> j < |a| ==> a[j] == b[j]
    ensures After(b, p) == After(a, p) && IsEnd(a[p]) == IsEnd(b[p])
    ensures IsLong(b[p]) && !IsVacant(b[p]) ==> LongEntry(b, p, signed)
    ensures Head(a, p, signed) == Head(b, p, signed)
  {
    hide ReadName, ReadFrag;
    if !IsVacant(a[p]) && IsLong(a[p]) {
      LongEntryFrame(a, b, p, signed);
    }
  }

  lemma LongInside(slots: seq<Slot>, p: nat, signed: bool)
    requires p < |slots| && LongEntry(slots, p, signed)
    ensures p + Announced(slots[p]) < |slots|
  {
  }

  lemma ReachLe(slots: seq<Slot>, p: nat, q: nat)
    requires Reach(slots, p, q)
    ensures p <= q
  {
  }

  /** Slots that agree from `p` on list the same entries from there. */
  lemma {:induction false} SuffixSame(a: seq<Slot>, b: seq<Slot>, p: nat, signed: bool)
    requires |a| == |b| && Sound(a, p, signed) && forall j :: p <= j < |a| ==> a[j] == b[j]
    ensures Sound(b, p, signed) && List(a, p, signed) == List(b, p, signed)
    decreases |a| - p
  {
    hide LongEntry, ReadName, ParseSfn;
    if p < |a| && !IsEnd(a[p]) {
      if !IsVacant(a[p]) && IsLong(a[p]) {
        LongInside(a, p, signed);
        LongEntryFrame(a, b, p, signed);
      }
      SuffixSame(a, b, After(a, p), signed);
    }
  }

  lemma ListEnd(slots: seq<Slot>, p: nat, signed: bool)
    requires p < |slots| && IsEnd(slots[p])
    ensures Sound(slots, p, signed) && List(slots, p, signed) == []
  {
  }

  /** Vacant slots list nothing. */
  lemma {:induction false} SkipVacant(slots: seq<Slot>, p: nat, q: nat, signed: bool)
    requires p <= q <= |slots| && forall j :: p <= j < q ==> IsVacant(slots[j]) && !IsEnd(slots[j])
    ensures Sound(slots, p, signed) <==> Sound(slots, q, signed)
    ensures Sound(slots, p, signed) ==> List(slots, p, signed) == List(slots, q, signed)
    decreases q - p
  {
    if p < q { SkipVacant(slots, p + 1, q, signed); }
  }

  // ---------------------------------------------------------------- growing

  /** A cleared cluster behind the last slot lists nothing. */
  lemma {:induction false} ExtendList(a: seq<Slot>, b: seq<Slot>, p: nat, signed: bool)
    requires Sound(a, p, signed) && |a| <= |b| && p <= |a| && a <= b && (|a| < |b| ==> IsEnd(b[|a|]))
    ensures Sound(b, p, signed) && List(b, p, signed) == List(a, p, signed)
    decreases |a| - p
  {
    hide LongEntry, ReadName, ParseSfn;
    if p < |a| && !IsEnd(a[p]) {
      if !IsVacant(a[p]) && IsLong(a[p]) {
        LongInside(a, p, signed);
        LongEntryFrame(a, b, p, signed);
      }
      ExtendList(a, b, After(a, p), signed);
    }
  }

  /** Whatever stands behind the last slot is not listed while the directory has an end marker. */
  lemma {:induction false} StopsAtEnd(a: seq<Slot>, b: seq<Slot>, p: nat, k: nat, signed: bool)
    requires Sound(a, p, signed) && a <= b && p <= k < |a| && IsEnd(a[k])
    ensures Sound(b, p, signed) && List(b, p, signed) == List(a, p, signed)
    decreases |a| - p
  {
    hide LongEntry, ReadName, ParseSfn;
    if !IsEnd(a[p]) {
      if !IsVacant(a[p]) && IsLong(a[p]) {
        LongInside(a, p, signed);
        LongEntryFrame(a, b, p, signed);
        if After(a, p) > k { LongInUse(a, p, k, signed); }
      }
      StopsAtEnd(a, b, After(a, p), k, signed);
    }
  }

  lemma {:induction false} ReadNameShift(a: seq<Slot>, z: seq<Slot>, p: nat, n: nat, signed: bool)
    requires p + n <= |z|
    ensures ReadName(a + z, |a| + p, n, signed) == ReadName(z, p, n, signed)
    decreases n
  {
    hide ReadFrag;
    if n > 0 {
      assert |a| + (p + 1) == |a| + p + 1;
      ReadNameShift(a, z, p + 1, n - 1, signed);
    }
  }

  lemma LongEntryShift(a: seq<Slot>, z: seq<Slot>, p: nat, signed: bool)
    requires p < |z| && LongEntry(z, p, signed)
    ensures LongEntry(a + z, |a| + p, signed) && EntryAt(a + z, |a| + p, signed) == EntryAt(z, p, signed)
  {
    hide ReadName, ReadFrag, Crc, ParseSfn;
    var n := Announced(z[p]);
    ReadNameShift(a, z, p, n, signed);
    assert forall j :: |a| + p <= j <= |a| + p + n ==> (a + z)[j] == z[j - |a|];
  }

  /** Slots behind others list what they list alone. */
  lemma {:induction false} ListShift(a: seq<Slot>, z: seq<Slot>, p: nat, signed: bool)
    requires Sound(z, p, signed)
    ensures Sound(a + z, |a| + p, signed) && List(a + z, |a| + p, signed) == List(z, p, signed)
    decreases |z| - p
  {
    hide LongEntry, ReadName, ParseSfn;
    if p < |z| && !IsEnd(z[p]) {
      assert (a + z)[|a| + p] == z[p];
      if !IsVacant(z[p]) && IsLong(z[p]) { LongEntryShift(a, z, p, signed); }
      ListShift(a, z, After(z, p), signed);
    }
  }

  lemma ListEmpty(a: seq<Slot>, p: nat, signed: bool)
    requires p >= |a|
    ensures Sound(a, p, signed) && List(a, p, signed) == []
  {
  }

  /** Without an end marker the slots behind the last one are listed as well. */
  lemma {:induction false} ListsOn(a: seq<Slot>, z: seq<Slot>, p: nat, signed: bool)
    requires p <= |a| && Sound(a, p, signed) && (forall k :: p <= k < |a| ==> !IsEnd(a[k])) && Sound(z, 0, signed)
    ensures Sound(a + z, p, signed) && List(a + z, p, signed) == List(a, p, signed) + List(z, 0, signed)
    decreases |a| - p
  {
    hide LongEntry, EntryAt, List, Head;
    if p < |a| {
      assert IsLong(a[p]) && !IsVacant(a[p]) ==> LongEntry(a, p, signed);
      hide Sound;
      if !IsVacant(a[p]) && IsLong(a[p]) { LongInside(a, p, signed); }
      HeadSame(a, a + z, p, signed);
      ListStep(a, p, signed);
      ListsOn(a, z, After(a, p), signed);
      ListStep(a + z, p, signed);
      Assoc(Head(a, p, signed), List(a, After(a, p), signed), List(z, 0, signed));
    } else {
      ListEmpty(a, p, signed);
      ListShift(a, z, 0, signed);
    }
  }

  // ---------------------------------------------------------------- adding an entry

  /** `dir_add`'s choice: `n` slots from `at` on that are vacant up to `stop`, where either the run is
      complete or the end marker stands; and no end marker before. */
  ghost predicate FreeRun(slots: seq<Slot>, at: nat, n: nat, stop: nat, eod: bool)
  {
    && at <= stop <= at + n < |slots|
    && (forall j :: 0 <= j < stop ==> !IsEnd(slots[j]))
    && (forall j :: at <= j < stop ==> IsVacant(slots[j]))
    && (if eod then stop < at + n && IsEnd(slots[stop]) else stop == at + n)
  }

  /** The new entry stands at `at`: the fragments of the name and the short slot behind them. */
  ghost predicate HoldsEntry(slots: seq<Slot>, at: nat, name: seq<byte>, sfn: Slot)
  {
    && 1 <= |name| <= 255 && at + FragCount(|name|) < |slots|
    && HoldsName(slots, at, name, Crc(sfn[..11]))
    && slots[at + FragCount(|name|)] == sfn && !IsVacant(sfn)
  }

  /** What `dir_add` makes of the slots: the entry in its run, a new end marker behind it when the old one was
      used up, everything else as it was. */
  ghost predicate Added(old_: seq<Slot>, new_: seq<Slot>, at: nat, name: seq<byte>, sfn: Slot, eod: bool)
  {
    var n := FragCount(|name|) + 1;
    && |new_| == |old_| && HoldsEntry(new_, at, name, sfn) && at + n < |old_|
    && (forall j :: 0 <= j < at ==> new_[j] == old_[j])
    && (forall j :: at + n < j < |old_| ==> new_[j] == old_[j])
    && (if eod then IsEnd(new_[at + n]) else new_[at + n] == old_[at + n])
  }

  /** The slots written for a readable name are a sound entry of that name. */
  lemma NewEntrySound(slots: seq<Slot>, at: nat, name: seq<byte>, sfn: Slot, signed: bool)
    requires HoldsEntry(slots, at, name, sfn) && Readable(name, signed)
    ensures IsLong(slots[at]) && !IsVacant(slots[at]) && LongEntry(slots, at, signed)
    ensures Announced(slots[at]) == FragCount(|name|) && EntryAt(slots, at, signed) == Entry(name, sfn)
  {
    hide ReadFrag, ReadName, Crc, HoldsFrag, FragOf, Readable;
    var n, crc := FragCount(|name|), Crc(sfn[..11]);
    NameRoundTrip(slots, at, name, crc, signed);
    assert IsFragSlot(slots[at + n - n], FragOf(name, n), SeqNo(n, n), crc);
    forall j | at <= j < at + n ensures LongSlot(slots[j], crc, j == at, signed) {
      FragmentSound(slots, at, name, crc, at + n - j, signed);
    }
  }

  lemma FragmentSound(slots: seq<Slot>, at: nat, name: seq<byte>, crc: byte, i: nat, signed: bool)
    requires HoldsName(slots, at, name, crc) && Readable(name, signed) && 1 <= i <= FragCount(|name|)
    ensures LongSlot(slots[at + FragCount(|name|) - i], crc, i == FragCount(|name|), signed)
  {
    hide ReadFrag;
    var n := FragCount(|name|);
    var s, f := slots[at + n - i], FragOf(name, i);
    assert IsFragSlot(s, f, SeqNo(i, n), crc);
    FragRoundTrip(s, f, 0, signed);
    assert f[0..] == f;
    assert forall k :: 0 <= k < |f| ==> f[k] == name[13 * (i - 1) + k];
  }

  /** Behind the place of the new entry the list goes on as it did. */
  lemma AddTail(old_: seq<Slot>, new_: seq<Slot>, at: nat, stop: nat, name: seq<byte>, sfn: Slot, eod: bool, signed: bool)
    requires Sound(old_, at, signed) && FreeRun(old_, at, FragCount(|name|) + 1, stop, eod)
    requires Added(old_, new_, at, name, sfn, eod) && Readable(name, signed)
    ensures Sound(new_, at, signed) && List(new_, at, signed) == [Entry(name, sfn)] + List(old_, at, signed)
  {
    hide LongEntry, EntryAt, Sound, List, HoldsName, Readable, Crc;
    var q := at + FragCount(|name|) + 1;
    SkipVacant(old_, at, stop, signed);
    NewEntrySound(new_, at, name, sfn, signed);
    if eod {
      ListEnd(old_, stop, signed);
      ListEnd(new_, q, signed);
    } else {
      SuffixSame(old_, new_, q, signed);
    }
    ListStep(new_, at, signed);
  }

  /** Adding is exact: afterwards the directory lists what it listed, with the new entry inserted at one place. */
  lemma AddExact(old_: seq<Slot>, new_: seq<Slot>, at: nat, stop: nat, name: seq<byte>, sfn: Slot, eod: bool, signed: bool)
    returns (k: nat)
    requires Sound(old_, 0, signed) && FreeRun(old_, at, FragCount(|name|) + 1, stop, eod)
    requires Added(old_, new_, at, name, sfn, eod) && Readable(name, signed)
    ensures Sound(new_, 0, signed) && k <= |List(old_, 0, signed)|
    ensures List(new_, 0, signed) == List(old_, 0, signed)[..k] + [Entry(name, sfn)] + List(old_, 0, signed)[k..]
  {
    hide Sound, List, HoldsEntry, Reach, Readable;
    VacantIsBoundary(old_, 0, at, signed);
    AddTail(old_, new_, at, stop, name, sfn, eod, signed);
    var pre := PrefixSame(old_, new_, 0, at, signed);
    k := |pre|;
    SplitAt(List(old_, 0, signed), pre, List(old_, at, signed));
    Assoc(pre, [Entry(name, sfn)], List(old_, at, signed));
  }

  // ---------------------------------------------------------------- removing an entry

  /** What `remove_entries` makes of the slots: those from `first` to `last` are marked free. */
  ghost predicate Freed(old_: seq<Slot>, new_: seq<Slot>, first: nat, last: nat)
  {
    && |new_| == |old_| && first <= last < |old_|
    && forall j :: 0 <= j < |old_| ==> new_[j] == if first <= j <= last then old_[j][0 := SLOT_FREE] else old_[j]
  }

  /** Removing is exact: afterwards the directory lists what it listed, less the entry that started at `first`. */
  lemma RemoveExact(old_: seq<Slot>, new_: seq<Slot>, first: nat, signed: bool) returns (k: nat)
    requires Sound(old_, 0, signed) && Reach(old_, 0, first) && first < |old_| && !IsVacant(old_[first])
    requires Freed(old_, new_, first, After(old_, first) - 1)
    ensures Sound(old_, first, signed)
    ensures Sound(new_, 0, signed) && k < |List(old_, 0, signed)|
    ensures List(old_, 0, signed)[k] == EntryAt(old_, first, signed)
    ensures List(new_, 0, signed) == List(old_, 0, signed)[..k] + List(old_, 0, signed)[k + 1..]
  {
    hide LongEntry, ReadName, ParseSfn, Reach, EntryAt;
    SoundAt(old_, 0, first, signed);
    assert IsLong(old_[first]) ==> LongEntry(old_, first, signed);
    hide Sound, List;
    var q := After(old_, first);
    SuffixSame(old_, new_, q, signed);
    SkipVacant(new_, first, q, signed);
    var pre := PrefixSame(old_, new_, 0, first, signed);
    k := |pre|;
    var l, e := List(old_, 0, signed), [EntryAt(old_, first, signed)];
    ListStep(old_, first, signed);
    SplitAt(l, pre, e + List(old_, q, signed));
    SplitAt(e + List(old_, q, signed), e, List(old_, q, signed));
    assert l[k + 1..] == l[k..][1..];
  }

  // ---------------------------------------------------------------- stamping a short slot

  /** The two parts of a short name read the same. */
  lemma {:induction false} UpToPadSame(a: seq<byte>, b: seq<byte>, i: nat, end: nat)
    requires i <= end <= |a| && end <= |b| && forall j :: i <= j < end ==> a[j] == b[j]
    ensures UpToPad(a, i, end) == UpToPad(b, i, end)
    decreases end - i
  {
    if i < end && a[i] != PAD { UpToPadSame(a, b, i + 1, end); }
  }

  lemma SameShortName(a: Slot, b: Slot)
    requires a[..11] == b[..11]
    ensures ParseSfn(a) == ParseSfn(b) && IsVacant(a) == IsVacant(b) && IsEnd(a) == IsEnd(b)
  {
    assert forall j :: 0 <= j < 11 ==> a[j] == a[..11][j] == b[..11][j] == b[j];
    hide UpToPad;
    UpToPadSame(a, b, 0, 8);
    UpToPadSame(a, b, 8, 11);
  }

  /** The entry at `p` with its short slot `k` rewritten behind the name bytes: the same name, the new slot. */
  lemma RestampItem(a: seq<Slot>, b: seq<Slot>, p: nat, k: nat, signed: bool)
    requires p < |a| && !IsVacant(a[p]) && (IsLong(a[p]) ==> LongEntry(a, p, signed)) && k + 1 == After(a, p)
    requires k < |a| == |b| && b == a[k := b[k]] && b[k][..11] == a[k][..11] && (IsLong(b[k]) ==> IsLong(a[k]))
    ensures !IsVacant(b[p]) && !IsEnd(b[p]) && After(b, p) == After(a, p) && (IsLong(b[p]) ==> LongEntry(b, p, signed))
    ensures EntryAt(b, p, signed) == Entry(EntryAt(a, p, signed).name, b[k])
  {
    hide ReadName, ReadFrag, Crc, ParseSfn;
    SameShortName(a[k], b[k]);
    if IsLong(a[p]) {
      ReadNameFrame(a, b, p, Announced(a[p]), signed);
      assert forall j :: p <= j < k ==> b[j] == a[j];
    }
  }

  /** Rewriting a short slot behind its name bytes changes that entry's slot in the listing, and nothing else. */
  lemma RestampExact(a: seq<Slot>, b: seq<Slot>, p: nat, k: nat, signed: bool) returns (i: nat)
    requires Sound(a, 0, signed) && Reach(a, 0, p) && p < |a| && !IsVacant(a[p]) && k + 1 == After(a, p)
    requires k < |a| == |b| && b == a[k := b[k]] && b[k][..11] == a[k][..11] && (IsLong(b[k]) ==> IsLong(a[k]))
    ensures Sound(b, 0, signed) && i < |List(a, 0, signed)|
    ensures IsLong(a[p]) ==> LongEntry(a, p, signed)
    ensures List(a, 0, signed)[i] == EntryAt(a, p, signed)
    ensures List(b, 0, signed) == List(a, 0, signed)[i := Entry(EntryAt(a, p, signed).name, b[k])]
  {
    hide LongEntry, ReadName, ParseSfn, Reach, EntryAt, Sound, List, Head;
    SoundAt(a, 0, p, signed);
    SoundItem(a, p, signed);
    var q := k + 1;
    RestampItem(a, b, p, k, signed);
    ListStep(a, p, signed);
    SuffixSame(a, b, q, signed);
    ListStep(b, p, signed);
    var pre := PrefixSame(a, b, 0, p, signed);
    i := |pre|;
    HeadInUse(a, p, signed);
    HeadInUse(b, p, signed);
    Replaced(pre, EntryAt(a, p, signed), EntryAt(b, p, signed), List(a, q, signed), List(a, 0, signed), List(b, 0, signed));
  }

  lemma SoundItem(slots: seq<Slot>, p: nat, signed: bool)
    requires Sound(slots, p, signed) && p < |slots| && !IsVacant(slots[p])
    ensures IsLong(slots[p]) ==> LongEntry(slots, p, signed)
  {
    hide LongEntry;
  }

  lemma HeadInUse(slots: seq<Slot>, p: nat, signed: bool)
    requires p < |slots| && !IsVacant(slots[p]) && (IsLong(slots[p]) ==> LongEntry(slots, p, signed))
    ensures Head(slots, p, signed) == [EntryAt(slots, p, signed)]
  {
  }

  lemma Replaced(pre: seq<Entry>, x: Entry, y: Entry, rest: seq<Entry>, l: seq<Entry>, l': seq<Entry>)
    requires l == pre + ([x] + rest) && l' == pre + ([y] + rest)
    ensures |pre| < |l| && l[|pre|] == x && l' == l[|pre| := y]
  {
  }

  lemma {:induction false} SoundAt(slots: seq<Slot>, p: nat, q: nat, signed: bool)
    requires Sound(slots, p, signed) && Reach(slots, p, q)
    ensures Sound(slots, q, signed)
    decreases q - p
  {
    if p < q { SoundAt(slots, After(slots, p), q, signed); }
  }

  // ---------------------------------------------------------------- reading an entry slot by slot

  lemma JoinAssoc(a: Frag, b: Frag, c: Frag)
    ensures Join(Join(a, b), c) == Join(a, Join(b, c))
  {
    if a.Chars? && b.Chars? && c.Chars? {
      assert (a.chars + b.chars) + c.chars == a.chars + (b.chars + c.chars);
    }
  }

  /** One slot further: its characters come before those of the slots read so far. */
  lemma {:induction false} ReadNameBack(slots: seq<Slot>, p: nat, n: nat, signed: bool)
    requires p + n < |slots|
    ensures ReadName(slots, p, n + 1, signed) == Join(ReadFrag(slots[p + n], 0, signed), ReadName(slots, p, n, signed))
    decreases n
  {
    hide ReadFrag;
    if n == 0 {
      assert ReadName(slots, p + 1, 0, signed) == Chars([]);
    } else {
      ReadNameBack(slots, p + 1, n - 1, signed);
      JoinAssoc(ReadFrag(slots[p + n], 0, signed), ReadName(slots, p + 1, n - 1, signed), ReadFrag(slots[p], 0, signed));
    }
  }

  /** In a sound long entry every slot reads, and what is read so far is never longer than 13 characters a slot. */
  lemma {:induction false} ReadNameSound(slots: seq<Slot>, p: nat, n: nat, signed: bool)
    requires p < |slots| && LongEntry(slots, p, signed) && n <= Announced(slots[p])
    ensures ReadName(slots, p, n, signed).Chars?
    ensures |ReadName(slots, p, n, signed).chars| <= 13 * n
    decreases n
  {
    hide ReadFrag, ReadName;
    if n == 0 {
      ReadNone(slots, p, signed);
    } else {
      ReadNameSound(slots, p, n - 1, signed);
      ReadNameBack(slots, p, n - 1, signed);
      assert LongSlot(slots[p + n - 1], slots[p][13], n == 1, signed);
    }
  }

  lemma ReadNone(slots: seq<Slot>, p: nat, signed: bool)
    requires p <= |slots|
    ensures ReadName(slots, p, 0, signed) == Chars([])
  {
  }
}
