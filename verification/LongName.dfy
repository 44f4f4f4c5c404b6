/** Directory slots: how a name is spread over long-name slots and a short-name slot, and read back. */
module LongName {
  import opened Bytes

  const SLOT_SIZE := 32
  const ATTR_LFN := 0x0f
  const SLOT_FREE := 0xe5
  const SLOT_LAST := 0x00
  const PAD := 0x20

  /** One 32-byte directory entry. */
  type Slot = s: seq<byte> | |s| == 32 witness seq(32, i => 0)

  predicate IsEnd(s: Slot) { s[0] == SLOT_LAST }

  /** `sfn_is_free`. */
  predicate IsVacant(s: Slot) { s[0] == SLOT_LAST || s[0] == SLOT_FREE }

  predicate IsLong(s: Slot) { s[11] == ATTR_LFN }

  // ---------------------------------------------------------------- one fragment

  /** Where the low byte of character `i` of a fragment lies in its slot. */
  function CharAt(i: nat): (o: nat)
    requires i < 13
    ensures 1 <= o < 31 && (o + 1 < 11 || 14 <= o < 25 || 28 <= o)
  {
    [1, 3, 5, 7, 9, 14, 16, 18, 20, 22, 24, 28, 30][i]
  }

  /** Characters lie apart from each other and from the seq, attr, type, crc and cluster fields. */
  lemma CharsApart(i: nat, j: nat)
    requires i < j < 13
    ensures CharAt(i) + 1 < CharAt(j)
    ensures CharAt(i) !in {0, 11, 12, 13, 26, 27} && CharAt(i) + 1 !in {0, 11, 12, 13, 26, 27}
  {
  }

  /** Character `i` of a fragment as stored: the name, a zero behind it, then 0xffff. */
  function StoredChar(frag: seq<byte>, i: nat): (c: (byte, byte))
  {
    if i < |frag| then (frag[i], 0) else if i == |frag| then (0, 0) else (0xff, 0xff)
  }

  /** `s` holds the fragment and nothing else in its character positions. */
  ghost predicate HoldsFrag(s: Slot, frag: seq<byte>)
  {
    forall i {:trigger CharAt(i)} :: 0 <= i < 13 ==> (s[CharAt(i)], s[CharAt(i) + 1]) == StoredChar(frag, i)
  }

  /** `s` is the long-name slot that `dir_add` writes for `frag`. */
  ghost predicate IsFragSlot(s: Slot, frag: seq<byte>, seqNo: byte, crc: byte)
  {
    && HoldsFrag(s, frag)
    && s[0] == seqNo && s[11] == ATTR_LFN && s[12] == 0 && s[13] == crc && s[26] == 0 && s[27] == 0
  }

  datatype Frag = Chars(chars: seq<byte>) | Broken

  /** What `parse_lfn_name` takes from character `i` on: up to a zero, refusing 0xff. A plain `char` that
      is signed never compares equal to 0xff, so the refusal exists only where `char` is unsigned. */
  function ReadFrag(s: Slot, i: nat, signedChar: bool): (r: Frag)
    requires i <= 13
    ensures r.Chars? ==> |r.chars| <= 13 - i
    decreases 13 - i
  {
    if i == 13 then Chars([]) else
      var c := s[CharAt(i)];
      if c == 0xff && !signedChar then Broken
      else if c == 0 then Chars([])
      else
        var r := ReadFrag(s, i + 1, signedChar);
        if r.Broken? then Broken else Chars([c] + r.chars)
  }

  /** The low bytes of the characters from `i` on are `cs` and then a zero, if there is room for one. */
  ghost predicate CharsFrom(s: Slot, i: nat, cs: seq<byte>, signedChar: bool)
  {
    && i + |cs| <= 13
    && (forall j: nat {:trigger CharAt(j)} :: i <= j < i + |cs| ==> cs[j - i] == s[CharAt(j)] != 0 && (cs[j - i] == 0xff ==> signedChar))
    && (i + |cs| < 13 ==> s[CharAt(i + |cs|)] == 0)
  }

  /** Among them is a 0xff with no zero before it. */
  ghost predicate BadFrom(s: Slot, i: nat)
  {
    exists k: nat {:trigger CharAt(k)} :: i <= k < 13 && s[CharAt(k)] == 0xff && NoZero(s, i, k)
  }

  ghost predicate NoZero(s: Slot, i: nat, k: nat)
    requires k <= 13
  {
    forall j: nat {:trigger CharAt(j)} :: i <= j < k ==> s[CharAt(j)] != 0
  }

  /** What is read from any slot: the characters up to the first that is zero; none when one of them is 0xff and `char` is
      unsigned. */
  lemma {:induction false} ReadFragExact(s: Slot, i: nat, signedChar: bool)
    requires i <= 13
    ensures
      match ReadFrag(s, i, signedChar)
      case Chars(cs) => CharsFrom(s, i, cs, signedChar)
      case Broken => !signedChar && BadFrom(s, i)
    decreases 13 - i
  {
    ReadNothing(s, signedChar);
    if i < 13 {
      ReadOne(s, i, signedChar);
      ReadFragExact(s, i + 1, signedChar);
      BadOn(s, i);
      hide CharAt, ReadFrag, BadFrom, CharsFrom;
      var c, r := s[CharAt(i)], ReadFrag(s, i + 1, signedChar);
      if c == 0 {
        CharsNone(s, i, signedChar);
      } else if r.Chars? && (c == 0xff ==> signedChar) {
        CharsOn(s, i, r.chars, [c] + r.chars, signedChar);
      }
    } else {
      CharsNone(s, i, signedChar);
    }
  }

  lemma CharsNone(s: Slot, i: nat, signedChar: bool)
    requires i <= 13 && (i < 13 ==> s[CharAt(i)] == 0)
    ensures CharsFrom(s, i, [], signedChar)
  {
    hide CharAt;
    var none: seq<byte> := [];
    assert i + |none| == i;
  }

  lemma CharsOn(s: Slot, i: nat, cs: seq<byte>, ds: seq<byte>, signedChar: bool)
    requires i < 13 && CharsFrom(s, i + 1, cs, signedChar) && ds == [s[CharAt(i)]] + cs
    requires s[CharAt(i)] != 0 && (s[CharAt(i)] == 0xff ==> signedChar)
    ensures CharsFrom(s, i, ds, signedChar)
  {
    hide CharAt;
    var e := i + |ds|;
    assert e == i + 1 + |cs|;
    forall j: nat | i <= j < e ensures ds[j - i] == s[CharAt(j)] != 0 && (ds[j - i] == 0xff ==> signedChar) {
      if j > i { assert ds[j - i] == cs[j - (i + 1)]; }
    }
  }

  lemma BadOn(s: Slot, i: nat)
    requires i < 13
    ensures s[CharAt(i)] == 0xff ==> BadFrom(s, i)
    ensures s[CharAt(i)] != 0 && BadFrom(s, i + 1) ==> BadFrom(s, i)
  {
    hide CharAt;
    assert NoZero(s, i, i);
    if s[CharAt(i)] != 0 && BadFrom(s, i + 1) {
      var k: nat :| i + 1 <= k < 13 && s[CharAt(k)] == 0xff && NoZero(s, i + 1, k);
      assert NoZero(s, i, k);
    }
  }

  /** The bytes a stored name can have and still be read back. */
  predicate Readable(name: seq<byte>, signedChar: bool) { ReadableFrom(name, 0, signedChar) }

  predicate ReadableFrom(name: seq<byte>, i: nat, signedChar: bool)
  {
    forall j :: i <= j < |name| ==> name[j] != 0 && (name[j] == 0xff ==> signedChar)
  }

  lemma HeldChar(s: Slot, frag: seq<byte>, i: nat)
    requires HoldsFrag(s, frag) && i < |frag| && i < 13
    ensures s[CharAt(i)] == frag[i]
  {
  }

  /** Reading a fragment back gives the fragment, exactly when its bytes are readable. */
  lemma {:induction false} FragRoundTrip(s: Slot, frag: seq<byte>, i: nat, signedChar: bool)
    requires |frag| <= 13 && HoldsFrag(s, frag) && i <= |frag|
    ensures ReadableFrom(frag, i, signedChar) <==> ReadFrag(s, i, signedChar) == Chars(frag[i..])
    ensures ReadFrag(s, i, signedChar).Chars? ==> |ReadFrag(s, i, signedChar).chars| <= |frag| - i
    decreases 13 - i
  {
    hide *;
    if i < 13 { ReadOne(s, i, signedChar); }
    if i < |frag| {
      HeldChar(s, frag, i);
      ReadableOne(frag, i, signedChar);
      FragRoundTrip(s, frag, i + 1, signedChar);
      assert frag[i..] == [frag[i]] + frag[i + 1..];
    } else {
      ReadableNone(frag, i, signedChar);
      ReadNothing(s, signedChar);
      if i < 13 { HeldEnd(s, frag); }
    }
  }

  lemma HeldEnd(s: Slot, frag: seq<byte>)
    requires HoldsFrag(s, frag) && |frag| < 13
    ensures s[CharAt(|frag|)] == 0
  {
    hide CharAt;
  }

  /** Reading one character and the rest. */
  lemma ReadOne(s: Slot, i: nat, signedChar: bool)
    requires i < 13
    ensures ReadFrag(s, i, signedChar) ==
      (var c := s[CharAt(i)];
       if c == 0xff && !signedChar then Broken
       else if c == 0 then Chars([])
       else if ReadFrag(s, i + 1, signedChar).Broken? then Broken
       else Chars([c] + ReadFrag(s, i + 1, signedChar).chars))
  {
    hide CharAt;
  }

  lemma ReadNothing(s: Slot, signedChar: bool)
    ensures ReadFrag(s, 13, signedChar) == Chars([])
  {
  }

  lemma ReadableOne(name: seq<byte>, i: nat, signedChar: bool)
    requires i < |name|
    ensures ReadableFrom(name, i, signedChar) <==>
      name[i] != 0 && (name[i] == 0xff ==> signedChar) && ReadableFrom(name, i + 1, signedChar)
  {
  }

  lemma ReadableNone(name: seq<byte>, i: nat, signedChar: bool)
    requires i >= |name|
    ensures ReadableFrom(name, i, signedChar) && (i == |name| ==> name[i..] == [])
  {
  }

  // ---------------------------------------------------------------- the whole name

  /** Long-name slots needed for a name. */
  function FragCount(len: nat): (n: nat) { (len + 12) / 13 }

  /** Characters `[13 * (i - 1), ...)` of the name, 13 at most. */
  function FragOf(name: seq<byte>, i: nat): (f: seq<byte>)
    requires 1 <= i <= FragCount(|name|)
    ensures 1 <= |f| <= 13
  {
    name[13 * (i - 1)..if 13 * i < |name| then 13 * i else |name|]
  }

  /** The sequence byte of fragment `i` of `n`: the one written first carries 0x40. */
  function SeqNo(i: nat, n: nat): (b: byte)
    requires 1 <= i <= n <= 20
    ensures b != SLOT_LAST && b != SLOT_FREE && b % 32 == i && (b / 64 == 1 <==> i == n) && b / 32 % 2 == 0 && b / 128 == 0
  {
    if i == n then 0x40 + i else i
  }

  /** Slots `p, p + 1, ...` hold fragments `n, n - 1, ..., 1` of the name, as `dir_add` lays them out. */
  ghost predicate HoldsName(slots: seq<Slot>, p: nat, name: seq<byte>, crc: byte)
  {
    var n := FragCount(|name|);
    && n <= 20 && p + n <= |slots|
    && forall i :: 1 <= i <= n ==> IsFragSlot(slots[p + n - i], FragOf(name, i), SeqNo(i, n), crc)
  }

  /** Where each character of the name is: character `k` in slot `n - 1 - k / 13`, at its place there, with a zero behind it; and
      slot `j` says that it is fragment `n - j`. */
  lemma CharPlace(slots: seq<Slot>, p: nat, name: seq<byte>, crc: byte, k: nat)
    requires HoldsName(slots, p, name, crc) && k < |name|
    ensures
      var n := FragCount(|name|);
      var s := slots[p + n - 1 - k / 13];
      && 13 * (n - 1) < |name| <= 13 * n && s[0] % 32 == k / 13 + 1 && (s[0] / 64 == 1 <==> k / 13 == n - 1)
      && s[CharAt(k % 13)] == name[k] && s[CharAt(k % 13) + 1] == 0
  {
    hide CharAt;
    var n, i := FragCount(|name|), k / 13 + 1;
    assert IsFragSlot(slots[p + n - i], FragOf(name, i), SeqNo(i, n), crc);
    assert FragOf(name, i)[k % 13] == name[k];
  }

  /** What `parse_lfn_name` assembles from `n` slots starting at `p`: the last slot comes first. */
  function ReadName(slots: seq<Slot>, p: nat, n: nat, signedChar: bool): (r: Frag)
    requires p + n <= |slots|
    decreases n
  {
    if n == 0 then Chars([]) else
      Join(ReadName(slots, p + 1, n - 1, signedChar), ReadFrag(slots[p], 0, signedChar))
  }

  function Join(a: Frag, b: Frag): (r: Frag)
  {
    if a.Broken? || b.Broken? then Broken else Chars(a.chars + b.chars)
  }

  /** Two parts that are never too long join to the whole exactly when each part is right. */
  lemma JoinExact(a: Frag, b: Frag, x: seq<byte>, y: seq<byte>)
    requires (a.Chars? ==> |a.chars| <= |x|) && (b.Chars? ==> |b.chars| <= |y|)
    ensures Join(a, b) == Chars(x + y) <==> a == Chars(x) && b == Chars(y)
    ensures Join(a, b).Chars? ==> |Join(a, b).chars| <= |x + y|
  {
    if Join(a, b) == Chars(x + y) {
      assert |a.chars| == |x|;
      assert a.chars == (x + y)[..|x|] && b.chars == (x + y)[|x|..];
    }
  }

  /** The first `k` fragments, read back, are the first characters of the name. */
  lemma {:induction false} ReadPrefix(slots: seq<Slot>, p: nat, name: seq<byte>, crc: byte, k: nat, signedChar: bool)
    requires HoldsName(slots, p, name, crc) && k <= FragCount(|name|)
    ensures
      var n, len := FragCount(|name|), if 13 * k < |name| then 13 * k else |name|;
      var r := ReadName(slots, p + n - k, k, signedChar);
      && (Readable(name[..len], signedChar) <==> r == Chars(name[..len]))
      && (r.Chars? ==> |r.chars| <= len)
  {
    hide HoldsFrag, ReadFrag, ReadableFrom, Join;
    var n := FragCount(|name|);
    if k > 0 {
      var len0, len := 13 * (k - 1), if 13 * k < |name| then 13 * k else |name|;
      var f := FragOf(name, k);
      ReadPrefix(slots, p, name, crc, k - 1, signedChar);
      assert IsFragSlot(slots[p + n - k], f, SeqNo(k, n), crc);
      FragRoundTrip(slots[p + n - k], f, 0, signedChar);
      assert f[0..] == f;
      SplitReadable(name, len0, len, signedChar);
      assert name[..len] == name[..len0] + f;
      JoinExact(ReadName(slots, p + n - k + 1, k - 1, signedChar), ReadFrag(slots[p + n - k], 0, signedChar), name[..len0], f);
    } else {
      EmptyReadable(name, signedChar);
    }
  }

  lemma EmptyReadable(name: seq<byte>, signedChar: bool)
    ensures name[..0] == [] && Readable(name[..0], signedChar)
  {
  }

  lemma SplitReadable(name: seq<byte>, a: nat, b: nat, signedChar: bool)
    requires a <= b <= |name|
    ensures Readable(name[..b], signedChar) <==> Readable(name[..a], signedChar) && Readable(name[a..b], signedChar)
  {
    assert forall i :: 0 <= i < a ==> name[..b][i] == name[..a][i];
    assert forall i :: a <= i < b ==> name[..b][i] == name[a..b][i - a];
  }

  /** Round trip: reading the slots of a name back gives the name, exactly when it has no zero byte and,
      where `char` is unsigned, no 0xff byte. */
  lemma NameRoundTrip(slots: seq<Slot>, p: nat, name: seq<byte>, crc: byte, signedChar: bool)
    requires HoldsName(slots, p, name, crc)
    ensures Readable(name, signedChar) <==> ReadName(slots, p, FragCount(|name|), signedChar) == Chars(name)
  {
    var n := FragCount(|name|);
    ReadPrefix(slots, p, name, crc, n, signedChar);
    assert name[..|name|] == name;
  }
}
