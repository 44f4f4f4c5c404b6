/** Short (8.3) names: how they are made from a long name, their checksum, and how they are read back. */
module ShortName {
  import opened Bytes
  import opened LongName
  import opened Powers

  const DOT := 0x2e
  const UNDERSCORE := 0x5f

  /** The special characters a short name may hold: !#$%&'()-@^_`{}~ and the space. */
  const SPECIAL: seq<byte> :=
    [0x21, 0x23, 0x24, 0x25, 0x26, 0x27, 0x28, 0x29, 0x2d, 0x40, 0x5e, 0x5f, 0x60, 0x7b, 0x7d, 0x7e, 0x20]

  function ToUpper(c: byte): (r: byte) { if 0x61 <= c <= 0x7a then c - 0x20 else c }

  /** `sfn_char`: letters in upper case and the special characters stay, everything else becomes an underscore. */
  function SfnChar(c: byte): (r: byte)
    ensures 0x20 <= r < 0x7f
  {
    var u := ToUpper(c);
    if 0x41 <= u <= 0x5a || u in SPECIAL then u else UNDERSCORE
  }

  /** First dot at or behind `i`, or the length. */
  function DotFrom(name: seq<byte>, i: nat): (d: nat)
    requires i <= |name|
    ensures i <= d <= |name| && (d < |name| ==> name[d] == DOT) && forall k :: i <= k < d ==> name[k] != DOT
    decreases |name| - i
  {
    if i == |name| || name[i] == DOT then i else DotFrom(name, i + 1)
  }

  function BaseLen(name: seq<byte>): (n: nat)
    ensures n <= 8 && n <= |name|
  {
    var d := DotFrom(name, 0);
    if d < 8 then d else 8
  }

  /** Where the extension starts: behind the first dot that is not before the end of the base. */
  function ExtStart(name: seq<byte>): (i: nat)
    ensures i <= |name|
  {
    var d := DotFrom(name, BaseLen(name));
    if d < |name| then d + 1 else d
  }

  /** Byte `i` of the short name. */
  function SfnByte(name: seq<byte>, i: nat): (b: byte)
    requires i < 11
    ensures 0x20 <= b < 0x7f
  {
    if i < 8 then if i < BaseLen(name) then SfnChar(name[i]) else PAD
    else if ExtStart(name) + (i - 8) < |name| then SfnChar(name[ExtStart(name) + (i - 8)]) else PAD
  }

  /** The base part of `put_sfn_name`. */
  method PutBase(sfn: array<byte>, name: seq<byte>) returns (i: nat)
    requires sfn.Length == 11
    modifies sfn
    ensures i == BaseLen(name)
    ensures forall k :: 0 <= k < 8 ==> sfn[k] == SfnByte(name, k)
  {
    hide SfnChar;
    i := 0;
    while i < |name| && i < 8 && name[i] != DOT
      invariant i <= |name| && i <= 8 && i <= DotFrom(name, 0)
      invariant DotFrom(name, i) == DotFrom(name, 0)
      invariant forall k :: 0 <= k < i ==> sfn[k] == SfnChar(name[k])
    {
      sfn[i] := SfnChar(name[i]);
      i := i + 1;
    }
    assert i == BaseLen(name);
    var j := i;
    while j < 8
      invariant i <= j <= 8
      invariant forall k :: 0 <= k < j ==> sfn[k] == SfnByte(name, k)
    {
      sfn[j] := PAD;
      j := j + 1;
    }
  }

  /** The extension part of `put_sfn_name`. */
  method PutExt(sfn: array<byte>, name: seq<byte>, start: nat)
    requires sfn.Length == 11 && start == ExtStart(name)
    modifies sfn
    ensures forall k :: 0 <= k < 8 ==> sfn[k] == old(sfn[k])
    ensures forall k :: 8 <= k < 11 ==> sfn[k] == SfnByte(name, k)
  {
    hide SfnChar, ExtStart;
    var i, j: nat := start, 0;
    while j < 3 && i < |name|
      invariant j <= 3 && i == start + j && i <= |name|
      invariant forall k :: 0 <= k < 8 ==> sfn[k] == old(sfn[k])
      invariant forall k :: 8 <= k < 8 + j ==> sfn[k] == SfnByte(name, k)
    {
      sfn[8 + j] := SfnChar(name[i]);
      i, j := i + 1, j + 1;
    }
    while j < 3
      invariant j <= 3 && (j < 3 ==> start + j >= |name|)
      invariant forall k :: 0 <= k < 8 ==> sfn[k] == old(sfn[k])
      invariant forall k :: 8 <= k < 8 + j ==> sfn[k] == SfnByte(name, k)
    {
      sfn[8 + j] := PAD;
      j := j + 1;
    }
  }

  /** `put_sfn_name`: eight characters of the base and three of the extension, padded with spaces. No byte of
      it can be mistaken for a free or final slot. */
  method PutSfnName(sfn: array<byte>, name: seq<byte>)
    requires sfn.Length == 11
    modifies sfn
    ensures sfn[..] == SfnName(name)
  {
    hide SfnByte;
    var i := PutBase(sfn, name);
    while i < |name| && name[i] != DOT
      invariant BaseLen(name) <= i <= |name| && DotFrom(name, i) == DotFrom(name, BaseLen(name))
      invariant forall k :: 0 <= k < 8 ==> sfn[k] == SfnByte(name, k)
    {
      i := i + 1;
    }
    if i < |name| {
      i := i + 1;
    }
    PutExt(sfn, name, i);
  }

  function SfnName(name: seq<byte>): (r: seq<byte>)
    ensures |r| == 11 && forall i :: 0 <= i < 11 ==> r[i] == SfnByte(name, i)
  {
    seq<byte>(11, i requires 0 <= i < 11 => SfnByte(name, i))
  }

  // ---------------------------------------------------------------- checksum

  /** One round of the checksum: rotate right by one, then add. */
  function CrcStep(sum: byte, c: byte): (r: byte) { (sum % 2 * 0x80 + sum / 2 + c) % 0x100 }

  function Crc(name: seq<byte>): (r: byte)
  {
    if name == [] then 0 else CrcStep(Crc(name[..|name| - 1]), name[|name| - 1])
  }

  /** One round moves every bit one place down and bit 0 to the top, and adds the byte, dropping the carry. */
  lemma CrcRotates(sum: byte, c: byte)
    ensures CrcStep(sum, 0) % 0x80 == sum / 2 && CrcStep(sum, 0) / 0x80 == sum % 2
    ensures forall k :: 0 <= k < 7 ==> BitOf(CrcStep(sum, 0), k) == BitOf(sum, k + 1)
    ensures BitOf(CrcStep(sum, 0), 7) == BitOf(sum, 0)
    ensures CrcStep(sum, c) == (CrcStep(sum, 0) as int + c as int) % 0x100
  {
    CrcParts(sum);
    CrcAdds(sum, c);
    Pow2Seven();
    hide CrcStep, Pow2, BitOf;
    RotatedBits(sum, CrcStep(sum, 0));
  }

  lemma CrcParts(sum: byte)
    ensures CrcStep(sum, 0) % 0x80 == sum / 2 && CrcStep(sum, 0) / 0x80 == sum % 2
  {
    Halved(sum);
    Rotated(sum / 2, sum % 2);
    assert CrcStep(sum, 0) == Turned(sum / 2, sum % 2) % 0x100;
    hide CrcStep, Turned;
  }

  lemma CrcAdds(sum: byte, c: byte)
    ensures CrcStep(sum, c) == (CrcStep(sum, 0) as int + c as int) % 0x100
  {
    Halved(sum);
    Rotated(sum / 2, sum % 2);
    assert CrcStep(sum, 0) == Turned(sum / 2, sum % 2) % 0x100;
    assert CrcStep(sum, c) == (Turned(sum / 2, sum % 2) + c as int) % 0x100;
    hide CrcStep, Turned;
  }

  lemma Halved(sum: byte)
    ensures 0 <= sum / 2 < 0x80 && 0 <= sum % 2 < 2
  {
  }

  function Turned(q: nat, r: nat): (n: nat) { r * 0x80 + q }

  lemma Rotated(q: nat, r: nat)
    requires q < 0x80 && r < 2
    ensures Turned(q, r) % 0x100 == Turned(q, r) && Turned(q, r) % 0x80 == q && Turned(q, r) / 0x80 == r
  {
    if r == 0 {} else {}
  }

  /** Bit `k` of a number. */
  function BitOf(n: nat, k: nat): (r: nat) { if k == 0 then n % 2 else BitOf(n / 2, k - 1) }

  lemma Pow2Seven()
    ensures Pow2(7) == 0x80
  {
    assert Pow2(4) == 0x10;
  }

  lemma RotatedBits(sum: byte, r: byte)
    requires r % 0x80 == sum / 2 && r / 0x80 == sum % 2 && Pow2(7) == 0x80
    ensures forall k :: 0 <= k < 7 ==> BitOf(r, k) == BitOf(sum, k + 1)
    ensures BitOf(r, 7) == BitOf(sum, 0)
  {
    hide Pow2;
    assert r == sum / 2 + Product(Pow2(7), sum % 2);
    forall k | 0 <= k < 7 ensures BitOf(r, k) == BitOf(sum, k + 1) { LowBit(r, sum / 2, sum % 2, 7, k); }
    TopBit(r, sum / 2, sum % 2, 7);
  }

  /** Whatever is added from bit `j` on leaves the bits below alone. */
  lemma {:induction false} LowBit(r: nat, x: nat, t: nat, j: nat, k: nat)
    requires r == x + Product(Pow2(j), t) && k < j
    ensures BitOf(r, k) == BitOf(x, k)
    decreases k
  {
    TwiceProduct(j - 1, t);
    Halves(r, x, Product(Pow2(j - 1), t));
    hide Product, Pow2;
    if k > 0 { LowBit(r / 2, x / 2, t, j - 1, k - 1); }
  }

  lemma {:induction false} TopBit(r: nat, x: nat, t: nat, j: nat)
    requires r == x + Product(Pow2(j), t) && x < Pow2(j)
    ensures BitOf(r, j) == t % 2
    decreases j
  {
    if j == 0 {
      assert r == t;
    } else {
      TwiceProduct(j - 1, t);
      Halves(r, x, Product(Pow2(j - 1), t));
      hide Product, Pow2;
      TopBit(r / 2, x / 2, t, j - 1);
    }
  }

  lemma Halves(r: nat, x: nat, y: nat)
    requires r == x + 2 * y
    ensures r % 2 == x % 2 && r / 2 == x / 2 + y
  {
  }

  function Product(a: nat, b: nat): (n: nat) { a * b }

  lemma TwiceProduct(j: nat, t: nat)
    ensures Pow2(j + 1) == 2 * Pow2(j) && Product(Pow2(j + 1), t) == 2 * Product(Pow2(j), t)
  {
    assert 2 * Pow2(j) * t == 2 * (Pow2(j) * t);
  }

  /** The checksum of nothing is 0, and each further byte is one round more. */
  lemma CrcRounds(s: seq<byte>, c: byte)
    ensures Crc([]) == 0 && Crc(s + [c]) == CrcStep(Crc(s), c)
  {
    assert (s + [c])[..|s|] == s;
  }

  /** The short name of README.TXT has checksum 0x73. */
  lemma CrcExample()
    ensures Crc([0x52, 0x45, 0x41, 0x44, 0x4d, 0x45, 0x20, 0x20, 0x54, 0x58, 0x54]) == 0x73
  {
    CrcOfReadme([0x52, 0x45, 0x41, 0x44, 0x4d, 0x45, 0x20, 0x20, 0x54, 0x58, 0x54]);
  }

  lemma CrcOfReadme(n: seq<byte>)
    requires |n| == 11 && n[0] == 0x52 && n[1] == 0x45 && n[2] == 0x41 && n[3] == 0x44 && n[4] == 0x4d && n[5] == 0x45
    requires n[6] == 0x20 && n[7] == 0x20 && n[8] == 0x54 && n[9] == 0x58 && n[10] == 0x54
    ensures Crc(n) == 0x73
  {
    CrcRounds([], 0x52);
    CrcSteps();
    hide Crc, CrcStep;
    assert n[..0] == [] && n[..11] == n;
    CrcNext(n, 0, 0, 0x52);
    CrcNext(n, 1, 0x52, 0x6e);
    CrcNext(n, 2, 0x6e, 0x78);
    CrcNext(n, 3, 0x78, 0x80);
    CrcNext(n, 4, 0x80, 0x8d);
    CrcNext(n, 5, 0x8d, 0xb);
    CrcNext(n, 6, 0xb, 0xa5);
    CrcNext(n, 7, 0xa5, 0xf2);
    CrcNext(n, 8, 0xf2, 0xcd);
    CrcNext(n, 9, 0xcd, 0x3e);
    CrcNext(n, 10, 0x3e, 0x73);
  }

  lemma CrcSteps()
    ensures CrcStep(0x0, 0x52) == 0x52
    ensures CrcStep(0x52, 0x45) == 0x6e
    ensures CrcStep(0x6e, 0x41) == 0x78
    ensures CrcStep(0x78, 0x44) == 0x80
    ensures CrcStep(0x80, 0x4d) == 0x8d
    ensures CrcStep(0x8d, 0x45) == 0xb
    ensures CrcStep(0xb, 0x20) == 0xa5
    ensures CrcStep(0xa5, 0x20) == 0xf2
    ensures CrcStep(0xf2, 0x54) == 0xcd
    ensures CrcStep(0xcd, 0x58) == 0x3e
    ensures CrcStep(0x3e, 0x54) == 0x73
  {
  }

  lemma CrcNext(n: seq<byte>, i: nat, before: byte, after: byte)
    requires i < |n| && Crc(n[..i]) == before && after == CrcStep(before, n[i])
    ensures Crc(n[..i + 1]) == after
  {
    CrcRounds(n[..i], n[i]);
    assert n[..i + 1] == n[..i] + [n[i]];
  }

  /** `get_crc`. */
  method GetCrc(name: seq<byte>) returns (sum: byte)
    requires |name| == 11
    ensures sum == Crc(name)
  {
    sum := 0;
    for i := 0 to 11
      invariant sum == Crc(name[..i])
    {
      sum := CrcStep(sum, name[i]);
      assert name[..i + 1][..i] == name[..i];
    }
    assert name[..11] == name;
  }

  // ---------------------------------------------------------------- reading a short name

  /** The characters from `i` up to a pad or `end`. */
  function UpToPad(s: seq<byte>, i: nat, end: nat): (r: seq<byte>)
    requires i <= end <= |s|
    ensures |r| <= end - i
    decreases end - i
  {
    if i == end || s[i] == PAD then [] else [s[i]] + UpToPad(s, i + 1, end)
  }

  /** These are the bytes from `i` on, none a space, up to a space or the end. */
  lemma {:induction false} UpToPadExact(s: seq<byte>, i: nat, end: nat)
    requires i <= end <= |s|
    ensures
      var r := UpToPad(s, i, end);
      r == s[i..i + |r|] && 0x20 !in r && (i + |r| < end ==> s[i + |r|] == 0x20)
    decreases end - i
  {
    if i < end && s[i] != PAD { UpToPadExact(s, i + 1, end); }
  }

  /** `parse_sfn_name`: base, a dot when there is an extension, extension. */
  function ParseSfn(s: seq<byte>): (r: seq<byte>)
    requires |s| >= 11
    ensures |r| <= 12
  {
    UpToPad(s, 0, 8) + (if s[8] != PAD then [DOT] else []) + UpToPad(s, 8, 11)
  }

  // ---------------------------------------------------------------- what a short name keeps

  /** Which characters stay: capital letters and seventeen others. Small letters become capitals, the rest 0x5f. */
  lemma SfnCharExact(c: byte)
    ensures 0x41 <= c <= 0x5a ==> SfnChar(c) == c
    ensures 0x61 <= c <= 0x7a ==> SfnChar(c) == c - 0x20
    ensures 0x23 <= c <= 0x29 || c in {0x20, 0x21, 0x2d, 0x40, 0x5e, 0x5f, 0x60, 0x7b, 0x7d, 0x7e} ==> SfnChar(c) == c
    ensures c < 0x20 || c == 0x22 || 0x2a <= c <= 0x2c || 0x2e <= c <= 0x3f || 0x5b <= c <= 0x5d || c == 0x7c || c >= 0x7f ==>
      SfnChar(c) == 0x5f
    ensures !(0x61 <= SfnChar(c) <= 0x7a)
  {
  }

  /** Byte `i` of eight or three: the character there, or a space. */
  function Padded(part: seq<byte>, i: nat): (b: byte) { if i < |part| then SfnChar(part[i]) else 0x20 }

  /** The short name: eight characters from what stands before the first dot, three from what stands behind it. */
  lemma SfnExact(base: seq<byte>, rest: seq<byte>)
    requires 0x2e !in base
    ensures forall i :: 0 <= i < 8 ==> SfnName(base)[i] == SfnName(base + [0x2e] + rest)[i] == Padded(base, i)
    ensures forall i :: 8 <= i < 11 ==> SfnName(base)[i] == 0x20 && SfnName(base + [0x2e] + rest)[i] == Padded(rest, i - 8)
  {
    hide SfnByte, Padded;
    var name := base + [0x2e] + rest;
    var a, b := SfnName(base), SfnName(name);
    forall i | 0 <= i < 8 ensures a[i] == b[i] == Padded(base, i) {
      BaseByte(base, base, i);
      BaseByte(name, base, i);
    }
    forall i | 8 <= i < 11 ensures a[i] == 0x20 && b[i] == Padded(rest, i - 8) {
      ExtByte(base, rest, i - 8);
    }
  }

  lemma BaseByte(name: seq<byte>, base: seq<byte>, i: nat)
    requires 0x2e !in base && base <= name && (name == base || name[|base|] == 0x2e) && i < 8
    ensures SfnByte(name, i) == Padded(base, i)
  {
    hide SfnChar;
    DotAt(name, |base|);
  }

  lemma ExtByte(base: seq<byte>, rest: seq<byte>, i: nat)
    requires 0x2e !in base && i < 3
    ensures SfnByte(base, 8 + i) == 0x20 && SfnByte(base + [0x2e] + rest, 8 + i) == Padded(rest, i)
  {
    hide SfnChar;
    var name := base + [0x2e] + rest;
    DotAt(name, |base|);
    DotAt(base, |base|);
    assert i < |rest| ==> name[|base| + 1 + i] == rest[i];
  }

  lemma DotAt(name: seq<byte>, d: nat)
    requires d <= |name| && (d < |name| ==> name[d] == DOT) && forall k :: 0 <= k < d ==> name[k] != DOT
    ensures DotFrom(name, 0) == d && BaseLen(name) == (if d < 8 then d else 8)
    ensures ExtStart(name) == if d < |name| then d + 1 else d
  {
  }

  /** A character that a short name can hold and that is no space. */
  predicate Plain(c: byte) { SfnChar(c) == c && c != 0x20 }

  ghost predicate AllPlain(s: seq<byte>) { forall i :: 0 <= i < |s| ==> Plain(s[i]) }

  function Dotted(base: seq<byte>, ext: seq<byte>): (name: seq<byte>) { if ext == [] then base else base + [0x2e] + ext }

  /** A name in the 8.3 form. */
  ghost predicate Short(name: seq<byte>)
  {
    exists base, ext :: |base| <= 8 && |ext| <= 3 && AllPlain(base) && AllPlain(ext) && name == Dotted(base, ext)
  }

  /** Made into a short name and parsed again a name is the same if and only if it has the 8.3 form, in capitals. */
  lemma ShortRoundTrip(name: seq<byte>)
    ensures ParseSfn(SfnName(name)) == name <==> Short(name)
  {
    if Short(name) {
      var base, ext :| |base| <= 8 && |ext| <= 3 && AllPlain(base) && AllPlain(ext) && name == Dotted(base, ext);
      ShortParses(base, ext);
    }
    if ParseSfn(SfnName(name)) == name { ParsedShort(name); }
  }

  lemma ShortParses(base: seq<byte>, ext: seq<byte>)
    requires |base| <= 8 && |ext| <= 3 && AllPlain(base) && AllPlain(ext)
    ensures ParseSfn(SfnName(Dotted(base, ext))) == Dotted(base, ext)
  {
    NoDot(base);
    hide *;
    var s := SfnName(Dotted(base, ext));
    PartsThere(s, base, ext);
    PartParses(s, 0, 8, base);
    PartParses(s, 8, 11, ext);
    Parses(s, base, ext);
  }

  lemma PartsThere(s: seq<byte>, base: seq<byte>, ext: seq<byte>)
    requires |ext| <= 3 && 0x2e !in base && s == SfnName(Dotted(base, ext)) && AllPlain(ext)
    ensures |s| == 11 && (s[8] == 0x20 <==> ext == [])
    ensures forall k :: 0 <= k < 8 ==> s[k] == Padded(base, k - 0)
    ensures forall k :: 8 <= k < 11 ==> s[k] == Padded(ext, k - 8)
  {
    SfnExact(base, ext);
    hide SfnChar, SfnName;
    assert ext != [] ==> Plain(ext[0]);
  }

  lemma Parses(s: seq<byte>, base: seq<byte>, ext: seq<byte>)
    requires |s| == 11 && (s[8] == 0x20 <==> ext == []) && UpToPad(s, 0, 8) == base && UpToPad(s, 8, 11) == ext
    ensures ParseSfn(s) == Dotted(base, ext)
  {
    hide UpToPad;
  }

  lemma NoDot(s: seq<byte>)
    requires AllPlain(s)
    ensures 0x2e !in s
  {
    SfnCharExact(0x2e);
    hide SfnChar;
  }

  /** Between `i` and `end` stand the characters of `part`, which are plain, and spaces. */
  lemma {:induction false} PartParses(s: seq<byte>, i: nat, end: nat, part: seq<byte>)
    requires i <= end <= |s| && |part| <= end - i && AllPlain(part)
    requires forall k :: i <= k < end ==> s[k] == Padded(part, k - i)
    ensures UpToPad(s, i, end) == part
    decreases |part|
  {
    hide SfnChar;
    if part != [] {
      assert Plain(part[0]);
      assert forall k :: 0 <= k < |part| - 1 ==> part[1..][k] == part[k + 1];
      PartParses(s, i + 1, end, part[1..]);
    }
  }

  lemma ParsedShort(name: seq<byte>)
    requires ParseSfn(SfnName(name)) == name
    ensures Short(name)
  {
    var s := SfnName(name);
    var base, ext := UpToPad(s, 0, 8), UpToPad(s, 8, 11);
    forall i | 0 <= i < 11 ensures s[i] != PAD ==> Plain(s[i]) { BytePlain(name, i); }
    PartPlain(s, 0, 8);
    PartPlain(s, 8, 11);
    assert ext == [] <==> s[8] == PAD;
    assert name == Dotted(base, ext);
  }

  lemma BytePlain(name: seq<byte>, i: nat)
    requires i < 11
    ensures SfnByte(name, i) != PAD ==> Plain(SfnByte(name, i))
  {
    if i < 8 && i < BaseLen(name) { CharAgain(name[i]); }
    if i >= 8 && ExtStart(name) + (i - 8) < |name| { CharAgain(name[ExtStart(name) + (i - 8)]); }
  }

  lemma CharAgain(c: byte)
    ensures SfnChar(SfnChar(c)) == SfnChar(c)
  {
  }

  lemma {:induction false} PartPlain(s: seq<byte>, i: nat, end: nat)
    requires i <= end <= |s| && forall k :: i <= k < end ==> s[k] != PAD ==> Plain(s[k])
    ensures AllPlain(UpToPad(s, i, end))
    decreases end - i
  {
    hide Plain;
    if i < end && s[i] != PAD { PartPlain(s, i + 1, end); }
  }
}
