/** Bytes, 512-byte sectors and the little-endian words stored in them. */
module Bytes {
  import opened Powers

  type byte = x: int | 0 <= x < 256

  const SECTOR_SIZE := 512

  /** One disk sector, the unit of every transfer. */
  type Sector = s: seq<byte> | |s| == 512 witness seq(512, i => 0)

  /** A whole disk: element `i` is sector `i`. */
  type Image = seq<Sector>

  /** Unsigned 32-bit addition; subtraction is the addition of a negative number. */
  function Add32(a: nat, b: int): (r: nat)
    ensures r < TWO_32
  {
    (a + b) % TWO_32
  }

  lemma Add32Zero(a: nat)
    requires a < TWO_32
    ensures Add32(a, 0) == a
  {
  }

  lemma Add32Assoc(a: nat, b: int, c: int)
    ensures Add32(Add32(a, b), c) == Add32(a, b + c)
  {
  }

  /** The 32-bit word stored at byte offset `o`, least significant byte first. */
  function Le32(s: seq<byte>, o: nat): (v: nat)
    requires o + 4 <= |s|
    ensures v < TWO_32
  {
    s[o] as int + 0x100 * (s[o + 1] as int) + 0x1_0000 * (s[o + 2] as int) + 0x100_0000 * (s[o + 3] as int)
  }

  /** `s` with the word at byte offset `o` replaced by `v`. */
  function PutLe32(s: seq<byte>, o: nat, v: nat): (r: seq<byte>)
    requires o + 4 <= |s| && v < TWO_32
    ensures |r| == |s|
    ensures Le32(r, o) == v
    ensures forall i :: 0 <= i < |s| && !(o <= i < o + 4) ==> r[i] == s[i]
  {
    var q, r := v / 0x100, v / 0x1_0000;
    assert q / 0x100 == r;
    assert r / 0x100 == v / 0x100_0000;
    s[o := v % 0x100][o + 1 := q % 0x100][o + 2 := r % 0x100][o + 3 := v / 0x100_0000]
  }

  /** Byte `o + i` of a stored word is its bits from `8 * i` on. */
  lemma WordBytes(s: seq<byte>, o: nat, v: nat)
    requires o + 4 <= |s| && v < TWO_32
    ensures
      var r := PutLe32(s, o, v);
      r[o] == v % 0x100 && r[o + 1] == v / 0x100 % 0x100 && r[o + 2] == v / 0x1_0000 % 0x100 && r[o + 3] == v / 0x100_0000
  {
    hide Le32;
  }

  /** And so is byte `o + i` of a word read. */
  lemma ReadBytes(s: seq<byte>, o: nat)
    requires o + 4 <= |s|
    ensures
      var w := Le32(s, o);
      s[o] == w % 0x100 && s[o + 1] == w / 0x100 % 0x100 && s[o + 2] == w / 0x1_0000 % 0x100 && s[o + 3] == w / 0x100_0000
  {
    Digits(s[o], s[o + 1], s[o + 2], s[o + 3]);
  }

  lemma Digits(a: byte, b: byte, c: byte, d: byte)
    ensures
      var w := (a as int) + 0x100 * (b as int) + 0x1_0000 * (c as int) + 0x100_0000 * (d as int);
      a == w % 0x100 && b == w / 0x100 % 0x100 && c == w / 0x1_0000 % 0x100 && d == w / 0x100_0000
  {
    var w := (a as int) + 0x100 * (b as int) + 0x1_0000 * (c as int) + 0x100_0000 * (d as int);
    assert w / 0x100 == (b as int) + 0x100 * (c as int) + 0x1_0000 * (d as int);
    assert w / 0x1_0000 == (c as int) + 0x100 * (d as int);
  }

  /** The 16-bit word stored at byte offset `o`. */
  function Le16(s: seq<byte>, o: nat): (v: nat)
    requires o + 2 <= |s|
    ensures v < 0x1_0000
  {
    s[o] as int + 0x100 * (s[o + 1] as int)
  }

  /** `s` with the 16-bit word at byte offset `o` replaced by `v`. */
  function PutLe16(s: seq<byte>, o: nat, v: nat): (r: seq<byte>)
    requires o + 2 <= |s| && v < 0x1_0000
    ensures |r| == |s|
    ensures Le16(r, o) == v
    ensures forall i :: 0 <= i < |s| && !(o <= i < o + 2) ==> r[i] == s[i]
  {
    s[o := v % 0x100][o + 1 := v / 0x100]
  }

  lemma HalfBytes(s: seq<byte>, o: nat, v: nat)
    requires o + 2 <= |s| && v < 0x1_0000
    ensures PutLe16(s, o, v)[o] == v % 0x100 && PutLe16(s, o, v)[o + 1] == v / 0x100
    ensures s[o] == Le16(s, o) % 0x100 && s[o + 1] == Le16(s, o) / 0x100
  {
  }

  /** Word stores do not disturb words that do not overlap them. */
  lemma Le32Frame(s: seq<byte>, o: nat, v: nat, p: nat)
    requires o + 4 <= |s| && v < TWO_32 && p + 4 <= |s|
    requires p + 4 <= o || o + 4 <= p
    ensures Le32(PutLe32(s, o, v), p) == Le32(s, p)
  {
  }

  /** Stores a word into a buffer in place. */
  method Store32(a: array<byte>, o: nat, v: nat)
    requires o + 4 <= a.Length && v < TWO_32
    modifies a
    ensures a[..] == PutLe32(old(a[..]), o, v)
  {
    a[o] := v % 0x100;
    a[o + 1] := v / 0x100 % 0x100;
    a[o + 2] := v / 0x1_0000 % 0x100;
    a[o + 3] := v / 0x100_0000;
  }

  method Store16(a: array<byte>, o: nat, v: nat)
    requires o + 2 <= a.Length && v < 0x1_0000
    modifies a
    ensures a[..] == PutLe16(old(a[..]), o, v)
  {
    a[o] := v % 0x100;
    a[o + 1] := v / 0x100;
  }

  /** Copies a whole sector into a buffer. */
  method Fill(a: array<byte>, s: Sector)
    requires a.Length == 512
    modifies a
    ensures a[..] == s
  {
    forall i | 0 <= i < 512 { a[i] := s[i]; }
  }
}
