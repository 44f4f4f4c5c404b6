/** Filling in directory slots inside a sector buffer. */
module SlotWriter {
  import opened Bytes
  import opened Powers
  import opened LongName
  import opened ShortName

  lemma CharAbove(k: nat)
    requires k < 13
    ensures forall i {:trigger CharAt(i)} :: 0 <= i < k ==> CharAt(i) + 1 < CharAt(k)
  {
    forall i | 0 <= i < k ensures CharAt(i) + 1 < CharAt(k) { CharsApart(i, k); }
  }

  /** The bytes of `a` outside the slot at `base` are those of `b`. */
  ghost predicate SameOutside(a: seq<byte>, b: seq<byte>, base: nat)
  {
    |a| == |b| && forall i :: 0 <= i < |a| && !(base <= i < base + 32) ==> a[i] == b[i]
  }

  /** `put_lfn_name_frag`. */
  method PutNameFrag(buf: array<byte>, base: nat, frag: seq<byte>)
    requires base + 32 <= buf.Length && |frag| <= 13
    modifies buf
    ensures SameOutside(buf[..], old(buf[..]), base)
    ensures forall i {:trigger CharAt(i)} :: 0 <= i < 13 ==>
      (buf[base + CharAt(i)], buf[base + CharAt(i) + 1]) == StoredChar(frag, i)
  {
    hide CharAt;
    var i: nat := 0;
    while i < |frag|
      invariant i <= |frag| && SameOutside(buf[..], old(buf[..]), base)
      invariant forall k {:trigger CharAt(k)} :: 0 <= k < i ==>
        (buf[base + CharAt(k)], buf[base + CharAt(k) + 1]) == StoredChar(frag, k)
    {
      CharAbove(i);
      buf[base + CharAt(i)] := frag[i];
      buf[base + CharAt(i) + 1] := 0;
      i := i + 1;
    }
    if i < 13 {
      CharAbove(i);
      buf[base + CharAt(i)] := 0;
      buf[base + CharAt(i) + 1] := 0;
      i := i + 1;
      while i < 13
        invariant |frag| < i <= 13 && SameOutside(buf[..], old(buf[..]), base)
        invariant forall k {:trigger CharAt(k)} :: 0 <= k < i ==>
          (buf[base + CharAt(k)], buf[base + CharAt(k) + 1]) == StoredChar(frag, k)
      {
        CharAbove(i);
        buf[base + CharAt(i)] := 0xff;
        buf[base + CharAt(i) + 1] := 0xff;
        i := i + 1;
      }
    }
  }

  /** One long-name slot, as the loop of `dir_add` fills it in. */
  method PutFragSlot(buf: array<byte>, base: nat, frag: seq<byte>, seqNo: byte, crc: byte)
    requires base + 32 <= buf.Length && |frag| <= 13
    modifies buf
    ensures SameOutside(buf[..], old(buf[..]), base)
    ensures IsFragSlot(buf[base..base + 32], frag, seqNo, crc)
  {
    hide CharAt;
    PutNameFrag(buf, base, frag);
    buf[base + 11] := ATTR_LFN;
    buf[base] := seqNo;
    buf[base + 13] := crc;
    buf[base + 12] := 0;
    buf[base + 26] := 0;
    buf[base + 27] := 0;
    var s := buf[base..base + 32];
    forall i {:trigger CharAt(i)} | 0 <= i < 13
      ensures (s[CharAt(i)], s[CharAt(i) + 1]) == StoredChar(frag, i)
    {
    }
  }

  function Word(v: nat): (r: seq<byte>)
    requires v < 0x1_0000
    ensures |r| == 2
  {
    [v % 0x100, v / 0x100]
  }

  /** The short slot that `dir_add` writes: name, attributes, times, first cluster, size 0. */
  function SfnSlot(name: seq<byte>, attr: byte, clust: nat, date: nat, time: nat): (s: Slot)
    requires |name| == 11 && clust < TWO_32 && date < 0x1_0000 && time < 0x1_0000
    ensures s[..11] == name && s[11] == attr
  {
    name + [attr, 0, 0] + Word(time) + Word(date) + Word(date) + Word(clust / 0x1_0000) + Word(time) + Word(date)
      + Word(clust % 0x1_0000) + [0, 0, 0, 0]
  }

  /** Where everything stands in it, byte by byte. */
  lemma SfnBytes(name: seq<byte>, attr: byte, clust: nat, date: nat, time: nat)
    requires |name| == 11 && clust < TWO_32 && date < 0x1_0000 && time < 0x1_0000
    ensures
      var s := SfnSlot(name, attr, clust, date, time);
      && s[..11] == name && s[11] == attr && s[12] == 0 && s[13] == 0
      && s[14] == s[22] == time % 256 && s[15] == s[23] == time / 256
      && s[16] == s[18] == s[24] == date % 256 && s[17] == s[19] == s[25] == date / 256
      && s[20] == clust / 65536 % 256 && s[21] == clust / 16777216
      && s[26] == clust % 256 && s[27] == clust / 256 % 256
      && s[28] == 0 && s[29] == 0 && s[30] == 0 && s[31] == 0
  {
    HighHalf(clust);
  }

  lemma HighHalf(c: nat)
    ensures c / 65536 / 256 == c / 16777216 && c % 65536 % 256 == c % 256 && c % 65536 / 256 == c / 256 % 256
  {
    LowBytes(c / 65536, c % 65536 / 256, c % 256);
    assert c == 65536 * (c / 65536) + 256 * (c % 65536 / 256) + c % 65536 % 256;
  }

  lemma LowBytes(h: nat, m: nat, l: nat)
    requires m < 256 && l < 256
    ensures
      var c := 65536 * h + 256 * m + l;
      c % 65536 == 256 * m + l && c % 256 == l && c / 256 % 256 == m
  {
    var c := 65536 * h + 256 * m + l;
    assert c / 256 == 256 * h + m;
  }

  /** `sfn_cluster`: the first cluster, from its two halves. */
  function SfnCluster(s: Slot): (c: nat) { Le16(s, 20) * 0x1_0000 + Le16(s, 26) }

  /** The cluster stored in a short slot is the cluster read back from it; the size is 0. */
  lemma SfnClusterRoundTrip(name: seq<byte>, attr: byte, clust: nat, date: nat, time: nat)
    requires |name| == 11 && clust < TWO_32 && date < 0x1_0000 && time < 0x1_0000
    ensures SfnCluster(SfnSlot(name, attr, clust, date, time)) == clust
    ensures Le32(SfnSlot(name, attr, clust, date, time), 28) == 0
  {
  }

  /** Copies a slot into a buffer. */
  method PutSlot(buf: array<byte>, base: nat, s: Slot)
    requires base + 32 <= buf.Length
    modifies buf
    ensures SameOutside(buf[..], old(buf[..]), base)
    ensures buf[base..base + 32] == s
  {
    for i := 0 to 32
      invariant SameOutside(buf[..], old(buf[..]), base)
      invariant forall k :: 0 <= k < i ==> buf[base + k] == s[k]
    {
      buf[base + i] := s[i];
    }
  }
}
