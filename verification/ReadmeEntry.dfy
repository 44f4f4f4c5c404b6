/** One directory entry, byte by byte: what adding README.TXT writes, in its two slots. */
module ReadmeEntry {
  import opened Bytes
  import opened Powers
  import opened LongName
  import opened ShortName
  import opened DirSlots
  import opened SlotWriter

  /** The ten characters README.TXT. */
  predicate IsReadme(name: seq<byte>)
  {
    && |name| == 10 && name[0] == 0x52 && name[1] == 0x45 && name[2] == 0x41 && name[3] == 0x44 && name[4] == 0x4d
    && name[5] == 0x45 && name[6] == 0x2e && name[7] == 0x54 && name[8] == 0x58 && name[9] == 0x54
  }

  /** Its short name is "README  TXT", with checksum 0x73. */
  lemma ReadmeShort(name: seq<byte>)
    requires IsReadme(name)
    ensures
      var s := SfnName(name);
      && s[0] == 0x52 && s[1] == 0x45 && s[2] == 0x41 && s[3] == 0x44 && s[4] == 0x4d && s[5] == 0x45 && s[6] == 0x20
      && s[7] == 0x20 && s[8] == 0x54 && s[9] == 0x58 && s[10] == 0x54 && Crc(s) == 0x73
  {
    var base, ext, s := name[..6], name[7..], SfnName(name);
    SfnExact(base, ext);
    assert name == base + [0x2e] + ext;
    SfnCharExact(0x52);
    hide SfnName, Crc, DotFrom, BaseLen, ExtStart, SfnByte;
    assert forall i :: 0 <= i < 8 ==> s[i] == Padded(base, i);
    assert forall i :: 8 <= i < 11 ==> s[i] == Padded(ext, i - 8);
    CrcOfReadme(s);
  }

  /** The long-name slot, byte by byte. */
  predicate IsReadmeLong(l: Slot)
  {
    && l[0] == 0x41 && l[1] == 0x52 && l[2] == 0 && l[3] == 0x45 && l[4] == 0 && l[5] == 0x41 && l[6] == 0 && l[7] == 0x44
    && l[8] == 0 && l[9] == 0x4d && l[10] == 0 && l[11] == 0x0f && l[12] == 0 && l[13] == 0x73 && l[14] == 0x45 && l[15] == 0
    && l[16] == 0x2e && l[17] == 0 && l[18] == 0x54 && l[19] == 0 && l[20] == 0x58 && l[21] == 0 && l[22] == 0x54 && l[23] == 0
    && l[24] == 0 && l[25] == 0 && l[26] == 0 && l[27] == 0 && l[28] == 0xff && l[29] == 0xff && l[30] == 0xff && l[31] == 0xff
  }

  /** The short slot, for first cluster 0x12345, with the archive attribute, date word 0x5a21 and time word 0x6b5c. */
  predicate IsReadmeSfn(s: Slot)
  {
    && s[0] == 0x52 && s[1] == 0x45 && s[2] == 0x41 && s[3] == 0x44 && s[4] == 0x4d && s[5] == 0x45 && s[6] == 0x20
    && s[7] == 0x20 && s[8] == 0x54 && s[9] == 0x58 && s[10] == 0x54 && s[11] == 0x20 && s[12] == 0 && s[13] == 0
    && s[14] == 0x5c && s[15] == 0x6b && s[16] == 0x21 && s[17] == 0x5a && s[18] == 0x21 && s[19] == 0x5a
    && s[20] == 0x01 && s[21] == 0 && s[22] == 0x5c && s[23] == 0x6b && s[24] == 0x21 && s[25] == 0x5a
    && s[26] == 0x45 && s[27] == 0x23 && s[28] == 0 && s[29] == 0 && s[30] == 0 && s[31] == 0
  }

  /** Adding a file of that name writes these two slots. */
  lemma ReadmeSlots(slots: seq<Slot>, at: nat, name: seq<byte>)
    requires IsReadme(name) && HoldsEntry(slots, at, name, SfnSlot(SfnName(name), 0x20, 0x12345, 0x5a21, 0x6b5c))
    ensures at + 1 < |slots| && IsReadmeLong(slots[at]) && IsReadmeSfn(slots[at + 1])
  {
    hide IsReadme, SfnName, Crc, HoldsEntry, IsFragSlot, SfnSlot, IsReadmeLong, IsReadmeSfn;
    ReadmeShort(name);
    ReadmeSfn(name);
    ReadmeHeld(slots, at, name, SfnSlot(SfnName(name), 0x20, 0x12345, 0x5a21, 0x6b5c));
    ReadmeLong(slots[at], name);
  }

  lemma ReadmeSfn(name: seq<byte>)
    requires IsReadme(name)
    ensures IsReadmeSfn(SfnSlot(SfnName(name), 0x20, 0x12345, 0x5a21, 0x6b5c))
  {
    hide SfnSlot, SfnName, Crc, IsReadme;
    ReadmeShort(name);
    SfnBytes(SfnName(name), 0x20, 0x12345, 0x5a21, 0x6b5c);
    NameThere(SfnSlot(SfnName(name), 0x20, 0x12345, 0x5a21, 0x6b5c), SfnName(name));
  }

  lemma NameThere(s: Slot, n: seq<byte>)
    requires s[..11] == n
    ensures |n| == 11 && s[0] == n[0] && s[1] == n[1] && s[2] == n[2] && s[3] == n[3] && s[4] == n[4] && s[5] == n[5]
    ensures s[6] == n[6] && s[7] == n[7] && s[8] == n[8] && s[9] == n[9] && s[10] == n[10]
  {
  }

  lemma ReadmeHeld(slots: seq<Slot>, at: nat, name: seq<byte>, sfn: Slot)
    requires IsReadme(name) && HoldsEntry(slots, at, name, sfn) && Crc(sfn[..11]) == 0x73
    ensures at + 1 < |slots| && slots[at + 1] == sfn && IsFragSlot(slots[at], name, 0x41, 0x73)
  {
    hide Crc, HoldsFrag;
    assert FragCount(10) == 1;
    assert FragOf(name, 1) == name;
    assert IsFragSlot(slots[at + 1 - 1], FragOf(name, 1), SeqNo(1, 1), 0x73);
  }

  lemma ReadmeLong(l: Slot, name: seq<byte>)
    requires IsReadme(name) && IsFragSlot(l, name, 0x41, 0x73)
    ensures IsReadmeLong(l)
  {
    Held(l, name, 0, 1);
    Held(l, name, 1, 3);
    Held(l, name, 2, 5);
    Held(l, name, 3, 7);
    Held(l, name, 4, 9);
    Held(l, name, 5, 14);
    Held(l, name, 6, 16);
    Held(l, name, 7, 18);
    Held(l, name, 8, 20);
    Held(l, name, 9, 22);
    Held(l, name, 10, 24);
    Held(l, name, 11, 28);
    Held(l, name, 12, 30);
    hide HoldsFrag, CharAt;
  }

  lemma Held(l: Slot, name: seq<byte>, i: nat, o: nat)
    requires HoldsFrag(l, name) && i < 13 && o == [1, 3, 5, 7, 9, 14, 16, 18, 20, 22, 24, 28, 30][i]
    ensures l[o] == (if i < |name| then name[i] else if i == |name| then 0 else 0xff)
    ensures l[o + 1] == if i <= |name| then 0 else 0xff
  {
    assert CharAt(i) == o;
  }
}
