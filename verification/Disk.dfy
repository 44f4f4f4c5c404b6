/** The block device behind a volume. */
module Disks {
  import opened Bytes

  /** A disk that transfers whole sectors, and is only asked for sectors it has. Any transfer may fail, a failed
      write changes nothing, and a failed read leaves the caller's buffer unspecified. */
  class Disk {
    var image: Image

    /** How many transfers have failed. */
    ghost var faults: nat

    /** The image after each completed write, oldest first: what a power cut could leave behind. */
    ghost var history: seq<Image>

    constructor (contents: Image)
      ensures image == contents && history == [] && faults == 0
    {
      image := contents;
      history, faults := [], 0;
    }

    method Read(buf: array<byte>, s: nat) returns (ok: bool)
      requires buf.Length == 512 && s < |image|
      modifies `faults, buf
      ensures ok ==> buf[..] == image[s]
      ensures faults == old(faults) + if ok then 0 else 1
    {
      ok := *;
      if ok {
        Fill(buf, image[s]);
      } else {
        faults := faults + 1;
        var junk: Sector := *;
        Fill(buf, junk);
      }
    }

    method Write(buf: array<byte>, s: nat) returns (ok: bool)
      requires buf.Length == 512 && s < |image|
      modifies this
      ensures |image| == |old(image)|
      ensures ok ==> image == old(image)[s := buf[..]] && history == old(history) + [image]
      ensures !ok ==> image == old(image) && history == old(history)
      ensures faults == old(faults) + if ok then 0 else 1
    {
      ok := *;
      if ok {
        image := image[s := buf[..]];
        history := history + [image];
      } else {
        faults := faults + 1;
      }
    }
  }

  /** `h'` is `h` followed by images that are all in `allowed`. */
  ghost predicate Logged(h: seq<Image>, h': seq<Image>, allowed: set<Image>)
  {
    |h| <= |h'| && h'[..|h|] == h && forall k :: |h| <= k < |h'| ==> h'[k] in allowed
  }

  lemma LoggedRefl(h: seq<Image>, a: set<Image>)
    ensures Logged(h, h, a)
  {
  }

  /** What is logged in two steps is logged in one. */
  lemma LoggedTrans(h: seq<Image>, h': seq<Image>, h'': seq<Image>, a: set<Image>, b: set<Image>, c: set<Image>)
    requires Logged(h, h', a) && Logged(h', h'', b) && a <= c && b <= c
    ensures Logged(h, h'', c)
  {
    assert h''[..|h|] == h''[..|h'|][..|h|];
    forall k | |h| <= k < |h''| ensures h''[k] in c {
      if k < |h'| { assert h''[k] == h''[..|h'|][k]; }
    }
  }

  lemma LoggedWiden(h: seq<Image>, h': seq<Image>, a: set<Image>, b: set<Image>)
    requires Logged(h, h', a) && a <= b
    ensures Logged(h, h', b)
  {
  }
}
