/** The client's requests over a served connection: what the sectors of the remote
    image are, and that READ, WRITE and FLUSH do to them what they say. */
module NetDiskLink {
  import opened NetDiskLayers
  import opened Sequences
  import Wrbp

  type Sector = s: seq<Wrbp.Byte> | |s| == 512 witness seq(512, _ => 0)

  // --------------------------------------------------------------------- sectors

  /** Sectors one behind the other. */
  function Bytes(sectors: seq<Sector>): (bytes: seq<Wrbp.Byte>)
    ensures |bytes| == 512 * |sectors|
  {
    if sectors == [] then [] else sectors[0] + Bytes(sectors[1..])
  }

  function Cut(bytes: seq<Wrbp.Byte>, n: nat): (sectors: seq<Sector>)
    requires |bytes| >= 512 * n
    ensures |sectors| == n
  {
    if n == 0 then [] else [bytes[..512]] + Cut(bytes[512..], n - 1)
  }

  lemma {:induction false} CutOfBytes(sectors: seq<Sector>, tail: seq<Wrbp.Byte>)
    ensures Cut(Bytes(sectors) + tail, |sectors|) == sectors
  {
    if sectors != [] {
      CutOfBytes(sectors[1..], tail);
      CutFirst(sectors[0], Bytes(sectors[1..]), tail);
    }
  }

  lemma CutFirst(first: Sector, rest: seq<Wrbp.Byte>, tail: seq<Wrbp.Byte>)
    ensures (first + rest + tail)[..512] == first && (first + rest + tail)[512..] == rest + tail
  {
  }

  lemma {:induction false} BytesOfCut(bytes: seq<Wrbp.Byte>, n: nat)
    requires |bytes| >= 512 * n
    ensures Bytes(Cut(bytes, n)) == bytes[..512 * n]
  {
    if n > 0 {
      BytesOfCut(bytes[512..], n - 1);
      TakeOn(bytes, 512, 512 * n - 512);
    }
  }

  lemma {:induction false} BytesApart(a: seq<Sector>, b: seq<Sector>)
    ensures Bytes(a + b) == Bytes(a) + Bytes(b)
  {
    if a == [] {
      assert a + b == b;
    } else {
      BytesApart(a[1..], b);
      RestOf(a, b);
      Regroup(a[0], Bytes(a[1..]), Bytes(b));
    }
  }

  /** An image cut in three: before a range of sectors, the range, and the rest. */
  lemma BytesInThree(disk: seq<Sector>, at: nat, end: nat)
    requires at <= end <= |disk|
    ensures Bytes(disk) == Bytes(disk[..at]) + Bytes(disk[at..end]) + Bytes(disk[end..])
  {
    InThree(disk, at, end);
    BytesApart(disk[..at], disk[at..end]);
    BytesApart(disk[..at] + disk[at..end], disk[end..]);
  }

  lemma InThree(disk: seq<Sector>, at: nat, end: nat)
    requires at <= end <= |disk|
    ensures disk[..at] + disk[at..end] + disk[end..] == disk
  {
  }

  /** The bytes of a range of sectors are that range of the image's bytes. */
  lemma BytesOfRange(disk: seq<Sector>, image: seq<Wrbp.Byte>, at: nat, end: nat)
    requires at <= end <= |disk| && Holds(image, disk)
    ensures image[at * 512..end * 512] == Bytes(disk[at..end])
  {
    BytesInThree(disk, at, end);
    MiddleOf(Bytes(disk[..at]), Bytes(disk[at..end]), Bytes(disk[end..]));
    WithinTaken(image, 512 * |disk|, at * 512, end * 512);
  }

  lemma WithinTaken(image: seq<Wrbp.Byte>, n: nat, lo: nat, hi: nat)
    requires lo <= hi <= n <= |image|
    ensures image[..n][lo..hi] == image[lo..hi]
  {
  }

  lemma MiddleOf(a: seq<Wrbp.Byte>, b: seq<Wrbp.Byte>, c: seq<Wrbp.Byte>)
    ensures (a + b + c)[|a|..|a| + |b|] == b && (a + b + c)[..|a|] == a && (a + b + c)[|a| + |b|..] == c
  {
  }

  /** The image starts with the disk's sectors; what does not make a sector at its
      end is not the disk's. */
  predicate Holds(image: seq<Wrbp.Byte>, disk: seq<Sector>) {
    512 * |disk| <= |image| && image[..512 * |disk|] == Bytes(disk)
  }

  /** Replacing a range of bytes replaces the sectors. */
  lemma SpliceSectors(disk: seq<Sector>, image: seq<Wrbp.Byte>, at: nat, data: seq<Sector>)
    requires Holds(image, disk) && at + |data| <= |disk|
    ensures
      var image' := Splice(image, at * 512, Bytes(data));
      Holds(image', Splice(disk, at, data)) && image'[512 * |disk|..] == image[512 * |disk|..]
  {
    var end := at + |data|;
    BytesInThree(disk, at, end);
    BytesOfSpliced(disk, at, data);
    SplicedBytes(image, Bytes(disk[..at]), Bytes(disk[at..end]), Bytes(disk[end..]), Bytes(data), Bytes(disk), Bytes(Splice(disk, at, data)),
                 at * 512, 512 * |disk|);
  }

  lemma BytesOfSpliced(disk: seq<Sector>, at: nat, data: seq<Sector>)
    requires at + |data| <= |disk|
    ensures Bytes(Splice(disk, at, data)) == Bytes(disk[..at]) + Bytes(data) + Bytes(disk[at + |data|..])
  {
    SplicedParts(disk, at, data);
    BytesInThree(Splice(disk, at, data), at, at + |data|);
  }

  lemma SplicedParts(disk: seq<Sector>, at: nat, data: seq<Sector>)
    requires at + |data| <= |disk|
    ensures Splice(disk, at, data)[..at] == disk[..at] && Splice(disk, at, data)[at..at + |data|] == data
    ensures Splice(disk, at, data)[at + |data|..] == disk[at + |data|..]
  {
  }

  lemma SplicedBytes(image: seq<Wrbp.Byte>, a: seq<Wrbp.Byte>, b: seq<Wrbp.Byte>, c: seq<Wrbp.Byte>, b': seq<Wrbp.Byte>,
                     all: seq<Wrbp.Byte>, all': seq<Wrbp.Byte>, at: nat, n: nat)
    requires |b'| == |b| && all == a + b + c && all' == a + b' + c && at == |a| && n == |all| <= |image| && image[..n] == all
    ensures at + |b'| <= |image|
    ensures var image' := Splice(image, at, b'); image'[..n] == all' && image'[n..] == image[n..]
  {
    var tail := image[n..];
    assert image == all + tail;
    FourParts(a, b, c, tail, b');
  }

  lemma FourParts(a: seq<Wrbp.Byte>, b: seq<Wrbp.Byte>, c: seq<Wrbp.Byte>, tail: seq<Wrbp.Byte>, b': seq<Wrbp.Byte>)
    requires |b'| == |b|
    ensures Splice(a + b + c + tail, |a|, b') == a + b' + c + tail
  {
    assert (a + b + c + tail)[..|a|] == a;
    assert (a + b + c + tail)[|a| + |b|..] == c + tail;
  }

  // ------------------------------------------------------------------------ link

  /** A session with nothing under way; `disk` is the sectors of its image. */
  class Link {
    const session: Wrbp.Session
    ghost var disk: seq<Sector>
    /** The WRITEs sent, in order. */
    ghost var writes: seq<Extent>

    ghost predicate Valid()
      reads this, session, session.image, session.up, session.down
    {
      && session.Valid() && session.open && session.up.bytes == [] && session.down.bytes == []
      && |disk| == session.sectors && Holds(session.image[..], disk)
    }

    constructor (session: Wrbp.Session)
      requires session.Valid() && session.open && session.up.bytes == [] && session.down.bytes == []
      ensures Valid() && this.session == session && writes == [] && disk == Cut(session.image[..], session.sectors)
    {
      this.session, writes := session, [];
      disk := Cut(session.image[..], session.sectors);
      new;
      BytesOfCut(session.image[..], session.sectors);
    }

    /** A READ of a range the server accepts brings its sectors. */
    method Read(e: Extent) returns (data: seq<Sector>)
      requires Valid() && 1 <= e.count <= session.c.maxSectors && e.End() <= |disk|
      modifies session`open, session.up, session.down, session.image
      ensures Valid() && data == disk[e.lba..e.End()] && session.image[..] == old(session.image[..])
    {
      var r := Wrbp.Request(Wrbp.READ, e.lba, e.count, [], e.count * 512, Wrbp.OK, 0);
      var w := Wrbp.World(0, true);
      ghost var image := session.image[..];
      var answer := session.Exchange(r, w);
      BytesOfRange(disk, image, e.lba, e.End());
      assert answer == Wrbp.Done(Bytes(disk[e.lba..e.End()]));
      NothingAfter(answer.data, []);
      CutOfBytes(disk[e.lba..e.End()], []);
      data := Cut(answer.data, e.count);
    }

    /** A WRITE of a range the server accepts replaces them. */
    method Write(lba: nat, data: seq<Sector>)
      requires Valid() && !session.c.readOnly && 1 <= |data| <= PROTOCOL_MAX_SECTORS && lba + |data| <= |disk|
      modifies this`disk, this`writes, session`open, session.up, session.down, session.image
      ensures Valid() && disk == Splice(old(disk), lba, data) && writes == old(writes) + [Extent(lba, |data|)]
      ensures session.image[512 * |disk|..] == old(session.image[512 * |disk|..])
    {
      var r := Wrbp.Request(Wrbp.WRITE, lba, |data|, Bytes(data), 0, Wrbp.OK, 0);
      ghost var image := session.image[..];
      var answer := session.Exchange(r, Wrbp.World(0, true));
      SpliceSectors(disk, image, lba, data);
      disk, writes := Splice(disk, lba, data), writes + [Extent(lba, |data|)];
    }

    /** A FLUSH; `flushes` is whether the server's disk can. */
    method Flush(flushes: bool) returns (ok: bool)
      requires Valid()
      modifies session`open, session.up, session.down, session.image
      ensures Valid() && session.image[..] == old(session.image[..])
      ensures ok <==> !(session.c.strictFlush && !session.c.readOnly && !flushes)
    {
      var r := Wrbp.Request(Wrbp.FLUSH, 0, 0, [], 0, Wrbp.OK, 0);
      var answer := session.Exchange(r, Wrbp.World(0, flushes));
      ok := answer.Done?;
    }
  }
}
