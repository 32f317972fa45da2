/** ATAPI data transfers by programmed I/O: the drive announces a byte count,
    the host reads words, and the end-of-burst callback goes on. */
module Atapi {
  import opened DataPort
  import opened Sequences

  const CD_SECTOR := 2048

  // --------------------------------------------------- what the host should see

  /** The size announced next, when `left` bytes of the packet remain. */
  function Chunk(left: nat, limit: nat): nat {
    var most := if limit == 0xffff then 0xfffe else limit;
    if left <= most then left else most - most % 2
  }

  lemma ChunkFits(left: nat, limit: nat)
    requires left > 0 && left % 2 == 0 && limit >= 2
    ensures var k := Chunk(left, limit); 2 <= k <= left && k <= limit && k != 0xffff && k % 2 == 0
  {
  }

  /** It is the largest there can be: all that is left if the limit allows it, else
      the largest even number within the limit, 0xffff not counting. */
  lemma ChunkIsLargest(left: nat, limit: nat, k: nat)
    requires limit <= 0xffff && k <= limit && k != 0xffff && (k == left || (k < left && k % 2 == 0))
    ensures k <= Chunk(left, limit)
    ensures var c := Chunk(left, limit); c <= limit && c != 0xffff && (c == left || (c < left && c % 2 == 0))
  {
  }

  /** A whole transfer: blocks of an announcement and exactly that many bytes. */
  function Blocks(data: seq<Byte>, limit: nat): seq<Event>
    requires limit >= 2 && |data| % 2 == 0
    decreases |data|
  {
    if data == [] then [Finished]
    else
      var k := Chunk(|data|, limit);
      [DataReady(k)] + WordEvents(data[..k]) + Blocks(data[k..], k)
  }

  /** A transfer hands over the data, in order and once. */
  lemma {:induction false} BlocksCarryData(data: seq<Byte>, limit: nat)
    requires limit >= 2 && |data| % 2 == 0
    ensures BytesOf(Blocks(data, limit)) == data
    decreases |data|
  {
    if data != [] {
      var k := Chunk(|data|, limit);
      BytesOfBlock(DataReady(k), data[..k], Blocks(data[k..], k));
      BlocksCarryData(data[k..], k);
      assert data[..k] + data[k..] == data;
    }
  }

  predicate AllWords(events: seq<Event>) {
    forall i :: 0 <= i < |events| ==> events[i].Word?
  }

  lemma {:induction false} WordsOnly(bytes: seq<Byte>)
    ensures |WordEvents(bytes)| == |bytes| / 2 && AllWords(WordEvents(bytes))
  {
    if |bytes| >= 2 {
      WordsOnly(bytes[2..]);
    }
  }

  /** Event `i` announces `k` bytes, and that many come before the next interrupt. */
  predicate Announces(events: seq<Event>, i: nat, k: nat) {
    && i + 1 + k / 2 < |events| && AllWords(events[i + 1..i + 1 + k / 2]) && !events[i + 1 + k / 2].Word?
  }

  lemma AnnouncesLater(first: seq<Event>, rest: seq<Event>, j: nat, k: nat)
    requires Announces(rest, j, k)
    ensures Announces(first + rest, |first| + j, k)
  {
    var all, i := first + rest, |first| + j;
    assert all[i + 1..i + 1 + k / 2] == rest[j + 1..j + 1 + k / 2];
  }

  lemma EventAt(first: Event, words: seq<Event>, rest: seq<Event>, i: nat)
    requires 0 < i < 1 + |words| + |rest|
    ensures ([first] + words + rest)[i] == if i <= |words| then words[i - 1] else rest[i - 1 - |words|]
  {
  }

  lemma NotAmongWords(first: Event, words: seq<Event>, rest: seq<Event>, i: nat)
    requires AllWords(words) && 0 < i < 1 + |words| + |rest|
    requires ([first] + words + rest)[i].DataReady?
    ensures i > |words| && ([first] + words + rest)[i] == rest[i - 1 - |words|]
  {
    EventAt(first, words, rest, i);
  }

  /** Every announced count is even, at least 2 and within the host's limit, and
      is the number of bytes up to the next interrupt. */
  lemma {:induction false} CountsHold(data: seq<Byte>, limit: nat, i: nat)
    requires limit >= 2 && |data| % 2 == 0
    requires i < |Blocks(data, limit)| && Blocks(data, limit)[i].DataReady?
    ensures
      var k := Blocks(data, limit)[i].count;
      2 <= k <= limit && k != 0xffff && k % 2 == 0 && Announces(Blocks(data, limit), i, k)
    decreases |data|
  {
    if data != [] {
      ChunkFits(|data|, limit);
      var k := Chunk(|data|, limit);
      var words, rest := WordEvents(data[..k]), Blocks(data[k..], k);
      WordsOnly(data[..k]);
      var first := [DataReady(k)] + words;
      if i == 0 {
        assert (first + rest)[1..1 + k / 2] == words && (first + rest)[1 + k / 2] == rest[0];
      } else {
        NotAmongWords(DataReady(k), words, rest, i);
        var j := i - |first|;
        CountsHold(data[k..], k, j);
        AnnouncesLater(first, rest, j, rest[j].count);
      }
    }
  }

  // ---------------------------------------------------------------- what is left

  /** The events to come: `data` is what can still be read of the `total` bytes
      promised, `e` what is left of the current announcement. */
  function Pending(data: seq<Byte>, e: nat, total: nat, limit: nat): seq<Event>
    requires limit >= 2 && e <= total && e % 2 == 0 && total % 2 == 0
    decreases total, if e == 0 then 1 else 0
  {
    if e > 0 then
      if |data| < 2 then [Errored] else [Word(data[0], data[1])] + Pending(data[2..], e - 2, total - 2, limit)
    else if total == 0 then [Finished]
    else if data == [] then [Errored]
    else [DataReady(Chunk(total, limit))] + Pending(data, Chunk(total, limit), total, Chunk(total, limit))
  }

  lemma {:induction false} PendingBlock(data: seq<Byte>, e: nat, limit: nat)
    requires limit >= 2 && e <= |data| && e % 2 == 0 && |data| % 2 == 0
    ensures Pending(data, e, |data|, limit) == WordEvents(data[..e]) + Pending(data[e..], 0, |data| - e, limit)
    decreases e
  {
    if e == 0 {
      assert data[e..] == data && WordEvents(data[..e]) == [];
    } else {
      PendingBlock(data[2..], e - 2, limit);
      assert data[2..][e - 2..] == data[e..];
      assert data[..e][2..] == data[2..][..e - 2];
    }
  }

  lemma PendingAnnounces(data: seq<Byte>, total: nat, limit: nat, k: nat)
    requires limit >= 2 && total > 0 && total % 2 == 0 && data != [] && k == Chunk(total, limit) && 2 <= k <= total && k % 2 == 0
    ensures Pending(data, 0, total, limit) == [DataReady(k)] + Pending(data, k, total, k)
  {
  }

  /** With every sector there, what is to come is the whole transfer. */
  lemma {:induction false} PendingIsBlocks(data: seq<Byte>, limit: nat)
    requires limit >= 2 && |data| % 2 == 0
    ensures Pending(data, 0, |data|, limit) == Blocks(data, limit)
    decreases |data|
  {
    if data != [] {
      ChunkFits(|data|, limit);
      var k := Chunk(|data|, limit);
      PendingAnnounces(data, |data|, limit, k);
      PendingBlock(data, k, k);
      var words, rest := WordEvents(data[..k]), data[k..];
      PendingIsBlocks(rest, k);
      assert [DataReady(k)] + (words + Blocks(rest, k)) == [DataReady(k)] + words + Blocks(rest, k);
    }
  }

  /** Whatever is missing, the host reads exactly what can be read, and the
      transfer ends with an error if and only if something is missing. */
  lemma {:induction false} PendingCarriesData(data: seq<Byte>, e: nat, total: nat, limit: nat)
    requires limit >= 2 && e <= total && |data| <= total && e % 2 == 0 && total % 2 == 0 && |data| % 2 == 0
    ensures BytesOf(Pending(data, e, total, limit)) == data
    ensures var p := Pending(data, e, total, limit); p[|p| - 1] == if |data| == total then Finished else Errored
    decreases total, if e == 0 then 1 else 0
  {
    var p := Pending(data, e, total, limit);
    if e > 0 && data != [] {
      Evens(e, 2);
      Evens(total, 2);
      Evens(|data|, 2);
      PendingCarriesData(data[2..], e - 2, total - 2, limit);
      BytesApart([p[0]], p[1..]);
      assert [p[0]] + p[1..] == p && data == [data[0], data[1]] + data[2..];
    } else if e == 0 && data != [] {
      var k := Chunk(total, limit);
      PendingCarriesData(data, k, total, k);
      BytesApart([p[0]], p[1..]);
      assert [p[0]] + p[1..] == p;
    }
  }

  // ---------------------------------------------------------------------- drive

  /** What happens when the host has read the current burst to its end. */
  datatype EndTransfer = ReplyEnd | Stop

  const REASON_CD := 1
  const REASON_IO := 2
  const SENSE_ILLEGAL_REQUEST := 5
  const ASC_OUT_OF_RANGE := 0x21

  /** `n` sectors from `lba`, or as many as the disc has. */
  function Flat(disc: seq<seq<Byte>>, lba: nat, n: nat): seq<Byte>
    decreases n
  {
    if n == 0 || lba >= |disc| then [] else disc[lba] + Flat(disc, lba + 1, n - 1)
  }

  predicate Sectors(disc: seq<seq<Byte>>) {
    forall i :: 0 <= i < |disc| ==> |disc[i]| == CD_SECTOR
  }

  lemma {:induction false} FlatSize(disc: seq<seq<Byte>>, lba: nat, n: nat)
    requires Sectors(disc)
    ensures |Flat(disc, lba, n)| % 2 == 0 && |Flat(disc, lba, n)| <= CD_SECTOR * n
    ensures |Flat(disc, lba, n)| == CD_SECTOR * n <==> n == 0 || lba + n <= |disc|
    decreases n
  {
    if n > 0 && lba < |disc| {
      FlatSize(disc, lba + 1, n - 1);
    }
  }

  /** Sector `i` of them, if the disc has it, is bytes 2048 i to 2048 i + 2047. */
  lemma {:induction false} FlatAt(disc: seq<seq<Byte>>, lba: nat, n: nat, i: nat)
    requires Sectors(disc) && i < n && lba + i < |disc|
    ensures |Flat(disc, lba, n)| >= 2048 * i + 2048 && Flat(disc, lba, n)[2048 * i..2048 * i + 2048] == disc[lba + i]
    decreases i
  {
    var rest := Flat(disc, lba + 1, n - 1);
    if i == 0 {
      assert (disc[lba] + rest)[..2048] == disc[lba];
    } else {
      FlatAt(disc, lba + 1, n - 1, i - 1);
      assert (disc[lba] + rest)[2048 * i..2048 * i + 2048] == rest[2048 * (i - 1)..2048 * (i - 1) + 2048];
    }
  }

  /** The events of a transfer of whole sectors. */
  function Transfer(disc: seq<seq<Byte>>, lba: nat, n: nat, limit: nat): seq<Event>
    requires Sectors(disc) && limit >= 2
  {
    FlatSize(disc, lba, n);
    Blocks(Flat(disc, lba, n), limit)
  }

  class Drive {
    const disc: seq<seq<Byte>>
    const buffer: array<Byte>
    var lba: nat
    var packetSize: nat
    var elementarySize: nat
    var bufferIndex: nat
    var dataIndex: nat
    var dataEnd: nat
    var onEnd: EndTransfer
    var status: set<Bit>
    var error: nat
    var sense: nat
    var asc: nat
    var nsector: nat
    var lcyl: nat
    var hcyl: nat
    ghost var toLoad: nat
    ghost var log: seq<Event>

    constructor (disc: seq<seq<Byte>>, bufferSize: nat)
      requires Sectors(disc) && bufferSize >= CD_SECTOR
      ensures this.disc == disc && fresh(buffer) && Valid() && onEnd == Stop
    {
      this.disc := disc;
      buffer := new Byte[bufferSize](_ => 0);
      lba, packetSize, elementarySize, bufferIndex, dataIndex, dataEnd := 0, 0, 0, 0, 0, 0;
      onEnd, status, error, sense, asc, nsector, lcyl, hcyl := Stop, {Ready, Seek}, 0, 0, 0, 1, 0x14, 0xeb;
      toLoad, log := 0, [];
    }

    ghost predicate Valid()
      reads this, buffer
    {
      Sectors(disc) && buffer.Length >= CD_SECTOR && lcyl < 256 && hcyl < 256
    }

    function Limit(): nat
      reads this
    {
      lcyl + 256 * hcyl
    }

    /** A transfer under way, its current burst read up to `dataIndex`. */
    ghost predicate Reading()
      reads this, buffer
    {
      && Valid() && onEnd == ReplyEnd && Limit() >= 2
      && dataIndex <= dataEnd == bufferIndex <= CD_SECTOR
      && dataIndex % 2 == 0 && dataEnd % 2 == 0 && elementarySize % 2 == 0
      && elementarySize <= packetSize && packetSize % 2 == 0 && packetSize == CD_SECTOR - bufferIndex + CD_SECTOR * toLoad
    }

    /** The bytes the host can still read. */
    ghost function Ahead(): seq<Byte>
      requires Reading()
      reads this, buffer
    {
      buffer[dataIndex..CD_SECTOR] + Flat(disc, lba, toLoad)
    }

    /** The events still to come. */
    ghost function Expected(): seq<Event>
      requires Reading()
      reads this, buffer
    {
      Evens(dataEnd, dataIndex);
      Evens(elementarySize, dataEnd - dataIndex);
      Evens(packetSize, dataEnd - dataIndex);
      Pending(Ahead(), dataEnd - dataIndex + elementarySize, packetSize + (dataEnd - dataIndex), Limit())
    }

    /** The transfer is over, with nothing left to read. */
    predicate Over()
      reads this
    {
      onEnd == Stop && Drq !in status && dataIndex == dataEnd
    }

    /** The host is told to read, and there is a word to read. */
    ghost predicate HostReads()
      reads this, buffer
    {
      Reading() && dataIndex < dataEnd && Drq in status && Err !in status && nsector % 8 == REASON_IO
    }

    /** The next word is ready, or the transfer is over; either way, what has
        happened and what is to come are the given events. */
    ghost predicate Settled(all: seq<Event>)
      reads this, buffer
    {
      if onEnd == ReplyEnd then
        HostReads() && log + Expected() == all
      else Valid() && Over() && nsector % 8 == REASON_IO + REASON_CD && log == all
    }

    method TransferStart(offset: nat, size: nat)
      modifies this`onEnd, this`dataIndex, this`dataEnd, this`status
      ensures onEnd == ReplyEnd && dataIndex == offset && dataEnd == offset + size
      ensures status == if Err in old(status) then old(status) else old(status) + {Drq}
    {
      onEnd, dataIndex, dataEnd := ReplyEnd, offset, offset + size;
      if Err !in status {
        status := status + {Drq};
      }
    }

    method TransferStop()
      modifies this`onEnd, this`dataIndex, this`dataEnd, this`status
      ensures onEnd == Stop && dataIndex == 0 && dataEnd == 0 && status == old(status) - {Drq}
    {
      onEnd, dataIndex, dataEnd := Stop, 0, 0;
      status := status - {Drq};
    }

    /** Between bursts: what is left starts at `bufferIndex`. */
    ghost predicate AtBoundary()
      reads this, buffer
    {
      && Valid() && bufferIndex <= CD_SECTOR && bufferIndex % 2 == 0
      && elementarySize % 2 == 0 && packetSize % 2 == 0 && elementarySize <= packetSize
      && packetSize == CD_SECTOR - bufferIndex + CD_SECTOR * toLoad
    }

    ghost function Rest(): seq<Byte>
      requires AtBoundary()
      reads this, buffer
    {
      buffer[bufferIndex..CD_SECTOR] + Flat(disc, lba, toLoad)
    }

    ghost function ExpectedNext(): seq<Event>
      requires AtBoundary() && Limit() >= 2
      reads this, buffer
    {
      Pending(Rest(), elementarySize, packetSize, Limit())
    }

    /** The next sector replaces the buffer's first 2048 bytes, if it exists. */
    method ReadSector() returns (ok: bool)
      requires AtBoundary() && bufferIndex == CD_SECTOR && packetSize > 0
      modifies this`lba, this`bufferIndex, this`toLoad, buffer
      ensures ok <==> old(lba) < |disc|
      ensures ok ==> AtBoundary() && bufferIndex == 0 && Rest() == old(Rest())
      ensures !ok ==> unchanged(this) && unchanged(buffer) && Rest() == []
    {
      if lba >= |disc| {
        return false;
      }
      var sector := disc[lba];
      forall i | 0 <= i < CD_SECTOR {
        buffer[i] := sector[i];
      }
      assert buffer[..CD_SECTOR] == sector;
      lba, bufferIndex, toLoad := lba + 1, 0, toLoad - 1;
      ok := true;
    }

    /** A burst of what is left of this announcement, up to the end of the sector. */
    method StartBurst()
      requires AtBoundary() && bufferIndex < CD_SECTOR && Err !in status
      requires elementarySize > 0 ==> Limit() >= 2 && nsector % 8 == REASON_IO
      modifies this
      ensures
        old(elementarySize) > 0 ==>
          Settled(old(log + ExpectedNext())) && onEnd == ReplyEnd && Ahead() == old(Rest())
      ensures old(elementarySize) == 0 ==> Stuck() && log == old(log)
    {
      hide Pending;
      var size := CD_SECTOR - bufferIndex;
      if size > elementarySize {
        size := elementarySize;
      }
      Evens(CD_SECTOR, bufferIndex);
      Evens(packetSize, size);
      Evens(elementarySize, size);
      Evens(bufferIndex, size);
      TransferStart(bufferIndex, size);
      packetSize, elementarySize, bufferIndex := packetSize - size, elementarySize - size, bufferIndex + size;
    }

    /** The size to announce goes into the cylinder registers. */
    method ChooseSize() returns (size: nat)
      requires Valid()
      modifies this`lcyl, this`hcyl, this`nsector
      ensures Valid() && size == Chunk(packetSize, old(lcyl + 256 * hcyl)) && lcyl + 256 * hcyl == size
      ensures nsector % 8 == 2 && lcyl == size % 256 && hcyl == size / 256
    {
      hide Sectors;
      nsector := nsector - nsector % 8 + REASON_IO;
      var limit := lcyl + 256 * hcyl;
      if limit == 0xffff {
        limit := limit - 1;
      }
      size := packetSize;
      if size > limit {
        if limit % 2 == 1 {
          limit := limit - 1;
        }
        size := limit;
      }
      lcyl, hcyl := size % 256, size / 256 % 256;
    }

    /** The byte count is announced, and its first burst made ready. */
    method Announce()
      requires AtBoundary() && bufferIndex < CD_SECTOR && elementarySize == 0 && packetSize > 0
      requires Err !in status
      modifies this
      ensures old(Limit()) >= 2 ==> Settled(old(log + ExpectedNext())) && onEnd == ReplyEnd && Ahead() == old(Rest())
      ensures old(Limit()) < 2 ==> Stuck() && log == old(log) + [DataReady(0)]
    {
      ghost var before, rest, total, limit := log, Rest(), packetSize, Limit();
      elementarySize := ChooseSize();
      log := log + [DataReady(Limit())];
      if limit >= 2 {
        ChunkFits(total, limit);
        PendingAnnounces(rest, total, limit, elementarySize);
        assert log + ExpectedNext() == before + Pending(rest, 0, total, limit);
      }
      StartBurst();
    }

    /** The transfer has just ended, well or not. */
    ghost predicate Ended(before: seq<Event>)
      reads this
    {
      || (log == before + [Finished] && status == {Ready, Seek})
      || (log == before + [Errored] && status == {Ready, Err})
    }

    /** A burst of no bytes: the host is told to read, and never can. */
    predicate Stuck()
      reads this
    {
      onEnd == ReplyEnd && dataIndex == dataEnd && Drq in status
    }

    method Finish()
      requires Valid()
      modifies this
      ensures Settled(old(log) + [Finished]) && onEnd == Stop && status == {Ready, Seek}
    {
      TransferStop();
      status := {Ready, Seek};
      nsector := nsector - nsector % 8 + REASON_IO + REASON_CD;
      log := log + [Finished];
    }

    method ReadError()
      requires Valid()
      modifies this
      ensures Settled(old(log) + [Errored]) && onEnd == Stop && status == {Ready, Err}
      ensures error == 0x50 && sense == 5 && asc == 0x21 && nsector % 8 == 3
    {
      TransferStop();
      error, status := SENSE_ILLEGAL_REQUEST * 16, {Ready, Err};
      nsector := nsector - nsector % 8 + REASON_IO + REASON_CD;
      sense, asc := SENSE_ILLEGAL_REQUEST, ASC_OUT_OF_RANGE;
      log := log + [Errored];
    }

    /** The callback at the end of a burst, where the whole transfer is decided. */
    method CommandReplyEnd()
      requires AtBoundary() && Err !in status
      requires elementarySize > 0 ==> nsector % 8 == REASON_IO && Limit() >= 2
      modifies this, buffer
      ensures old(Limit()) >= 2 ==> Settled(old(log + ExpectedNext()))
      ensures old(Limit()) < 2 ==> (Stuck() <==> old(packetSize) > 0 && (old(bufferIndex) == CD_SECTOR ==> old(lba) < |disc|))
      ensures old(Limit()) >= 2 && onEnd == ReplyEnd ==> Ahead() == old(Rest())
      ensures onEnd == Stop ==> old(Rest()) == [] && Ended(old(log))
    {
      if packetSize == 0 {
        Finish();
        return;
      }
      if bufferIndex >= CD_SECTOR {
        var ok := ReadSector();
        if !ok {
          ReadError();
          return;
        }
      }
      if elementarySize > 0 {
        StartBurst();
      } else {
        Announce();
      }
    }

    /** READ: `count` sectors from `start`, the host's limit in the cylinder
        registers. */
    method CommandRead(start: nat, count: nat)
      requires Valid() && count > 0
      modifies this, buffer
      ensures
        old(lcyl + 256 * hcyl) >= 2 ==>
          Settled(old(log) + Pending(Flat(disc, start, count), 0, count * CD_SECTOR, old(lcyl + 256 * hcyl)))
      ensures old(lcyl + 256 * hcyl) < 2 ==> (Stuck() <==> start < |disc|)
      ensures old(lcyl + 256 * hcyl) >= 2 && onEnd == ReplyEnd ==> Ahead() == Flat(disc, start, count)
      ensures onEnd == Stop ==> Flat(disc, start, count) == [] && Ended(old(log))
    {
      hide Flat;
      lba, packetSize, elementarySize, bufferIndex := start, count * CD_SECTOR, 0, CD_SECTOR;
      toLoad := count;
      status := {Ready, Seek};
      assert Rest() == Flat(disc, start, count);
      CommandReplyEnd();
    }

    /** The data port, 16 bits at a time. */
    method DataReadWord() returns (low: Byte, high: Byte)
      requires HostReads() || Stuck()
      modifies this, buffer
      ensures old(Stuck()) ==> (low, high) == (0, 0) && unchanged(this) && unchanged(buffer)
      ensures
        old(HostReads()) ==>
          && |old(Ahead())| >= 2 && [low, high] == old(Ahead())[..2]
          && Settled(old(log + Expected()))
          && (onEnd == ReplyEnd ==> Ahead() == old(Ahead())[2..])
          && (onEnd == Stop ==> old(Ahead())[2..] == [] && Ended(old(log) + [Word(low, high)]))
    {
      hide Flat;
      if dataIndex + 2 > dataEnd {
        return 0, 0;
      }
      ghost var ahead := Ahead();
      low, high := buffer[dataIndex], buffer[dataIndex + 1];
      assert ahead[0] == low && ahead[1] == high;
      assert ahead[2..] == buffer[dataIndex + 2..CD_SECTOR] + Flat(disc, lba, toLoad);
      assert [low, high] == ahead[..2];
      dataIndex := dataIndex + 2;
      log := log + [Word(low, high)];
      if dataIndex >= dataEnd {
        assert Rest() == ahead[2..];
        CommandReplyEnd();
      }
    }

    /** A host reading words for as long as it is told to. It gets exactly the
        sectors asked for, in order, in blocks of the announced sizes; or, if the
        disc ends before, the sectors there are and an error. */
    method HostRead(start: nat, count: nat) returns (got: seq<Byte>)
      requires Valid() && count > 0 && lcyl + 256 * hcyl >= 2
      modifies this, buffer
      ensures old(log) < log && got == Flat(disc, start, count) == BytesOf(log[|old(log)|..])
      ensures Over()
      ensures
        start + count <= |disc| ==>
          log == old(log) + Transfer(disc, start, count, old(lcyl + 256 * hcyl)) && status == {Ready, Seek}
      ensures start + count > |disc| ==> log[|log| - 1] == Errored && status == {Ready, Err}
    {
      ghost var data, before, limit := Flat(disc, start, count), log, Limit();
      ghost var all := log + Pending(data, 0, count * CD_SECTOR, limit);
      CommandRead(start, count);
      got := ReadWhileTold(all, data);
      FlatSize(disc, start, count);
      PendingCarriesData(data, 0, count * CD_SECTOR, limit);
      assert log[|before|..] == Pending(data, 0, count * CD_SECTOR, limit);
      if start + count <= |disc| {
        PendingIsBlocks(data, limit);
      }
    }

    method ReadWhileTold(ghost all: seq<Event>, ghost data: seq<Byte>) returns (got: seq<Byte>)
      requires Settled(all)
      requires if onEnd == ReplyEnd then Ahead() == data else data == [] && log != [] && Ended(log[..|log| - 1])
      modifies this, buffer
      ensures got == data && Valid() && Over() && log == all && log != [] && Ended(log[..|log| - 1])
    {
      hide Pending;
      got := [];
      while Drq in status
        invariant Settled(all)
        invariant onEnd == ReplyEnd ==> got + Ahead() == data
        invariant onEnd == Stop ==> got == data && log != [] && Ended(log[..|log| - 1])
        decreases |data| - |got|
      {
        ghost var before, ahead := got, Ahead();
        var low, high := DataReadWord();
        HandOver(before, ahead, low, high);
        got := got + [low, high];
      }
    }
  }

  lemma Evens(a: nat, b: nat)
    requires a % 2 == 0
    ensures b % 2 == 0 ==> (a - b) % 2 == 0 && (a + b) % 2 == 0
  {
  }
}
