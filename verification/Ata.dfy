/** ATA sector transfers by programmed I/O: READ, WRITE and their MULTIPLE forms
    as a state machine driven by the data port. */
module Ata {
  import opened Arithmetic
  import opened AtaAddress
  import opened AtaTransfer
  import opened DataPort
  import opened Sequences

  /** What happens when the host has moved the current block to its end. */
  datatype EndTransfer = NextRead | LastRead | BlockFull | Stop

  const ABORTED := 4

  class Drive {
    const g: Geometry
    const maxMult: nat
    const writable: bool
    const buffer: array<Byte>
    var disk: seq<seq<Byte>>
    var address: Address
    var nsector: nat
    var multSectors: nat
    var reqSectors: nat
    var ioSectors: nat
    var dataIndex: nat
    var dataEnd: nat
    var onEnd: EndTransfer
    var status: set<Bit>
    var error: nat
    ghost var words: nat
    ghost var log: seq<Event>

    constructor (g: Geometry, disk: seq<seq<Byte>>, writable: bool, maxMult: nat)
      requires g.Valid() && WholeSectors(disk) && maxMult in {4, 16}
      ensures Valid() && fresh(buffer) && this.disk == disk && this.writable == writable && multSectors == maxMult
    {
      this.g, this.maxMult, this.writable, this.disk := g, maxMult, writable, disk;
      buffer := new Byte[maxMult * SECTOR + 4](_ => 0);
      address, nsector, multSectors, reqSectors, ioSectors := Address(0xa0, 0, 0, 0), 0, maxMult, 0, 0;
      dataIndex, dataEnd, onEnd, status, error := 0, 0, Stop, {Ready, Seek}, 0;
      words, log := 0, [];
    }

    ghost predicate Valid()
      reads this
    {
      && g.Valid() && WholeSectors(disk) && 1 <= maxMult <= 16 && buffer.Length == maxMult * SECTOR + 4
      && multSectors <= maxMult && reqSectors <= maxMult && nsector < 256
    }

    function Position(): int
      reads this
    {
      GetSector(g, address)
    }

    /** The sector count register, where 0 stands for 256. */
    function Count(): nat
      reads this
    {
      if nsector == 0 then 256 else nsector
    }

    /** A command refused or failed. */
    predicate Aborted()
      reads this
    {
      status == {Ready, Err} && error == ABORTED
    }

    /** A transfer that has been made to its end. */
    predicate Idle()
      reads this
    {
      status == {Ready, Seek} && onEnd == Stop && dataIndex == 0 && dataEnd == 0
    }

    /** The command fails, with an interrupt. */
    method Abort()
      modifies this`status, this`error, this`log
      ensures Aborted() && log == old(log) + [Errored]
    {
      status, error := {Ready, Err}, ABORTED;
      log := log + [Errored];
    }

    /** SET MULTIPLE: a power of two up to the buffer's size, or 0 to disable; any
        other value aborts the command. */
    method SetMultiple()
      requires Valid()
      modifies this`multSectors, this`status, this`error, this`log
      ensures Valid()
      ensures
        if nsector in {0, 1, 2, 4, 8, 16} && nsector <= maxMult then
          multSectors == nsector && status == {Ready} && error == old(error) && log == old(log) + [Finished]
        else multSectors == old(multSectors) && status == {Ready, Err} && error == 4 && log == old(log) + [Errored]
    {
      if nsector > maxMult || nsector !in {0, 1, 2, 4, 8, 16} {
        Abort();
      } else {
        multSectors := nsector;
        status := {Ready};
        log := log + [Finished];
      }
    }

    method TransferStart(sectors: nat, next: EndTransfer)
      modifies this`onEnd, this`dataIndex, this`dataEnd, this`words
      ensures onEnd == next && dataIndex == 0 && dataEnd == SECTOR * sectors && words == 256 * sectors
    {
      onEnd, dataIndex, dataEnd := next, 0, SECTOR * sectors;
      words := 256 * sectors;
    }

    method TransferStop()
      modifies this`onEnd, this`dataIndex, this`dataEnd, this`words
      ensures onEnd == Stop && dataIndex == 0 && dataEnd == 0
    {
      onEnd, dataIndex, dataEnd := Stop, 0, 0;
      words := 0;
    }

    /** The address and count registers move past the block of `ioSectors`. */
    method Advance(ghost n: nat)
      requires Valid() && 0 <= Position() && 0 < ioSectors <= n == Count()
      modifies this`address, this`nsector
      ensures Valid() && address == Past(g, old(address), Extent(old(Position()), ioSectors)) && nsector == n - ioSectors
    {
      hide GetSector, SetSector;
      address := SetSector(g, address, Position() + ioSectors);
      CountDown(nsector, n, ioSectors);
      nsector := (nsector - ioSectors) % 256;
    }

    // Reading.

    /** A READ with a block in the buffer, `words` of it still to be read. */
    ghost predicate Reading()
      reads this
    {
      && Valid() && Drq in status && 0 < reqSectors && onEnd == (if nsector == 0 then LastRead else NextRead)
      && dataEnd == dataIndex + 2 * words <= maxMult * SECTOR
    }

    /** What the blocks not yet fetched will come to. */
    ghost function ToFetch(): Outcome<seq<Byte>>
      requires Valid() && 0 < reqSectors
      reads this
    {
      ReadOf(g, disk, address, nsector, reqSectors)
    }

    /** What the READ will have come to. */
    ghost function Coming(): Outcome<seq<Byte>>
      requires Reading()
      reads this, buffer
    {
      Joined(log, buffer[dataIndex..dataEnd], ToFetch())
    }

    /** The READ is on its way to this outcome, with a word ready, or has come to it. */
    ghost predicate ReadsTo(o: Outcome<seq<Byte>>)
      reads this, buffer
    {
      if Drq in status then Reading() && 0 < words && Coming() == o
      else
        && Valid() && log == o.log && o.what == [] && address == o.address && nsector == o.left % 256
        && if o.left == 0 then Idle() else Aborted()
    }

    /** The next block is read from the disk and announced, or the READ fails. */
    method SectorRead()
      requires Valid() && 0 < reqSectors
      modifies this`address, this`nsector, this`ioSectors, this`dataIndex, this`dataEnd, this`onEnd, this`status, this`error, buffer
      modifies this`words, this`log
      ensures ReadsTo(ReadOf(g, disk, old(address), old(Count()), reqSectors).After(old(log)))
    {
      hide ReadOf, Joined, Flat, GetSector, SetSector;
      var sector, n := Position(), Count();
      ReadNext(g, disk, address, n, reqSectors, NextExtent(g, address, n, reqSectors));
      if n > reqSectors {
        n := reqSectors;
      }
      ioSectors := n;
      if sector < 0 || sector + n > |disk| {
        Abort();
      } else {
        FetchBlock(sector, n);
        ReadCallback(Count(), Flat(disk, sector, n));
      }
    }

    method FetchBlock(at: nat, n: nat)
      requires Valid() && at + n <= |disk| && n <= maxMult
      modifies buffer
      ensures buffer[..SECTOR * n] == Flat(disk, at, n)
    {
      var bytes := Flat(disk, at, n);
      forall i | 0 <= i < |bytes| {
        buffer[i] := bytes[i];
      }
    }

    /** The block is in the buffer: the registers move past it, and the host is told. */
    method ReadCallback(ghost n: nat, ghost block: seq<Byte>)
      requires Valid() && 0 < reqSectors && 0 <= Position() && 0 < ioSectors <= n == Count() && ioSectors <= maxMult
      requires buffer[..SECTOR * ioSectors] == block
      modifies this`address, this`nsector, this`dataIndex, this`dataEnd, this`onEnd, this`status, this`error
      modifies this`words, this`log
      ensures Reading() && 0 < words
      ensures
        var a := Past(g, old(address), Extent(old(Position()), ioSectors));
        Coming() == Joined([DataReady(SECTOR * ioSectors)], block, ReadOf(g, disk, a, n - ioSectors, reqSectors)).After(old(log))
    {
      hide ReadOf, Joined, GetSector, SetSector;
      Advance(n);
      TransferStart(ioSectors, if nsector == 0 then LastRead else NextRead);
      JoinedAfter(log, DataReady(dataEnd), block, ToFetch());
      log := log + [DataReady(dataEnd)];
      status, error := {Ready, Seek, Drq}, 0;
    }

    method LastReadEnd()
      modifies this`dataIndex, this`dataEnd, this`onEnd, this`status, this`error, this`words, this`log
      ensures Idle() && log == old(log) + [QuietEnd]
    {
      status, error := {Ready, Seek}, 0;
      TransferStop();
      log := log + [QuietEnd];
    }

    /** The block has been read to its end. */
    method EndOfBlock()
      requires Reading() && dataIndex == dataEnd
      modifies this`address, this`nsector, this`ioSectors, this`dataIndex, this`dataEnd, this`onEnd, this`status, this`error, buffer
      modifies this`words, this`log
      ensures ReadsTo(old(Coming()))
    {
      hide ReadOf, Joined;
      BlockRead(log, buffer[dataIndex..dataEnd], ToFetch());
      if onEnd == NextRead {
        SectorRead();
      } else {
        ReadEnds(g, disk, address, reqSectors);
        LastReadEnd();
      }
    }

    /** The data port, 16 bits at a time. */
    method DataReadWord() returns (low: Byte, high: Byte)
      requires Reading() && 0 < words
      modifies this`address, this`nsector, this`ioSectors, this`dataIndex, this`dataEnd, this`onEnd, this`status, this`error, buffer
      modifies this`words, this`log
      ensures
        var o := old(Coming());
        |o.what| >= 2 && [low, high] == o.what[..2] && ReadsTo(o.(what := o.what[2..]))
    {
      hide Joined, ToFetch;
      low, high := TakeWord();
      if dataIndex >= dataEnd {
        EndOfBlock();
      }
    }

    method TakeWord() returns (low: Byte, high: Byte)
      requires Reading() && 0 < words
      modifies this`dataIndex, this`words, this`log
      ensures Reading()
      ensures
        var o := old(Coming());
        |o.what| >= 2 && [low, high] == o.what[..2] && Coming() == o.(what := o.what[2..])
    {
      hide Joined, ReadOf;
      low, high := buffer[dataIndex], buffer[dataIndex + 1];
      WordTaken(log, buffer[dataIndex..dataEnd], ToFetch(), low, high);
      assert buffer[dataIndex..dataEnd][2..] == buffer[dataIndex + 2..dataEnd];
      dataIndex, words := dataIndex + 2, words - 1;
      log := log + [Word(low, high)];
    }

    /** READ and READ MULTIPLE; the latter is refused while no multiple is set. */
    method CommandRead(multiple: bool)
      requires Valid()
      modifies this`address, this`nsector, this`ioSectors, this`reqSectors, this`dataIndex, this`dataEnd, this`onEnd, this`status, this`error, buffer
      modifies this`words, this`log
      ensures
        if multiple && multSectors == 0 then
          Valid() && Aborted() && log == old(log) + [Errored] && address == old(address) && nsector == old(nsector)
        else
          ReadsTo(ReadOf(g, disk, old(address), old(Count()), if multiple then multSectors else 1).After(old(log)))
    {
      hide ReadOf;
      if multiple && multSectors == 0 {
        Abort();
        return;
      }
      reqSectors := if multiple then multSectors else 1;
      SectorRead();
    }

    /** A host that reads words for as long as it is told to: it gets what the
        registers lead to, block by block, each announced with its size; and the
        drive ends idle, or, if not all of it is there, with an abort. */
    method HostRead(multiple: bool) returns (got: seq<Byte>)
      requires Valid()
      modifies this`address, this`nsector, this`ioSectors, this`reqSectors, this`dataIndex, this`dataEnd, this`onEnd, this`status, this`error, buffer
      modifies this`words, this`log
      ensures Valid()
      ensures
        multiple && multSectors == 0 ==>
          got == [] && status == {Ready, Err} && error == 4 && log == old(log) + [Errored] && address == old(address) && nsector == old(nsector)
      ensures
        !multiple || multSectors > 0 ==>
          var n := if old(nsector) == 0 then 256 else old(nsector);
          var o := ReadOf(g, disk, old(address), n, if multiple then multSectors else 1);
          && got == o.what && log == old(log) + o.log && address == o.address && nsector == o.left % 256
          && if o.left == 0 then status == {Ready, Seek} && onEnd == Stop else status == {Ready, Err} && error == 4
      ensures
        !multiple || multSectors > 0 ==>
          var start, n, per := old(Position()), old(Count()), if multiple then multSectors else 1;
          Straight(Capacity(g, old(address)), |disk|, start, n, per) ==> got == Flat(disk, start, Fits(|disk|, start, n, per))
    {
      hide ReadOf, Straight, Fits;
      ghost var start, n, per := Position(), Count(), if multiple && multSectors > 0 then multSectors else 1;
      ghost var o := ReadOf(g, disk, address, n, per).After(log);
      if Straight(Capacity(g, address), |disk|, start, n, per) {
        ReadIsPlain(g, disk, address, n, per);
      }
      CommandRead(multiple);
      if multiple && multSectors == 0 {
        return [];
      }
      got := ReadWhileTold(o);
    }

    method ReadWhileTold(ghost o: Outcome<seq<Byte>>) returns (got: seq<Byte>)
      requires ReadsTo(o)
      modifies this`address, this`nsector, this`ioSectors, this`dataIndex, this`dataEnd, this`onEnd, this`status, this`error, buffer
      modifies this`words, this`log
      ensures got == o.what && Drq !in status && ReadsTo(o.(what := []))
    {
      hide Coming;
      got := [];
      ghost var ahead := o.what;
      while Drq in status
        invariant ReadsTo(o.(what := ahead)) && got + ahead == o.what
        decreases |ahead|
      {
        var low, high := DataReadWord();
        HandOver(got, ahead, low, high);
        got, ahead := got + [low, high], ahead[2..];
      }
    }

    // Writing.

    /** A WRITE with part of a block in the buffer, `words` of it still to be sent. */
    ghost predicate Writing()
      reads this
    {
      && Valid() && Drq in status && 0 < reqSectors && onEnd == BlockFull
      && dataEnd == dataIndex + 2 * words == SECTOR * ioSectors && ioSectors == Least(Count(), reqSectors)
    }

    /** What the WRITE comes to if the host sends these bytes. */
    ghost function Sending(rest: seq<Byte>): Outcome<seq<seq<Byte>>>
      requires Writing() && dataIndex + |rest| == SECTOR * Count()
      reads this, buffer
    {
      WriteSent(g, disk, writable, address, Count(), reqSectors, buffer[..dataIndex] + rest)
      .After(log + WordEvents(rest[..2 * words]))
    }

    /** With these bytes the WRITE comes to this outcome, or it has come to it. */
    ghost predicate WritesTo(o: Outcome<seq<seq<Byte>>>, rest: seq<Byte>)
      reads this, buffer
    {
      if Drq in status then Writing() && 0 < words && dataIndex + |rest| == SECTOR * Count() && Sending(rest) == o
      else
        && Valid() && log == o.log && disk == o.what && address == o.address && nsector == o.left % 256
        && if o.left == 0 then status == {Ready, Seek} && onEnd == Stop else status == {Ready, Err} && error == 4
    }

    /** The host is asked for the next block; for the first, without an interrupt. */
    method AskForBlock(first: bool, ghost data: seq<Byte>)
      requires Valid() && 0 < reqSectors && |data| == SECTOR * Count()
      modifies this`ioSectors, this`dataIndex, this`dataEnd, this`onEnd, this`words, this`status, this`log
      ensures WritesTo(WriteOf(g, disk, writable, address, Count(), reqSectors, data, first).After(old(log)), data)
      ensures Drq in status
    {
      hide WriteOf, WriteSent, WordEvents;
      WriteAsks(g, disk, writable, address, Count(), reqSectors, data, first, log);
      var n := Count();
      if n > reqSectors {
        n := reqSectors;
      }
      ioSectors := n;
      TransferStart(n, BlockFull);
      status := {Ready, Seek, Drq};
      log := log + [if first then QuietlyReady(dataEnd) else DataReady(dataEnd)];
      NothingBefore(buffer[..dataIndex], data);
    }

    /** The disk accepts the block where the registers stand. */
    predicate DiskTakes()
      reads this
    {
      writable && 0 <= Position() && Position() + ioSectors <= |disk|
    }

    /** The block in the buffer goes to the disk, the registers move past it, and
        the next is asked for, or the WRITE ends. */
    method WriteBlock(ghost rest: seq<Byte>)
      requires Writing() && words == 0 && DiskTakes() && dataIndex + |rest| == SECTOR * Count()
      modifies this`disk, this`address, this`nsector, this`ioSectors, this`dataIndex, this`dataEnd, this`onEnd, this`status
      modifies this`words, this`log
      ensures WritesTo(old(Sending(rest)), rest)
    {
      hide WriteOf, WriteSent, WordEvents, Put, GetSector, SetSector;
      ghost var e, block := Extent(Position(), ioSectors), buffer[..dataIndex];
      WriteGoesOn(g, disk, writable, address, Count(), reqSectors, e, block, rest);
      NoWords(log, rest[..0]);
      TransferStop();
      disk := Put(disk, Position(), buffer[..SECTOR * ioSectors], ioSectors);
      Advance(Count());
      if nsector == 0 {
        WriteEnds(g, disk, writable, address, reqSectors, rest, false);
        status := {Ready, Seek};
        log := log + [Finished];
      } else {
        AskForBlock(false, rest);
      }
    }

    /** The block has been sent to its end. */
    method EndOfBlockSent(ghost rest: seq<Byte>)
      requires Writing() && words == 0 && dataIndex + |rest| == SECTOR * Count()
      modifies this`disk, this`address, this`nsector, this`ioSectors, this`dataIndex, this`dataEnd, this`onEnd, this`status, this`error
      modifies this`words, this`log
      ensures WritesTo(old(Sending(rest)), rest)
    {
      hide WriteSent, WordEvents, GetSector, SetSector;
      if DiskTakes() {
        WriteBlock(rest);
      } else {
        WriteStops(g, disk, writable, address, Count(), reqSectors, buffer[..dataIndex] + rest);
        NoWords(log, rest[..0]);
        TransferStop();
        Abort();
      }
    }

    /** The data port, 16 bits at a time. */
    method DataWriteWord(low: Byte, high: Byte, ghost rest: seq<Byte>)
      requires Writing() && 0 < words && dataIndex + 2 + |rest| == SECTOR * Count()
      modifies this`disk, this`address, this`nsector, this`ioSectors, this`dataIndex, this`dataEnd, this`onEnd, this`status, this`error, buffer
      modifies this`words, this`log
      ensures WritesTo(old(Sending([low, high] + rest)), rest)
    {
      hide WriteSent, WordEvents;
      StoreWord(low, high, rest);
      if dataIndex >= dataEnd {
        EndOfBlockSent(rest);
      }
    }

    method StoreWord(low: Byte, high: Byte, ghost rest: seq<Byte>)
      requires Writing() && 0 < words && dataIndex + 2 + |rest| == SECTOR * Count()
      modifies this`dataIndex, this`words, this`log, buffer
      ensures Writing() && words == old(words) - 1 && dataIndex + |rest| == SECTOR * Count()
      ensures Sending(rest) == old(Sending([low, high] + rest))
    {
      hide WriteSent, WordEvents;
      ghost var sent := buffer[..dataIndex];
      WordSent(log, sent, rest, 2 * (words - 1), low, high);
      buffer[dataIndex] := low;
      buffer[dataIndex + 1] := high;
      dataIndex, words := dataIndex + 2, words - 1;
      log := log + [Word(low, high)];
      assert buffer[..dataIndex] == sent + [low, high];
    }

    /** WRITE and WRITE MULTIPLE; the latter is refused while no multiple is set. */
    method CommandWrite(multiple: bool, ghost data: seq<Byte>)
      requires Valid() && |data| == SECTOR * Count()
      modifies this`reqSectors, this`ioSectors, this`dataIndex, this`dataEnd, this`onEnd, this`words, this`status, this`error, this`log
      ensures
        if multiple && multSectors == 0 then Valid() && Aborted() && log == old(log) + [Errored]
        else
          && Drq in status
          && WritesTo(WriteOf(g, disk, writable, address, Count(), if multiple then multSectors else 1, data, true).After(old(log)), data)
    {
      hide WriteOf;
      if multiple && multSectors == 0 {
        Abort();
        return;
      }
      reqSectors := if multiple then multSectors else 1;
      AskForBlock(true, data);
    }

    /** A host that sends words for as long as it is told to: they go where the
        registers lead, block by block, each asked for with its size; and the drive
        ends idle, or, where it cannot write a block, with an abort. */
    method HostWrite(multiple: bool, data: seq<Byte>)
      requires Valid() && |data| == SECTOR * Count()
      modifies this`disk, this`address, this`nsector, this`ioSectors, this`reqSectors, this`dataIndex, this`dataEnd, this`onEnd, this`status, this`error, buffer
      modifies this`words, this`log
      ensures Valid()
      ensures
        multiple && multSectors == 0 ==>
          status == {Ready, Err} && error == 4 && log == old(log) + [Errored] && disk == old(disk) && address == old(address) && nsector == old(nsector)
      ensures
        !multiple || multSectors > 0 ==>
          var n := if old(nsector) == 0 then 256 else old(nsector);
          var o := WriteOf(g, old(disk), writable, old(address), n, if multiple then multSectors else 1, data, true);
          && disk == o.what && log == old(log) + o.log && address == o.address && nsector == o.left % 256
          && if o.left == 0 then status == {Ready, Seek} && onEnd == Stop else status == {Ready, Err} && error == 4
      ensures
        !multiple || multSectors > 0 ==>
          var start, n, per := old(Position()), old(Count()), if multiple then multSectors else 1;
          writable && Straight(Capacity(g, old(address)), |disk|, start, n, per) ==>
            var f := Fits(|old(disk)|, start, n, per);
            disk == Put(old(disk), start, data[..SECTOR * f], f)
    {
      hide WriteOf, Straight, Fits, Put;
      ghost var start, n, per := Position(), Count(), if multiple && multSectors > 0 then multSectors else 1;
      ghost var o := WriteOf(g, disk, writable, address, n, per, data, true).After(log);
      if writable && Straight(Capacity(g, address), |disk|, start, n, per) {
        WriteIsPlain(g, disk, writable, address, n, per, data);
      }
      CommandWrite(multiple, data);
      if multiple && multSectors == 0 {
        return;
      }
      SendWhileTold(data, o);
    }

    method SendWhileTold(data: seq<Byte>, ghost o: Outcome<seq<seq<Byte>>>)
      requires WritesTo(o, data)
      modifies this`disk, this`address, this`nsector, this`ioSectors, this`dataIndex, this`dataEnd, this`onEnd, this`status, this`error, buffer
      modifies this`words, this`log
      ensures Drq !in status && WritesTo(o, [])
    {
      hide Sending;
      var sent := 0;
      while Drq in status
        invariant sent <= |data| && WritesTo(o, data[sent..])
        decreases |data| - sent
      {
        assert data[sent..] == [data[sent], data[sent + 1]] + data[sent + 2..];
        DataWriteWord(data[sent], data[sent + 1], data[sent + 2..]);
        sent := sent + 2;
      }
    }
  }
}
