/** The WRBP block protocol: the client's request composed with the server's
    handler, over two byte streams and a disk image. */
module Wrbp {
  import opened Arithmetic
  import opened Sequences

  type Byte = b: int | 0 <= b < 256
  type U16 = x: nat | x < 0x1_0000
  type U32 = x: nat | x < 0x1_0000_0000
  type U64 = x: nat | x < 0x1_0000_0000_0000_0000

  const SECTOR := 512
  const PROTOCOL_MAX_SECTORS := 1024
  const PROTOCOL_MAX_PAYLOAD := PROTOCOL_MAX_SECTORS * SECTOR
  const IO_CHUNK := 64 * 1024

  // ------------------------------------------------------------------- headers

  function Pow256(n: nat): (p: nat)
    ensures p > 0
  {
    if n == 0 then 1 else 256 * Pow256(n - 1)
  }

  /** The `n` low bytes of `v`, least significant first. */
  function Little(v: nat, n: nat): (bs: seq<Byte>)
    ensures |bs| == n
  {
    if n == 0 then [] else [v % 256] + Little(v / 256, n - 1)
  }

  function Value(bs: seq<Byte>): nat {
    if bs == [] then 0 else bs[0] + 256 * Value(bs[1..])
  }

  lemma {:induction false} ValueOfLittle(v: nat, n: nat)
    requires v < Pow256(n)
    ensures Value(Little(v, n)) == v
  {
    if n > 0 {
      assert v / 256 < Pow256(n - 1);
      ValueOfLittle(v / 256, n - 1);
      assert Little(v, n)[1..] == Little(v / 256, n - 1);
    }
  }

  lemma LowByte(b: Byte, v: nat)
    ensures (b + 256 * v) % 256 == b && (b + 256 * v) / 256 == v
  {
  }

  lemma {:induction false} LittleOfValue(bs: seq<Byte>)
    ensures Value(bs) < Pow256(|bs|) && Little(Value(bs), |bs|) == bs
  {
    if bs != [] {
      LittleOfValue(bs[1..]);
      LowByte(bs[0], Value(bs[1..]));
      assert bs == [bs[0]] + bs[1..];
    }
  }

  datatype Header = Header(magic: seq<Byte>, version: U16, op: U16, lba: U64, count: U32, bytes: U32, status: U32, flags: U32)

  const HEADER_SIZE := 32
  const MAGIC: seq<Byte> := [0x57, 0x52, 0x42, 0x50]
  const VERSION: U16 := 1

  const HELLO: U16 := 1
  const READ: U16 := 2
  const WRITE: U16 := 3
  const FLUSH: U16 := 4
  const PING: U16 := 5
  const TIME: U16 := 8

  const OK: U32 := 0
  const BAD_VERSION: U32 := 2
  const RANGE: U32 := 3
  const WRITE_FAILED: U32 := 4
  const BAD_OP: U32 := 5

  function Pack(h: Header): (bs: seq<Byte>)
    requires |h.magic| == 4
    ensures |bs| == HEADER_SIZE
  {
    h.magic + Little(h.version, 2) + Little(h.op, 2) + Little(h.lba, 8)
    + Little(h.count, 4) + Little(h.bytes, 4) + Little(h.status, 4) + Little(h.flags, 4)
  }

  lemma Widths()
    ensures Pow256(2) == 0x1_0000 && Pow256(4) == 0x1_0000_0000 && Pow256(8) == 0x1_0000_0000_0000_0000
  {
  }

  function Field(bs: seq<Byte>, at: nat, n: nat): (v: nat)
    requires at + n <= |bs|
    ensures v < Pow256(n)
  {
    LittleOfValue(bs[at..at + n]);
    Value(bs[at..at + n])
  }

  function Unpack(bs: seq<Byte>): (h: Header)
    requires |bs| == HEADER_SIZE
    ensures |h.magic| == 4
  {
    Widths();
    Header(bs[..4], Field(bs, 4, 2), Field(bs, 6, 2), Field(bs, 8, 8),
           Field(bs, 16, 4), Field(bs, 20, 4), Field(bs, 24, 4), Field(bs, 28, 4))
  }

  /** A field of a message, between what is before it and what is after. */
  lemma FieldOf(before: seq<Byte>, v: nat, n: nat, after: seq<Byte>)
    requires v < Pow256(n)
    ensures Field(before + Little(v, n) + after, |before|, n) == v
  {
    ValueOfLittle(v, n);
    assert (before + Little(v, n) + after)[|before|..|before| + n] == Little(v, n);
  }

  lemma FieldAt(bs: seq<Byte>, before: seq<Byte>, v: nat, n: nat, after: seq<Byte>)
    requires v < Pow256(n) && bs == before + Little(v, n) + after
    ensures Field(bs, |before|, n) == v
  {
    FieldOf(before, v, n, after);
  }

  /** The header after its version and operation. */
  function Tail(h: Header): (bs: seq<Byte>)
    ensures |bs| == 24
  {
    Little(h.lba, 8) + Little(h.count, 4) + Little(h.bytes, 4) + Little(h.status, 4) + Little(h.flags, 4)
  }

  lemma PackIsTail(h: Header)
    requires |h.magic| == 4
    ensures Pack(h) == h.magic + Little(h.version, 2) + Little(h.op, 2) + Tail(h)
  {
  }

  lemma FrontFields(h: Header)
    requires |h.magic| == 4
    ensures Pack(h)[..4] == h.magic && Field(Pack(h), 4, 2) == h.version && Field(Pack(h), 6, 2) == h.op
    ensures Pack(h)[8..] == Tail(h)
  {
    Widths();
    PackIsTail(h);
    var bs, version, op := Pack(h), Little(h.version, 2), Little(h.op, 2);
    assert bs == h.magic + version + (op + Tail(h));
    FieldAt(bs, h.magic, h.version, 2, op + Tail(h));
    FieldAt(bs, h.magic + version, h.op, 2, Tail(h));
  }

  lemma SizeFields(h: Header)
    ensures Field(Tail(h), 0, 8) == h.lba && Field(Tail(h), 8, 4) == h.count && Field(Tail(h), 12, 4) == h.bytes
  {
    Widths();
    var bs, lba, count, bytes, rest := Tail(h), Little(h.lba, 8), Little(h.count, 4), Little(h.bytes, 4), Little(h.status, 4) + Little(h.flags, 4);
    assert bs == [] + lba + (count + bytes + rest);
    FieldAt(bs, [], h.lba, 8, count + bytes + rest);
    assert bs == lba + count + (bytes + rest);
    FieldAt(bs, lba, h.count, 4, bytes + rest);
    assert bs == lba + count + bytes + rest;
    FieldAt(bs, lba + count, h.bytes, 4, rest);
  }

  lemma LastFields(h: Header)
    ensures Field(Tail(h), 16, 4) == h.status && Field(Tail(h), 20, 4) == h.flags
  {
    Widths();
    var bs, sizes, status, flags := Tail(h), Little(h.lba, 8) + Little(h.count, 4) + Little(h.bytes, 4), Little(h.status, 4), Little(h.flags, 4);
    assert bs == sizes + status + flags;
    FieldAt(bs, sizes, h.status, 4, flags);
    assert bs == sizes + status + flags + [];
    FieldAt(bs, sizes + status, h.flags, 4, []);
  }

  lemma FieldOfTail(bs: seq<Byte>, k: nat, at: nat, n: nat)
    requires k + at + n <= |bs|
    ensures Field(bs[k..], at, n) == Field(bs, k + at, n)
  {
    assert bs[k..][at..at + n] == bs[k + at..k + at + n];
  }

  lemma UnpackPacked(h: Header)
    requires |h.magic| == 4
    ensures Unpack(Pack(h)) == h
  {
    var bs := Pack(h);
    FrontFields(h);
    SizeFields(h);
    LastFields(h);
    FieldOfTail(bs, 8, 0, 8);
    FieldOfTail(bs, 8, 8, 4);
    FieldOfTail(bs, 8, 12, 4);
    FieldOfTail(bs, 8, 16, 4);
    FieldOfTail(bs, 8, 20, 4);
  }

  lemma PackUnpacked(bs: seq<Byte>)
    requires |bs| == HEADER_SIZE
    ensures Pack(Unpack(bs)) == bs
  {
    LittleOfValue(bs[4..6]);
    LittleOfValue(bs[6..8]);
    LittleOfValue(bs[8..16]);
    LittleOfValue(bs[16..20]);
    LittleOfValue(bs[20..24]);
    LittleOfValue(bs[24..28]);
    LittleOfValue(bs[28..32]);
    assert bs == bs[..4] + bs[4..6] + bs[6..8] + bs[8..16] + bs[16..20] + bs[20..24] + bs[24..28] + bs[28..32];
  }

  // -------------------------------------------------------------------- streams

  /** One direction of a reliable connection: bytes in flight, oldest first. */
  class Pipe {
    var bytes: seq<Byte>

    constructor ()
      ensures bytes == []
    {
      bytes := [];
    }

    /** Sending hands over everything, whatever the transport takes at a time. */
    method SendAll(data: seq<Byte>)
      modifies this
      ensures bytes == old(bytes) + data
    {
      var done := 0;
      while done < |data|
        invariant done <= |data| && bytes == old(bytes) + data[..done]
      {
        var chunk := if |data| - done > IO_CHUNK then IO_CHUNK else |data| - done;
        var n :| 1 <= n <= chunk;
        bytes := bytes + data[done..done + n];
        done := done + n;
      }
    }

    /** Receiving takes exactly `len` bytes, or whatever is left if the peer goes
        away first. */
    method RecvAll(len: nat) returns (ok: bool, data: seq<Byte>)
      modifies this
      ensures ok <==> len <= |old(bytes)|
      ensures ok ==> data == old(bytes)[..len] && bytes == old(bytes)[len..]
      ensures !ok ==> bytes == []
    {
      data := [];
      while |data| < len
        invariant |data| <= len && |data| <= |old(bytes)|
        invariant data == old(bytes)[..|data|] && bytes == old(bytes)[|data|..]
        decreases len - |data|
      {
        if bytes == [] {
          return false, data;
        }
        var todo := if len - |data| > IO_CHUNK then IO_CHUNK else len - |data|;
        var most := if todo < |bytes| then todo else |bytes|;
        var n :| 1 <= n <= most;
        data, bytes := data + bytes[..n], bytes[n..];
      }
      ok := true;
    }
  }

  // ----------------------------------------------------------------- on the wire

  lemma {:induction false} LittleDigit(v: nat, n: nat, i: nat)
    requires i < n
    ensures Little(v, n)[i] == v / Pow256(i) % 256
  {
    if i > 0 {
      LittleDigit(v / 256, n - 1, i - 1);
      DivideTwice(v, Pow256(i - 1));
    }
  }

  lemma DivideTwice(v: nat, b: nat)
    requires b > 0
    ensures v / (256 * b) == v / 256 / b
  {
    var u := v / 256;
    OverRest(u, b);
    IsDivision(u, b);
    var q, r := Over(u, b), Rest(u, b);
    QuotientIs(v, 256 * b, q, 256 * r + v % 256, b, u, r);
  }

  lemma QuotientIs(v: nat, k: nat, q: nat, rest: nat, b: nat, u: nat, r: nat)
    requires b > 0 && k == 256 * b && u == v / 256 && u == Times(q, b) + r && r < b && rest == 256 * r + v % 256
    ensures v / k == q
  {
    IsProduct(q, b);
    IsProduct(q, k);
    assert q * k == 256 * (q * b);
    OverIs(v, q, k, rest);
    IsDivision(v, k);
  }

  lemma Powers()
    ensures Pow256(0) == 1 && Pow256(1) == 0x100 && Pow256(2) == 0x1_0000 && Pow256(3) == 0x100_0000 && Pow256(4) == 0x1_0000_0000
    ensures Pow256(5) == 0x100_0000_0000 && Pow256(6) == 0x1_0000_0000_0000 && Pow256(7) == 0x100_0000_0000_0000
  {
  }

  lemma TwoBytes(v: U16)
    ensures Little(v, 2) == [v % 256, v / 0x100 % 256]
  {
    hide Little, Pow256;
    Powers();
    LittleDigit(v, 2, 0);
    LittleDigit(v, 2, 1);
  }

  lemma FourBytes(v: U32)
    ensures Little(v, 4) == [v % 256, v / 0x100 % 256, v / 0x1_0000 % 256, v / 0x100_0000 % 256]
  {
    hide Little, Pow256;
    Powers();
    LittleDigit(v, 4, 0);
    LittleDigit(v, 4, 1);
    LittleDigit(v, 4, 2);
    LittleDigit(v, 4, 3);
  }

  lemma EightBytes(v: U64)
    ensures
      Little(v, 8) ==
      [v % 256, v / 0x100 % 256, v / 0x1_0000 % 256, v / 0x100_0000 % 256,
       v / 0x1_0000_0000 % 256, v / 0x100_0000_0000 % 256, v / 0x1_0000_0000_0000 % 256, v / 0x100_0000_0000_0000 % 256]
  {
    hide Little, Pow256;
    Powers();
    LittleDigit(v, 8, 0);
    LittleDigit(v, 8, 1);
    LittleDigit(v, 8, 2);
    LittleDigit(v, 8, 3);
    LittleDigit(v, 8, 4);
    LittleDigit(v, 8, 5);
    LittleDigit(v, 8, 6);
    LittleDigit(v, 8, 7);
  }

  /** The 32 bytes of a message: the letters WRBP, version 1, and every number with
      its lowest byte first. */
  lemma HeaderOnTheWire(op: U16, lba: U64, count: U32, bytes: U32, status: U32, flags: U32)
    ensures
      Pack(Header(MAGIC, VERSION, op, lba, count, bytes, status, flags)) ==
      [0x57, 0x52, 0x42, 0x50, 1, 0, op % 256, op / 0x100 % 256,
       lba % 256, lba / 0x100 % 256, lba / 0x1_0000 % 256, lba / 0x100_0000 % 256,
       lba / 0x1_0000_0000 % 256, lba / 0x100_0000_0000 % 256, lba / 0x1_0000_0000_0000 % 256, lba / 0x100_0000_0000_0000 % 256,
       count % 256, count / 0x100 % 256, count / 0x1_0000 % 256, count / 0x100_0000 % 256,
       bytes % 256, bytes / 0x100 % 256, bytes / 0x1_0000 % 256, bytes / 0x100_0000 % 256,
       status % 256, status / 0x100 % 256, status / 0x1_0000 % 256, status / 0x100_0000 % 256,
       flags % 256, flags / 0x100 % 256, flags / 0x1_0000 % 256, flags / 0x100_0000 % 256]
  {
    TwoBytes(VERSION);
    TwoBytes(op);
    EightBytes(lba);
    FourBytes(count);
    FourBytes(bytes);
    FourBytes(status);
    FourBytes(flags);
    hide Little;
  }

  // --------------------------------------------------------------------- server

  /** The server's settings: it advertises 1 to 1024 sectors a request. */
  datatype Config = Config(readOnly: bool, strictFlush: bool, maxSectors: nat) {
    predicate Valid() {
      1 <= maxSectors <= 1024
    }

    function MaxBytes(): nat {
      maxSectors * SECTOR
    }
  }

  function Reply(op: U16, lba: U64, count: U32, bytes: U32, status: U32, flags: U32): seq<Byte> {
    Pack(Header(MAGIC, VERSION, op, lba, count, bytes, status, flags))
  }

  /** What handling one request leaves: the image, the unread input, the bytes
      sent back, and whether the server goes on to the next request. */
  datatype Served = Served(image: seq<Byte>, rest: seq<Byte>, sent: seq<Byte>, open: bool)

  /** The sector range test, on 64 bits, and the size test, on 32. */
  predicate RangeFails(sectors: U64, lba: U64, count: U32) {
    var end := (lba + count) % 0x1_0000_0000_0000_0000;
    end < lba || end > sectors
  }

  function Need(count: U32): U32 {
    count * SECTOR % 0x1_0000_0000
  }

  lemma RangeIsExact(sectors: U64, lba: U64, count: U32)
    ensures RangeFails(sectors, lba, count) <==> lba + count > sectors
  {
  }

  predicate WriteRejected(c: Config, sectors: U64, h: Header) {
    c.readOnly || h.count == 0 || h.count > PROTOCOL_MAX_SECTORS || h.bytes != Need(h.count)
    || RangeFails(sectors, h.lba, h.count)
  }

  predicate ReadRejected(c: Config, sectors: U64, h: Header) {
    h.count == 0 || h.count > c.maxSectors || RangeFails(sectors, h.lba, h.count)
  }

  /** What the surroundings answer while a request is handled: the clock in
      seconds, and whether flushing the image works. */
  datatype World = World(now: int, flushes: bool) {
    predicate Valid() {
      now < 0x1_0000_0000_0000_0000
    }
  }

  /** The largest multiple of the chunk size in `have`. */
  function WholeChunks(have: nat, scratch: nat): (n: nat)
    requires scratch > 0
    ensures n <= have < n + scratch
  {
    if have < scratch then 0 else scratch + WholeChunks(have - scratch, scratch)
  }

  /** The part of a WRITE's payload that reaches the image: all of it, or the
      whole chunks received before the peer went away. */
  function Landed(payload: seq<Byte>, need: nat, scratch: nat): (r: seq<Byte>)
    requires scratch > 0
    ensures |r| <= need
  {
    if need <= |payload| then payload[..need] else payload[..WholeChunks(|payload|, scratch)]
  }

  /** An accepted range is inside the image. */
  lemma RangeInImage(size: nat, lba: U64, count: U32)
    requires size / SECTOR < 0x1_0000_0000_0000_0000
    requires count <= 1024 && !RangeFails(size / SECTOR, lba, count)
    ensures Need(count) == count * SECTOR && lba * SECTOR + Need(count) <= size
  {
    RangeIsExact(size / SECTOR, lba, count);
  }

  function ServeWrite(c: Config, image: seq<Byte>, h: Header, rest: seq<Byte>): Served
    requires c.Valid() && |image| / SECTOR < 0x1_0000_0000_0000_0000
  {
    if WriteRejected(c, |image| / SECTOR, h) then
      if h.bytes > PROTOCOL_MAX_PAYLOAD then Served(image, rest, [], false)
      else if h.bytes > |rest| then Served(image, [], [], false)
      else Served(image, rest[h.bytes..], Reply(WRITE, 0, 0, 0, WRITE_FAILED, 0), true)
    else
      RangeInImage(|image|, h.lba, h.count);
      var need := Need(h.count);
      var after := Splice(image, h.lba * SECTOR, Landed(rest, need, c.MaxBytes()));
      if need > |rest| then Served(after, [], Reply(WRITE, 0, 0, 0, WRITE_FAILED, 0), false)
      else Served(after, rest[need..], Reply(WRITE, h.lba, h.count, 0, OK, 0), true)
  }

  function ServeRead(c: Config, image: seq<Byte>, h: Header, rest: seq<Byte>): Served
    requires c.Valid() && |image| / SECTOR < 0x1_0000_0000_0000_0000
  {
    if ReadRejected(c, |image| / SECTOR, h) then Served(image, rest, Reply(READ, 0, 0, 0, RANGE, 0), true)
    else
      RangeInImage(|image|, h.lba, h.count);
      var need := Need(h.count);
      Served(image, rest, Reply(READ, h.lba, h.count, need, OK, 0) + image[h.lba * SECTOR..h.lba * SECTOR + need], true)
  }

  /** PING, and operations the server does not know: the payload is read into
      the transfer buffer if it fits. */
  function ServeOther(c: Config, image: seq<Byte>, h: Header, rest: seq<Byte>): Served {
    if h.bytes > c.MaxBytes() then Served(image, rest, [], false)
    else if h.bytes > |rest| then Served(image, [], [], false)
    else Served(image, rest[h.bytes..], Reply(h.op, 0, 0, 0, if h.op == PING then OK else BAD_OP, 0), true)
  }

  /** Handling one request. */
  function Serve(c: Config, image: seq<Byte>, input: seq<Byte>, w: World): Served
    requires c.Valid() && w.Valid() && |image| / SECTOR < 0x1_0000_0000_0000_0000
  {
    if |input| < HEADER_SIZE then Served(image, [], [], false)
    else
      var h, rest := Unpack(input[..HEADER_SIZE]), input[HEADER_SIZE..];
      if h.magic != MAGIC then Served(image, rest, [], false)
      else if h.version != VERSION then Served(image, rest, Reply(h.op, 0, 0, 0, BAD_VERSION, 0), true)
      else if h.op == TIME then
        if w.now < 0 then Served(image, rest, Reply(TIME, 0, 0, 0, BAD_OP, 0), true)
        else Served(image, rest, Reply(TIME, w.now, 0, 0, OK, 0), false)
      else if h.op == HELLO then
        Served(image, rest, Reply(HELLO, |image| / SECTOR, SECTOR, c.maxSectors, OK, if c.readOnly then 0 else 1), true)
      else if h.op == READ then ServeRead(c, image, h, rest)
      else if h.op == WRITE then ServeWrite(c, image, h, rest)
      else if h.op == FLUSH then
        Served(image, rest, Reply(FLUSH, 0, 0, 0, if c.strictFlush && !c.readOnly && !w.flushes then WRITE_FAILED else OK, 0), true)
      else ServeOther(c, image, h, rest)
  }

  /** READ (operation 2), told by the sectors it names: those sectors of the image, or
      status 3. */
  lemma ReadServed(c: Config, image: seq<Byte>, h: Header, rest: seq<Byte>)
    requires c.Valid() && |image| / 512 < 0x1_0000_0000_0000_0000
    ensures
      ServeRead(c, image, h, rest) ==
      if 1 <= h.count <= c.maxSectors && h.lba + h.count <= |image| / 512 then
        Served(image, rest, Reply(2, h.lba, h.count, 512 * h.count, 0, 0) + image[512 * h.lba..512 * (h.lba + h.count)], true)
      else Served(image, rest, Reply(2, 0, 0, 0, 3, 0), true)
  {
    hide Reply;
    RangeIsExact(|image| / SECTOR, h.lba, h.count);
  }

  /** WRITE (3), with its payload there: those sectors of the image are replaced; or
      status 4 after a payload of at most 512 KiB, and the end of the connection
      after a larger one. */
  lemma WriteServed(c: Config, image: seq<Byte>, h: Header, rest: seq<Byte>)
    requires c.Valid() && |image| / 512 < 0x1_0000_0000_0000_0000 && h.bytes <= |rest|
    ensures
      ServeWrite(c, image, h, rest) ==
      if !c.readOnly && 1 <= h.count <= 1024 && h.bytes == 512 * h.count && h.lba + h.count <= |image| / 512 then
        Served(image[..512 * h.lba] + rest[..h.bytes] + image[512 * h.lba + h.bytes..], rest[h.bytes..], Reply(3, h.lba, h.count, 0, 0, 0), true)
      else if h.bytes <= 0x8_0000 then Served(image, rest[h.bytes..], Reply(3, 0, 0, 0, 4, 0), true)
      else Served(image, rest, [], false)
  {
    hide Reply;
    RangeIsExact(|image| / SECTOR, h.lba, h.count);
  }

  /** HELLO (1), FLUSH (4), PING (5) and TIME (8), unknown operations, and another
      version of the protocol. */
  lemma OthersServed(c: Config, image: seq<Byte>, input: seq<Byte>, w: World)
    requires c.Valid() && w.Valid() && |image| / 512 < 0x1_0000_0000_0000_0000
    requires |input| >= 32 && input[..4] == [0x57, 0x52, 0x42, 0x50]
    ensures
      var h, rest, s := Unpack(input[..32]), input[32..], Serve(c, image, input, w);
      if h.version != 1 then s == Served(image, rest, Reply(h.op, 0, 0, 0, 2, 0), true)
      else if h.op == 1 then s == Served(image, rest, Reply(1, |image| / 512, 512, c.maxSectors, 0, if c.readOnly then 0 else 1), true)
      else if h.op == 2 then s == ServeRead(c, image, h, rest)
      else if h.op == 3 then s == ServeWrite(c, image, h, rest)
      else if h.op == 4 then s == Served(image, rest, Reply(4, 0, 0, 0, if c.strictFlush && !c.readOnly && !w.flushes then 4 else 0, 0), true)
      else if h.op == 8 then
        s == if w.now < 0 then Served(image, rest, Reply(8, 0, 0, 0, 5, 0), true) else Served(image, rest, Reply(8, w.now, 0, 0, 0, 0), false)
      else if h.bytes > 512 * c.maxSectors then s == Served(image, rest, [], false)
      else if h.bytes > |rest| then s == Served(image, [], [], false)
      else s == Served(image, rest[h.bytes..], Reply(h.op, 0, 0, 0, if h.op == 5 then 0 else 5, 0), true)
  {
    hide Reply, ServeRead, ServeWrite;
    assert Unpack(input[..32]).magic == input[..4] by {
      assert input[..32][..4] == input[..4];
    }
  }

  // --------------------------------------------------------------------- client

  /** A call of the client: the payload to send, how many bytes of answer it has
      room for, and the header fields that only HELLO and PING fill. */
  datatype Request = Request(op: U16, lba: U64, count: U32, payload: seq<Byte>, room: nat, status: U32, flags: U32)

  function Sent(r: Request): seq<Byte> {
    Pack(Header(MAGIC, VERSION, r.op, r.lba, r.count, |r.payload| % 0x1_0000_0000, r.status, r.flags))
    + r.payload
  }

  /** What the client sends: the 32 bytes of its header, then the payload. */
  lemma RequestOnTheWire(r: Request)
    ensures
      var n := |r.payload| % 0x1_0000_0000;
      Sent(r) ==
      [0x57, 0x52, 0x42, 0x50, 1, 0, r.op % 256, r.op / 0x100 % 256,
       r.lba % 256, r.lba / 0x100 % 256, r.lba / 0x1_0000 % 256, r.lba / 0x100_0000 % 256,
       r.lba / 0x1_0000_0000 % 256, r.lba / 0x100_0000_0000 % 256, r.lba / 0x1_0000_0000_0000 % 256, r.lba / 0x100_0000_0000_0000 % 256,
       r.count % 256, r.count / 0x100 % 256, r.count / 0x1_0000 % 256, r.count / 0x100_0000 % 256,
       n % 256, n / 0x100 % 256, n / 0x1_0000 % 256, n / 0x100_0000 % 256,
       r.status % 256, r.status / 0x100 % 256, r.status / 0x1_0000 % 256, r.status / 0x100_0000 % 256,
       r.flags % 256, r.flags / 0x100 % 256, r.flags / 0x1_0000 % 256, r.flags / 0x100_0000 % 256]
      + r.payload
  {
    hide Pack, Little;
    HeaderOnTheWire(r.op, r.lba, r.count, |r.payload| % 0x1_0000_0000, r.status, r.flags);
  }

  /** A READ of three sectors from sector 5. */
  lemma ReadOnTheWire(r: Request)
    requires r.op == 2 && r.lba == 5 && r.count == 3 && r.payload == [] && r.status == 0 && r.flags == 0
    ensures Sent(r) == [0x57, 0x52, 0x42, 0x50, 1, 0, 2, 0, 5, 0, 0, 0, 0, 0, 0, 0, 3, 0, 0, 0, 0, 0, 0, 0, 0, 0, 0, 0, 0, 0, 0, 0]
  {
    hide Pack, Little;
    HeaderOnTheWire(2, 5, 3, 0, 0, 0);
    NothingAfter(Pack(Header(MAGIC, VERSION, 2, 5, 3, 0, 0, 0)), []);
  }

  /** What the client makes of the bytes coming back. `Starved` is waiting for
      bytes that never come. */
  datatype Answer = Done(data: seq<Byte>) | Failed | Starved

  /** The answer and the bytes left unread. */
  function Receive(op: U16, room: nat, input: seq<Byte>): (Answer, seq<Byte>) {
    if |input| < HEADER_SIZE then (Starved, [])
    else
      var h, rest := Unpack(input[..HEADER_SIZE]), input[HEADER_SIZE..];
      if h.magic != MAGIC || h.version != VERSION || h.op != op || h.status != OK then (Failed, rest)
      else if room > 0 && h.bytes != room then (Failed, rest)
      else if room > |rest| then (Starved, [])
      else (Done(rest[..room]), rest[room..])
  }

  /** The client takes only a reply of the protocol's letters, version 1 and its own
      operation with status 0, and, if it has room for a payload, of exactly that
      size. */
  lemma ReceivedWhen(op: U16, room: nat, input: seq<Byte>)
    requires |input| >= 32
    ensures
      var h, rest := Unpack(input[..32]), input[32..];
      if input[..4] == [0x57, 0x52, 0x42, 0x50] && h.version == 1 && h.op == op && h.status == 0 && (room == 0 || h.bytes == room) then
        Receive(op, room, input) == if room <= |rest| then (Done(rest[..room]), rest[room..]) else (Starved, [])
      else Receive(op, room, input) == (Failed, rest)
  {
    assert input[..32][..4] == input[..4];
  }

  // ------------------------------------------------------------- the plain disk

  predicate ReadFits(c: Config, sectors: nat, r: Request) {
    1 <= r.count <= c.maxSectors && r.lba + r.count <= sectors
  }

  predicate WriteFits(c: Config, sectors: nat, r: Request) {
    !c.readOnly && 1 <= r.count <= PROTOCOL_MAX_SECTORS && |r.payload| == r.count * SECTOR && r.lba + r.count <= sectors
  }

  /** What a request means for the disk. */
  function NewImage(c: Config, image: seq<Byte>, r: Request): (r': seq<Byte>)
    ensures |r'| == |image|
  {
    if r.op == WRITE && WriteFits(c, |image| / SECTOR, r) then Splice(image, r.lba * SECTOR, r.payload) else image
  }

  /** And what it answers. */
  function Meaning(c: Config, image: seq<Byte>, r: Request, w: World): Answer {
    if r.op == READ then
      if ReadFits(c, |image| / SECTOR, r) then Done(image[r.lba * SECTOR..(r.lba + r.count) * SECTOR]) else Failed
    else if r.room > 0 then Failed
    else if r.op == WRITE then (if WriteFits(c, |image| / SECTOR, r) then Done([]) else Failed)
    else if r.op == FLUSH then (if c.strictFlush && !c.readOnly && !w.flushes then Failed else Done([]))
    else if r.op == HELLO || r.op == PING then Done([])
    else Failed
  }

  lemma SpliceHere(image: seq<Byte>, at: nat, data: seq<Byte>)
    requires at + |data| <= |image|
    ensures Splice(image, at, data)[at..at + |data|] == data
  {
  }

  lemma SpliceElsewhere(image: seq<Byte>, at: nat, data: seq<Byte>, lo: nat, hi: nat)
    requires at + |data| <= |image| && lo <= hi <= |image| && (hi <= at || at + |data| <= lo)
    ensures Splice(image, at, data)[lo..hi] == image[lo..hi]
  {
    forall k | lo <= k < hi
      ensures Splice(image, at, data)[k] == image[k]
    {
    }
  }

  /** Reading back a written range gives what was written, and a range apart from
      it what was there. */
  lemma ReadsBack(c: Config, image: seq<Byte>, wr: Request, rd: Request, w: World)
    requires wr.op == WRITE && WriteFits(c, |image| / SECTOR, wr)
    requires rd.op == READ && ReadFits(c, |image| / SECTOR, rd)
    ensures
      rd.lba == wr.lba && rd.count == wr.count ==>
        Meaning(c, NewImage(c, image, wr), rd, w) == Done(wr.payload)
    ensures
      rd.lba + rd.count <= wr.lba || wr.lba + wr.count <= rd.lba ==>
        Meaning(c, NewImage(c, image, wr), rd, w) == Meaning(c, image, rd, w)
  {
    SpliceHere(image, wr.lba * SECTOR, wr.payload);
    if rd.lba + rd.count <= wr.lba || wr.lba + wr.count <= rd.lba {
      SpliceElsewhere(image, wr.lba * SECTOR, wr.payload, rd.lba * SECTOR, (rd.lba + rd.count) * SECTOR);
    }
  }

  /** The calls after which both sides agree where the next message starts. */
  predicate Framed(c: Config, sectors: nat, r: Request, w: World) {
    if r.op == HELLO then r.payload == [] && r.room != c.maxSectors
    else if r.op == READ then r.payload == [] && (ReadFits(c, sectors, r) ==> r.room == r.count * SECTOR)
    else if r.op == WRITE then WriteFits(c, sectors, r) || |r.payload| <= PROTOCOL_MAX_PAYLOAD
    else if r.op == FLUSH then r.payload == []
    else if r.op == TIME then r.payload == [] && w.now < 0
    else |r.payload| <= c.MaxBytes()
  }

  // ----------------------------------------------------------- one exchange

  lemma HeaderFirst(r: Request)
    ensures Unpack(Sent(r)[..HEADER_SIZE])
         == Header(MAGIC, VERSION, r.op, r.lba, r.count, |r.payload| % 0x1_0000_0000, r.status, r.flags)
    ensures Sent(r)[HEADER_SIZE..] == r.payload
  {
    var h := Header(MAGIC, VERSION, r.op, r.lba, r.count, |r.payload| % 0x1_0000_0000, r.status, r.flags);
    UnpackPacked(h);
    assert Sent(r)[..HEADER_SIZE] == Pack(h);
  }

  lemma ReplyFirst(op: U16, lba: U64, count: U32, bytes: U32, status: U32, flags: U32, data: seq<Byte>)
    ensures
      var input := Reply(op, lba, count, bytes, status, flags) + data;
      Unpack(input[..HEADER_SIZE]) == Header(MAGIC, VERSION, op, lba, count, bytes, status, flags)
      && input[HEADER_SIZE..] == data
  {
    var h := Header(MAGIC, VERSION, op, lba, count, bytes, status, flags);
    UnpackPacked(h);
    assert (Pack(h) + data)[..HEADER_SIZE] == Pack(h);
  }

  /** What the client makes of a reply with a payload behind it. */
  lemma ReceiveReply(op: U16, room: nat, lba: U64, count: U32, bytes: U32, status: U32, flags: U32, data: seq<Byte>)
    ensures
      Receive(op, room, Reply(op, lba, count, bytes, status, flags) + data) ==
      if status != OK || (room > 0 && bytes != room) then (Failed, data)
      else if room > |data| then (Starved, [])
      else (Done(data[..room]), data[room..])
  {
    ReplyFirst(op, lba, count, bytes, status, flags, data);
  }

  lemma ReceiveBare(op: U16, room: nat, lba: U64, count: U32, bytes: U32, status: U32, flags: U32)
    ensures
      Receive(op, room, Reply(op, lba, count, bytes, status, flags)) ==
      if status != OK || (room > 0 && bytes != room) then (Failed, [])
      else if room > 0 then (Starved, [])
      else (Done([]), [])
  {
    ReceiveReply(op, room, lba, count, bytes, status, flags, []);
    var reply := Reply(op, lba, count, bytes, status, flags);
    assert reply + [] == reply;
  }

  /** Both sides agree where the next message starts: the request and its
      response are consumed exactly, and nobody waits. */
  predicate InStep(s: Served, answer: Answer, left: seq<Byte>) {
    s.open && s.rest == [] && left == [] && answer != Starved
  }

  /** The exchange keeps both sides in step exactly when the call is framed, and
      then it means what it means for a plain disk. */
  predicate RightExchange(c: Config, image: seq<Byte>, r: Request, w: World, s: Served, answer: Answer, left: seq<Byte>) {
    && (InStep(s, answer, left) <==> Framed(c, |image| / SECTOR, r, w))
    && (InStep(s, answer, left) ==> s.image == NewImage(c, image, r) && answer == Meaning(c, image, r, w))
  }

  /** A reply that carries nothing: in step if the request was read to its end
      and the client does not wait for a payload. */
  lemma BareExchange(s: Served, room: nat, answer: Answer, left: seq<Byte>, op: U16, lba: U64, count: U32, bytes: U32, status: U32, flags: U32)
    requires s.open && s.sent == Reply(op, lba, count, bytes, status, flags)
    requires (answer, left) == Receive(op, room, s.sent)
    ensures InStep(s, answer, left) <==> s.rest == [] && (status != OK || room == 0 || bytes != room)
    ensures InStep(s, answer, left) ==> answer == if status != OK || room > 0 then Failed else Done([])
  {
    ReceiveBare(op, room, lba, count, bytes, status, flags);
  }

  /** The server sees the header the client packed, and its payload behind it. */
  lemma ServerSees(c: Config, image: seq<Byte>, r: Request, w: World, h: Header, s: Served)
    requires c.Valid() && w.Valid() && |image| / SECTOR < 0x1_0000_0000_0000_0000
    requires s == Serve(c, image, Sent(r), w)
    requires h == Header(MAGIC, VERSION, r.op, r.lba, r.count, |r.payload| % 0x1_0000_0000, r.status, r.flags)
    ensures r.op == READ ==> s == ServeRead(c, image, h, r.payload)
    ensures r.op == WRITE ==> s == ServeWrite(c, image, h, r.payload)
    ensures r.op == TIME && w.now < 0 ==> s == Served(image, r.payload, Reply(TIME, 0, 0, 0, BAD_OP, 0), true)
    ensures r.op == TIME && w.now >= 0 ==> !s.open
    ensures
      r.op == HELLO ==>
        s == Served(image, r.payload, Reply(HELLO, |image| / SECTOR, SECTOR, c.maxSectors, OK, if c.readOnly then 0 else 1), true)
    ensures
      r.op == FLUSH ==>
        s == Served(image, r.payload, Reply(FLUSH, 0, 0, 0, if c.strictFlush && !c.readOnly && !w.flushes then WRITE_FAILED else OK, 0), true)
    ensures r.op !in {HELLO, READ, WRITE, FLUSH, TIME} ==> s == ServeOther(c, image, h, r.payload)
  {
    HeaderFirst(r);
  }

  lemma AcceptedRead(c: Config, image: seq<Byte>, r: Request, h: Header, s: Served, answer: Answer, left: seq<Byte>)
    requires c.Valid() && |image| / SECTOR < 0x1_0000_0000_0000_0000
    requires h.lba == r.lba && h.count == r.count
    requires !ReadRejected(c, |image| / SECTOR, h) && s == ServeRead(c, image, h, r.payload)
    requires (answer, left) == Receive(READ, r.room, s.sent)
    ensures InStep(s, answer, left) <==> r.payload == [] && r.room == r.count * SECTOR
    ensures
      InStep(s, answer, left) ==>
        (r.lba + r.count) * SECTOR <= |image| && answer == Done(image[r.lba * SECTOR..(r.lba + r.count) * SECTOR])
  {
    hide Receive, Reply, RangeFails;
    RangeInImage(|image|, r.lba, r.count);
    var data := image[r.lba * SECTOR..r.lba * SECTOR + Need(r.count)];
    ReceiveReply(READ, r.room, r.lba, r.count, Need(r.count), OK, 0, data);
    assert r.room == |data| ==> data[..r.room] == data;
  }

  lemma ReadExchange(c: Config, image: seq<Byte>, r: Request, w: World, h: Header, s: Served, answer: Answer, left: seq<Byte>)
    requires c.Valid() && |image| / SECTOR < 0x1_0000_0000_0000_0000 && r.op == READ
    requires h.lba == r.lba && h.count == r.count
    requires s == ServeRead(c, image, h, r.payload) && (answer, left) == Receive(READ, r.room, s.sent)
    ensures RightExchange(c, image, r, w, s, answer, left)
  {
    hide Receive, Reply;
    RangeIsExact(|image| / SECTOR, r.lba, r.count);
    if ReadRejected(c, |image| / SECTOR, h) {
      BareExchange(s, r.room, answer, left, READ, 0, 0, 0, RANGE, 0);
    } else {
      AcceptedRead(c, image, r, h, s, answer, left);
    }
  }

  lemma RejectedWrite(c: Config, image: seq<Byte>, r: Request, h: Header, s: Served, answer: Answer, left: seq<Byte>)
    requires c.Valid() && |image| / SECTOR < 0x1_0000_0000_0000_0000
    requires h.lba == r.lba && h.count == r.count && h.bytes == |r.payload| % 0x1_0000_0000
    requires WriteRejected(c, |image| / SECTOR, h) && s == ServeWrite(c, image, h, r.payload)
    requires (answer, left) == Receive(WRITE, r.room, s.sent)
    ensures InStep(s, answer, left) <==> |r.payload| <= PROTOCOL_MAX_PAYLOAD
    ensures InStep(s, answer, left) ==> s.image == image && answer == Failed
  {
    hide Receive, Reply;
    if |r.payload| <= PROTOCOL_MAX_PAYLOAD {
      BareExchange(s, r.room, answer, left, WRITE, 0, 0, 0, WRITE_FAILED, 0);
    } else if s.open {
      assert s.rest != [];
    }
  }

  lemma AcceptedWrite(c: Config, image: seq<Byte>, r: Request, h: Header, s: Served, answer: Answer, left: seq<Byte>)
    requires c.Valid() && |image| / SECTOR < 0x1_0000_0000_0000_0000
    requires h.lba == r.lba && h.count == r.count && h.bytes == |r.payload| % 0x1_0000_0000
    requires !WriteRejected(c, |image| / SECTOR, h) && s == ServeWrite(c, image, h, r.payload)
    requires (answer, left) == Receive(WRITE, r.room, s.sent)
    ensures InStep(s, answer, left) <==> |r.payload| == r.count * SECTOR
    ensures
      InStep(s, answer, left) ==>
        r.lba * SECTOR + |r.payload| <= |image| && s.image == Splice(image, r.lba * SECTOR, r.payload)
        && answer == if r.room == 0 then Done([]) else Failed
  {
    RangeInImage(|image|, r.lba, r.count);
    ReceiveBare(WRITE, r.room, r.lba, r.count, 0, OK, 0);
    assert |r.payload| == Need(r.count) ==> r.payload[..Need(r.count)] == r.payload;
  }

  /** A size field that matches by wrapping belongs to an oversized payload. */
  lemma SizeWraps(r: Request, h: Header)
    requires h.count == r.count <= PROTOCOL_MAX_SECTORS
    requires h.bytes == |r.payload| % 0x1_0000_0000 == Need(r.count)
    ensures |r.payload| == r.count * SECTOR || |r.payload| > PROTOCOL_MAX_PAYLOAD
  {
  }

  lemma WriteFitsIff(c: Config, sectors: U64, r: Request, h: Header)
    requires h.lba == r.lba && h.count == r.count && h.bytes == |r.payload| % 0x1_0000_0000
    ensures WriteFits(c, sectors, r) <==> !WriteRejected(c, sectors, h) && |r.payload| == r.count * SECTOR
  {
    RangeIsExact(sectors, r.lba, r.count);
  }

  lemma WriteExchange(c: Config, image: seq<Byte>, r: Request, w: World, h: Header, s: Served, answer: Answer, left: seq<Byte>)
    requires c.Valid() && |image| / SECTOR < 0x1_0000_0000_0000_0000 && r.op == WRITE
    requires h.lba == r.lba && h.count == r.count && h.bytes == |r.payload| % 0x1_0000_0000
    requires s == ServeWrite(c, image, h, r.payload) && (answer, left) == Receive(WRITE, r.room, s.sent)
    ensures RightExchange(c, image, r, w, s, answer, left)
  {
    WriteFitsIff(c, |image| / SECTOR, r, h);
    if WriteRejected(c, |image| / SECTOR, h) {
      RejectedWrite(c, image, r, h, s, answer, left);
    } else {
      SizeWraps(r, h);
      AcceptedWrite(c, image, r, h, s, answer, left);
    }
  }

  lemma OtherExchange(c: Config, image: seq<Byte>, r: Request, w: World, h: Header, s: Served, answer: Answer, left: seq<Byte>)
    requires c.Valid() && r.op !in {HELLO, READ, WRITE, FLUSH, TIME}
    requires h.op == r.op && h.bytes == |r.payload| % 0x1_0000_0000
    requires s == ServeOther(c, image, h, r.payload) && (answer, left) == Receive(r.op, r.room, s.sent)
    ensures RightExchange(c, image, r, w, s, answer, left)
  {
    hide Receive, Reply;
    if s.open {
      BareExchange(s, r.room, answer, left, r.op, 0, 0, 0, if r.op == PING then OK else BAD_OP, 0);
    }
  }

  /** One call and the handling of it, from empty streams: both sides stay in
      step if and only if the call is framed, and then the image and the answer
      are those of a plain disk. */
  lemma ExchangeIsRight(c: Config, image: seq<Byte>, r: Request, w: World, s: Served, answer: Answer, left: seq<Byte>)
    requires c.Valid() && w.Valid() && |image| / SECTOR < 0x1_0000_0000_0000_0000
    requires s == Serve(c, image, Sent(r), w) && (answer, left) == Receive(r.op, r.room, s.sent)
    ensures RightExchange(c, image, r, w, s, answer, left)
  {
    hide Receive, Reply;
    var h := Header(MAGIC, VERSION, r.op, r.lba, r.count, |r.payload| % 0x1_0000_0000, r.status, r.flags);
    ServerSees(c, image, r, w, h, s);
    if r.op == READ {
      ReadExchange(c, image, r, w, h, s, answer, left);
    } else if r.op == WRITE {
      WriteExchange(c, image, r, w, h, s, answer, left);
    } else if r.op == HELLO {
      BareExchange(s, r.room, answer, left, HELLO, |image| / SECTOR, SECTOR, c.maxSectors, OK, if c.readOnly then 0 else 1);
    } else if r.op == FLUSH {
      var status := if c.strictFlush && !c.readOnly && !w.flushes then WRITE_FAILED else OK;
      BareExchange(s, r.room, answer, left, FLUSH, 0, 0, 0, status, 0);
    } else if r.op == TIME {
      if w.now < 0 {
        BareExchange(s, r.room, answer, left, TIME, 0, 0, 0, BAD_OP, 0);
      }
    } else {
      OtherExchange(c, image, r, w, h, s, answer, left);
    }
  }

  /** Every call the client itself makes is framed: a READ asks for what it has
      room for, a WRITE of its buffer or its table carries its sectors, HELLO
      and FLUSH carry nothing, and the telemetry of a PING fits the smallest
      transfer buffer. */
  lemma ClientCallsAreFramed(c: Config, sectors: nat, r: Request, w: World)
    requires c.Valid()
    requires
      || (r.op in {HELLO, FLUSH} && r.payload == [] && r.room == 0)
      || (r.op == READ && r.payload == [] && r.room == r.count * SECTOR)
      || (r.op == WRITE && |r.payload| == r.count * SECTOR && r.count <= PROTOCOL_MAX_SECTORS && r.room == 0)
      || (r.op == PING && |r.payload| <= SECTOR && r.room == 0)
    ensures Framed(c, sectors, r, w)
  {
  }

  /** A FLUSH that carries a byte, which the server does not read: the client is
      answered as for any FLUSH, but its next request, whatever it is, then begins
      one byte late, and the server closes the connection without an answer. */
  lemma LostFraming(c: Config, image: seq<Byte>, r: Request, w: World, s: Served, next: Request, w': World)
    requires c.Valid() && w.Valid() && w'.Valid() && |image| / SECTOR < 0x1_0000_0000_0000_0000
    requires r.op == FLUSH && |r.payload| == 1 && r.room == 0 && s == Serve(c, image, Sent(r), w)
    ensures s.open && s.rest == r.payload && Receive(r.op, r.room, s.sent) == (Meaning(c, image, r, w), [])
    ensures var lost := Serve(c, image, s.rest + Sent(next), w'); !lost.open && lost.sent == []
  {
    var h := Header(MAGIC, VERSION, r.op, r.lba, r.count, |r.payload| % 0x1_0000_0000, r.status, r.flags);
    ServerSees(c, image, r, w, h, s);
    ReceiveBare(FLUSH, 0, 0, 0, 0, if c.strictFlush && !c.readOnly && !w.flushes then WRITE_FAILED else OK, 0);
    MagicMissed(r.payload, next);
  }

  lemma MagicMissed(stray: seq<Byte>, next: Request)
    requires |stray| == 1
    ensures Unpack((stray + Sent(next))[..HEADER_SIZE]).magic != MAGIC
  {
    var input := stray + Sent(next);
    HeaderFirst(next);
    assert Sent(next)[..HEADER_SIZE][..4] == MAGIC;
    assert input[..HEADER_SIZE][..4][1] == Sent(next)[..HEADER_SIZE][..4][0] == 0x57;
    assert MAGIC[1] == 0x52;
  }

  // ------------------------------------------------------------------ any script

  datatype Step = Step(r: Request, w: World)

  /** The plain disk running a script. */
  function PlainImage(c: Config, image: seq<Byte>, script: seq<Step>): (image': seq<Byte>)
    ensures |image'| == |image|
  {
    if script == [] then image
    else
      var last := |script| - 1;
      NewImage(c, PlainImage(c, image, script[..last]), script[last].r)
  }

  function PlainAnswers(c: Config, image: seq<Byte>, script: seq<Step>): seq<Answer> {
    if script == [] then []
    else
      var last := |script| - 1;
      PlainAnswers(c, image, script[..last]) + [Meaning(c, PlainImage(c, image, script[..last]), script[last].r, script[last].w)]
  }

  predicate AllFramed(c: Config, sectors: nat, script: seq<Step>) {
    forall i :: 0 <= i < |script| ==> script[i].w.Valid() && Framed(c, sectors, script[i].r, script[i].w)
  }

  /** The server, and the two directions of its connection. */
  class Session {
    const c: Config
    const image: array<Byte>
    const sectors: U64
    const up: Pipe
    const down: Pipe
    var open: bool

    ghost predicate Valid()
      reads this, image, up, down
    {
      c.Valid() && up != down && sectors == image.Length / SECTOR
    }

    constructor (c: Config, image: array<Byte>)
      requires c.Valid() && image.Length / SECTOR < 0x1_0000_0000_0000_0000
      ensures this.c == c && this.image == image && sectors == image.Length / SECTOR
      ensures Valid() && open && up.bytes == [] && down.bytes == [] && fresh(up) && fresh(down)
    {
      this.c, this.image, sectors := c, image, image.Length / SECTOR;
      up := new Pipe();
      down := new Pipe();
      open := true;
    }

    // The server's side.

    /** Throwing a payload away consumes exactly it, in chunks of any size. */
    method RecvDiscard(scratch: nat, size: nat) returns (ok: bool)
      requires scratch > 0
      modifies up
      ensures ok <==> size <= |old(up.bytes)|
      ensures up.bytes == if ok then old(up.bytes)[size..] else []
    {
      var left := size;
      while left > 0
        invariant 0 <= left <= size && size - left <= |old(up.bytes)|
        invariant up.bytes == old(up.bytes)[size - left..]
      {
        var chunk := if left < scratch then left else scratch;
        var got, data := up.RecvAll(chunk);
        if !got {
          return false;
        }
        left := left - chunk;
      }
      ok := true;
    }

    /** Receiving into the image replaces exactly the range, in chunks of any
        size; if the peer goes away, the whole chunks before that are in. */
    method RecvImageWrite(offset: nat, size: nat, scratch: nat) returns (ok: bool)
      requires scratch > 0 && offset + size <= image.Length
      modifies up, image
      ensures ok <==> size <= |old(up.bytes)|
      ensures up.bytes == if ok then old(up.bytes)[size..] else []
      ensures image[..] == Splice(old(image[..]), offset, Landed(old(up.bytes), size, scratch))
    {
      ghost var payload, before := up.bytes, image[..];
      var done := 0;
      hide Received, Landed, Splice;
      NothingReceived(before, offset, payload, size, scratch);
      while done < size
        invariant done <= size && Received(up.bytes, image[..], before, offset, payload, size, scratch, done)
      {
        var chunk := if size - done < scratch then size - done else scratch;
        var got := RecvNext(before, offset, payload, size, scratch, done, chunk);
        if !got {
          return false;
        }
        done := done + chunk;
      }
      AllReceived(up.bytes, image[..], before, offset, payload, size, scratch);
      ok := true;
    }

    /** One chunk more of a payload, or the end of the stream. */
    method RecvNext(ghost before: seq<Byte>, offset: nat, ghost payload: seq<Byte>, size: nat, scratch: nat, done: nat, chunk: nat)
      returns (got: bool)
      requires scratch > 0 && offset + size <= image.Length == |before| && done < size
      requires chunk == if size - done < scratch then size - done else scratch
      requires Received(up.bytes, image[..], before, offset, payload, size, scratch, done)
      modifies up, image
      ensures got ==> Received(up.bytes, image[..], before, offset, payload, size, scratch, done + chunk)
      ensures !got ==> up.bytes == [] && size > |payload| && image[..] == Splice(before, offset, Landed(payload, size, scratch))
    {
      hide Landed, Splice, WholeChunks;
      ghost var bytes, now := up.bytes, image[..];
      got := RecvChunk(offset + done, chunk);
      ChunkReceived(bytes, now, up.bytes, image[..], before, offset, payload, size, scratch, done, chunk);
    }

    method RecvChunk(at: nat, chunk: nat) returns (got: bool)
      requires at + chunk <= image.Length
      modifies up, image
      ensures got <==> chunk <= |old(up.bytes)|
      ensures up.bytes == if got then old(up.bytes)[chunk..] else []
      ensures image[..] == if got then Splice(old(image[..]), at, old(up.bytes)[..chunk]) else old(image[..])
    {
      var data;
      got, data := up.RecvAll(chunk);
      if got {
        WriteImage(at, data);
      }
    }

    method WriteImage(offset: nat, data: seq<Byte>)
      requires offset + |data| <= image.Length
      modifies image
      ensures image[..] == Splice(old(image[..]), offset, data)
    {
      forall i | 0 <= i < |data| {
        image[offset + i] := data[i];
      }
    }

    /** What the handler leaves, against the streams and image before it. */
    ghost predicate Leaves(s: Served, sent: seq<Byte>)
      reads this, image, up, down
    {
      image[..] == s.image && up.bytes == s.rest && down.bytes == sent + s.sent && open == s.open
    }

    method SendHeader(op: U16, lba: U64, count: U32, bytes: U32, status: U32, flags: U32)
      modifies down
      ensures down.bytes == old(down.bytes) + Reply(op, lba, count, bytes, status, flags)
    {
      down.SendAll(Reply(op, lba, count, bytes, status, flags));
    }

    method ServeReadRequest(h: Header)
      requires Valid() && open && h.op == READ
      modifies down
      ensures Leaves(ServeRead(c, image[..], h, up.bytes), old(down.bytes))
    {
      if ReadRejected(c, sectors, h) {
        SendHeader(READ, 0, 0, 0, RANGE, 0);
        return;
      }
      RangeInImage(image.Length, h.lba, h.count);
      var need := Need(h.count);
      ghost var sent := down.bytes;
      SendHeader(READ, h.lba, h.count, need, OK, 0);
      down.SendAll(image[h.lba * SECTOR..h.lba * SECTOR + need]);
      assert image[..][h.lba * SECTOR..h.lba * SECTOR + need] == image[h.lba * SECTOR..h.lba * SECTOR + need];
      Regroup(sent, Reply(READ, h.lba, h.count, need, OK, 0), image[..][h.lba * SECTOR..h.lba * SECTOR + need]);
    }

    method RejectWrite(h: Header)
      requires Valid() && open && h.op == WRITE && WriteRejected(c, sectors, h)
      modifies this`open, up, down
      ensures Leaves(ServeWrite(c, image[..], h, old(up.bytes)), old(down.bytes))
    {
      if h.bytes != 0 && h.bytes <= PROTOCOL_MAX_PAYLOAD {
        var ok := RecvDiscard(c.MaxBytes(), h.bytes);
        if !ok {
          open := false;
          return;
        }
      } else if h.bytes != 0 {
        open := false;
        return;
      }
      SendHeader(WRITE, 0, 0, 0, WRITE_FAILED, 0);
    }

    method AcceptWrite(h: Header)
      requires Valid() && open && h.op == WRITE && !WriteRejected(c, sectors, h)
      modifies this`open, up, down, image
      ensures Leaves(ServeWrite(c, old(image[..]), h, old(up.bytes)), old(down.bytes))
    {
      RangeInImage(image.Length, h.lba, h.count);
      var ok := RecvImageWrite(h.lba * SECTOR, Need(h.count), c.MaxBytes());
      if !ok {
        SendHeader(WRITE, 0, 0, 0, WRITE_FAILED, 0);
        open := false;
        return;
      }
      SendHeader(WRITE, h.lba, h.count, 0, OK, 0);
    }

    method ServeOtherRequest(h: Header)
      requires Valid() && open
      modifies this`open, up, down
      ensures Leaves(ServeOther(c, image[..], h, old(up.bytes)), old(down.bytes))
    {
      if h.bytes > c.MaxBytes() {
        open := false;
        return;
      }
      if h.bytes != 0 {
        var ok, data := up.RecvAll(h.bytes);
        if !ok {
          open := false;
          return;
        }
      }
      SendHeader(h.op, 0, 0, 0, if h.op == PING then OK else BAD_OP, 0);
    }

    method ServePlain(h: Header, w: World)
      requires Valid() && open && h.op in {TIME, HELLO, FLUSH} && w.Valid()
      modifies this`open, down
      ensures
        h.op == TIME ==>
          Leaves(Served(image[..], up.bytes, if w.now < 0 then Reply(TIME, 0, 0, 0, BAD_OP, 0) else Reply(TIME, w.now, 0, 0, OK, 0), w.now < 0),
                 old(down.bytes))
      ensures
        h.op == HELLO ==>
          Leaves(Served(image[..], up.bytes, Reply(HELLO, sectors, SECTOR, c.maxSectors, OK, if c.readOnly then 0 else 1), true), old(down.bytes))
      ensures
        h.op == FLUSH ==>
          Leaves(Served(image[..], up.bytes, Reply(FLUSH, 0, 0, 0, if c.strictFlush && !c.readOnly && !w.flushes then WRITE_FAILED else OK, 0), true),
                 old(down.bytes))
    {
      if h.op == TIME {
        if w.now < 0 {
          SendHeader(TIME, 0, 0, 0, BAD_OP, 0);
        } else {
          SendHeader(TIME, w.now, 0, 0, OK, 0);
          open := false;
        }
      } else if h.op == HELLO {
        SendHeader(HELLO, sectors, SECTOR, c.maxSectors, OK, if c.readOnly then 0 else 1);
      } else {
        var status := OK;
        if !c.readOnly && c.strictFlush && !w.flushes {
          status := WRITE_FAILED;
        }
        SendHeader(FLUSH, 0, 0, 0, status, 0);
      }
    }

    /** One turn of the server's loop. */
    method ServeOne(w: World)
      requires Valid() && open && w.Valid()
      modifies this`open, up, down, image
      ensures Leaves(Serve(c, old(image[..]), old(up.bytes), w), old(down.bytes))
    {
      var ok, bytes := up.RecvAll(HEADER_SIZE);
      if !ok {
        open := false;
        return;
      }
      var h := Unpack(bytes);
      if h.magic != MAGIC {
        open := false;
      } else if h.version != VERSION {
        SendHeader(h.op, 0, 0, 0, BAD_VERSION, 0);
      } else if h.op == READ {
        ServeReadRequest(h);
      } else if h.op == WRITE {
        if WriteRejected(c, sectors, h) {
          RejectWrite(h);
        } else {
          AcceptWrite(h);
        }
      } else if h.op in {TIME, HELLO, FLUSH} {
        ServePlain(h, w);
      } else {
        ServeOtherRequest(h);
      }
    }

    // The client's side.

    method SendRequest(r: Request)
      modifies up
      ensures up.bytes == old(up.bytes) + Sent(r)
    {
      ghost var before := up.bytes;
      var h := Header(MAGIC, VERSION, r.op, r.lba, r.count, |r.payload| % 0x1_0000_0000, r.status, r.flags);
      up.SendAll(Pack(h));
      if r.payload != [] {
        up.SendAll(r.payload);
      } else {
        NothingAfter(up.bytes, r.payload);
      }
      Regroup(before, Pack(h), r.payload);
    }

    method ReceiveAnswer(r: Request) returns (answer: Answer)
      modifies down
      ensures (answer, down.bytes) == Receive(r.op, r.room, old(down.bytes))
    {
      var ok, bytes := down.RecvAll(HEADER_SIZE);
      if !ok {
        return Starved;
      }
      var h := Unpack(bytes);
      if h.magic != MAGIC || h.version != VERSION || h.op != r.op || h.status != OK {
        return Failed;
      }
      if r.room != 0 && h.bytes != r.room {
        return Failed;
      }
      var data := [];
      if r.room != 0 {
        ok, data := down.RecvAll(r.room);
        if !ok {
          return Starved;
        }
      }
      answer := Done(data);
    }

    /** A call of the client with the server at the other end: from empty
        streams it leaves both empty and nobody waiting exactly when the call is
        framed, and then does to the image what a plain disk would. */
    method Exchange(r: Request, w: World) returns (answer: Answer)
      requires Valid() && open && w.Valid()
      requires up.bytes == [] && down.bytes == []
      modifies this`open, up, down, image
      ensures open && up.bytes == [] && down.bytes == [] && answer != Starved <==> Framed(c, sectors, r, w)
      ensures
        Framed(c, sectors, r, w) ==>
          image[..] == NewImage(c, old(image[..]), r) && answer == Meaning(c, old(image[..]), r, w)
    {
      ghost var s := Serve(c, image[..], Sent(r), w);
      ghost var before := image[..];
      SendRequest(r);
      assert up.bytes == Sent(r);
      ServeOne(w);
      assert down.bytes == s.sent;
      answer := ReceiveAnswer(r);
      ExchangeIsRight(c, before, r, w, s, answer, down.bytes);
    }

    /** Over any script of framed calls, accepted or rejected, the two sides
        never lose each other and the connection is a plain disk. */
    method RunScript(script: seq<Step>) returns (answers: seq<Answer>)
      requires Valid() && open && AllFramed(c, sectors, script)
      requires up.bytes == [] && down.bytes == []
      modifies this`open, up, down, image
      ensures open && up.bytes == [] && down.bytes == []
      ensures image[..] == PlainImage(c, old(image[..]), script)
      ensures answers == PlainAnswers(c, old(image[..]), script)
    {
      answers := [];
      ghost var before := image[..];
      var i := 0;
      while i < |script|
        invariant i <= |script| && Valid() && open && up.bytes == [] && down.bytes == []
        invariant image[..] == PlainImage(c, before, script[..i])
        invariant answers == PlainAnswers(c, before, script[..i])
      {
        assert script[..i + 1][..i] == script[..i];
        assert Framed(c, sectors, script[i].r, script[i].w);
        var answer := Exchange(script[i].r, script[i].w);
        answers := answers + [answer];
        i := i + 1;
      }
      assert script[..i] == script;
    }
  }

  /** Midway through a WRITE's payload: `done` bytes of it are in the image. */
  ghost predicate Received(bytes: seq<Byte>, now: seq<Byte>, before: seq<Byte>, offset: nat, payload: seq<Byte>, size: nat, scratch: nat, done: nat)
    requires scratch > 0 && offset + size <= |before|
  {
    && done <= size && done <= |payload| && bytes == payload[done..] && now == Splice(before, offset, payload[..done])
    && (done < size ==> done + WholeChunks(|payload| - done, scratch) == WholeChunks(|payload|, scratch))
  }

  lemma NothingReceived(before: seq<Byte>, offset: nat, payload: seq<Byte>, size: nat, scratch: nat)
    requires scratch > 0 && offset + size <= |before|
    ensures Received(payload, before, before, offset, payload, size, scratch, 0)
  {
  }

  lemma AllReceived(bytes: seq<Byte>, now: seq<Byte>, before: seq<Byte>, offset: nat, payload: seq<Byte>, size: nat, scratch: nat)
    requires scratch > 0 && offset + size <= |before| && Received(bytes, now, before, offset, payload, size, scratch, size)
    ensures size <= |payload| && bytes == payload[size..] && now == Splice(before, offset, Landed(payload, size, scratch))
  {
  }

  lemma ChunkReceived(bytes: seq<Byte>, now: seq<Byte>, bytes': seq<Byte>, now': seq<Byte>, before: seq<Byte>, offset: nat, payload: seq<Byte>,
                      size: nat, scratch: nat, done: nat, chunk: nat)
    requires scratch > 0 && offset + size <= |before| == |now| && Received(bytes, now, before, offset, payload, size, scratch, done) && done < size
    requires chunk == if size - done < scratch then size - done else scratch
    requires
      if chunk <= |bytes| then bytes' == bytes[chunk..] && now' == Splice(now, offset + done, bytes[..chunk])
      else bytes' == [] && now' == now
    ensures chunk <= |bytes| ==> Received(bytes', now', before, offset, payload, size, scratch, done + chunk)
    ensures chunk > |bytes| ==> size > |payload| && now' == Splice(before, offset, Landed(payload, size, scratch))
  {
    hide Splice;
    if chunk <= |bytes| {
      SpliceTwice(before, offset, payload[..done], bytes[..chunk]);
      TakeOn(payload, done, chunk);
    } else {
      assert WholeChunks(|payload| - done, scratch) == 0;
    }
  }

  lemma SpliceTwice(image: seq<Byte>, at: nat, a: seq<Byte>, b: seq<Byte>)
    requires at + |a| + |b| <= |image|
    ensures Splice(Splice(image, at, a), at + |a|, b) == Splice(image, at, a + b)
  {
  }
}
