/** What crosses a disk drive's 16-bit data port, as the host sees it. */
module DataPort {
  type Byte = b: int | 0 <= b < 256

  /** The drive has data ready, or room for data, of so many bytes, with an
      interrupt or without one; a word is moved; the transfer is over, with an
      interrupt or without one; or it has failed, with an interrupt. */
  datatype Event =
    | DataReady(count: nat)
    | QuietlyReady(count: nat)
    | Word(low: Byte, high: Byte)
    | Finished
    | QuietEnd
    | Errored

  datatype Bit = Ready | Seek | Drq | Err

  function WordEvents(bytes: seq<Byte>): seq<Event> {
    if |bytes| < 2 then [] else [Word(bytes[0], bytes[1])] + WordEvents(bytes[2..])
  }

  /** The bytes among the events, in order. */
  function BytesOf(events: seq<Event>): seq<Byte> {
    if events == [] then []
    else (if events[0].Word? then [events[0].low, events[0].high] else []) + BytesOf(events[1..])
  }

  lemma {:induction false} BytesApart(a: seq<Event>, b: seq<Event>)
    ensures BytesOf(a + b) == BytesOf(a) + BytesOf(b)
  {
    if a == [] {
      assert a + b == b;
    } else {
      assert (a + b)[1..] == a[1..] + b;
      BytesApart(a[1..], b);
    }
  }

  lemma {:induction false} BytesOfWords(bytes: seq<Byte>)
    requires |bytes| % 2 == 0
    ensures BytesOf(WordEvents(bytes)) == bytes
  {
    if bytes != [] {
      BytesOfWords(bytes[2..]);
      assert WordEvents(bytes)[1..] == WordEvents(bytes[2..]);
      assert bytes == [bytes[0], bytes[1]] + bytes[2..];
    }
  }

  lemma NoBytes(e: Event)
    requires !e.Word?
    ensures BytesOf([e]) == []
  {
    assert BytesOf([e]) == [] + BytesOf([]);
  }

  /** A block: something announced, its words, and what comes behind. */
  lemma BytesOfBlock(first: Event, bytes: seq<Byte>, rest: seq<Event>)
    requires !first.Word? && |bytes| % 2 == 0
    ensures BytesOf([first] + WordEvents(bytes) + rest) == bytes + BytesOf(rest)
  {
    hide WordEvents, BytesOf;
    NoBytes(first);
    BytesApart([first] + WordEvents(bytes), rest);
    BytesApart([first], WordEvents(bytes));
    BytesOfWords(bytes);
  }
}
