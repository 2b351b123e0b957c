// ChunkedTransfer: the object that receives an update chunk by chunk, proved against OtaSpec.
module ChunkedTransfer {
  import opened Words
  import opened CoapMessage
  import opened Link
  import opened ChunkBitmap
  import opened OtaSpec

  datatype Descriptor = Descriptor(chunkSize: uint16, fileLength: uint32, store: byte, fileAddress: uint32,
                                   chunkAddress: uint32)

  // What finish_firmware_update has been asked to do, and what flash held at that moment.
  datatype Finish = Validate(flash: Flash) | Commit(flash: Flash) | Cancel(flash: Flash)

  // What the device sends in the course of an update.
  datatype Reply =
    | EmptyAck(id: uint16)
    | Unavailable(token: byte, id: uint16)
    | UpdateReady(token: byte, fast: bool)
    | ChunkReceived(token: byte, ok: bool)
    | UpdateResult(token: byte, ok: bool)
    | MissingChunks(bytes: seq<byte>)

  // ChunkedTransfer::Callbacks: the flash memory, the check sum and the veto of the application. The answers of
  // prepare_for_firmware_update are fixed in advance; it may also change the descriptor.
  class Callbacks {
    const prepare: (Descriptor, bool) -> (bool, Descriptor)
    const crc: seq<byte> -> uint32
    var flash: Flash
    var finished: seq<Finish>

    constructor (prepare: (Descriptor, bool) -> (bool, Descriptor), crc: seq<byte> -> uint32)
      ensures this.prepare == prepare && this.crc == crc && flash == map[] && finished == []
    {
      this.prepare, this.crc := prepare, crc;
      flash, finished := map[], [];
    }

    method SaveFirmwareChunk(file: Descriptor, chunk: seq<byte>)
      modifies this`flash
      ensures flash == Write(old(flash), file.chunkAddress, chunk)
    {
      flash := Write(flash, file.chunkAddress, chunk);
    }

    method FinishFirmwareUpdate(finish: Flash -> Finish)
      modifies this`finished
      ensures finished == old(finished) + [finish(flash)]
    {
      finished := finished + [finish(flash)];
    }
  }

  // The channel to the server; result number n says whether transmission n succeeds.
  class Peer {
    const results: nat -> SendResult
    var sent: seq<Reply>

    constructor (results: nat -> SendResult)
      ensures this.results == results && sent == []
    {
      this.results, sent := results, [];
    }

    method Send(reply: Reply) returns (error: ProtocolError)
      modifies this`sent
      ensures sent == old(sent) + [reply] && error == results(|old(sent)|).ToError()
    {
      error := results(|sent|).ToError();
      sent := sent + [reply];
    }
  }

  // ---- Decoding a CHUNK message

  function Decode16(q: seq<byte>, i: nat): uint16
    requires i + 2 <= |q|
  {
    q[i] as int * 256 + q[i + 1]
  }

  function Decode32(q: seq<byte>, i: nat): uint32
    requires i + 4 <= |q|
  {
    Decode16(q, i) as int * 0x1_0000 + Decode16(q, i + 2)
  }

  datatype ChunkIndex = NoIndex | Index(value: uint16)

  // The result of scanning the options of a CHUNK message: the first is its CRC, the second its index.
  datatype Options = Options(crc: uint32, index: ChunkIndex, marker: nat)

  // The options from a position on are complete and followed by a payload marker that an 8-bit offset can reach.
  predicate Terminated(q: seq<byte>, pos: nat, option: nat)
    decreases |q| - pos
  {
    && pos < |q| && pos < 256
    && (q[pos] == 0xFF ||
        (&& (option == 0 ==> pos + 5 <= |q|)
         && (option == 1 ==> pos + 3 <= |q|)
         && Terminated(q, pos + q[pos] % 16 + 1, option + 1)))
  }

  function Scan(q: seq<byte>, pos: nat, option: nat, soFar: Options): Options
    requires Terminated(q, pos, option)
    decreases |q| - pos
  {
    if q[pos] == 0xFF then soFar.(marker := pos)
    else
      var next := if option == 0 then soFar.(crc := Decode32(q, pos + 1))
                  else if option == 1 then soFar.(index := Index(Decode16(q, pos + 1)))
                  else soFar;
      Scan(q, pos + q[pos] % 16 + 1, option + 1, next)
  }

  const FIRST_OPTION := 7

  function ScanOptions(q: seq<byte>): Options
    requires Terminated(q, FIRST_OPTION, 0)
  {
    Scan(q, FIRST_OPTION, 0, Options(0, NoIndex, 0))
  }

  function Payload(q: seq<byte>): seq<byte>
    requires Terminated(q, FIRST_OPTION, 0)
  {
    MarkerInside(q, FIRST_OPTION, 0, Options(0, NoIndex, 0));
    q[ScanOptions(q).marker + 1..]
  }

  lemma MarkerInside(q: seq<byte>, pos: nat, option: nat, soFar: Options)
    requires Terminated(q, pos, option)
    ensures Scan(q, pos, option, soFar).marker < |q|
    decreases |q| - pos
  {
  }

  // A fast OTA chunk: a 4-byte option with the CRC, a 2-byte option with the index, the marker, and the data.
  function FastChunk(header: seq<byte>, crcOption: byte, crc: uint32, indexOption: byte, index: uint16, data: seq<byte>):
    seq<byte>
  {
    header + [crcOption] + TwoBytes(crc / 0x1_0000) + TwoBytes(crc % 0x1_0000) + [indexOption] + TwoBytes(index)
    + [0xFF] + data
  }

  lemma FastChunkDecodes(header: seq<byte>, crcOption: byte, crc: uint32, indexOption: byte, index: uint16,
                         data: seq<byte>)
    requires |header| == 7 && crcOption % 16 == 4 && indexOption % 16 == 2
    ensures var q := FastChunk(header, crcOption, crc, indexOption, index, data);
            && Terminated(q, FIRST_OPTION, 0)
            && ScanOptions(q) == Options(crc, Index(index), 15)
            && Payload(q) == data
  {
    var q := FastChunk(header, crcOption, crc, indexOption, index, data);
    assert q[7] == crcOption && q[12] == indexOption && q[15] == 0xFF;
    assert q[8..12] == TwoBytes(crc / 0x1_0000) + TwoBytes(crc % 0x1_0000) && q[13..15] == TwoBytes(index);
    assert q[8] == q[8..12][0] && q[9] == q[8..12][1] && q[10] == q[8..12][2] && q[11] == q[8..12][3];
    assert q[13] == q[13..15][0] && q[14] == q[13..15][1];
    assert Terminated(q, 15, 2) && Terminated(q, 12, 1);
    assert Decode32(q, 8) == crc && Decode16(q, 13) == index;
    assert Scan(q, 15, 2, Options(crc, Index(index), 0)) == Options(crc, Index(index), 15);
    assert Scan(q, 12, 1, Options(crc, NoIndex, 0)) == Options(crc, Index(index), 15);
    assert q[16..] == data;
  }

  // A chunk of a transfer that is not fast has no index.
  function SlowChunk(header: seq<byte>, crcOption: byte, crc: uint32, data: seq<byte>): seq<byte> {
    header + [crcOption] + TwoBytes(crc / 0x1_0000) + TwoBytes(crc % 0x1_0000) + [0xFF] + data
  }

  lemma SlowChunkDecodes(header: seq<byte>, crcOption: byte, crc: uint32, data: seq<byte>)
    requires |header| == 7 && crcOption % 16 == 4
    ensures var q := SlowChunk(header, crcOption, crc, data);
            && Terminated(q, FIRST_OPTION, 0)
            && ScanOptions(q) == Options(crc, NoIndex, 12)
            && Payload(q) == data
  {
    var q := SlowChunk(header, crcOption, crc, data);
    assert q[7] == crcOption && q[12] == 0xFF;
    assert q[8..12] == TwoBytes(crc / 0x1_0000) + TwoBytes(crc % 0x1_0000);
    assert q[8] == q[8..12][0] && q[9] == q[8..12][1] && q[10] == q[8..12][2] && q[11] == q[8..12][3];
    assert Terminated(q, 12, 1);
    assert Decode32(q, 8) == crc;
    assert Scan(q, 12, 1, Options(crc, NoIndex, 0)) == Options(crc, NoIndex, 12);
    assert q[13..] == data;
  }

  // ---- Decoding UPDATE_BEGIN

  const NO_FILE := Descriptor(0, 0, 0, 0, 0)

  predicate HasDescriptor(q: seq<byte>) {
    |q| >= 20 && q[7] == 0xFF
  }

  function Announced(q: seq<byte>): Descriptor {
    if HasDescriptor(q) then
      Descriptor(Decode16(q, 9), Decode32(q, 11), q[15], Decode32(q, 16), Decode32(q, 16))
    else NO_FILE
  }

  // UPDATE_BEGIN as the server sends it.
  function BeginMessage(header: seq<byte>, flags: byte, d: Descriptor): seq<byte> {
    header + [0xFF, flags] + TwoBytes(d.chunkSize)
    + TwoBytes(d.fileLength / 0x1_0000) + TwoBytes(d.fileLength % 0x1_0000) + [d.store]
    + TwoBytes(d.fileAddress / 0x1_0000) + TwoBytes(d.fileAddress % 0x1_0000)
  }

  // Its descriptor is read back field by field, and its first flag asks for the fast transfer.
  lemma BeginMessageDecodes(header: seq<byte>, flags: byte, d: Descriptor)
    requires |header| == 7 && d.chunkAddress == d.fileAddress
    ensures var q := BeginMessage(header, flags, d);
            HasDescriptor(q) && Announced(q) == d && q[8] == flags && |q| == 20
  {
    var q := BeginMessage(header, flags, d);
    assert q[9..11] == TwoBytes(d.chunkSize) && q[15] == d.store;
    assert q[11..13] == TwoBytes(d.fileLength / 0x1_0000) && q[13..15] == TwoBytes(d.fileLength % 0x1_0000);
    assert q[16..18] == TwoBytes(d.fileAddress / 0x1_0000) && q[18..20] == TwoBytes(d.fileAddress % 0x1_0000);
    Decodes16(q, 9, d.chunkSize);
    Decodes16(q, 11, d.fileLength / 0x1_0000);
    Decodes16(q, 13, d.fileLength % 0x1_0000);
    Decodes16(q, 16, d.fileAddress / 0x1_0000);
    Decodes16(q, 18, d.fileAddress % 0x1_0000);
  }

  lemma Decodes16(q: seq<byte>, i: nat, n: uint16)
    requires i + 2 <= |q| && q[i..i + 2] == TwoBytes(n)
    ensures Decode16(q, i) == n
  {
    assert q[i] == q[i..i + 2][0] && q[i + 1] == q[i..i + 2][1];
  }

  // ---- The commits among the calls of finish_firmware_update

  function Commits(finished: seq<Finish>): seq<Flash> {
    if finished == [] then []
    else
      var front, last := finished[..|finished| - 1], finished[|finished| - 1];
      match last
      case Commit(flash) => Commits(front) + [flash]
      case _ => Commits(front)
  }

  lemma CommitsAfter(finished: seq<Finish>, last: Finish)
    ensures Commits(finished + [last]) == Commits(finished) + if last.Commit? then [last.flash] else []
  {
    assert (finished + [last])[..|finished|] == finished;
  }

  lemma TakenPrefix(all: seq<nat>, asked: seq<nat>, rest: seq<nat>, n: nat)
    requires all == asked + rest && |asked| <= n && (rest == [] || |asked| == n)
    ensures asked == Take(all, n)
  {
  }

  lemma OneMore(all: seq<nat>, asked: seq<nat>, rest: seq<nat>, next: nat, tail: seq<nat>)
    requires all == asked + rest && rest == [next] + tail
    ensures all == (asked + [next]) + tail
  {
  }

  method NewRequest(n: nat) returns (buf: array<byte>)
    ensures fresh(buf) && buf.Length == 7 + n * 2 && buf[..7] == REQUEST_HEADER + BigEndian([])
  {
    buf := new byte[7 + n * 2](_ => 0);
    buf[0], buf[1], buf[2], buf[3], buf[4], buf[5], buf[6] := 0x40, 0x01, 0, 0, 0xb1, 'c' as int, 0xff;
  }

  // Appends an index to the request in a buffer.
  method PutIndex(buf: array<byte>, sent: nat, index: uint16, ghost asked: seq<nat>)
    requires 9 + 2 * sent <= buf.Length && sent == |asked|
    requires Words16(asked)
    requires buf[..7 + 2 * sent] == REQUEST_HEADER + BigEndian(asked)
    modifies buf
    ensures Words16(asked + [index])
    ensures buf[..7 + 2 * (sent + 1)] == REQUEST_HEADER + BigEndian(asked + [index])
  {
    buf[sent * 2 + 7] := index / 256;
    buf[sent * 2 + 8] := index % 256;
    assert (asked + [index])[..sent] == asked;
    assert buf[..9 + 2 * sent] == buf[..7 + 2 * sent] + TwoBytes(index);
    assert buf[..7 + 2 * sent] == REQUEST_HEADER + BigEndian(asked);
  }

  // The search for a missing chunk from a start index on reads only bits that the bitmap has.
  ghost predicate StaysInside(bits: seq<bv8>, start: nat, chunks: nat)
    decreases chunks - start
  {
    start < chunks ==> start < 8 * |bits| && (start in Received(bits) ==> StaysInside(bits, start + 1, chunks))
  }

  // That is so exactly when the bitmap is long enough for the chunks, or holds a clear bit that ends the search.
  lemma {:induction false} StaysInsideExactly(bits: seq<bv8>, start: nat, chunks: nat)
    ensures StaysInside(bits, start, chunks) <==>
              start >= chunks || chunks <= 8 * |bits| || exists i :: start <= i < 8 * |bits| && i !in Received(bits)
    decreases chunks - start
  {
    if start < chunks && start < 8 * |bits| && start in Received(bits) {
      StaysInsideExactly(bits, start + 1, chunks);
    }
  }

  class ChunkedTransfer {
    const callbacks: Callbacks
    var updating: nat              // 0: no update, 1: receiving, 2: missing chunks have been requested
    var file: Descriptor
    var missedChunkIndex: uint16   // the last chunk that was requested again
    var chunkCount: uint16         // the chunks in the current flight
    var chunkIndex: uint16
    var chunkSize: uint16
    var bitmap: array?<bv8>
    var fastOtaOverride: bool
    var fastOtaValue: bool
    ghost var requests: seq<seq<nat>>
    ghost var origin: Ota          // the state when the last UPDATE_BEGIN or reset had been handled
    ghost var events: seq<Event>   // and what has happened since

    // The number of chunks, as the 16-bit index of the search loop sees it.
    function Chunks(): nat
      reads this`file, this`chunkSize
    {
      Low16(ChunkCount(file.fileLength, chunkSize))
    }

    // The bitmap has a bit for every chunk.
    ghost predicate HasBits()
      reads this`file, this`chunkSize, this`bitmap
    {
      Chunks() > 0 ==> bitmap != null && Chunks() <= 8 * bitmap.Length
    }

    ghost function Bits(): seq<bv8>
      reads this`bitmap, bitmap
    {
      if bitmap == null then [] else bitmap[..]
    }

    // The missing chunks from a start index on.
    ghost function MissingFrom(start: nat): seq<nat>
      reads this`file, this`chunkSize, this`bitmap, bitmap
    {
      Missing(Received(Bits()), start, Chunks())
    }

    ghost function View(): Ota
      reads this, bitmap, callbacks
    {
      Ota(updating != 0, Received(Bits()), chunkCount, callbacks.flash, Commits(callbacks.finished), requests)
    }

    // The transfer as far as this object knows it: the image is not known.
    ghost function Shape(): Job
      reads this`file, this`chunkSize
    {
      Job(file.fileAddress, [], chunkSize, Chunks())
    }

    // The state is what the events since the last UPDATE_BEGIN or reset have made of it.
    ghost predicate Logged()
      reads this, bitmap, callbacks
    {
      View() == Run(Shape(), origin, events)
    }

    // During an update there is a bit for every chunk.
    ghost predicate Valid()
      reads this, bitmap, callbacks
    {
      Logged() && (updating != 0 ==> HasBits())
    }

    // The theorem about runs, for this object: flash holds the image at every commit since the last UPDATE_BEGIN.
    // At the start of a fast transfer no chunk is flagged, so origin is safe. It is safe as well after an UPDATE_BEGIN
    // that did not start a transfer, when the one in progress was safe before it.
    lemma CommitsAreWhole(job: Job)
      requires Valid() && Embraces(Shape(), job) && Safe(job, origin) && forall e :: e in events ==> Genuine(job, e)
      ensures Safe(job, View())
      ensures origin.commits <= View().commits && CommitsWholeFrom(job, View().commits, |origin.commits|)
    {
      CommitsAreComplete(job, Shape(), origin, events);
    }

    ghost method Log(e: Event)
      modifies this`events
      ensures events == old(events) + [e]
    {
      events := events + [e];
    }

    // A new transfer, or none, from here on.
    ghost method RestartLog()
      modifies this`origin, this`events
      ensures origin == View() && events == [] && Logged()
    {
      origin, events := View(), [];
    }

    constructor (callbacks: Callbacks)
      ensures Valid() && this.callbacks == callbacks && updating == 0 && bitmap == null && !fastOtaOverride
      ensures chunkSize == 0
    {
      this.callbacks := callbacks;
      updating, file, missedChunkIndex, chunkCount, chunkIndex, chunkSize := 0, NO_FILE, 0, 0, 0, 0;
      bitmap := null;
      fastOtaOverride, fastOtaValue := false, true;
      requests := [];
      origin, events := Ota(false, {}, 0, callbacks.flash, Commits(callbacks.finished), []), [];
    }

    method SetFastOta(data: nat)
      modifies this`fastOtaValue, this`fastOtaOverride
      ensures fastOtaOverride && (fastOtaValue <==> data > 0)
    {
      fastOtaValue := data > 0;
      fastOtaOverride := true;
    }

    method ResetUpdating()
      modifies this`updating, this`origin, this`events
      ensures updating == 0 && Valid() && View() == old(View()).(active := false)
    {
      updating := 0;
      RestartLog();
    }

    // Drops the bitmap, but not the file: see SearchAfterReset.
    method Reset()
      modifies this`updating, this`bitmap, this`origin, this`events
      ensures updating == 0 && bitmap == null && Valid()
    {
      ResetUpdating();
      bitmap := null;
      RestartLog();
    }

    method IsChunkReceived(i: uint16) returns (received: bool)
      requires i < 8 * |Bits()|
      ensures received <==> i in View().received
    {
      received := Bit(bitmap[i / 8], i % 8);
      assert Bits()[i / 8] == bitmap[i / 8];
    }

    method FlagChunkReceived(i: uint16)
      requires bitmap != null && i < 8 * bitmap.Length
      modifies bitmap
      ensures View() == old(View()).(received := old(View()).received + {i})
    {
      FlaggedIsReceived(bitmap[..], i);
      ghost var before := bitmap[..];
      bitmap[i / 8] := SetBit(bitmap[i / 8], i % 8);
      assert bitmap[..] == before[i / 8 := SetBit(before[i / 8], i % 8)];
    }

    // The missing chunks from the next one on, if any.
    ghost function Rest(next: uint16): seq<nat>
      reads this`file, this`chunkSize, this`bitmap, bitmap
    {
      if next == NO_CHUNKS_MISSING then [] else MissingFrom(next)
    }

    lemma HasBitsForAll()
      requires HasBits()
      ensures forall start: nat :: StaysInside(Bits(), start, Chunks())
    {
      forall start: nat
        ensures StaysInside(Bits(), start, Chunks())
      {
        StaysInsideExactly(Bits(), start, Chunks());
      }
    }

    // The first missing chunk from a start index on.
    method NextChunkMissing(start: uint16) returns (chunk: uint16)
      requires StaysInside(Bits(), start, Chunks())
      ensures chunk == if MissingFrom(start) == [] then NO_CHUNKS_MISSING else MissingFrom(start)[0]
      ensures Rest(chunk) == MissingFrom(start)
      ensures chunk != NO_CHUNKS_MISSING ==> chunk < Chunks() && Rest(chunk) == [chunk] + MissingFrom(chunk + 1)
    {
      hide Received, Commits;
      chunk := NO_CHUNKS_MISSING;
      var chunks := Chunks();
      var i := start;
      while i < chunks
        invariant start <= i
        invariant MissingFrom(start) == MissingFrom(i) && StaysInside(Bits(), i, chunks)
      {
        var received := IsChunkReceived(i);
        if !received {
          chunk := i;
          break;
        }
        i := i + 1;
      }
    }

    // The loop in send_missing_chunks: the request in the buffer asks for some of all missing chunks; i is the next one.
    ghost predicate Collected(buf: array<byte>, asked: seq<nat>, all: seq<nat>, i: uint16)
      reads buf, this`file, this`chunkSize, this`bitmap, bitmap
    {
      && (var b: object? := bitmap; b != buf) && HasBits()
      && Words16(asked) && 7 + 2 * |asked| <= buf.Length
      && buf[..7 + 2 * |asked|] == REQUEST_HEADER + BigEndian(asked)
      && all == asked + Rest(i)
      && (i != NO_CHUNKS_MISSING ==> i < Chunks() && Rest(i) == [i] + MissingFrom(i + 1))
    }

    method StartRequest(n: nat) returns (buf: array<byte>, i: uint16)
      requires HasBits()
      ensures fresh(buf) && buf.Length == 7 + 2 * n && Collected(buf, [], MissingFrom(0), i)
    {
      hide Received, MissingFrom, BigEndian;
      buf := NewRequest(n);
      StaysInsideExactly(Bits(), 0, Chunks());
      i := NextChunkMissing(0);
      assert [] + Rest(i) == Rest(i);
    }

    // One turn: appends the missing chunk and searches for the next one.
    method AskForOne(buf: array<byte>, sent: nat, i: uint16, ghost asked: seq<nat>, ghost all: seq<nat>)
      returns (next: uint16)
      requires Collected(buf, asked, all, i) && i != NO_CHUNKS_MISSING && sent == |asked| && 9 + 2 * sent <= buf.Length
      modifies buf, this`missedChunkIndex
      ensures Collected(buf, asked + [i], all, next) && missedChunkIndex == i
    {
      hide Received, MissingFrom, BigEndian, Words16;
      OneMore(all, asked, Rest(i), i, MissingFrom(i + 1));
      PutIndex(buf, sent, i, asked);
      missedChunkIndex := i;
      StaysInsideExactly(Bits(), i + 1, Chunks());
      next := NextChunkMissing(i + 1);
    }

    lemma CollectedEnough(buf: array<byte>, asked: seq<nat>, all: seq<nat>, i: uint16, n: nat)
      requires Collected(buf, asked, all, i) && |asked| <= n && (i == NO_CHUNKS_MISSING || |asked| == n)
      ensures asked == Take(all, n) && Words16(asked) && 7 + 2 * |asked| <= buf.Length
      ensures buf[..7 + 2 * |asked|] == REQUEST_HEADER + BigEndian(asked)
    {
      hide Received, MissingFrom, BigEndian, Words16;
      TakenPrefix(all, asked, Rest(i), n);
    }

    // Writes the request for the first missing chunks, at most n of them.
    method CollectMissing(n: nat) returns (buf: array<byte>, sent: nat, ghost asked: seq<nat>)
      requires HasBits()
      modifies this`missedChunkIndex
      ensures asked == Take(MissingFrom(0), n) && sent == |asked| && Words16(asked)
      ensures fresh(buf) && 7 + 2 * sent <= buf.Length && buf[..7 + 2 * sent] == REQUEST_HEADER + BigEndian(asked)
      ensures missedChunkIndex == if sent > 0 then asked[sent - 1] else old(missedChunkIndex)
    {
      hide Collected, Take, MissingFrom, BigEndian, Words16;
      ghost var all := MissingFrom(0);
      var i: uint16;
      buf, i := StartRequest(n);
      sent, asked := 0, [];
      while i != NO_CHUNKS_MISSING && sent < n
        invariant sent == |asked| <= n && Collected(buf, asked, all, i)
        invariant missedChunkIndex == if sent > 0 then asked[sent - 1] else old(missedChunkIndex)
        decreases n - sent
      {
        ghost var last := i;
        i := AskForOne(buf, sent, i, asked, all);
        asked := asked + [last];
        sent := sent + 1;
      }
      CollectedEnough(buf, asked, all, i, n);
    }

    // Asks for the first missing chunks again, at most n of them, in one message.
    method SendMissingChunks(channel: Peer, n: nat) returns (error: ProtocolError)
      requires HasBits()
      modifies this`missedChunkIndex, this`requests, channel`sent
      ensures var asked := Take(MissingFrom(0), n);
              && requests == old(requests) + [asked]
              && Words16(asked)
              && (if asked == [] then channel.sent == old(channel.sent) && error == NoError
                  else channel.sent == old(channel.sent) + [MissingChunks(REQUEST_HEADER + BigEndian(asked))]
                       && error == channel.results(|old(channel.sent)|).ToError()
                       && missedChunkIndex == asked[|asked| - 1])
    {
      hide Received, Commits, Take, MissingFrom, Words16;
      var buf, sent, asked := CollectMissing(n);
      requests := requests + [asked];
      error := NoError;
      if sent > 0 {
        error := channel.Send(MissingChunks(buf[..7 + sent * 2]));
      }
    }

    // ---- CHUNK

    // The index of the chunk in a message: in slow transfers it is not in the message.
    function IndexOf(q: seq<byte>): uint16
      requires Terminated(q, FIRST_OPTION, 0)
      reads this`chunkIndex
    {
      match ScanOptions(q).index
      case NoIndex => chunkIndex
      case Index(i) => i
    }

    predicate CrcValid(q: seq<byte>)
      requires Terminated(q, FIRST_OPTION, 0)
    {
      callbacks.crc(Payload(q)) == ScanOptions(q).crc
    }

    // What the callers of handle_chunk take for granted about a message: its chunk starts at an offset that is an int,
    // and when the check sum is right the bitmap has a bit for its index.
    ghost predicate Acceptable(q: seq<byte>)
      reads this, bitmap
    {
      && Terminated(q, FIRST_OPTION, 0) && |Payload(q)| < 0x1_0000
      && IndexOf(q) * chunkSize < HALF_TICKS
      && (IndexOf(q) < MAX_CHUNKS && CrcValid(q) ==> IndexOf(q) < 8 * |Bits()|)
    }

    // Reads the options of a CHUNK message up to the payload marker.
    method ReadOptions(q: seq<byte>) returns (crc: uint32, fast: bool, payload: nat)
      requires Terminated(q, FIRST_OPTION, 0)
      modifies this`chunkIndex
      ensures crc == ScanOptions(q).crc && payload == ScanOptions(q).marker < |q| && q[payload + 1..] == Payload(q)
      ensures fast <==> ScanOptions(q).index.Index?
      ensures chunkIndex == old(IndexOf(q))
    {
      crc, fast, payload := 0, false, FIRST_OPTION;
      var option := 0;
      ghost var scanned := Options(0, NoIndex, 0);
      MarkerInside(q, FIRST_OPTION, 0, scanned);
      while q[payload] != 0xFF
        invariant Terminated(q, payload, option)
        invariant Scan(q, payload, option, scanned) == ScanOptions(q)
        invariant crc == scanned.crc && (fast <==> scanned.index.Index?)
        invariant chunkIndex == if fast then scanned.index.value else old(chunkIndex)
        decreases |q| - payload
      {
        if option == 0 {
          crc := Decode32(q, payload + 1);
          scanned := scanned.(crc := crc);
        } else if option == 1 {
          chunkIndex := Decode16(q, payload + 1);
          fast := true;
          scanned := scanned.(index := Index(chunkIndex));
        }
        option := option + 1;
        payload := payload + q[payload] % 16 + 1;
      }
    }

    // Saves the data of a chunk, or reports that it is broken.
    method SaveChunk(channel: Peer, token: byte, crc: uint32, fast: bool, chunk: seq<byte>)
      returns (error: ProtocolError)
      requires updating != 0
      requires |chunk| < 0x1_0000 && chunkIndex * chunkSize < HALF_TICKS
      requires chunkIndex < MAX_CHUNKS && callbacks.crc(chunk) == crc ==>
                 bitmap != null && chunkIndex < 8 * bitmap.Length
      modifies this`file, this`chunkIndex, bitmap, callbacks`flash, channel`sent
      ensures var address := ChunkAddress(old(file.fileAddress), old(chunkIndex), chunkSize);
              file == old(file).(chunkSize := |chunk|, chunkAddress := address)
      ensures var saved := old(chunkIndex) < MAX_CHUNKS && callbacks.crc(chunk) == crc;
              && chunkIndex == (if saved then old(chunkIndex) + 1 else old(chunkIndex))
              && View() == AcceptChunk(old(Shape()), old(View()), old(chunkIndex), chunk, callbacks.crc(chunk) == crc)
      ensures if fast || old(chunkIndex) >= MAX_CHUNKS then channel.sent == old(channel.sent) && error == NoError
              else channel.sent == old(channel.sent) + [ChunkReceived(token, callbacks.crc(chunk) == crc)]
                   && error == channel.results(|old(channel.sent)|).ToError()
    {
      hide Received, Commits, Write;
      error := NoError;
      file := file.(chunkSize := |chunk|, chunkAddress := ChunkAddress(file.fileAddress, chunkIndex, chunkSize));
      if chunkIndex >= MAX_CHUNKS {
        return;
      }
      var valid := callbacks.crc(chunk) == crc;
      if valid {
        callbacks.SaveFirmwareChunk(file, chunk);
        FlagChunkReceived(chunkIndex);
        chunkIndex := chunkIndex + 1;
      }
      if !fast {
        error := channel.Send(ChunkReceived(token, valid));
      }
    }

    predicate IsFast(q: seq<byte>)
      requires Terminated(q, FIRST_OPTION, 0)
    {
      ScanOptions(q).index.Index?
    }

    // The result of the last transmission since there were n.
    ghost function LastError(channel: Peer, n: nat): ProtocolError
      reads channel
    {
      if |channel.sent| <= n then NoError else channel.results(|channel.sent| - 1).ToError()
    }

    // What a CHUNK message does to the transfer: outside fast transfers it must be acknowledged before it is saved.
    ghost function ChunkEvent(q: seq<byte>, acknowledged: bool): Event
      requires Terminated(q, FIRST_OPTION, 0)
      reads this
    {
      Chunk(IndexOf(q), Payload(q), CrcValid(q) && (IsFast(q) || acknowledged))
    }

    // What is sent in answer to a CHUNK message.
    ghost function ChunkReplies(token: byte, q: seq<byte>, acknowledged: bool): seq<Reply>
      requires Terminated(q, FIRST_OPTION, 0) && |q| >= MINIMUM_COAP_MESSAGE_LENGTH
      reads this
    {
      if IsFast(q) then []
      else if !acknowledged || IndexOf(q) >= MAX_CHUNKS then [EmptyAck(IdOf(q))]
      else [EmptyAck(IdOf(q)), ChunkReceived(token, CrcValid(q))]
    }

    lemma InactiveIgnoresChunks(job: Job, s: Ota)
      requires !s.active
      ensures Step(job, s, Chunk(0, [], false)) == s.(flight := Low16(s.flight + 1))
    {
    }

    lemma NothingAccepted(job: Job, s: Ota, index: uint16, payload: seq<byte>)
      ensures AcceptChunk(job, s, index, payload, false) == s
    {
    }

    // The part of handle_chunk that follows the test that an update is in progress.
    method AcceptWhileUpdating(token: byte, q: seq<byte>, channel: Peer) returns (error: ProtocolError)
      requires updating != 0 && |q| >= MINIMUM_COAP_MESSAGE_LENGTH && Acceptable(q)
      modifies this`file, this`chunkIndex, bitmap, callbacks`flash, channel`sent
      ensures Shape() == old(Shape())
      ensures var acknowledged := channel.results(|old(channel.sent)|).Accepted?;
              var e := old(ChunkEvent(q, acknowledged));
              && View() == AcceptChunk(old(Shape()), old(View()), e.index, e.payload, e.crcValid)
              && chunkIndex == e.index + (if e.crcValid && e.index < MAX_CHUNKS then 1 else 0)
              && channel.sent == old(channel.sent) + old(ChunkReplies(token, q, acknowledged))
              && error == LastError(channel, |old(channel.sent)|)
    {
      hide Received, Commits, Write, ScanOptions, Terminated, Payload, ChunkAddress, AcceptChunk;
      NothingAccepted(Shape(), View(), IndexOf(q), Payload(q));
      var crc, fast, payload := ReadOptions(q);
      if !fast {
        error := channel.Send(EmptyAck(IdOf(q)));
        if error != NoError {
          return;
        }
      }
      error := SaveChunk(channel, token, crc, fast, q[payload + 1..]);
    }

    method HandleChunk(token: byte, q: seq<byte>, channel: Peer) returns (error: ProtocolError)
      requires Valid() && |q| >= MINIMUM_COAP_MESSAGE_LENGTH && (updating != 0 ==> Acceptable(q))
      modifies this`chunkCount, this`file, this`chunkIndex, this`events, bitmap, callbacks`flash, channel`sent
      ensures Valid() && Shape() == old(Shape()) && origin == old(origin)
      ensures old(updating) == 0 ==>
                && View() == old(View()).(flight := Low16(old(chunkCount) + 1))
                && channel.sent == old(channel.sent) && error == NoError
                && events == old(events) + [Chunk(0, [], false)]
      ensures old(updating) != 0 ==>
                var acknowledged := channel.results(|old(channel.sent)|).Accepted?;
                var e := old(ChunkEvent(q, acknowledged));
                && View() == Step(old(Shape()), old(View()), e) && events == old(events) + [e]
                && chunkIndex == e.index + (if e.crcValid && e.index < MAX_CHUNKS then 1 else 0)
                && channel.sent == old(channel.sent) + old(ChunkReplies(token, q, acknowledged))
                && error == LastError(channel, |old(channel.sent)|)
    {
      hide Received, Commits, Write, Terminated, ScanOptions, AcceptChunk, Run;
      chunkCount := Low16(chunkCount + 1);
      error := NoError;
      ghost var e := Chunk(0, [], false);
      if updating != 0 {
        e := ChunkEvent(q, channel.results(|channel.sent|).Accepted?);
        error := AcceptWhileUpdating(token, q, channel);
      } else {
        InactiveIgnoresChunks(Shape(), old(View()));
      }
      RunAppend(Shape(), origin, events, e);
      Log(e);
    }

    // ---- UPDATE_DONE

    // What is sent in answer to UPDATE_DONE.
    ghost function DoneReplies(token: byte, acknowledged: bool): seq<Reply>
      reads this, bitmap
    {
      var missing := MissingFrom(0);
      var asked := Take(missing, RequestLimit(chunkCount));
      [UpdateResult(token, missing == [])]
      + if acknowledged && updating != 0 && missing != [] && Words16(asked)
        then [MissingChunks(REQUEST_HEADER + BigEndian(asked))] else []
    }

    // The part of handle_update_done that follows the acknowledgement, when an update is in progress.
    method CommitOrAsk(missing: bool, channel: Peer) returns (error: ProtocolError)
      requires HasBits() && updating != 0 && (missing <==> MissingFrom(0) != [])
      modifies this`updating, this`chunkCount, this`missedChunkIndex, this`requests, callbacks`finished, channel`sent
      ensures View() == Step(Shape(), old(View()), UpdateDone(true))
      ensures updating == (if missing then 2 else 0)
      ensures callbacks.finished == old(callbacks.finished) + if missing then [] else [Commit(callbacks.flash)]
      ensures var asked := Take(MissingFrom(0), RequestLimit(old(chunkCount)));
              if missing then
                && Words16(asked)
                && channel.sent == old(channel.sent) + [MissingChunks(REQUEST_HEADER + BigEndian(asked))]
                && error == channel.results(|old(channel.sent)|).ToError()
              else channel.sent == old(channel.sent) && error == NoError
    {
      hide Received, Missing, Words16, BigEndian, Commits;
      error := NoError;
      if !missing {
        updating := 0;
        CommitsAfter(callbacks.finished, Commit(callbacks.flash));
        callbacks.FinishFirmwareUpdate(flash => Commit(flash));
      } else {
        updating := 2;
        var increase := Max(chunkCount / 5, MINIMUM_CHUNK_INCREASE);
        var n := Min(chunkCount + increase, MISSED_CHUNKS_TO_SEND);
        chunkCount := 0;
        error := SendMissingChunks(channel, n);
      }
    }

    // The search for a missing chunk, the validation of a complete file, and the acknowledgement.
    method Acknowledge(token: byte, channel: Peer) returns (missing: bool, error: ProtocolError)
      requires if updating == 0 then StaysInside(Bits(), 0, Chunks()) else HasBits()
      modifies callbacks`finished, channel`sent
      ensures View() == old(View()) && (missing <==> MissingFrom(0) != [])
      ensures channel.sent == old(channel.sent) + [UpdateResult(token, !missing)]
      ensures error == channel.results(|old(channel.sent)|).ToError()
      ensures callbacks.finished == old(callbacks.finished) + if missing then [] else [Validate(callbacks.flash)]
    {
      hide Received, Missing, Commits, StaysInside;
      if updating != 0 {
        HasBitsForAll();
      }
      var next := NextChunkMissing(0);
      missing := next != NO_CHUNKS_MISSING;
      if !missing {
        CommitsAfter(callbacks.finished, Validate(callbacks.flash));
        callbacks.FinishFirmwareUpdate(flash => Validate(flash));
      }
      error := channel.Send(UpdateResult(token, !missing));
    }

    method AnswerUpdateDone(token: byte, channel: Peer) returns (error: ProtocolError)
      requires if updating == 0 then StaysInside(Bits(), 0, Chunks()) else HasBits()
      modifies this`updating, this`chunkCount, this`missedChunkIndex, this`requests, callbacks`finished, channel`sent
      ensures var acknowledged := channel.results(|old(channel.sent)|).Accepted?;
              && View() == Step(Shape(), old(View()), UpdateDone(acknowledged))
              && channel.sent == old(channel.sent) + old(DoneReplies(token, acknowledged))
              && error == LastError(channel, |old(channel.sent)|)
              && updating == (if !acknowledged || old(updating) == 0 then old(updating)
                              else if MissingFrom(0) == [] then 0 else 2)
              && callbacks.finished == old(callbacks.finished)
                   + (if MissingFrom(0) == [] then [Validate(callbacks.flash)] else [])
                   + (if MissingFrom(0) == [] && acknowledged && old(updating) != 0 then [Commit(callbacks.flash)] else [])
    {
      hide Received, Missing, Words16, BigEndian, Commits, RequestLimit, Take, StaysInside;
      var missing;
      missing, error := Acknowledge(token, channel);
      if error != NoError || updating == 0 {
        return;
      }
      error := CommitOrAsk(missing, channel);
    }

    // Outside an update the bitmap may be missing or too short for the file. The search for missing chunks, which comes
    // before the test that an update is in progress, must then find one inside the bitmap.
    method HandleUpdateDone(token: byte, channel: Peer) returns (error: ProtocolError)
      requires Valid() && (updating == 0 ==> StaysInside(Bits(), 0, Chunks()))
      modifies this`updating, this`chunkCount, this`missedChunkIndex, this`requests, this`events
      modifies callbacks`finished, channel`sent
      ensures Valid() && Shape() == old(Shape()) && origin == old(origin)
      ensures var acknowledged := channel.results(|old(channel.sent)|).Accepted?;
              && View() == Step(Shape(), old(View()), UpdateDone(acknowledged))
              && events == old(events) + [UpdateDone(acknowledged)]
              && channel.sent == old(channel.sent) + old(DoneReplies(token, acknowledged))
              && error == LastError(channel, |old(channel.sent)|)
              && updating == (if !acknowledged || old(updating) == 0 then old(updating)
                              else if MissingFrom(0) == [] then 0 else 2)
              && callbacks.finished == old(callbacks.finished)
                   + (if MissingFrom(0) == [] then [Validate(callbacks.flash)] else [])
                   + (if MissingFrom(0) == [] && acknowledged && old(updating) != 0 then [Commit(callbacks.flash)] else [])
    {
      hide Run;
      error := AnswerUpdateDone(token, channel);
      ghost var e := UpdateDone(channel.results(|old(channel.sent)|).Accepted?);
      RunAppend(Shape(), origin, events, e);
      Log(e);
    }

    // After a reset, UPDATE_DONE is safe exactly when the file that was left has no chunks.
    lemma SearchAfterReset()
      requires bitmap == null
      ensures StaysInside(Bits(), 0, Chunks()) <==> Chunks() == 0
    {
      StaysInsideExactly(Bits(), 0, Chunks());
    }

    // ---- UPDATE_BEGIN

    // Is the fast transfer to be used? An override of the application beats the flag of the server.
    function WantsFast(q: seq<byte>): bool
      reads this`fastOtaOverride, this`fastOtaValue
    {
      HasDescriptor(q) && if fastOtaOverride then fastOtaValue else q[8] % 2 == 1
    }

    // An override decides; without one the first flag of the message does. A message without a descriptor is not fast.
    lemma WantsFastExactly(header: seq<byte>, flags: byte, d: Descriptor, q: seq<byte>)
      requires |header| == 7 && d.chunkAddress == d.fileAddress
      ensures WantsFast(BeginMessage(header, flags, d)) <==> if fastOtaOverride then fastOtaValue else flags % 2 == 1
      ensures |q| < 20 || q[7] != 0xFF ==> !WantsFast(q) && Announced(q) == NO_FILE
    {
      BeginMessageDecodes(header, flags, d);
    }

    // The answers of the application to the two calls of prepare_for_firmware_update.
    ghost function Rehearsed(q: seq<byte>): (bool, Descriptor) {
      callbacks.prepare(Announced(q), true)
    }

    ghost predicate Admitted(q: seq<byte>) {
      var (ok, d) := Rehearsed(q);
      ok && ChunkCount(d.fileLength, d.chunkSize) < MAX_CHUNKS
    }

    // A file is admitted exactly when the application takes it and it has fewer chunks than there are indices, without the
    // one that stands for no chunk.
    lemma AdmittedExactly(q: seq<byte>)
      ensures Admitted(q) <==>
                var (ok, d) := callbacks.prepare(Announced(q), true);
                ok && ChunkCount(d.fileLength, d.chunkSize) < 0xFFFF
    {
    }

    ghost function Prepared(q: seq<byte>): (bool, Descriptor) {
      callbacks.prepare(Rehearsed(q).1, false)
    }

    // A transfer has just begun: there is a bit for every chunk, and they are all clear or, in a slow transfer, all set.
    ghost predicate Started(fast: bool)
      reads this`updating, this`chunkIndex, this`chunkSize, this`file, this`bitmap, bitmap
    {
      && updating == 1 && chunkIndex == 0 && chunkSize == file.chunkSize && HasBits()
      && bitmap != null && bitmap.Length == (ChunkCount(file.fileLength, chunkSize) + 7) / 8
      && Chunks() <= ChunkCount(file.fileLength, chunkSize) <= 8 * bitmap.Length
      && if fast then Received(Bits()) == {} else MissingFrom(0) == []
    }

    method SetChunksReceived(value: bv8)
      requires bitmap != null
      modifies bitmap
      ensures forall k :: 0 <= k < bitmap.Length ==> bitmap[k] == value
    {
      var k := 0;
      while k < bitmap.Length
        invariant k <= bitmap.Length && forall j :: 0 <= j < k ==> bitmap[j] == value
      {
        bitmap[k] := value;
        k := k + 1;
      }
    }

    method StartUpdate(fast: bool)
      modifies this`chunkIndex, this`chunkSize, this`updating, this`bitmap
      ensures Started(fast) && updating == 1 && fresh(bitmap)
    {
      hide Received, Missing, ChunkCount;
      chunkIndex := 0;
      chunkSize := file.chunkSize;
      updating := 1;
      var bytes := (ChunkCount(file.fileLength, chunkSize) + 7) / 8;
      bitmap := new bv8[bytes];
      SetChunksReceived(if fast then 0 else 0xFF);
      if fast {
        AllZero(Bits());
      } else {
        AllOnes(Bits());
        AllReceived(Received(Bits()), 0, Chunks());
      }
    }

    // Asks the application to prepare for the file, which it may change.
    method Prepare(dryRun: bool) returns (success: bool)
      modifies this`file
      ensures (success, file) == callbacks.prepare(old(file), dryRun)
    {
      var answer := callbacks.prepare(file, dryRun);
      success, file := answer.0, answer.1;
    }

    // The part of handle_update_begin that follows the acknowledgement of an admitted file.
    method StartIfPrepared(token: byte, fast: bool, channel: Peer) returns (error: ProtocolError)
      modifies this`file, this`chunkIndex, this`chunkSize, this`updating, this`bitmap, channel`sent
      ensures file == callbacks.prepare(old(file), false).1
      ensures if callbacks.prepare(old(file), false).0 then
                && channel.sent == old(channel.sent) + [UpdateReady(token, fast)]
                && error == channel.results(|old(channel.sent)|).ToError()
                && Started(fast) && updating == 1 && fresh(bitmap)
              else
                && channel.sent == old(channel.sent) && error == NoError
                && unchanged(this`chunkIndex, this`chunkSize, this`bitmap, this`updating)
    {
      hide Started;
      error := NoError;
      var prepared := Prepare(false);
      if prepared {
        StartUpdate(fast);
        error := channel.Send(UpdateReady(token, fast));
      }
    }

    method BeginUpdate(token: byte, q: seq<byte>, channel: Peer) returns (error: ProtocolError)
      requires |q| >= MINIMUM_COAP_MESSAGE_LENGTH
      modifies this`chunkCount, this`file, this`chunkIndex, this`chunkSize, this`updating, this`bitmap, channel`sent
      ensures chunkCount == 0
      ensures var admitted := Admitted(q) && channel.results(|old(channel.sent)|).Accepted?;
              var started := admitted && Prepared(q).0;
              && file == (if admitted then Prepared(q).1 else Rehearsed(q).1)
              && updating == (if started then 1 else old(updating))
              && channel.sent == old(channel.sent)
                 + [if Admitted(q) then EmptyAck(IdOf(q)) else Unavailable(token, IdOf(q))]
                 + (if started then [UpdateReady(token, WantsFast(q))] else [])
              && error == LastError(channel, |old(channel.sent)|)
              && (started ==> Started(WantsFast(q)) && fresh(bitmap))
              && (!started ==> unchanged(this`chunkIndex, this`chunkSize, this`bitmap)
                               && View() == old(View()).(flight := 0))
    {
      hide Received, Missing, ChunkCount, Announced, WantsFast, Commits, Started;
      chunkCount := 0;
      var fast := WantsFast(q);
      file := Announced(q);
      var success := Prepare(true);
      if success {
        success := ChunkCount(file.fileLength, file.chunkSize) < MAX_CHUNKS;
      }
      error := channel.Send(if success then EmptyAck(IdOf(q)) else Unavailable(token, IdOf(q)));
      if error != NoError {
        return;
      }
      if success {
        error := StartIfPrepared(token, fast, channel);
      }
    }

    // A transfer that was already in progress is not protected: the file is replaced in any case. When the new transfer
    // does not start, the old one goes on with the new file, and its bitmap is good for it only if it is long enough.
    method HandleUpdateBegin(token: byte, q: seq<byte>, channel: Peer) returns (error: ProtocolError)
      requires |q| >= MINIMUM_COAP_MESSAGE_LENGTH
      modifies this, channel`sent
      ensures unchanged(this`fastOtaOverride, this`fastOtaValue, this`missedChunkIndex, this`requests) && chunkCount == 0
      ensures Logged() && origin == View() && events == []
      ensures var admitted := Admitted(q) && channel.results(|old(channel.sent)|).Accepted?;
              var started := admitted && Prepared(q).0;
              && file == (if admitted then Prepared(q).1 else Rehearsed(q).1)
              && updating == (if started then 1 else old(updating))
              && (Valid() <==> started || old(updating) == 0 || Chunks() <= 8 * |Bits()|)
              && channel.sent == old(channel.sent)
                 + [if Admitted(q) then EmptyAck(IdOf(q)) else Unavailable(token, IdOf(q))]
                 + (if started then [UpdateReady(token, WantsFast(q))] else [])
              && error == LastError(channel, |old(channel.sent)|)
              && (started ==> Started(WantsFast(q)) && fresh(bitmap))
              && (!started ==> unchanged(this`chunkIndex, this`chunkSize, this`bitmap)
                               && View() == old(View()).(flight := 0))
    {
      hide Received, Missing, ChunkCount, Announced, WantsFast, Commits, Run, MissingFrom;
      error := BeginUpdate(token, q, channel);
      RestartLog();
    }

    method Cancel()
      requires Valid()
      modifies callbacks`finished
      ensures Valid() && View() == old(View())
      ensures callbacks.finished == old(callbacks.finished)
                + if updating != 0 then [Finish.Cancel(callbacks.flash)] else []
    {
      if updating != 0 {
        CommitsAfter(callbacks.finished, Finish.Cancel(callbacks.flash));
        callbacks.FinishFirmwareUpdate(flash => Finish.Cancel(flash));
      }
    }
  }

  // ---- What becomes of the chunks that the server sends

  // A fast chunk with the right check sum is saved at its place and flagged, without an answer; a broken one changes
  // nothing.
  method FastChunkArrives(t: ChunkedTransfer, token: byte, header: seq<byte>, crcOption: byte, crc: uint32,
                          indexOption: byte, index: uint16, data: seq<byte>, channel: Peer)
    requires t.Valid() && t.updating != 0
    requires |header| == 7 && crcOption % 16 == 4 && indexOption % 16 == 2
    requires |data| < 0x1_0000 && index < MAX_CHUNKS && index * t.chunkSize < HALF_TICKS
    requires t.callbacks.crc(data) == crc ==> index < 8 * |t.Bits()|
    modifies t`chunkCount, t`file, t`chunkIndex, t`events, t.bitmap, t.callbacks`flash, channel`sent
    ensures t.Valid() && t.Shape() == old(t.Shape()) && t.origin == old(t.origin)
    ensures var valid := t.callbacks.crc(data) == crc;
            && t.callbacks.flash == (if valid then Write(old(t.callbacks.flash),
                                                         (t.file.fileAddress + index * t.chunkSize) % 0x1_0000_0000, data)
                                     else old(t.callbacks.flash))
            && t.View().received == old(t.View().received) + (if valid then {index as nat} else {})
            && t.View() == Step(t.Shape(), old(t.View()), Chunk(index, data, valid))
    ensures channel.sent == old(channel.sent)
  {
    hide Received, Commits, Write, Terminated, ScanOptions, Step, Run, FastChunk;
    var q := FastChunk(header, crcOption, crc, indexOption, index, data);
    FastChunkDecodes(header, crcOption, crc, indexOption, index, data);
    ChunkGoesToItsPlace(t.Shape(), t.View(), index, data, t.callbacks.crc(data) == crc);
    FastChunkIsLong(header, crcOption, crc, indexOption, index, data);
    var error := t.HandleChunk(token, q, channel);
  }

  lemma FastChunkIsLong(header: seq<byte>, crcOption: byte, crc: uint32, indexOption: byte, index: uint16, data: seq<byte>)
    requires |header| == 7
    ensures |FastChunk(header, crcOption, crc, indexOption, index, data)| >= MINIMUM_COAP_MESSAGE_LENGTH
  {
  }

  // A chunk without an index has the running index. It is acknowledged, and when the acknowledgement goes out and the check
  // sum is right, it is saved at its place and flagged, and the index runs on.
  method SlowChunkArrives(t: ChunkedTransfer, token: byte, header: seq<byte>, crcOption: byte, crc: uint32,
                          data: seq<byte>, channel: Peer)
    requires t.Valid() && t.updating != 0
    requires |header| == 7 && crcOption % 16 == 4
    requires |data| < 0x1_0000 && t.chunkIndex < MAX_CHUNKS && t.chunkIndex * t.chunkSize < HALF_TICKS
    requires t.callbacks.crc(data) == crc ==> t.chunkIndex < 8 * |t.Bits()|
    modifies t`chunkCount, t`file, t`chunkIndex, t`events, t.bitmap, t.callbacks`flash, channel`sent
    ensures t.Valid() && t.Shape() == old(t.Shape()) && t.origin == old(t.origin)
    ensures var index := old(t.chunkIndex);
            var acknowledged := channel.results(|old(channel.sent)|).Accepted?;
            var saved := acknowledged && t.callbacks.crc(data) == crc;
            && t.callbacks.flash == (if saved then Write(old(t.callbacks.flash),
                                                         (t.file.fileAddress + index * t.chunkSize) % 0x1_0000_0000, data)
                                     else old(t.callbacks.flash))
            && t.View().received == old(t.View().received) + (if saved then {index as nat} else {})
            && t.chunkIndex == (if saved then index + 1 else index)
            && channel.sent == old(channel.sent) + [EmptyAck(header[2] as int * 256 + header[3])]
                 + if acknowledged then [ChunkReceived(token, t.callbacks.crc(data) == crc)] else []
  {
    hide Received, Commits, Write, Terminated, ScanOptions, Step, Run, SlowChunk;
    var q := SlowChunk(header, crcOption, crc, data);
    SlowChunkDecodes(header, crcOption, crc, data);
    ghost var acknowledged := channel.results(|channel.sent|).Accepted?;
    ChunkGoesToItsPlace(t.Shape(), t.View(), t.chunkIndex, data, t.callbacks.crc(data) == crc && acknowledged);
    SlowChunkHeader(header, crcOption, crc, data);
    var error := t.HandleChunk(token, q, channel);
  }

  lemma SlowChunkHeader(header: seq<byte>, crcOption: byte, crc: uint32, data: seq<byte>)
    requires |header| == 7
    ensures var q := SlowChunk(header, crcOption, crc, data);
            |q| >= MINIMUM_COAP_MESSAGE_LENGTH && IdOf(q) == header[2] as int * 256 + header[3]
  {
  }

  // A fast chunk as the server sends it.
  datatype Packet = Packet(header: seq<byte>, crcOption: byte, indexOption: byte, index: uint16)

  // It has the bytes of the image that belong to its index.
  ghost predicate Proper(job: Job, p: Packet) {
    && GoodJob(job) && p.index < job.count && |ChunkOf(job, p.index)| < 0x1_0000
    && |p.header| == 7 && p.crcOption % 16 == 4 && p.indexOption % 16 == 2
    && p.index * job.chunkSize < HALF_TICKS
  }

  ghost function EventOf(job: Job, p: Packet): Event
    requires Proper(job, p)
  {
    Chunk(p.index, ChunkOf(job, p.index), true)
  }

  ghost function EventsOf(job: Job, packets: seq<Packet>): seq<Event>
    requires forall p :: p in packets ==> Proper(job, p)
  {
    seq(|packets|, k requires 0 <= k < |packets| => EventOf(job, packets[k]))
  }

  // The chunks of these packets arrive.
  method ChunksArriveAt(t: ChunkedTransfer, token: byte, packets: seq<Packet>, channel: Peer, ghost job: Job,
                        data: uint16 -> seq<byte>)
    requires t.Valid() && t.updating != 0 && t.Shape() == job.(image := [])
    requires forall p :: p in packets ==> Proper(job, p) && data(p.index) == ChunkOf(job, p.index)
    modifies t`chunkCount, t`file, t`chunkIndex, t`events, t.bitmap, t.callbacks`flash, channel`sent
    ensures t.Valid() && t.Shape() == job.(image := []) && t.origin == old(t.origin)
    ensures t.View() == Run(job, old(t.View()), EventsOf(job, packets)) && channel.sent == old(channel.sent)
  {
    hide Received, Commits, Write, Step, Run, ChunkOf;
    ghost var before := t.View();
    RunNothing(job, before);
    assert EventsOf(job, packets[..0]) == [];
    for k := 0 to |packets|
      invariant t.Valid() && t.updating != 0 && t.Shape() == job.(image := []) && t.origin == old(t.origin)
      invariant t.bitmap == old(t.bitmap)
      invariant t.View() == Run(job, before, EventsOf(job, packets[..k])) && channel.sent == old(channel.sent)
    {
      var p := packets[k];
      assert p in packets;
      FastChunkArrives(t, token, p.header, p.crcOption, t.callbacks.crc(data(p.index)), p.indexOption, p.index,
                       data(p.index), channel);
      OnePacketMore(job, before, packets, k);
    }
    assert packets[..|packets|] == packets;
  }

  lemma RunNothing(job: Job, s: Ota)
    ensures Run(job, s, []) == s
  {
  }

  lemma OnePacketMore(job: Job, s: Ota, packets: seq<Packet>, k: nat)
    requires k < |packets| && forall p :: p in packets ==> Proper(job, p)
    ensures var s' := Run(job, s, EventsOf(job, packets[..k]));
            && Run(job, s, EventsOf(job, packets[..k + 1])) == Step(job, s', EventOf(job, packets[k]))
            && Step(job.(image := []), s', EventOf(job, packets[k])) == Step(job, s', EventOf(job, packets[k]))
  {
    assert EventsOf(job, packets[..k + 1]) == EventsOf(job, packets[..k]) + [EventOf(job, packets[k])];
    RunAppend(job, s, EventsOf(job, packets[..k]), EventOf(job, packets[k]));
  }

  // Every index that is asked for has a packet.
  ghost predicate Serves(packets: seq<Packet>, asked: seq<nat>) {
    forall i :: i in asked ==> exists k :: 0 <= k < |packets| && packets[k].index == i
  }

  lemma ServedRound(job: Job, s: Ota, packets: seq<Packet>)
    requires s.active && GoodJob(job) && Missing(s.received, 0, job.count) != []
    requires forall p :: p in packets ==> Proper(job, p)
    requires Serves(packets, Take(Missing(s.received, 0, job.count), RequestLimit(s.flight)))
    ensures var s' := Run(job, Step(job, s, UpdateDone(true)), EventsOf(job, packets));
            && s'.active && s'.commits == s.commits
            && |Missing(s'.received, 0, job.count)| <= Max(0, |Missing(s.received, 0, job.count)| - 2)
  {
    hide Missing, RequestLimit, ChunkOf, Step, Run;
    var done := UpdateDone(true);
    var events := [done] + EventsOf(job, packets);
    RunNothing(job, s);
    RunAppend(job, s, [], done);
    RunConcat(job, s, [done], EventsOf(job, packets));
    assert [] + [done] == [done];
    MissingSize(job, s);
    assert events[1..] == EventsOf(job, packets);
    forall e | e in events[1..]
      ensures e.Chunk? && Genuine(job, e)
    {
      var k :| 0 <= k < |packets| && e == EventsOf(job, packets)[k];
      assert packets[k] in packets && e == EventOf(job, packets[k]);
    }
    forall i | i in Take(Missing(s.received, 0, job.count), RequestLimit(s.flight))
      ensures exists e :: e in events[1..] && e.crcValid && e.index == i
    {
      var k :| 0 <= k < |packets| && packets[k].index == i;
      assert EventsOf(job, packets)[k] in events[1..];
    }
    RoundShrinksMissing(job, s, events);
    MissingSize(job, Run(job, s, events));
  }

  // A repair round on the device: it acknowledges UPDATE_DONE and asks for the first missing chunks, and when they arrive at
  // least two chunks fewer are missing, or none.
  method RepairRoundIsServed(t: ChunkedTransfer, token: byte, packets: seq<Packet>, channel: Peer, ghost job: Job,
                             data: uint16 -> seq<byte>)
    requires t.Valid() && t.updating != 0 && t.Shape() == job.(image := []) && GoodJob(job)
    requires t.MissingFrom(0) != [] && channel.results(|channel.sent|).Accepted?
    requires forall p :: p in packets ==> Proper(job, p) && data(p.index) == ChunkOf(job, p.index)
    requires Serves(packets, Take(t.MissingFrom(0), RequestLimit(t.chunkCount)))
    modifies t`updating, t`missedChunkIndex, t`requests, t`chunkCount, t`file, t`chunkIndex, t`events, t.bitmap
    modifies t.callbacks`flash, t.callbacks`finished, channel`sent
    ensures t.Valid() && t.updating != 0 && t.Shape() == job.(image := []) && t.origin == old(t.origin)
    ensures t.View().commits == old(t.View().commits)
    ensures |t.MissingFrom(0)| <= Max(0, |old(t.MissingFrom(0))| - 2)
  {
    hide Received, Commits, Write, Step, Run, ChunkOf, Missing, Words16, BigEndian;
    ServedRound(job, t.View(), packets);
    StepIgnoresImage(job, t.View(), UpdateDone(true));
    var error := t.HandleUpdateDone(token, channel);
    ChunksArriveAt(t, token, packets, channel, job, data);
  }

  lemma StepIgnoresImage(job: Job, s: Ota, e: Event)
    ensures Step(job.(image := []), s, e) == Step(job, s, e)
  {
  }

  // An UPDATE_BEGIN without a descriptor is refused in the middle of a transfer. The transfer goes on without chunks, and
  // the next UPDATE_DONE commits it, whatever flash holds.
  method RefusedBeginCommits(t: ChunkedTransfer, token: byte, q: seq<byte>, channel: Peer)
    requires t.updating != 0 && MINIMUM_COAP_MESSAGE_LENGTH <= |q| < 20
    requires t.callbacks.prepare(NO_FILE, true) == (false, NO_FILE)
    requires channel.results(|channel.sent|).Accepted? && channel.results(|channel.sent| + 1).Accepted?
    modifies t, t.callbacks`finished, channel`sent
    ensures t.updating == 0 && t.callbacks.flash == old(t.callbacks.flash)
    ensures t.callbacks.finished == old(t.callbacks.finished) + [Validate(t.callbacks.flash), Commit(t.callbacks.flash)]
  {
    hide Received, Commits, Run, Missing;
    var error := t.HandleUpdateBegin(token, q, channel);
    NoChunks(t.chunkSize);
    assert t.file == NO_FILE && t.Chunks() == 0;
    NothingMissing(Received(t.Bits()));
    error := t.HandleUpdateDone(token, channel);
  }

  lemma NoChunks(chunkSize: uint16)
    ensures ChunkCount(0, chunkSize) == 0
  {
    if chunkSize > 0 {
      DivSmall(chunkSize - 1, chunkSize);
    }
  }

  lemma NothingMissing(received: set<nat>)
    ensures Missing(received, 0, 0) == []
  {
  }
}
