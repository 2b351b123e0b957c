// LightSSLMessageChannel: records over a byte stream whose reads and writes may be partial, proved against RecordLayer.
module LightSslChannel {
  import opened Words
  import opened Link
  import opened RecordLayer
  import MessageBuffer

  // The connection to the peer. Call number n of send or receive moves at most so many bytes as the script says,
  // and fails when that number is negative; the peer sends the bytes of the input and no others.
  class Socket {
    const sends: nat -> int
    const receives: nat -> int
    const input: seq<byte>
    var output: seq<byte>
    var taken: nat
    var sendCalls: nat
    var receiveCalls: nat

    ghost predicate Valid()
      reads this`taken
    {
      taken <= |input|
    }

    constructor (sends: nat -> int, receives: nat -> int, input: seq<byte>)
      ensures this.sends == sends && this.receives == receives && this.input == input
      ensures output == [] && taken == 0 && sendCalls == 0 && receiveCalls == 0
    {
      this.sends, this.receives, this.input := sends, receives, input;
      output, taken, sendCalls, receiveCalls := [], 0, 0, 0;
    }

    method Send(data: seq<byte>) returns (n: int)
      modifies this`output, this`sendCalls
      ensures n == Min(sends(old(sendCalls)), |data|) && sendCalls == old(sendCalls) + 1
      ensures output == old(output) + if n > 0 then data[..n] else []
    {
      n := Min(sends(sendCalls), |data|);
      sendCalls := sendCalls + 1;
      if n > 0 {
        output := output + data[..n];
      }
    }

    // The input that has not been read.
    ghost function Pending(): seq<byte>
      requires Valid()
      reads this`taken
    {
      input[taken..]
    }

    // Reads into the buffer.
    method Receive(buf: array<byte>, start: nat, length: nat) returns (n: int)
      requires Valid() && start + length <= buf.Length
      modifies this`taken, this`receiveCalls, buf
      ensures n == Min(receives(old(receiveCalls)), Min(length, |old(Pending())|)) && receiveCalls == old(receiveCalls) + 1
      ensures Valid() && taken == old(taken) + Max(n, 0)
      ensures forall k :: 0 <= k < buf.Length ==>
                buf[k] == if start <= k < start + n then input[old(taken) + k - start] else old(buf[k])
    {
      n := Min(receives(receiveCalls), Min(length, |input| - taken));
      receiveCalls := receiveCalls + 1;
      if n > 0 {
        forall k | 0 <= k < n {
          buf[start + k] := input[taken + k];
        }
        taken := taken + n;
      }
    }
  }

  const TIMEOUT := 20000

  // More than 20 seconds have passed between two readings of the clock.
  predicate TimedOut(start: uint32, now: uint32) {
    Low32(now - start) > TIMEOUT
  }

  // A wait that has not timed out at one reading times out at the next one when its time has come by then.
  lemma TimeoutIsNoticed(start: nat, before: nat, now: nat)
    requires start <= before <= now <= before + 0x4000_0000 && before <= start + TIMEOUT
    ensures TimedOut(Low32(start), Low32(now)) <==> now > start + TIMEOUT
  {
    Low32Difference(now, start);
    if Low32(now) < Low32(start) {
      Low32Shift(Low32(now) - Low32(start), 1);
    }
  }

  datatype ChannelError = NoError | InsufficientStorage | SendFailed | ReceiveFailed | BodyFailed

  // Every call that reads a header got the whole of it or nothing, and every body that was begun was read.
  ghost predicate KeptPlace(headers: seq<int>, outcomes: seq<ChannelError>) {
    1 !in headers && BodyFailed !in outcomes && InsufficientStorage !in outcomes
  }

  lemma OneReceptionMore(headers: seq<int>, outcomes: seq<ChannelError>, k: int, error: ChannelError)
    ensures KeptPlace(headers + [k], outcomes + [error])
       <==> KeptPlace(headers, outcomes) && k != 1 && error != BodyFailed && error != InsufficientStorage
  {
    var longer, all := headers + [k], outcomes + [error];
    assert longer[|headers|] == k && all[|outcomes|] == error;
    assert longer[..|headers|] == headers && all[..|outcomes|] == outcomes;
  }

  // Only some of the data, but not all, was put on the stream.
  ghost predicate SentPart(output: seq<byte>, before: seq<byte>, data: seq<byte>) {
    exists k :: 0 <= k < |data| && output == before + data[..k]
  }

  lemma OnePieceMore(before: seq<byte>, data: seq<byte>, count: nat, n: nat)
    requires count + n <= |data|
    ensures before + data[..count] + data[count..][..n] == before + data[..count + n]
  {
  }

  lemma Partly(data: seq<byte>, k: nat, output: seq<byte>, before: seq<byte>)
    requires k < |data| && output == before + data[..k]
    ensures SentPart(output, before, data)
  {
  }

  class LightSslMessageChannel {
    const cipher: Cipher
    const socket: Socket
    const clock: Clock
    const buffers: MessageBuffer.BufferMessageChannel<byte>
    const iv0: Block               // from the key exchange
    var ivSend: Block
    var ivReceive: Block
    ghost var sent: seq<seq<byte>>      // the messages that were sent
    ghost var sendFailed: bool
    ghost var received: seq<seq<byte>>  // the messages that were received
    ghost var headers: seq<int>           // what each call that reads a header returned
    ghost var outcomes: seq<ChannelError> // and each call of receive

    // As long as no transmission failed, the output is the stream of the messages sent.
    ghost predicate SentAll()
      reads this`sent, this`sendFailed, this`ivSend, socket`output
    {
      && AllSendable(sent)
      && (!sendFailed ==> socket.output == Stream(cipher, iv0, sent) && ivSend == IvAfter(cipher, iv0, sent))
    }

    // As long as the place in the stream is kept, the input that was read decodes to the messages received.
    ghost predicate ReceivedAll()
      reads this`received, this`headers, this`outcomes, this`ivReceive, socket`taken
    {
      && socket.Valid()
      && (KeptPlace(headers, outcomes) ==> DecodesTo(cipher, iv0, socket.input[..socket.taken], received, ivReceive))
    }

    ghost predicate Valid()
      reads this, socket
    {
      && buffers.layout == MessageBuffer.Layout(CHANNEL_BUFFER_SIZE, 2, BLOCK) && buffers.Valid()
      && socket.Valid() && Invertible(cipher)
      && SentAll() && ReceivedAll()
    }

    // set_key: both directions start with the same initialization vector.
    constructor (cipher: Cipher, iv: Block, socket: Socket, clock: Clock)
      requires Invertible(cipher) && socket.output == [] && socket.taken == 0
      ensures this.cipher == cipher && this.socket == socket && this.clock == clock && iv0 == iv
      ensures Valid() && ivSend == iv && ivReceive == iv && sent == [] && received == []
      ensures !sendFailed && headers == [] && outcomes == [] && fresh(buffers.queue)
    {
      this.cipher, this.socket, this.clock, iv0 := cipher, socket, clock, iv;
      ivSend, ivReceive := iv, iv;
      buffers := new MessageBuffer.BufferMessageChannel(MessageBuffer.Layout(CHANNEL_BUFFER_SIZE, 2, BLOCK));
      sent, received, sendFailed, headers, outcomes := [], [], false, [], [];
    }

    // A reading at which a wait that started at a time has timed out.
    lemma LastReading(start: nat) returns (j: nat)
      requires clock.Advances() && clock.Monotone() && clock.readings >= 1
      requires clock.ticks(clock.readings - 1) <= start + TIMEOUT
      ensures clock.readings <= j && clock.ticks(j) > start + TIMEOUT
    {
      assert clock.Reaches(start + TIMEOUT + 1);
      j :| clock.ticks(j) >= start + TIMEOUT + 1;
    }

    // One step of waiting, after a transfer of no bytes.
    method Wait(start: uint32, ghost from: nat, ghost j: nat) returns (timedOut: bool)
      requires clock.Advances() && clock.Monotone() && 1 <= clock.readings <= j && start == Low32(from)
      requires from <= clock.ticks(clock.readings - 1) <= from + TIMEOUT < clock.ticks(j)
      modifies clock
      ensures clock.readings == old(clock.readings) + 1
      ensures timedOut <==> clock.ticks(clock.readings - 1) > from + TIMEOUT
      ensures !timedOut ==> clock.readings <= j && from <= clock.ticks(clock.readings - 1)
    {
      assert clock.ticks(clock.readings) <= clock.ticks(clock.readings - 1) + 0x4000_0000;
      TimeoutIsNoticed(from, clock.ticks(clock.readings - 1), clock.Now());
      var now := clock.Millis();
      timedOut := TimedOut(start, now);
    }

    // Why a transfer ended early: the socket failed, or nothing moved when more than 20 seconds had passed.
    ghost predicate GaveUp(script: nat -> int, calls: nat, error: int, from: nat, drained: bool)
      reads clock
    {
      && calls >= 1 && clock.readings >= 1
      && (script(calls - 1) == error < 0
          || (&& (script(calls - 1) == 0 || drained)
              && error == -1 && clock.ticks(clock.readings - 1) > from + TIMEOUT))
    }

    // Sends all the data, in as many pieces as the socket takes.
    method BlockingSend(data: seq<byte>) returns (count: int)
      requires clock.Advances() && clock.Monotone()
      modifies socket`output, socket`sendCalls, clock
      ensures count >= 0 ==> count == |data| && socket.output == old(socket.output) + data
      ensures count < 0 ==> SentPart(socket.output, old(socket.output), data)
      ensures count < 0 ==> GaveUp(socket.sends, socket.sendCalls, count, old(clock.Now()), false)
    {
      hide Clock.Advances, Clock.Monotone;
      count := 0;
      ghost var from := clock.Now();
      var start := clock.Millis();
      ghost var j := LastReading(from);
      while |data| > count
        invariant 0 <= count <= |data| && socket.output == old(socket.output) + data[..count]
        invariant 1 <= clock.readings <= j && from <= clock.ticks(clock.readings - 1) <= from + TIMEOUT < clock.ticks(j)
        decreases |data| - count, j - clock.readings
      {
        var n := socket.Send(data[count..]);
        if n < 0 {
          Partly(data, count, socket.output, old(socket.output));
          return n;
        } else if n > 0 {
          OnePieceMore(old(socket.output), data, count, n);
          count := count + n;
        } else {
          var timedOut := Wait(start, from, j);
          if timedOut {
            Partly(data, count, socket.output, old(socket.output));
            return -1;
          }
        }
      }
    }

    // Encrypts a part of the buffer in place; the first ciphertext block becomes the initialization vector.
    method EncryptInPlace(start: nat, length: nat)
      requires length > 0 && length % BLOCK == 0 && start + length <= buffers.queue.Length
      modifies this`ivSend, buffers.queue
      ensures var text := Encrypt(cipher, old(ivSend), old(buffers.queue[start..start + length]));
              && buffers.queue[..] == old(buffers.queue[..start]) + text + old(buffers.queue[start + length..])
              && ivSend == text[..BLOCK]
    {
      var text := Encrypt(cipher, ivSend, buffers.queue[start..start + length]);
      forall k | 0 <= k < length {
        buffers.queue[start + k] := text[k];
      }
      ivSend := buffers.queue[start..start + BLOCK];
    }

    // Appends the padding to the message at a place in the buffer.
    method PadInPlace(start: nat, length: nat)
      requires start + PaddedLength(length) <= buffers.queue.Length
      modifies buffers.queue
      ensures buffers.queue[start..start + PaddedLength(length)] == Pad(old(buffers.queue[start..start + length]))
      ensures IsPadded(old(buffers.queue[start..start + length]), buffers.queue[start..start + PaddedLength(length)])
      ensures buffers.queue[..start] == old(buffers.queue[..start])
      ensures buffers.queue[start + PaddedLength(length)..] == old(buffers.queue[start + PaddedLength(length)..])
    {
      forall k | 0 <= k < Padding(length) as int {
        buffers.queue[start + length + k] := Padding(length);
      }
    }

    // Puts the length in front of a body.
    method PutHeader(start: nat, length: nat, ghost body: seq<byte>)
      requires 2 <= start && length == |body| < 0x1_0000 && start + length <= buffers.queue.Length
      requires buffers.queue[start..start + length] == body
      modifies buffers.queue
      ensures buffers.queue[..] == old(buffers.queue[..start - 2]) + (Header(length) + body)
                                   + old(buffers.queue[start + length..])
    {
      buffers.queue[start - 2] := length / 256;
      buffers.queue[start - 1] := length % 256;
      assert buffers.queue[start - 2..start] == Header(length);
      Reassemble(buffers.queue[..], start - 2, start, start + length);
    }

    // Turns the message at a place in the buffer into its record, which begins two bytes before the message.
    method Wrap(start: nat, length: nat) returns (size: nat)
      requires 2 <= start && start + PaddedLength(length) <= buffers.queue.Length && 0 < length <= CAPACITY
      modifies this`ivSend, buffers.queue
      ensures var message := old(buffers.queue[start..start + length]);
              && size == |Record(cipher, old(ivSend), message)|
              && buffers.queue[..] == old(buffers.queue[..start - 2]) + Record(cipher, old(ivSend), message)
                                      + old(buffers.queue[start - 2 + size..])
              && ivSend == NextIv(cipher, old(ivSend), message)
              && IsRecord(cipher, old(ivSend), message, buffers.queue[start - 2..start - 2 + size])
              && ivSend == buffers.queue[start..start + BLOCK]
    {
      hide Encrypt, Pad, IsPadded, IsRecord;
      ghost var before := buffers.queue[..];
      ghost var message := before[start..start + length];
      var bodyLength := PaddedLength(length);
      PadInPlace(start, length);
      EncryptInPlace(start, bodyLength);
      Tails(buffers.queue[..], before, Encrypt(cipher, old(ivSend), Pad(message)), start);
      PutHeader(start, bodyLength, Body(cipher, old(ivSend), message));
      size := bodyLength + 2;
      RecordIsRecord(cipher, old(ivSend), message);
      assert buffers.queue[start - 2..start - 2 + size] == Record(cipher, old(ivSend), message);
      FirstBlock(buffers.queue[start - 2..start - 2 + size], message, old(ivSend));
      assert buffers.queue[start..start + BLOCK] == buffers.queue[start - 2..start - 2 + size][2..2 + BLOCK];
    }

    lemma Tails(s: seq<byte>, before: seq<byte>, body: seq<byte>, start: nat)
      requires start + |body| <= |s| == |before|
      requires s == before[..start] + body + before[start + |body|..]
      ensures s[..start] == before[..start] && s[start..start + |body|] == body
      ensures s[start + |body|..] == before[start + |body|..]
      ensures start >= 2 ==> s[..start - 2] == before[..start - 2]
    {
      if start >= 2 {
        assert s[..start - 2] == s[..start][..start - 2];
        assert before[..start - 2] == before[..start][..start - 2];
      }
    }

    lemma Reassemble(s: seq<byte>, i: nat, j: nat, k: nat)
      requires i <= j <= k <= |s|
      ensures s == s[..i] + (s[i..j] + s[j..k]) + s[k..]
    {
    }

    lemma FirstBlock(record: seq<byte>, message: seq<byte>, iv: Block)
      requires Sendable(message) && record == Record(cipher, iv, message)
      ensures |record| >= 2 + BLOCK && record[2..2 + BLOCK] == NextIv(cipher, iv, message)
    {
    }

    ghost function Text(message: MessageBuffer.MessageView): seq<byte>
      reads message, buffers.queue
    {
      if message.start + message.length <= buffers.queue.Length
      then buffers.queue[message.start..message.start + message.length]
      else []
    }

    // The record of a message; it destroys the message, and its padding and length prefix stay inside the frame.
    method TakeRecord(message: MessageBuffer.MessageView) returns (record: seq<byte>)
      requires buffers.layout == MessageBuffer.Layout(CHANNEL_BUFFER_SIZE, 2, BLOCK) && buffers.Valid()
      requires 0 < message.length <= CAPACITY
      requires MessageBuffer.Inside(buffers.layout, message.start, message.length)
      modifies this`ivSend, buffers.queue
      ensures Sendable(old(Text(message))) && record == Record(cipher, old(ivSend), old(Text(message)))
      ensures IsRecord(cipher, old(ivSend), old(Text(message)), record)
      ensures ivSend == NextIv(cipher, old(ivSend), old(Text(message)))
      ensures buffers.queue[..message.start - 2] == old(buffers.queue[..message.start - 2])
      ensures buffers.queue[message.start + message.length + BLOCK..]
           == old(buffers.queue[message.start + message.length + BLOCK..])
    {
      hide NextIv, Record, Pad, IsRecord;
      ghost var before := buffers.queue[..];
      var start, length := message.start, message.length;
      assert buffers.queue[start..start + length] == before[start..start + length];
      var size := Wrap(start, length);
      record := buffers.queue[start - 2..start - 2 + size];
      Surroundings(buffers.queue[..], before, record, start - 2, start + length + BLOCK);
    }

    lemma Surroundings(s: seq<byte>, before: seq<byte>, record: seq<byte>, i: nat, j: nat)
      requires i + |record| <= j <= |s| == |before|
      requires s == before[..i] + record + before[i + |record|..]
      ensures s[..i] == before[..i] && s[j..] == before[j..]
    {
    }

    // Sends a message as one record; an empty message is not sent at all. A failure leaves part of a record on the stream.
    method Send(message: MessageBuffer.MessageView) returns (error: ChannelError)
      requires Valid() && clock.Advances() && clock.Monotone() && message.length <= CAPACITY
      requires message.length > 0 ==> MessageBuffer.Inside(buffers.layout, message.start, message.length)
      modifies this`ivSend, this`sent, this`sendFailed, buffers.queue, socket`output, socket`sendCalls, clock
      ensures Valid()
      ensures message.length == 0 ==>
                error == NoError && socket.output == old(socket.output) && sent == old(sent) && ivSend == old(ivSend)
                && sendFailed == old(sendFailed)
      ensures message.length > 0 ==>
                var record := Record(cipher, old(ivSend), old(Text(message)));
                && IsRecord(cipher, old(ivSend), old(Text(message)), record)
                && sent == old(sent) + [old(Text(message))]
                && ivSend == NextIv(cipher, old(ivSend), old(Text(message)))
                && buffers.queue[..message.start - 2] == old(buffers.queue[..message.start - 2])
                && buffers.queue[message.start + message.length + BLOCK..]
                     == old(buffers.queue[message.start + message.length + BLOCK..])
                && if error == NoError then
                     sendFailed == old(sendFailed) && socket.output == old(socket.output) + record
                   else
                     error == SendFailed && sendFailed
                     && SentPart(socket.output, old(socket.output), record)
    {
      hide Stream, IvAfter, NextIv, Record, IsRecord, DecodesTo, Pad, KeptPlace, ReceivedAll, Clock.Advances, Clock.Monotone,
           Invertible;
      if message.length == 0 {
        return NoError;
      }
      ghost var text := Text(message);
      StreamGrows(cipher, iv0, sent, text);
      var record := TakeRecord(message);
      var count := BlockingSend(record);
      sent := sent + [text];
      if count < 0 {
        sendFailed := true;
        return SendFailed;
      }
      error := NoError;
    }

    // Fills a part of the buffer, in as many pieces as the socket delivers.
    method BlockingReceive(start: nat, length: nat) returns (count: int)
      requires socket.Valid() && clock.Advances() && clock.Monotone() && start + length <= buffers.queue.Length
      modifies buffers.queue, socket`taken, socket`receiveCalls, clock
      ensures socket.Valid() && buffers.queue[..start] == old(buffers.queue[..start])
      ensures count >= 0 ==>
                && count == length <= |old(socket.Pending())| && socket.taken == old(socket.taken) + length
                && buffers.queue[start..start + length] == old(socket.Pending())[..length]
      ensures count < 0 ==>
                && old(socket.taken) <= socket.taken < old(socket.taken) + length
                && GaveUp(socket.receives, socket.receiveCalls, count, old(clock.Now()), socket.Pending() == [])
    {
      hide Clock.Advances, Clock.Monotone;
      count := 0;
      ghost var from := clock.Now();
      var start' := clock.Millis();
      ghost var j := LastReading(from);
      while length > count
        invariant 0 <= count <= length && socket.Valid() && socket.taken == old(socket.taken) + count
        invariant forall k :: 0 <= k < start ==> buffers.queue[k] == old(buffers.queue[k])
        invariant forall k :: start <= k < start + count ==>
                    buffers.queue[k] == socket.input[old(socket.taken) + k - start]
        invariant 1 <= clock.readings <= j && from <= clock.ticks(clock.readings - 1) <= from + TIMEOUT < clock.ticks(j)
        decreases length - count, j - clock.readings
      {
        var n := socket.Receive(buffers.queue, start + count, length - count);
        if n < 0 {
          return n;
        } else if n > 0 {
          count := count + n;
        } else {
          var timedOut := Wait(start', from, j);
          if timedOut {
            return -1;
          }
        }
      }
    }

    // Decrypts a part of the buffer in place; the first ciphertext block becomes the initialization vector.
    method DecryptInPlace(start: nat, length: nat)
      requires length > 0 && length % BLOCK == 0 && start + length <= buffers.queue.Length
      modifies this`ivReceive, buffers.queue
      ensures buffers.queue[start..start + length]
                == Decrypt(cipher, old(ivReceive), old(buffers.queue[start..start + length]))
      ensures ivReceive == old(buffers.queue[start..start + length])[..BLOCK]
    {
      var text := buffers.queue[start..start + length];
      var plain := Decrypt(cipher, ivReceive, text);
      ivReceive := text[..BLOCK];
      forall k | 0 <= k < length {
        buffers.queue[start + k] := plain[k];
      }
    }

    // What a receiver makes of the input it has not read yet.
    ghost function Next(): Received
      requires socket.Valid()
      reads this`ivReceive, socket`taken
    {
      Decode(cipher, ivReceive, socket.Pending())
    }

    // Fetches the body of a record whose header has been read.
    method ReceiveBody(message: MessageBuffer.MessageView, n: nat, ghost stream: seq<byte>) returns (ok: bool)
      requires buffers.layout == MessageBuffer.Layout(CHANNEL_BUFFER_SIZE, 2, BLOCK) && buffers.Valid()
      requires socket.Valid() && clock.Advances() && clock.Monotone()
      requires message.View() == MessageBuffer.Slot(2, CAPACITY, 0)
      requires |stream| >= 2 && stream[2..] == socket.Pending() && BodyLength(stream) == n
      requires 0 < n <= CAPACITY && n % BLOCK == 0
      modifies message`length, this`ivReceive, buffers.queue, socket`taken, socket`receiveCalls, clock
      ensures socket.Valid()
      ensures var r := Decode(cipher, old(ivReceive), stream);
              if ok then r.Message? && Text(message) == r.message && ivReceive == r.iv
                         && socket.taken + 2 == old(socket.taken) + r.size && message.length <= message.capacity
              else ivReceive == old(ivReceive) && message.View() == old(message.View())
                   && old(socket.taken) <= socket.taken < old(socket.taken) + n
    {
      hide Decrypt;
      var count := BlockingReceive(2, n);
      ok := count >= 0;
      if ok {
        ghost var body := buffers.queue[2..2 + n];
        assert body == stream[2..2 + n];
        DecryptInPlace(2, n);
        var padding := buffers.queue[2 + n - 1];
        if padding <= n {
          message.SetLength(n - padding);
        }
        assert buffers.queue[2..2 + n][n - 1] == padding;
        FrontOfPart(2, n, message.length);
      }
    }

    lemma FrontOfPart(start: nat, n: nat, m: nat)
      requires m <= n && start + n <= buffers.queue.Length
      ensures buffers.queue[start..start + n][..m] == buffers.queue[start..start + m]
    {
      var part := buffers.queue[start..start + n];
      assert forall k :: 0 <= k < n ==> part[k] == buffers.queue[start + k];
    }

    lemma HeaderDecides(stream: seq<byte>)
      requires |stream| >= 2
      ensures Decode(cipher, ivReceive, stream).TooLong? <==> BodyLength(stream) > CAPACITY
      ensures Decode(cipher, ivReceive, stream).Malformed?
         <==> BodyLength(stream) <= CAPACITY && (BodyLength(stream) == 0 || BodyLength(stream) % BLOCK != 0)
    {
    }

    // The part of receive that follows the reading of a whole header.
    method ReceiveRecord(message: MessageBuffer.MessageView, size: nat, ghost stream: seq<byte>)
      returns (error: ChannelError)
      requires buffers.layout == MessageBuffer.Layout(CHANNEL_BUFFER_SIZE, 2, BLOCK) && buffers.Valid()
      requires socket.Valid() && clock.Advances() && clock.Monotone()
      requires |stream| >= 2 && stream[2..] == socket.Pending() && BodyLength(stream) == size
      requires !Decode(cipher, ivReceive, stream).Malformed?
      modifies message, this`ivReceive, buffers.queue, socket`taken, socket`receiveCalls, clock
      ensures socket.Valid()
      ensures var r := Decode(cipher, old(ivReceive), stream);
              if r.TooLong? then
                && error == InsufficientStorage && ivReceive == old(ivReceive)
                && message.View() == old(message.View()) && socket.taken == old(socket.taken)
              else if error == NoError then
                && r.Message? && Text(message) == r.message && ivReceive == r.iv
                && socket.taken + 2 == old(socket.taken) + r.size
              else
                && error == BodyFailed && ivReceive == old(ivReceive)
                && old(socket.taken) <= socket.taken < old(socket.taken) + size
    {
      hide Decode;
      HeaderDecides(stream);
      var ok := buffers.Create(message, size);
      if !ok {
        return InsufficientStorage;
      }
      ok := ReceiveBody(message, size, stream);
      error := if ok then NoError else BodyFailed;
    }

    // Reads the length of the next record, with a single call.
    method ReadHeader() returns (k: int, size: nat)
      requires socket.Valid() && buffers.queue.Length >= 2
      modifies buffers.queue, socket`taken, socket`receiveCalls
      ensures k == Min(socket.receives(old(socket.receiveCalls)), Min(2, |old(socket.Pending())|))
      ensures socket.Valid() && socket.taken == old(socket.taken) + Max(k, 0)
      ensures k == 2 ==> size == BodyLength(old(socket.Pending())) && socket.Pending() == old(socket.Pending())[2..]
    {
      k := socket.Receive(buffers.queue, 0, 2);
      size := buffers.queue[0] as int * 256 + buffers.queue[1];
    }

    // Receives the next message, if there is one. Reading the header is not repeated: a header of which only one byte
    // is there is lost, and with it the place in the stream.
    method Receive(message: MessageBuffer.MessageView) returns (error: ChannelError)
      requires Valid() && clock.Advances() && clock.Monotone() && !Next().Malformed?
      modifies message, this`ivReceive, this`received, this`headers, this`outcomes, buffers.queue
      modifies socket`taken, socket`receiveCalls, clock
      ensures Valid()
      ensures var k := Min(socket.receives(old(socket.receiveCalls)), Min(2, |old(socket.Pending())|));
              && headers == old(headers) + [k] && outcomes == old(outcomes) + [error]
              && if k != 2 then
                && message.View() == MessageBuffer.Slot(2, CAPACITY, 0) && socket.taken == old(socket.taken) + Max(k, 0)
                && received == old(received) && ivReceive == old(ivReceive)
                && error == if k < 0 then ReceiveFailed else NoError
              else if old(Next()).TooLong? then
                && error == InsufficientStorage && received == old(received)
                && message.View() == old(message.View()) && socket.taken == old(socket.taken) + 2
              else if error == NoError then
                && old(Next()).Message? && Text(message) == old(Next()).message && ivReceive == old(Next()).iv
                && received == old(received) + [Text(message)]
                && socket.taken == old(socket.taken) + old(Next()).size
              else
                error == BodyFailed && received == old(received) && ivReceive == old(ivReceive)
    {
      hide DecodesTo, SentAll, Decode, Invertible, BodyLength, KeptPlace;
      ghost var stream, was := socket.Pending(), socket.taken;
      var k, size := ReadHeader();
      if k == 2 {
        error := ReceiveRecord(message, size, stream);
        if error == NoError {
          OneRecordMore(stream, was, old(ivReceive));
          received := received + [Text(message)];
        }
      } else {
        var created := buffers.Create(message, 0);
        message.SetLength(0);
        error := if k < 0 then ReceiveFailed else NoError;
      }
      OneReceptionMore(headers, outcomes, k, error);
      headers, outcomes := headers + [k], outcomes + [error];
    }

    lemma OneRecordMore(stream: seq<byte>, was: nat, iv: Block)
      requires was <= |socket.input| && stream == socket.input[was..] && Decode(cipher, iv, stream).Message?
      ensures var r := Decode(cipher, iv, stream);
              was + r.size <= |socket.input|
              && (DecodesTo(cipher, iv0, socket.input[..was], received, iv) ==>
                    DecodesTo(cipher, iv0, socket.input[..was + r.size], received + [r.message], r.iv))
    {
      hide Decode, DecodesTo;
      FirstRecordSuffices(cipher, iv, stream);
      var r := Decode(cipher, iv, stream);
      if DecodesTo(cipher, iv0, socket.input[..was], received, iv) {
        DecodingGrows(cipher, iv0, socket.input[..was], received, iv, stream);
        Adjacent(socket.input, was, r.size);
      }
    }

    lemma Adjacent(s: seq<byte>, i: nat, n: nat)
      requires i + n <= |s|
      ensures s[..i] + s[i..][..n] == s[..i + n]
    {
    }
  }

  // Two endpoints with the same key and initialization vector, of which the second reads what the first writes: the
  // messages received are the first of the messages sent, in order. When all have arrived, the initialization vectors
  // agree, and the next header is never one that the receiver stumbles over. They have all arrived exactly when every byte
  // has. Only bodies may arrive in pieces: LostByteIsNotNoticed shows what comes of a header of which one byte was read.
  lemma EndpointsAgree(a: LightSslMessageChannel, b: LightSslMessageChannel)
    requires a.Valid() && b.Valid() && a.cipher == b.cipher && a.iv0 == b.iv0
    requires !a.sendFailed && KeptPlace(b.headers, b.outcomes) && AllShort(a.sent)
    requires b.socket.input[..b.socket.taken] <= a.socket.output
    ensures b.received <= a.sent
    ensures b.ivReceive == IvAfter(a.cipher, a.iv0, b.received)
    ensures b.received == a.sent ==> b.ivReceive == a.ivSend
    ensures b.received == a.sent <==> b.socket.input[..b.socket.taken] == a.socket.output
    ensures b.socket.input <= a.socket.output ==> b.Next().Message? || b.Next().Incomplete?
  {
    var c, iv, consumed := a.cipher, a.iv0, b.socket.input[..b.socket.taken];
    ReceivedIsPrefixOfSent(c, iv, a.sent, consumed, b.received, b.ivReceive);
    if b.received != a.sent {
      StreamIsShorter(c, iv, a.sent, b.received);
    }
    if b.socket.input <= a.socket.output {
      var k := |b.received|;
      assert a.sent[..k] == b.received;
      StreamSplits(c, iv, a.sent, k);
      var rest := Stream(c, b.ivReceive, a.sent[k..]);
      assert a.socket.output == consumed + rest;
      assert b.socket.input == consumed + b.socket.Pending();
      assert b.socket.Pending() <= rest by {
        assert (consumed + rest)[|consumed|..] == rest;
        assert b.socket.input[|consumed|..] == b.socket.Pending();
      }
      BordersAreWellFormed(c, b.ivReceive, a.sent[k..], b.socket.Pending());
    }
  }

  // A response that is splintered from a message has a whole record of its own, length prefix and padding included: it
  // begins behind the record of the message, and it ends inside the buffer for every payload up to the required size.
  // Beyond that the capacity of the response is no guide: exactly the payloads whose padded length still fits are safe.
  lemma ResponseRecordHasRoom(length: nat, required: nat, n: nat)
    requires required + 2 + BLOCK <= CAPACITY - length
    ensures var l := MessageBuffer.Layout(CHANNEL_BUFFER_SIZE, 2, BLOCK);
            var original := MessageBuffer.Slot(2, CAPACITY, length);
            var response := MessageBuffer.Splintered(l, original);
            && original.start + PaddedLength(length) <= response.start - 2
            && (n <= required ==> response.start + PaddedLength(n) <= CHANNEL_BUFFER_SIZE)
            && (response.start + PaddedLength(n) <= CHANNEL_BUFFER_SIZE <==> PaddedLength(n) + 2 <= response.capacity)
  {
    assert PaddedLength(length) <= length + BLOCK && PaddedLength(n) <= n + BLOCK;
  }
}
