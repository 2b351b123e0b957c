// The record layer of the lightweight TLS substitute on values: padding, cipher block chaining with the first
// ciphertext block of the previous record as initialization vector, and length-prefixed records on a byte stream.
module RecordLayer {
  import opened Words

  const BLOCK := 16

  // ---- Exclusive or

  // Bit by bit, over the lowest bits.
  function Xor(a: nat, b: nat, bits: nat): nat {
    if bits == 0 then 0
    else (if a % 2 == b % 2 then 0 else 1) + 2 * Xor(a / 2, b / 2, bits - 1)
  }

  lemma {:induction false} XorCancels(a: nat, b: nat, bits: nat)
    requires b < Pow2(bits)
    ensures Xor(a, b, bits) < Pow2(bits) && Xor(a, Xor(a, b, bits), bits) == b
  {
    if bits > 0 {
      XorCancels(a / 2, b / 2, bits - 1);
      var x := Xor(a, b, bits);
      assert x / 2 == Xor(a / 2, b / 2, bits - 1) && x % 2 == if a % 2 == b % 2 then 0 else 1;
    }
  }

  function BitOf(n: nat, j: nat): nat {
    if j == 0 then n % 2 else BitOf(n / 2, j - 1)
  }

  // Every bit of the result says whether the two bits differ.
  lemma {:induction false} XorIsBitwise(a: nat, b: nat, bits: nat, j: nat)
    requires j < bits
    ensures BitOf(Xor(a, b, bits), j) == if BitOf(a, j) == BitOf(b, j) then 0 else 1
  {
    var x := Xor(a, b, bits);
    assert x / 2 == Xor(a / 2, b / 2, bits - 1) && x % 2 == if a % 2 == b % 2 then 0 else 1;
    if j > 0 {
      XorIsBitwise(a / 2, b / 2, bits - 1, j - 1);
    }
  }

  lemma EightBits()
    ensures Pow2(8) == 0x100
  {
    assert Pow2(4) == 16;
  }

  function XorByte(a: byte, b: byte): byte {
    EightBits();
    XorCancels(a, b, 8);
    Xor(a, b, 8)
  }

  lemma XorByteCancels(a: byte, b: byte)
    ensures XorByte(a, XorByte(a, b)) == b
  {
    EightBits();
    XorCancels(a, b, 8);
  }

  // ---- Blocks

  type Block = b: seq<byte> | |b| == BLOCK witness seq(BLOCK, _ => 0)

  // The block cipher under the session key. mbedTLS is not part of this model.
  datatype Cipher = Cipher(enc: Block -> Block, dec: Block -> Block)

  // Decryption undoes encryption.
  ghost predicate Invertible(c: Cipher) {
    forall b: Block :: c.dec(c.enc(b)) == b
  }

  function XorBlock(a: Block, b: Block): Block {
    seq(BLOCK, i requires 0 <= i < BLOCK => XorByte(a[i], b[i]))
  }

  lemma XorBlockCancels(a: Block, b: Block)
    ensures XorBlock(a, XorBlock(a, b)) == b
  {
    forall i | 0 <= i < BLOCK
      ensures XorBlock(a, XorBlock(a, b))[i] == b[i]
    {
      XorByteCancels(a[i], b[i]);
    }
  }

  // ---- Cipher block chaining

  function Encrypt(c: Cipher, iv: Block, data: seq<byte>): (r: seq<byte>)
    requires |data| % BLOCK == 0
    ensures |r| == |data|
    decreases |data|
  {
    if data == [] then []
    else
      var block := c.enc(XorBlock(iv, data[..BLOCK]));
      block + Encrypt(c, block, data[BLOCK..])
  }

  function Decrypt(c: Cipher, iv: Block, data: seq<byte>): (r: seq<byte>)
    requires |data| % BLOCK == 0
    ensures |r| == |data|
    decreases |data|
  {
    if data == [] then []
    else XorBlock(iv, c.dec(data[..BLOCK])) + Decrypt(c, data[..BLOCK], data[BLOCK..])
  }

  lemma {:induction false} DecryptUndoesEncrypt(c: Cipher, iv: Block, data: seq<byte>)
    requires |data| % BLOCK == 0 && Invertible(c)
    ensures Decrypt(c, iv, Encrypt(c, iv, data)) == data
    decreases |data|
  {
    if data != [] {
      var first: Block, rest := data[..BLOCK], data[BLOCK..];
      var mixed := XorBlock(iv, first);
      var block: Block := c.enc(mixed);
      var tail := Encrypt(c, block, rest);
      assert (block + tail)[..BLOCK] == block && (block + tail)[BLOCK..] == tail;
      assert c.dec(c.enc(mixed)) == mixed;
      XorBlockCancels(iv, first);
      DecryptUndoesEncrypt(c, block, rest);
      assert data == first + rest;
    }
  }

  function BlockAt(data: seq<byte>, j: nat): Block
    requires (j + 1) * BLOCK <= |data|
  {
    data[j * BLOCK..(j + 1) * BLOCK]
  }

  // The ciphertext block before block j.
  function BlockBefore(iv: Block, text: seq<byte>, j: nat): Block
    requires j * BLOCK <= |text|
  {
    if j == 0 then iv else BlockAt(text, j - 1)
  }

  // Cipher block chaining, block by block: each block is mixed with the ciphertext of the one before.
  ghost predicate IsChained(c: Cipher, iv: Block, plain: seq<byte>, text: seq<byte>) {
    && |text| == |plain| && |plain| % BLOCK == 0
    && forall j: nat :: j < |plain| / BLOCK ==>
         BlockAt(text, j) == c.enc(XorBlock(BlockBefore(iv, text, j), BlockAt(plain, j)))
  }

  lemma BlockOfRest(first: Block, rest: seq<byte>, j: nat)
    requires j * BLOCK <= |rest|
    ensures BlockAt(first + rest, j) == BlockBefore(first, rest, j)
  {
  }

  lemma ChainGrows(c: Cipher, iv: Block, first: Block, rest: seq<byte>, block: Block, text: seq<byte>)
    requires block == c.enc(XorBlock(iv, first)) && IsChained(c, block, rest, text)
    ensures IsChained(c, iv, first + rest, block + text)
  {
    hide XorBlock;
    forall j: nat | j < |first + rest| / BLOCK
      ensures BlockAt(block + text, j) == c.enc(XorBlock(BlockBefore(iv, block + text, j), BlockAt(first + rest, j)))
    {
      BlockOfRest(block, text, j);
      BlockOfRest(first, rest, j);
      if j > 0 {
        BlockOfRest(block, text, j - 1);
        assert j - 1 < |rest| / BLOCK;
      }
    }
  }

  lemma {:induction false} EncryptIsChained(c: Cipher, iv: Block, data: seq<byte>)
    requires |data| % BLOCK == 0
    ensures IsChained(c, iv, data, Encrypt(c, iv, data))
    decreases |data|
  {
    if data != [] {
      hide IsChained;
      var block: Block := c.enc(XorBlock(iv, data[..BLOCK]));
      EncryptIsChained(c, block, data[BLOCK..]);
      ChainGrows(c, iv, data[..BLOCK], data[BLOCK..], block, Encrypt(c, block, data[BLOCK..]));
      assert data == data[..BLOCK] + data[BLOCK..];
    }
  }

  // ---- Padding

  // The length after padding: up to the next multiple of 16, and never none.
  function PaddedLength(n: nat): nat {
    n / BLOCK * BLOCK + BLOCK
  }

  function Padding(n: nat): (r: byte)
    ensures 1 <= r <= BLOCK
  {
    PaddedLength(n) - n
  }

  function Pad(message: seq<byte>): (r: seq<byte>)
    ensures |r| == PaddedLength(|message|) && |r| % BLOCK == 0
  {
    message + seq(Padding(|message|), _ => Padding(|message|))
  }

  // Section 6.3 of RFC 5652: at least one byte and at most a block is added, up to a whole number of blocks, and every one
  // of these bytes is their number.
  ghost predicate IsPadded(message: seq<byte>, padded: seq<byte>) {
    && |padded| % BLOCK == 0 && |message| < |padded| <= |message| + BLOCK
    && padded[..|message|] == message
    && forall k :: |message| <= k < |padded| ==> padded[k] as int == |padded| - |message|
  }

  lemma PadIsPadding(message: seq<byte>)
    ensures IsPadded(message, Pad(message))
  {
  }

  // What the receiver keeps of a decrypted body: the last byte says how much to drop. A padding longer than the body
  // leaves the length of the message at zero.
  function Unpad(body: seq<byte>): seq<byte>
    requires body != []
  {
    var padding := body[|body| - 1];
    if padding <= |body| then body[..|body| - padding] else []
  }

  lemma UnpadUndoesPad(message: seq<byte>)
    ensures Unpad(Pad(message)) == message
  {
  }

  // ---- Records

  // The room for one message in the buffer of the receiver.
  const CAPACITY := 782

  function Header(length: nat): seq<byte>
    requires length < 0x1_0000
  {
    [length / 256, length % 256]
  }

  function BodyLength(header: seq<byte>): nat
    requires |header| >= 2
  {
    header[0] as int * 256 + header[1]
  }

  function Body(c: Cipher, iv: Block, message: seq<byte>): (r: seq<byte>)
    ensures |r| == PaddedLength(|message|)
  {
    Encrypt(c, iv, Pad(message))
  }

  predicate Sendable(message: seq<byte>) {
    0 < |message| <= CAPACITY
  }

  function Record(c: Cipher, iv: Block, message: seq<byte>): (r: seq<byte>)
    requires Sendable(message)
    ensures |r| == 2 + PaddedLength(|message|)
  {
    Header(PaddedLength(|message|)) + Body(c, iv, message)
  }

  // The initialization vector for the next record: the first ciphertext block of this one.
  function NextIv(c: Cipher, iv: Block, message: seq<byte>): Block {
    Body(c, iv, message)[..BLOCK]
  }

  // What the peer must find on the stream: the length of the body, big-endian, and the padded message, chained.
  ghost predicate IsRecord(c: Cipher, iv: Block, message: seq<byte>, record: seq<byte>) {
    && |record| >= 2 && record[0] as int * 256 + record[1] as int == |record| - 2
    && exists padded :: IsPadded(message, padded) && IsChained(c, iv, padded, record[2..])
  }

  lemma RecordIsRecord(c: Cipher, iv: Block, message: seq<byte>)
    requires Sendable(message)
    ensures IsRecord(c, iv, message, Record(c, iv, message))
  {
    hide Pad, Encrypt;
    PadIsPadding(message);
    EncryptIsChained(c, iv, Pad(message));
    var record := Record(c, iv, message);
    assert record[2..] == Encrypt(c, iv, Pad(message));
    assert record[..2] == Header(PaddedLength(|message|));
    assert record[0] == record[..2][0] && record[1] == record[..2][1];
  }

  // What a receiver makes of the bytes on the stream.
  datatype Received =
    | Message(message: seq<byte>, iv: Block, size: nat)  // the record takes up so many bytes
    | TooLong                                            // the record does not fit the buffer
    | Incomplete
    | Malformed

  function Decode(c: Cipher, iv: Block, stream: seq<byte>): Received {
    if |stream| < 2 then Incomplete
    else
      var n := BodyLength(stream);
      if n > CAPACITY then TooLong
      else if n == 0 || n % BLOCK != 0 then Malformed
      else if |stream| < 2 + n then Incomplete
      else
        var body := stream[2..2 + n];
        Message(Unpad(Decrypt(c, iv, body)), body[..BLOCK], 2 + n)
  }

  // A record is decoded to its message exactly when the message is shorter than 768 bytes; the receiver refuses the
  // record of a longer one.
  lemma RecordDecodes(c: Cipher, iv: Block, message: seq<byte>, rest: seq<byte>)
    requires Invertible(c) && Sendable(message)
    ensures Decode(c, iv, Record(c, iv, message) + rest)
              == if |message| < 768 then Message(message, NextIv(c, iv, message), |Record(c, iv, message)|) else TooLong
  {
    var n, record := PaddedLength(|message|), Record(c, iv, message);
    var stream := record + rest;
    assert stream[0] == n / 256 && stream[1] == n % 256;
    assert BodyLength(stream) == n;
    if |message| < 768 {
      assert stream[2..2 + n] == Body(c, iv, message);
      DecryptUndoesEncrypt(c, iv, Pad(message));
      UnpadUndoesPad(message);
    }
  }

  // ---- Streams

  predicate AllSendable(messages: seq<seq<byte>>) {
    forall k :: 0 <= k < |messages| ==> Sendable(messages[k])
  }

  predicate AllShort(messages: seq<seq<byte>>)
    ensures AllShort(messages) ==> AllSendable(messages)
  {
    forall k :: 0 <= k < |messages| ==> 0 < |messages[k]| < 768
  }

  function IvAfter(c: Cipher, iv: Block, messages: seq<seq<byte>>): Block
    decreases |messages|
  {
    if messages == [] then iv else IvAfter(c, NextIv(c, iv, messages[0]), messages[1..])
  }

  // Everything that is sent for a sequence of messages.
  function Stream(c: Cipher, iv: Block, messages: seq<seq<byte>>): seq<byte>
    requires AllSendable(messages)
    decreases |messages|
  {
    if messages == [] then [] else Record(c, iv, messages[0]) + Stream(c, NextIv(c, iv, messages[0]), messages[1..])
  }

  // A receiver that starts with the initialization vector iv decodes the bytes, all of them, to the messages and is
  // left with the initialization vector last.
  ghost predicate DecodesTo(c: Cipher, iv: Block, bytes: seq<byte>, messages: seq<seq<byte>>, last: Block)
    decreases |messages|
  {
    if messages == [] then bytes == [] && last == iv
    else
      var r := Decode(c, iv, bytes);
      && r.Message? && r.message == messages[0]
      && DecodesTo(c, r.iv, bytes[r.size..], messages[1..], last)
  }

  // Sending one more message appends its record.
  lemma {:induction false} StreamGrows(c: Cipher, iv: Block, messages: seq<seq<byte>>, message: seq<byte>)
    requires AllSendable(messages) && Sendable(message)
    ensures Stream(c, iv, messages + [message]) == Stream(c, iv, messages) + Record(c, IvAfter(c, iv, messages), message)
    ensures IvAfter(c, iv, messages + [message]) == NextIv(c, IvAfter(c, iv, messages), message)
    decreases |messages|
  {
    var longer := messages + [message];
    if messages == [] {
      assert longer[1..] == [];
    } else {
      var next := NextIv(c, iv, messages[0]);
      assert longer[1..] == messages[1..] + [message];
      StreamGrows(c, next, messages[1..], message);
    }
  }

  // Only the bytes of the first record matter for decoding it.
  lemma DecodeIsLocal(c: Cipher, iv: Block, bytes: seq<byte>, stream: seq<byte>)
    requires bytes <= stream && Decode(c, iv, bytes).Message?
    ensures Decode(c, iv, stream) == Decode(c, iv, bytes)
    ensures Decode(c, iv, bytes).size <= |bytes|
  {
    var n := BodyLength(bytes);
    assert bytes[0] == stream[0] && bytes[1] == stream[1];
    assert bytes[2..2 + n] == stream[2..2 + n];
  }

  // Receiving one more message consumes its record.
  lemma {:induction false} DecodingGrows(c: Cipher, iv: Block, bytes: seq<byte>, messages: seq<seq<byte>>, last: Block,
                                         stream: seq<byte>)
    requires DecodesTo(c, iv, bytes, messages, last) && Decode(c, last, stream).Message?
    ensures var r := Decode(c, last, stream);
            r.size <= |stream| && DecodesTo(c, iv, bytes + stream[..r.size], messages + [r.message], r.iv)
    decreases |messages|
  {
    var r := Decode(c, last, stream);
    var grown := bytes + stream[..r.size];
    if messages == [] {
      assert grown == stream[..r.size] && [r.message][1..] == [];
      FirstRecordSuffices(c, iv, stream);
    } else {
      var first := Decode(c, iv, bytes);
      DecodeIsLocal(c, iv, bytes, grown);
      DecodingGrows(c, first.iv, bytes[first.size..], messages[1..], last, stream);
      DropOfConcat(bytes, stream[..r.size], first.size);
      DropOfConcat(messages, [r.message], 1);
    }
  }

  lemma DropOfConcat<T>(a: seq<T>, b: seq<T>, n: nat)
    requires n <= |a|
    ensures (a + b)[n..] == a[n..] + b
  {
  }

  lemma FirstRecordSuffices(c: Cipher, iv: Block, stream: seq<byte>)
    requires Decode(c, iv, stream).Message?
    ensures var r := Decode(c, iv, stream);
            r.size <= |stream| && Decode(c, iv, stream[..r.size]) == r && stream[..r.size][r.size..] == []
  {
    var r := Decode(c, iv, stream);
    assert stream[..r.size][2..r.size] == stream[2..r.size];
  }

  // Two endpoints that start from the same key and initialization vector: whatever part of the stream the receiver has
  // consumed, the messages it got are the first of those that were sent, in order, and the initialization vector with
  // which it decodes the next record is the one with which that record was encrypted.
  lemma {:induction false} ReceivedIsPrefixOfSent(c: Cipher, iv: Block, sent: seq<seq<byte>>, bytes: seq<byte>,
                                                  received: seq<seq<byte>>, last: Block)
    requires Invertible(c) && AllShort(sent)
    requires bytes <= Stream(c, iv, sent) && DecodesTo(c, iv, bytes, received, last)
    ensures received <= sent && last == IvAfter(c, iv, received)
    ensures bytes == Stream(c, iv, received)
    decreases |received|
  {
    if received != [] {
      FirstOfStream(c, iv, sent, bytes);
      var next, size := NextIv(c, iv, sent[0]), |Record(c, iv, sent[0])|;
      ReceivedIsPrefixOfSent(c, next, sent[1..], bytes[size..], received[1..], last);
      assert received == [sent[0]] + received[1..] && sent == [sent[0]] + sent[1..];
    }
  }

  lemma FirstOfStream(c: Cipher, iv: Block, sent: seq<seq<byte>>, bytes: seq<byte>)
    requires Invertible(c) && AllShort(sent)
    requires bytes <= Stream(c, iv, sent) && Decode(c, iv, bytes).Message?
    ensures sent != []
    ensures var next, record := NextIv(c, iv, sent[0]), Record(c, iv, sent[0]);
            && Decode(c, iv, bytes) == Message(sent[0], next, |record|) && |record| <= |bytes|
            && bytes == record + bytes[|record|..]
            && bytes[|record|..] <= Stream(c, next, sent[1..])
  {
    hide Decode, Record, NextIv;
    var stream := Stream(c, iv, sent);
    DecodeIsLocal(c, iv, bytes, stream);
    StreamIsNotEmpty(c, iv, sent, bytes);
    var record, rest := Record(c, iv, sent[0]), Stream(c, NextIv(c, iv, sent[0]), sent[1..]);
    RecordDecodes(c, iv, sent[0], rest);
    assert stream == record + rest;
    Remainder(record, rest, bytes);
  }

  lemma StreamIsNotEmpty(c: Cipher, iv: Block, sent: seq<seq<byte>>, bytes: seq<byte>)
    requires AllShort(sent) && bytes <= Stream(c, iv, sent) && Decode(c, iv, bytes).Message?
    ensures sent != []
  {
  }

  lemma Remainder(record: seq<byte>, rest: seq<byte>, bytes: seq<byte>)
    requires bytes <= record + rest && |record| <= |bytes|
    ensures bytes == record + bytes[|record|..] && bytes[|record|..] <= rest
  {
    assert (record + rest)[|record|..] == rest && (record + rest)[..|record|] == record;
  }

  // And when it has consumed the whole stream it has all the messages.
  lemma {:induction false} WholeStreamDecodes(c: Cipher, iv: Block, messages: seq<seq<byte>>)
    requires Invertible(c) && AllShort(messages)
    ensures DecodesTo(c, iv, Stream(c, iv, messages), messages, IvAfter(c, iv, messages))
    decreases |messages|
  {
    if messages != [] {
      var next := NextIv(c, iv, messages[0]);
      var record, rest := Record(c, iv, messages[0]), Stream(c, next, messages[1..]);
      RecordDecodes(c, iv, messages[0], rest);
      assert (record + rest)[|record|..] == rest;
      WholeStreamDecodes(c, next, messages[1..]);
    }
  }

  // At the border between two records the stream never presents a header that the receiver would stumble over.
  lemma BordersAreWellFormed(c: Cipher, iv: Block, sent: seq<seq<byte>>, bytes: seq<byte>)
    requires Invertible(c) && AllShort(sent) && bytes <= Stream(c, iv, sent)
    ensures Decode(c, iv, bytes).Message? || Decode(c, iv, bytes).Incomplete?
  {
    if |bytes| >= 2 {
      var stream := Stream(c, iv, sent);
      assert sent != [];
      RecordDecodes(c, iv, sent[0], Stream(c, NextIv(c, iv, sent[0]), sent[1..]));
      assert bytes[0] == stream[0] && bytes[1] == stream[1];
    }
  }

  lemma {:induction false} StreamSplits(c: Cipher, iv: Block, sent: seq<seq<byte>>, k: nat)
    requires AllSendable(sent) && k <= |sent|
    ensures Stream(c, iv, sent) == Stream(c, iv, sent[..k]) + Stream(c, IvAfter(c, iv, sent[..k]), sent[k..])
    decreases k
  {
    if k > 0 {
      StreamSplits(c, NextIv(c, iv, sent[0]), sent[1..], k - 1);
      assert sent[..k][1..] == sent[1..][..k - 1] && sent[1..][k - 1..] == sent[k..];
    } else {
      assert sent[..0] == [] && sent[0..] == sent;
    }
  }

  // Fewer messages have a shorter stream.
  lemma StreamIsShorter(c: Cipher, iv: Block, sent: seq<seq<byte>>, received: seq<seq<byte>>)
    requires AllSendable(sent) && received < sent
    ensures |Stream(c, iv, received)| < |Stream(c, iv, sent)|
  {
    var k := |received|;
    assert sent[..k] == received;
    StreamSplits(c, iv, sent, k);
    var rest := sent[k..];
    assert |Stream(c, IvAfter(c, iv, received), rest)| >= |Record(c, IvAfter(c, iv, received), rest[0])|;
  }

  // ---- When a byte is lost

  // The length of a record of 256 bytes ends with a zero. Behind that one lost byte, a ciphertext that begins with 16
  // makes a good header: the receiver decodes a message that was never sent.
  lemma LostByteIsNotNoticed(c: Cipher, iv: Block, message: seq<byte>)
    requires 240 <= |message| < 256 && NextIv(c, iv, message)[0] == BLOCK
    ensures var r := Decode(c, iv, Stream(c, iv, [message])[1..]);
            r.Message? && r.message != message
  {
    hide Encrypt, Decrypt, Pad;
    var stream, body := Stream(c, iv, [message]), Body(c, iv, message);
    assert [message][1..] == [] && stream == Record(c, iv, message) == Header(256) + body;
    assert stream[1..][0] == 0 && stream[1..][1] == body[0] == BLOCK;
    assert BodyLength(stream[1..]) == BLOCK;
  }

  // For example, with a cipher that changes nothing, and a message of 255 bytes, all of them 16.
  lemma LostByteExample()
    ensures var c, iv, message := Cipher(b => b, b => b), seq(BLOCK, _ => 0), seq(255, _ => BLOCK);
            Invertible(c) && NextIv(c, iv, message)[0] == BLOCK
  {
    var message: seq<byte> := seq(255, _ => BLOCK);
    assert Pad(message)[..BLOCK][0] == BLOCK;
    assert XorByte(0, BLOCK) == BLOCK by {
      assert Xor(0, 2, 5) == 2 && Xor(0, 1, 4) == 1;
    }
  }
}
