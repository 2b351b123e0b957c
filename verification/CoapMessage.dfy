// The parts of a CoAP message that the reliability layer reads: type, message ID and length.
module CoapMessage {
  import opened Words

  datatype CoapType = CON | NON | ACK | RESET | ERROR

  datatype ProtocolError =
    | NoError
    | InvalidState
    | InsufficientStorage
    | MissingMessageId
    | MessageTimeout
    | MessageReset
    | ChannelError(code: nat)

  // The commands that the reliability layer gives to the channel below it.
  datatype Command = Close | DiscardSession

  const MINIMUM_COAP_MESSAGE_LENGTH := 4

  // Bits 4 and 5 of the first byte.
  function TypeOf(bytes: seq<byte>): CoapType
    requires |bytes| > 0
  {
    match bytes[0] / 16 % 4
    case 0 => CON
    case 1 => NON
    case 2 => ACK
    case _ => RESET
  }

  // Message::get_type: anything shorter than a header has no type.
  function MessageType(bytes: seq<byte>): CoapType {
    if |bytes| >= MINIMUM_COAP_MESSAGE_LENGTH then TypeOf(bytes) else ERROR
  }

  predicate IsReply(bytes: seq<byte>) {
    |bytes| > 0 && TypeOf(bytes) in {ACK, RESET}
  }

  predicate IsRequest(bytes: seq<byte>) {
    MessageType(bytes) in {CON, NON}
  }

  // The message ID: bytes 2 and 3, big-endian.
  function IdOf(bytes: seq<byte>): uint16
    requires |bytes| >= MINIMUM_COAP_MESSAGE_LENGTH
  {
    bytes[2] as int * 256 + bytes[3]
  }

  // The bytes of a message after CoAPChannel has written the ID into its header.
  function WithId(bytes: seq<byte>, id: uint16): (r: seq<byte>)
    requires |bytes| >= MINIMUM_COAP_MESSAGE_LENGTH
    ensures |r| == |bytes| && IdOf(r) == id && TypeOf(r) == TypeOf(bytes)
    ensures forall i :: 0 <= i < |bytes| && i != 2 && i != 3 ==> r[i] == bytes[i]
  {
    bytes[2 := id / 256][3 := id % 256]
  }

  // A message in the hands of the application or the channel: the used part of its buffer and its decoded ID.
  class Message {
    var bytes: seq<byte>
    var id: int              // negative when not defined
    var confirmReceived: bool

    constructor (bytes: seq<byte>)
      ensures this.bytes == bytes && id == -1 && !confirmReceived
    {
      this.bytes := bytes;
      id := -1;
      confirmReceived := false;
    }

    // The ID, when there is one, is the one in the header.
    ghost predicate Stamped()
      reads this
    {
      id >= 0 ==> |bytes| >= MINIMUM_COAP_MESSAGE_LENGTH && id == IdOf(bytes)
    }

    method DecodeId() returns (decoded: bool)
      modifies this`id
      ensures decoded <==> |bytes| >= MINIMUM_COAP_MESSAGE_LENGTH
      ensures id == if decoded then IdOf(bytes) else old(id)
    {
      decoded := |bytes| >= MINIMUM_COAP_MESSAGE_LENGTH;
      if decoded {
        id := IdOf(bytes);
      }
    }
  }
}
