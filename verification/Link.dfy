// What the reliability layer sees of its surroundings: the channel below it and the clock.
// Both follow a script fixed in advance, so a statement about all scripts is a statement about every network that
// loses, duplicates, reorders or delays messages, and about every clock.
module Link {
  import opened Words
  import opened CoapMessage

  datatype SendResult = Accepted | Refused(code: nat) {
    function ToError(): (error: ProtocolError)
      ensures error == NoError <==> Accepted?
    {
      match this
      case Accepted => NoError
      case Refused(code) => ChannelError(code)
    }
  }

  // PROTOCOL_BUFFER_SIZE
  const CHANNEL_BUFFER_SIZE := 800

  // One poll of the channel: a message (of length 0 when none is ready) or a failure.
  datatype Arrival = Arrived(bytes: seq<byte>) | Failed(code: nat)

  class Link {
    const sendResults: nat -> SendResult
    const arrivals: nat -> Arrival
    const sessions: nat -> SendResult  // what each attempt to establish a session comes to
    var sent: seq<seq<byte>>
    var commands: seq<Command>
    var polls: nat
    // How often the upper layer has been told that all client messages are processed.
    var notifications: nat
    var established: nat

    // No message is longer than the buffer of the channel.
    ghost predicate Bounded() {
      forall n: nat :: arrivals(n).Arrived? ==> |arrivals(n).bytes| <= CHANNEL_BUFFER_SIZE
    }

    constructor (sendResults: nat -> SendResult, arrivals: nat -> Arrival, sessions: nat -> SendResult)
      ensures sent == [] && commands == [] && polls == 0 && notifications == 0 && established == 0
      ensures this.sendResults == sendResults && this.arrivals == arrivals && this.sessions == sessions
    {
      this.sendResults, this.arrivals, this.sessions := sendResults, arrivals, sessions;
      sent, commands, polls, notifications, established := [], [], 0, 0, 0;
    }

    method Send(bytes: seq<byte>) returns (error: ProtocolError)
      modifies this`sent
      ensures sent == old(sent) + [bytes]
      ensures error == sendResults(|old(sent)|).ToError()
    {
      error := sendResults(|sent|).ToError();
      sent := sent + [bytes];
    }

    method Command(c: Command)
      modifies this`commands
      ensures commands == old(commands) + [c]
    {
      commands := commands + [c];
    }

    method NotifyClientMessagesProcessed()
      modifies this`notifications
      ensures notifications == old(notifications) + 1
    {
      notifications := notifications + 1;
    }

    method Establish() returns (error: ProtocolError)
      modifies this`established
      ensures established == old(established) + 1 && error == sessions(old(established)).ToError()
    {
      error := sessions(established).ToError();
      established := established + 1;
    }

    method Receive() returns (arrival: Arrival)
      modifies this`polls
      ensures polls == old(polls) + 1
      ensures arrival == arrivals(old(polls))
    {
      arrival := arrivals(polls);
      polls := polls + 1;
    }
  }

  // The millisecond clock. Reading number n returns the low 32 bits of ticks(n); rand(n, id) is the random number
  // that the processing pass started by that reading draws for the message with that ID.
  class Clock {
    const ticks: nat -> nat
    const rand: (nat, uint16) -> byte
    var readings: nat

    constructor (ticks: nat -> nat, rand: (nat, uint16) -> byte)
      ensures this.ticks == ticks && this.rand == rand && readings == 0
    {
      this.ticks := ticks;
      this.rand := rand;
      readings := 0;
    }

    // The clock never runs backwards.
    ghost predicate Monotone() {
      forall m: nat, n: nat :: m <= n ==> ticks(m) <= ticks(n)
    }

    ghost predicate Reaches(t: nat) {
      exists n: nat :: ticks(n) >= t
    }

    // The clock advances: it passes every time, and consecutive readings are at most 2^30 ms (12 days) apart.
    ghost predicate Advances() {
      && (forall m: nat, n: nat :: m <= n <= m + 1 ==> ticks(n) <= ticks(m) + 0x4000_0000)
      && (forall t: nat :: Reaches(t))
    }

    // The time of the next reading.
    ghost function Now(): nat
      reads this
    {
      ticks(readings)
    }

    method Millis() returns (now: uint32)
      modifies this
      ensures readings == old(readings) + 1
      ensures now == Low32(old(Now()))
    {
      now := Low32(ticks(readings));
      readings := readings + 1;
    }
  }

  // The number of live messages, CoAPMessage::message_count.
  class MessageCounter {
    var count: int

    constructor ()
      ensures count == 0
    {
      count := 0;
    }
  }

  // The variable of send_synchronous that its delivery handler writes.
  class DeliveryFlag {
    var error: ProtocolError

    constructor ()
      ensures error == NoError
    {
      error := NoError;
    }
  }
}
