// CoAPChannel and CoAPReliableChannel: message IDs, reliable sending and receiving, and the blocking synchronous send.
module ReliableChannel {
  import opened Words
  import opened CoapMessage
  import opened StoreSpec
  import opened StoreRuns
  import opened StoreGuarantees
  import opened SynchronousSend
  import opened Link
  import opened Exchanges
  import opened MessageStore

  ghost function PassAt(clock: Clock, n: nat): Op {
    Process(clock.ticks(n), id => clock.rand(n, id))
  }

  ghost function SentAt(bytes: seq<byte>, clock: Clock, n: nat): Op
    requires |bytes| >= MINIMUM_COAP_MESSAGE_LENGTH
  {
    StoreSpec.Send(bytes, clock.ticks(n), clock.rand(n, IdOf(bytes)))
  }

  // The logs, and what the channel has been given, at the start of a send.
  datatype Before = Before(client: seq<Op>, server: seq<Op>, sent: seq<seq<byte>>, commands: seq<Command>, polls: nat,
                           readings: nat)

  class CoAPReliableChannel {
    const link: Link
    const clock: Clock
    const counter: MessageCounter
    const flag: DeliveryFlag
    const client: CoAPMessageStore
    const server: CoAPMessageStore
    // Every operation on each store so far.
    ghost var clientLog: seq<Op>
    ghost var serverLog: seq<Op>
    ghost var exchanges: seq<Exchange>  // the polls for the application

    // The stores are valid lists on separate parts of the heap.
    ghost predicate Separate()
      reads client, server, client.Repr, server.Repr
    {
      && client != server && client.Repr !! server.Repr
      && client.counter == server.counter == counter && client.flag == server.flag == flag
      && client.Valid() && server.Valid()
    }

    // The stores are what the logs say, and message_count is the number of messages they hold.
    ghost predicate Logged()
      reads this`clientLog, this`serverLog, client, server, counter, clock
    {
      && ClientHistory(clientLog, clock.Now()) && client.entries == Run(clientLog)
      && ServerHistory(serverLog, clock.Now()) && server.entries == Run(serverLog)
      && counter.count == |client.entries| + |server.entries|
      && clock.Monotone() && link.Bounded()
    }

    ghost predicate Valid()
      reads this`clientLog, this`serverLog, client, server, client.Repr, server.Repr, counter, clock
    {
      Separate() && Logged()
    }

    // What the application has been given is what the logs account for.
    ghost predicate Accounts()
      reads this`exchanges, this`clientLog, this`serverLog
    {
      Recorded(exchanges, link.arrivals, clientLog, serverLog)
    }

    constructor (link: Link, clock: Clock)
      requires clock.Monotone() && link.Bounded()
      ensures Valid() && Accounts() && clientLog == [] && serverLog == [] && exchanges == []
      ensures this.link == link && this.clock == clock
      ensures fresh(this) && fresh(client) && fresh(server) && fresh(counter) && fresh(flag)
    {
      this.link := link;
      this.clock := clock;
      var c := new MessageCounter();
      var f := new DeliveryFlag();
      counter, flag := c, f;
      client := new CoAPMessageStore(c, f);
      server := new CoAPMessageStore(c, f);
      clientLog, serverLog, exchanges := [], [], [];
    }

    // The parts of the invariant that callers need.
    lemma StoresAreLogged()
      requires Valid()
      ensures client.Valid() && AllLegal(clientLog) && client.entries == Run(clientLog)
      ensures server.Valid() && AllLegal(serverLog) && server.entries == Run(serverLog)
      ensures link.Bounded()
    {
    }

    // message_count is the number of messages in both stores, at every moment.
    lemma LiveMessagesAreCounted()
      requires Valid()
      ensures counter.count == |client.nodes| + |server.nodes|
    {
      assert |client.nodes| == |client.entries| && |server.nodes| == |server.entries|;
    }

    // If the stores are polled at least every 24 days, the theorems about runs apply to what this channel has done.
    lemma LogsAreWellTimed()
      requires Valid()
      ensures PolledEvery(HALF_TICKS, 0, clientLog) ==> WellTimed(0, clientLog)
      ensures PolledEvery(HALF_TICKS, 0, serverLog) ==> WellTimed(0, serverLog)
    {
      if PolledEvery(HALF_TICKS, 0, clientLog) {
        WellTimedRuns(0, clientLog);
      }
      if PolledEvery(HALF_TICKS, 0, serverLog) {
        WellTimedRuns(0, serverLog);
      }
    }

    // Operations that show nothing to the server store leave the account of the exchanges as it is.
    lemma StillAccounts(client: seq<Op>, server: seq<Op>)
      requires Valid() && Recorded(exchanges, link.arrivals, client, server) && client <= clientLog && server <= serverLog
      requires forall k :: |server| <= k < |serverLog| ==> !serverLog[k].Receive?
      ensures Accounts()
    {
      hide Recorded;
      RecordedLasts(exchanges, link.arrivals, client, server, clientLog, serverLog);
    }

    // In everything that has happened to this channel, a request ID is handed to the application at most once in any 45 s
    // of a session.
    lemma RequestsAreHandedOverOnce(i: nat, j: nat, id: uint16)
      requires Valid() && Accounts() && PolledEvery(HALF_TICKS, 0, serverLog)
      requires i < j < |exchanges| && exchanges[i].session == exchanges[j].session
      requires AboutRequest(exchanges[i], link.arrivals, id) && exchanges[i].handed != []
      requires AboutRequest(exchanges[j], link.arrivals, id) && exchanges[j].handed != []
      ensures exchanges[j].at >= exchanges[i].at + MAX_TRANSMIT_SPAN
    {
      hide Recorded, WellTimed, PolledEvery;
      LogsAreWellTimed();
      HandedOverOnce(exchanges, link.arrivals, clientLog, serverLog, i, j, id);
    }

    // A request is handed over unless one with its ID was handed over or answered before, and then an answer is sent again.
    lemma RequestsAreHandedOverExactly(j: nat, id: uint16)
      requires Valid() && Accounts() && PolledEvery(HALF_TICKS, 0, serverLog)
      requires j < |exchanges| && AboutRequest(exchanges[j], link.arrivals, id)
      ensures exchanges[j].place < |serverLog|
      ensures exchanges[j].handed
           == if HandedBefore(exchanges, link.arrivals, serverLog, j, id) || AnsweredBefore(exchanges, serverLog, j, id)
              then [] else BytesOf(link.arrivals(exchanges[j].poll))
      ensures !AnsweredBefore(exchanges, serverLog, j, id) ==> exchanges[j].replies == []
      ensures forall k: nat :: LatestAnswer(serverLog[..exchanges[j].place], k, id) ==>
                k < exchanges[j].place && serverLog[k].Send? && exchanges[j].replies == [serverLog[k].msg]
    {
      hide Recorded, WellTimed, PolledEvery, HandedBefore, Lasts;
      LogsAreWellTimed();
      HandedOverUnlessKnown(exchanges, link.arrivals, clientLog, serverLog, j, id);
      AnsweredIfKnown(exchanges, link.arrivals, clientLog, serverLog, j, id);
    }

    // Every other message that arrives is shown to the client store, or handed over as it is.
    lemma OthersAreHandedOver(j: nat)
      requires Accounts() && j < |exchanges|
      ensures var x := exchanges[j];
              var bytes := BytesOf(link.arrivals(x.poll));
              && (MessageType(bytes) in {NON, ERROR} || (MessageType(bytes) == CON && !x.requests) ==>
                    x.handed == bytes && x.replies == [])
              && (MessageType(bytes) in {ACK, RESET} ==>
                    && x.place < |clientLog| && AllLegal(clientLog[..x.place]) && x.replies == []
                    && x.handed == if Find(Run(clientLog[..x.place]), IdOf(bytes)).Present? then bytes else [])
    {
      assert Accounted(exchanges[j], link.arrivals, clientLog, serverLog);
    }

    // A reply that arrives for a request that was sent, and to which nothing has happened since but the passing of time, is
    // handed over exactly when the request has not been given up, so always in the first 60 s.
    lemma RepliesAreHandedOver(j: nat, k: nat, id: uint16)
      requires Valid() && Accounts() && PolledEvery(HALF_TICKS, 0, clientLog)
      requires j < |exchanges| && k < exchanges[j].place <= |clientLog|
      requires var bytes := BytesOf(link.arrivals(exchanges[j].poll)); MessageType(bytes) in {ACK, RESET} && IdOf(bytes) == id
      requires Requests(clientLog[k], id) && Unanswered(clientLog[k + 1..exchanges[j].place], id)
      ensures var x, mid := exchanges[j], clientLog[k + 1..exchanges[j].place];
              var bytes := BytesOf(link.arrivals(x.poll));
              && AllLegal(mid)
              && x.handed == (if GiveUpTimes(FirstHeld(clientLog[k]), mid, id) == [] then bytes else [])
              && (EndTime(clientLog[k].at, mid) < clientLog[k].at + 60000 ==> x.handed == bytes)
    {
      hide Run, Delivers, GiveUpTimes, WellTimed, PolledEvery, Find, Transmits;
      LogsAreWellTimed();
      var x := exchanges[j];
      assert Accounted(x, link.arrivals, clientLog, serverLog);
      var pre, mid := clientLog[..k], clientLog[k + 1..x.place];
      assert clientLog[..x.place] == pre + [clientLog[k]] + mid;
      assert clientLog == clientLog[..x.place] + clientLog[x.place..];
      SuffixMonotone(0, clientLog[..x.place], clientLog[x.place..]);
      ReplyIsDelivered(0, pre, clientLog[k], mid, clientLog[x.place], id);
    }

    // Both histories remain histories when the clock is read once more.
    lemma AdvanceTime()
      requires Valid()
      ensures clock.Now() <= clock.ticks(clock.readings + 1)
      ensures AllLegal(clientLog) && AllLegal(serverLog)
      ensures ClientHistory(clientLog, clock.ticks(clock.readings + 1))
      ensures ServerHistory(serverLog, clock.ticks(clock.readings + 1))
    {
      HistoriesLast(clientLog, serverLog, clock.Now(), clock.ticks(clock.readings + 1));
    }

    // client.process(millis(), delegateChannel)
    method ProcessClient()
      requires Valid()
      modifies this`clientLog, client, client.Repr, link`sent, link`commands, clock, counter, flag
      ensures Valid() && client.Repr == old(client.Repr)
      ensures clock.readings == old(clock.readings) + 1
      ensures clientLog == old(clientLog) + [PassAt(clock, old(clock.readings))]
      ensures link.sent == old(link.sent) + Resends(old(client.entries), Low32(old(clock.Now())))
      ensures link.commands == old(link.commands) + Closes(old(client.entries), Low32(old(clock.Now())))
      ensures flag.error == if ReportsTimeout(old(client.entries), Low32(old(clock.Now()))) then MessageTimeout
                            else old(flag.error)
    {
      hide CoAPMessageStore.Valid, Processed, Resends, Closes, ReportsTimeout, ClientHistory, ServerHistory;
      ghost var op := PassAt(clock, clock.readings);
      AdvanceTime();
      ClientHistoryExtends(clientLog, op, clock.Now(), clock.ticks(clock.readings + 1));
      clientLog := clientLog + [op];
      var n := clock.readings;
      var now := clock.Millis();
      client.Process(now, id => clock.rand(n, id), link);
    }

    // server.process(millis(), delegateChannel)
    method ProcessServer()
      requires Valid()
      modifies this`serverLog, server, server.Repr, link`sent, link`commands, clock, counter, flag
      ensures Valid() && server.Repr == old(server.Repr)
      ensures clock.readings == old(clock.readings) + 1
      ensures serverLog == old(serverLog) + [PassAt(clock, old(clock.readings))]
      ensures link.sent == old(link.sent) && flag.error == old(flag.error)
      ensures link.commands == old(link.commands) + Closes(old(server.entries), Low32(old(clock.Now())))
    {
      hide CoAPMessageStore.Valid, Processed, Resends, Closes, ReportsTimeout, ClientHistory, ServerHistory;
      ghost var op := PassAt(clock, clock.readings);
      AdvanceTime();
      ServerHistoryExtends(serverLog, op, clock.Now(), clock.ticks(clock.readings + 1));
      ServerStoreNeverRetransmits(serverLog, op);
      serverLog := serverLog + [op];
      assert Transmits(server.entries, op) == Resends(server.entries, Low32(op.at));
      var n := clock.readings;
      var now := clock.Millis();
      server.Process(now, id => clock.rand(n, id), link);
    }

    // client.receive(msg, delegateChannel, millis())
    method ReceiveAtClient(msg: Message) returns (error: ProtocolError)
      requires Valid() && !IsRequest(msg.bytes) && |msg.bytes| <= MAX_DATA_LENGTH
      modifies this`clientLog, client, client.Repr, link`sent, link`commands, clock, counter, flag, msg
      ensures Valid() && fresh(client.Repr - old(client.Repr))
      ensures clock.readings == old(clock.readings) + 1 && error == NoError
      ensures clientLog == old(clientLog) + [StoreSpec.Receive(old(msg.bytes), old(clock.Now()))]
      ensures var r := React(old(client.entries), old(msg.bytes), Low32(old(clock.Now())));
              && msg.bytes == (if r.passed then old(msg.bytes) else [])
              && link.sent == old(link.sent)
              && link.commands == old(link.commands) + (if r.discard then [DiscardSession] else [])
              && flag.error == if r.nacked then MessageReset else old(flag.error)
    {
      hide CoAPMessageStore.Valid, StoreSpec.Valid, Run, React, ClientHistory, ServerHistory;
      ReactionToRequest(client.entries, msg.bytes, Low32(clock.Now()));
      ghost var op := StoreSpec.Receive(msg.bytes, clock.Now());
      AdvanceTime();
      ClientHistoryExtends(clientLog, op, clock.Now(), clock.ticks(clock.readings + 1));
      clientLog := clientLog + [op];
      var now := clock.Millis();
      error := client.Receive(msg, link, now);
    }

    // server.receive(msg, delegateChannel, millis())
    method ReceiveAtServer(msg: Message) returns (error: ProtocolError)
      requires Valid() && IsRequest(msg.bytes) && |msg.bytes| <= MAX_DATA_LENGTH
      modifies this`serverLog, server, server.Repr, link`sent, link`commands, clock, counter, flag, msg
      ensures Valid() && fresh(server.Repr - old(server.Repr))
      ensures clock.readings == old(clock.readings) + 1
      ensures serverLog == old(serverLog) + [StoreSpec.Receive(old(msg.bytes), old(clock.Now()))]
      ensures var r := React(old(server.entries), old(msg.bytes), Low32(old(clock.Now())));
              && msg.bytes == (if r.passed then old(msg.bytes) else [])
              && link.sent == old(link.sent) + r.replies
              && link.commands == old(link.commands) && flag.error == old(flag.error)
              && error == if r.replies == [] then NoError else link.sendResults(|old(link.sent)|).ToError()
    {
      hide CoAPMessageStore.Valid, StoreSpec.Valid, Run, React, ClientHistory, ServerHistory;
      ReactionToRequest(server.entries, msg.bytes, Low32(clock.Now()));
      ghost var op := StoreSpec.Receive(msg.bytes, clock.Now());
      AdvanceTime();
      ServerHistoryExtends(serverLog, op, clock.Now(), clock.ticks(clock.readings + 1));
      serverLog := serverLog + [op];
      var now := clock.Millis();
      error := server.Receive(msg, link, now);
    }

    // client.send(msg, millis()), for a message with an ID
    method SendAtClient(msg: Message) returns (error: ProtocolError)
      requires Valid() && IsRequest(msg.bytes) && msg.Stamped() && msg.id >= 0 && |msg.bytes| <= CHANNEL_BUFFER_SIZE
      modifies this`clientLog, client, client.Repr, clock, counter
      ensures Valid() && fresh(client.Repr - old(client.Repr)) && error == NoError
      ensures clock.readings == old(clock.readings) + 1
      ensures clientLog == old(clientLog) + [SentAt(msg.bytes, clock, old(clock.readings))]
    {
      hide CoAPMessageStore.Valid, StoreSpec.Valid, Run, Sent, ClientHistory, ServerHistory;
      ghost var op := SentAt(msg.bytes, clock, clock.readings);
      AdvanceTime();
      ClientHistoryExtends(clientLog, op, clock.Now(), clock.ticks(clock.readings + 1));
      clientLog := clientLog + [op];
      var n := clock.readings;
      var now := clock.Millis();
      error := client.Send(msg, now, clock.rand(n, IdOf(msg.bytes)));
    }

    // server.send(msg, millis()), for a message with an ID
    method SendAtServer(msg: Message) returns (error: ProtocolError)
      requires Valid() && MessageType(msg.bytes) in {ACK, RESET} && msg.Stamped() && msg.id >= 0
      requires |msg.bytes| <= CHANNEL_BUFFER_SIZE
      modifies this`serverLog, server, server.Repr, clock, counter
      ensures Valid() && fresh(server.Repr - old(server.Repr)) && error == NoError
      ensures clock.readings == old(clock.readings) + 1
      ensures serverLog == old(serverLog) + [SentAt(msg.bytes, clock, old(clock.readings))]
    {
      hide CoAPMessageStore.Valid, StoreSpec.Valid, Run, Sent, ClientHistory, ServerHistory;
      ghost var op := SentAt(msg.bytes, clock, clock.readings);
      AdvanceTime();
      ServerHistoryExtends(serverLog, op, clock.Now(), clock.ticks(clock.readings + 1));
      serverLog := serverLog + [op];
      var n := clock.readings;
      var now := clock.Millis();
      error := server.Send(msg, now, clock.rand(n, IdOf(msg.bytes)));
    }

    // The part of CoAPReliableChannel::receive that shows the message to a store.
    method TakeIn(msg: Message, requests: bool) returns (error: ProtocolError)
      requires Valid() && |msg.bytes| <= CHANNEL_BUFFER_SIZE
      modifies this`clientLog, this`serverLog, client, client.Repr, server, server.Repr,
               link`sent, link`commands, clock, counter, flag, msg
      ensures Valid() && fresh(client.Repr - old(client.Repr)) && fresh(server.Repr - old(server.Repr))
      ensures var i := TakenIn(old(msg.bytes), requests, old(client.entries), old(server.entries), old(clock.Now()));
              && clientLog == old(clientLog) + i.client && serverLog == old(serverLog) + i.server
              && msg.bytes == i.passed && link.sent == old(link.sent) + i.replies
              && link.commands == old(link.commands) + i.commands
              && clock.readings == old(clock.readings) + |i.client| + |i.server|
              && error == if i.replies == [] then NoError else link.sendResults(|old(link.sent)|).ToError()
    {
      hide CoAPReliableChannel.Valid, React;
      error := NoError;
      if msg.bytes != [] {
        if !IsRequest(msg.bytes) {
          error := ReceiveAtClient(msg);
        } else if requests {
          error := ReceiveAtServer(msg);
        }
      }
    }

    lemma ServerIsSeparate()
      requires Valid()
      ensures client != server && client.Repr !! server.Repr
    {
    }

    // The background processing of both stores.
    method ProcessBoth()
      requires Valid()
      modifies this`clientLog, this`serverLog, client, client.Repr, server, server.Repr,
               link`sent, link`commands, clock, counter, flag
      ensures Valid() && client.Repr == old(client.Repr) && server.Repr == old(server.Repr)
      ensures clientLog == old(clientLog) + [PassAt(clock, old(clock.readings))]
      ensures serverLog == old(serverLog) + [PassAt(clock, old(clock.readings) + 1)]
      ensures link.sent == old(link.sent) + Resends(old(client.entries), Low32(old(clock.Now())))
      ensures link.commands == old(link.commands) + Closes(old(client.entries), Low32(old(clock.Now())))
                                                  + Closes(old(server.entries), Low32(clock.ticks(old(clock.readings) + 1)))
    {
      hide CoAPReliableChannel.Valid, Resends, Closes, ReportsTimeout;
      ServerIsSeparate();
      ProcessClient();
      ProcessServer();
    }

    // Tells the upper layer when the last pending request is gone.
    method NotifyIfProcessed(hadClientMessages: bool)
      requires Valid()
      modifies link`notifications
      ensures link.notifications == old(link.notifications)
                + if hadClientMessages && client.entries == [] then 1 else 0
    {
      if hadClientMessages && !client.HasMessages() {
        link.NotifyClientMessagesProcessed();
      }
    }

    // The first half of CoAPReliableChannel::receive(msg, requests): one poll of the channel.
    method Poll(msg: Message, requests: bool) returns (error: ProtocolError)
      requires Valid() && NoneWatched(client.entries)
      modifies this`clientLog, this`serverLog, client, client.Repr, server, server.Repr,
               link`polls, link`sent, link`commands, clock, counter, flag, msg
      ensures Valid() && fresh(client.Repr - old(client.Repr)) && fresh(server.Repr - old(server.Repr))
      ensures NoneWatched(client.entries) && link.polls == old(link.polls) + 1
      ensures var arrival := link.arrivals(old(link.polls));
              var i := TakenIn(BytesOf(arrival), requests, old(client.entries), old(server.entries), old(clock.Now()));
              && clientLog == old(clientLog) + i.client && serverLog == old(serverLog) + i.server
              && msg.bytes == i.passed && link.sent == old(link.sent) + i.replies
              && link.commands == old(link.commands) + i.commands
              && clock.readings == old(clock.readings) + |i.client| + |i.server|
              && error == if arrival.Failed? then ChannelError(arrival.code)
                          else if i.replies == [] then NoError else link.sendResults(|old(link.sent)|).ToError()
    {
      hide CoAPReliableChannel.Valid, TakenIn, NoneWatched, Run;
      StoresAreLogged();
      ghost var log, bytes, s, now := clientLog, BytesOf(link.arrivals(link.polls)), server.entries, clock.Now();
      var arrival := link.Receive();
      msg.id, msg.bytes := -1, BytesOf(arrival);
      error := TakeIn(msg, requests);
      if arrival.Failed? {
        error := ChannelError(arrival.code);
      }
      StaysUnwatched(log, bytes, requests, s, now);
      StoresAreLogged();
    }

    // Receiving installs no delivery handler.
    lemma StaysUnwatched(log: seq<Op>, bytes: seq<byte>, requests: bool, server: seq<Entry>, now: nat)
      requires AllLegal(log) && NoneWatched(Run(log))
      ensures AllLegal(log + TakenIn(bytes, requests, Run(log), server, now).client)
      ensures NoneWatched(Run(log + TakenIn(bytes, requests, Run(log), server, now).client))
    {
      hide StoreSpec.Valid, Run, NoneWatched, React;
      var ops := TakenIn(bytes, requests, Run(log), server, now).client;
      if ops == [] {
        assert log + ops == log;
      } else {
        OperationKeepsNoneWatched(log, ops[0], 0);
        assert ops == [ops[0]];
      }
    }

    // The second half: both passes, and the notification of the upper layer.
    method Background(hadClientMessages: bool)
      requires Valid() && NoneWatched(client.entries)
      modifies this`clientLog, this`serverLog, client, client.Repr, server, server.Repr,
               link`sent, link`commands, link`notifications, clock, counter, flag
      ensures Valid() && client.Repr == old(client.Repr) && server.Repr == old(server.Repr)
      ensures NoneWatched(client.entries)
      ensures clientLog == old(clientLog) + [PassAt(clock, old(clock.readings))]
      ensures serverLog == old(serverLog) + [PassAt(clock, old(clock.readings) + 1)]
      ensures link.sent == old(link.sent) + Resends(old(client.entries), Low32(old(clock.Now())))
      ensures link.commands == old(link.commands) + Closes(old(client.entries), Low32(old(clock.Now())))
                                                  + Closes(old(server.entries), Low32(clock.ticks(old(clock.readings) + 1)))
      ensures link.notifications == old(link.notifications) + if hadClientMessages && client.entries == [] then 1 else 0
    {
      hide CoAPReliableChannel.Valid, CoAPMessageStore.Valid, StoreSpec.Valid, Resends, Closes, Run, NoneWatched;
      StoresAreLogged();
      OperationKeepsNoneWatched(clientLog, PassAt(clock, clock.readings), 0);
      ProcessBoth();
      StoresAreLogged();
      NotifyIfProcessed(hadClientMessages);
    }

    // CoAPReliableChannel::receive(msg, requests), without the account of the exchange
    method PollAndProcess(msg: Message, requests: bool) returns (error: ProtocolError)
      requires Valid() && NoneWatched(client.entries)
      modifies this`clientLog, this`serverLog, client, client.Repr, server, server.Repr,
               link`polls, link`sent, link`commands, link`notifications, clock, counter, flag, msg
      ensures Valid() && fresh(client.Repr - old(client.Repr)) && fresh(server.Repr - old(server.Repr))
      ensures NoneWatched(client.entries)
      ensures link.polls == old(link.polls) + 1
      ensures var arrival := link.arrivals(old(link.polls));
              var i := TakenIn(BytesOf(arrival), requests, old(client.entries), old(server.entries), old(clock.Now()));
              var n := old(clock.readings) + |i.client| + |i.server|;
              && clientLog == old(clientLog) + i.client + [PassAt(clock, n)]
              && serverLog == old(serverLog) + i.server + [PassAt(clock, n + 1)]
              && msg.bytes == i.passed
              && link.sent == old(link.sent) + i.replies
                              + Resends(Run(old(clientLog) + i.client), Low32(clock.ticks(n)))
              && link.commands == old(link.commands) + i.commands
                                  + Closes(Run(old(clientLog) + i.client), Low32(clock.ticks(n)))
                                  + Closes(Run(old(serverLog) + i.server), Low32(clock.ticks(n + 1)))
              && error == if arrival.Failed? then ChannelError(arrival.code)
                          else if i.replies == [] then NoError else link.sendResults(|old(link.sent)|).ToError()
      ensures link.notifications == old(link.notifications)
                + if old(client.entries) != [] && client.entries == [] then 1 else 0
    {
      hide CoAPReliableChannel.Valid, CoAPMessageStore.Valid, StoreSpec.Valid, TakenIn, Resends, Closes, SendResult.ToError,
           Link.Bounded, Run, NoneWatched;
      StoresAreLogged();
      var hadClientMessages := client.HasMessages();
      error := Poll(msg, requests);
      StoresAreLogged();
      Background(hadClientMessages);
    }

    // CoAPReliableChannel::receive(msg, requests)
    method Receive(msg: Message, requests: bool) returns (error: ProtocolError)
      requires Valid() && NoneWatched(client.entries) && Accounts()
      modifies this`clientLog, this`serverLog, this`exchanges, client, client.Repr, server, server.Repr,
               link`polls, link`sent, link`commands, link`notifications, clock, counter, flag, msg
      ensures Valid() && fresh(client.Repr - old(client.Repr)) && fresh(server.Repr - old(server.Repr))
      ensures NoneWatched(client.entries)
      ensures link.polls == old(link.polls) + 1
      ensures var arrival := link.arrivals(old(link.polls));
              var i := TakenIn(BytesOf(arrival), requests, old(client.entries), old(server.entries), old(clock.Now()));
              var n := old(clock.readings) + |i.client| + |i.server|;
              && clientLog == old(clientLog) + i.client + [PassAt(clock, n)]
              && serverLog == old(serverLog) + i.server + [PassAt(clock, n + 1)]
              && msg.bytes == i.passed
              && link.sent == old(link.sent) + i.replies
                              + Resends(Run(old(clientLog) + i.client), Low32(clock.ticks(n)))
              && link.commands == old(link.commands) + i.commands
                                  + Closes(Run(old(clientLog) + i.client), Low32(clock.ticks(n)))
                                  + Closes(Run(old(serverLog) + i.server), Low32(clock.ticks(n + 1)))
              && error == if arrival.Failed? then ChannelError(arrival.code)
                          else if i.replies == [] then NoError else link.sendResults(|old(link.sent)|).ToError()
      ensures link.notifications == old(link.notifications)
                + if old(client.entries) != [] && client.entries == [] then 1 else 0
      ensures Accounts() && |exchanges| == |old(exchanges)| + 1 && old(exchanges) <= exchanges
      ensures var x := exchanges[|old(exchanges)|];
              && x.session == Sessions(old(serverLog)) && x.poll == old(link.polls) && x.at == old(clock.Now())
              && x.requests == requests && x.handed == msg.bytes
              && old(link.sent) + x.replies <= link.sent
    {
      hide CoAPReliableChannel.Valid, CoAPMessageStore.Valid, StoreSpec.Valid, Recorded, TakenIn, Resends, Closes,
           SendResult.ToError, Run, NoneWatched, Sessions, IsRequest, PassAt,
           Link.Bounded;
      StoresAreLogged();
      ghost var bytes := BytesOf(link.arrivals(link.polls));
      ghost var i := TakenIn(bytes, requests, client.entries, server.entries, clock.Now());
      RecordedGrows(exchanges, link.arrivals, requests, link.polls, clientLog, serverLog, clock.Now());
      exchanges := exchanges + [NewExchange(bytes, requests, link.polls, clientLog, serverLog, clock.Now())];
      error := PollAndProcess(msg, requests);
      PassShowsNothing(old(serverLog) + i.server, old(clock.readings) + |i.client| + |i.server| + 1);
      StillAccounts(old(clientLog) + i.client, old(serverLog) + i.server);
    }

    lemma PassShowsNothing(log: seq<Op>, n: nat)
      ensures var log' := log + [PassAt(clock, n)];
              log <= log' && forall k :: |log| <= k < |log'| ==> !log'[k].Receive?
    {
    }

    // Shows an acknowledgement or reset to a client store that holds the message.
    method ShowReply(msg: Message, ghost id: uint16, ghost c: TimedCell)
      requires Valid() && MessageType(msg.bytes) in {ACK, RESET} && |msg.bytes| <= CHANNEL_BUFFER_SIZE
      requires OnlyWatched(client.entries, id)
      requires Find(client.entries, id) == Erase(c) && c.Held? && c.entry.watched
      modifies this`clientLog, client, client.Repr, link`sent, link`commands, clock, counter, flag, msg
      ensures Valid() && fresh(client.Repr - old(client.Repr)) && OnlyWatched(client.entries, id)
      ensures link.sent == old(link.sent) && clock.readings == old(clock.readings) + 1 && old(clientLog) <= clientLog
      ensures Commanding(old(clientLog), clientLog, old(link.commands), link.commands)
      ensures Find(client.entries, id) == Erase(Answered(c, Arrived(old(msg.bytes)), id))
      ensures flag.error == if Answers(Arrived(old(msg.bytes)), RESET, id) then MessageReset else old(flag.error)
    {
      hide CoAPReliableChannel.Valid, CoAPMessageStore.Valid, StoreSpec.Valid, Run, React, Find, OnlyWatched, Step, Erase,
           Commanding;
      StoresAreLogged();
      ghost var op := StoreSpec.Receive(msg.bytes, clock.Now());
      ReplyToWatched(client.entries, id, c, op);
      RunAppend(clientLog, op);
      OperationCommands(clientLog, op, link.commands);
      var error := ReceiveAtClient(msg);
      StoresAreLogged();
      if flag.error == NoError {
        flag.error := error;
      }
    }

    // The first half of an iteration of send_synchronous: polls the channel and shows an acknowledgement to the store.
    method AwaitReply(msg: Message, ghost id: uint16, ghost c: TimedCell)
      requires Valid() && OnlyWatched(client.entries, id)
      requires Find(client.entries, id) == Erase(c) && c.Held? && c.entry.watched
      modifies this`clientLog, client, client.Repr, link`polls, link`sent, link`commands, clock, counter, flag, msg
      ensures Valid() && fresh(client.Repr - old(client.Repr)) && OnlyWatched(client.entries, id)
      ensures link.polls == old(link.polls) + 1 && link.sent == old(link.sent)
      ensures old(clock.readings) <= clock.readings <= old(clock.readings) + 1
      ensures old(clientLog) <= clientLog
      ensures Commanding(old(clientLog), clientLog, old(link.commands), link.commands)
      ensures var arrival := link.arrivals(old(link.polls));
              && Find(client.entries, id) == Erase(Answered(c, arrival, id))
              && flag.error == if Answers(arrival, RESET, id) then MessageReset
                               else if arrival.Failed? then ChannelError(arrival.code) else NoError
    {
      hide CoAPReliableChannel.Valid, Find, OnlyWatched, Erase, Commanding;
      StoresAreLogged();
      NothingCommanded(clientLog, link.commands);
      var arrival := link.Receive();
      msg.id, msg.bytes := -1, BytesOf(arrival);
      flag.error := if arrival.Failed? then ChannelError(arrival.code) else NoError;
      if arrival.Arrived? {
        var decoded := msg.DecodeId();
        if decoded && IsReply(msg.bytes) {
          ShowReply(msg, id, c);
        }
      }
    }

    // The second half: client.process for a store that holds the message.
    method PassOverClient(ghost id: uint16, ghost m: seq<byte>, ghost c: TimedCell, ghost lastPass: nat)
      requires Valid() && OnlyWatched(client.entries, id)
      requires Find(client.entries, id) == Erase(c) && OnTime(c, lastPass, lastPass)
      requires c.Held? ==> WellFormed(c.entry) && c.entry.watched && c.entry.data == m && c.entry.id == id
      requires |m| >= MINIMUM_COAP_MESSAGE_LENGTH && IdOf(m) == id
      requires lastPass <= clock.Now() <= lastPass + HALF_TICKS
      modifies this`clientLog, client, client.Repr, link`sent, link`commands, clock, counter, flag
      ensures Valid() && client.Repr == old(client.Repr) && OnlyWatched(client.entries, id)
      ensures clock.readings == old(clock.readings) + 1
      ensures clientLog == old(clientLog) + [PassAt(clock, old(clock.readings))]
      ensures Commanding(old(clientLog), clientLog, old(link.commands), link.commands)
      ensures var pass := PassAt(clock, old(clock.readings));
              && Find(client.entries, id) == Erase(TimedAfter(c, pass, id))
              && OnTime(TimedAfter(c, pass, id), pass.at, pass.at)
              && flag.error == (if Expires(c, pass) && !Retries(c.entry) then MessageTimeout else old(flag.error))
              && multiset(link.sent)[m] == old(multiset(link.sent)[m])
                                           + if Expires(c, pass) && Retries(c.entry) then 1 else 0
    {
      hide CoAPReliableChannel.Valid, CoAPMessageStore.Valid, Find, OnlyWatched, Step, TimedAfter, Resends,
           Closes, Commanding;
      StoresAreLogged();
      ghost var pass, s := PassAt(clock, clock.readings), client.entries;
      PassOverWatched(s, id, m, c, lastPass, pass);
      RunAppend(clientLog, pass);
      OperationCommands(clientLog, pass, link.commands);
      ProcessClient();
      StoresAreLogged();
      assert multiset(link.sent) == multiset(old(link.sent)) + multiset(Resends(s, Low32(pass.at)));
    }

    // One iteration of the loop of send_synchronous. The last clock reading was at time now.
    method Iterate(msg: Message, ghost id: uint16, ghost m: seq<byte>, ghost t0: nat, ghost first: nat,
                   ghost c: TimedCell, ghost resent: seq<nat>, ghost now: nat)
      returns (ghost c': TimedCell, ghost resent': seq<nat>)
      requires Valid() && OnlyWatched(client.entries, id) && clock.Advances() && flag.error == NoError
      requires |m| >= MINIMUM_COAP_MESSAGE_LENGTH && TypeOf(m) == CON && IdOf(m) == id
      requires clock.readings >= 1 && now == clock.ticks(clock.readings - 1) && t0 <= now && first <= link.polls
      requires Find(client.entries, id) == Erase(c) && c.Held? && OnTime(c, now, now)
      requires Progress(c, m, id, t0, resent, link.arrivals, first, link.polls, NoError, now)
      modifies this`clientLog, client, client.Repr, link`polls, link`sent, link`commands, clock, counter, flag, msg
      ensures Valid() && fresh(client.Repr - old(client.Repr)) && OnlyWatched(client.entries, id)
      ensures link.polls == old(link.polls) + 1 && clock.readings > old(clock.readings)
      ensures old(clientLog) <= clientLog
      ensures Commanding(old(clientLog), clientLog, old(link.commands), link.commands)
      ensures var now' := clock.ticks(clock.readings - 1);
              && now <= now' && Find(client.entries, id) == Erase(c') && OnTime(c', now', now')
              && Progress(c', m, id, t0, resent', link.arrivals, first, link.polls, flag.error, now')
              && (c'.Held? ==> |resent'| == |resent| + 1 || (resent' == resent && c' == c && now' < c.deadline))
      ensures resent <= resent'
      ensures multiset(link.sent)[m] + |resent| == old(multiset(link.sent)[m]) + |resent'|
    {
      hide CoAPReliableChannel.Valid, Find, OnlyWatched, Progress, Answers, TimedAfter, Clock.Advances, StoreSpec.Valid,
           Commanding;
      ghost var arrival := link.arrivals(link.polls);
      ClockSteps(now);
      c', resent' := c, resent;
      ProgressFacts(c, m, id, t0, resent, link.arrivals, first, link.polls, NoError, now);
      ghost var polls := link.polls;
      AwaitReply(msg, id, c);
      ghost var log, commands := clientLog, link.commands;
      ghost var pass, answered := PassAt(clock, clock.readings), Answered(c, arrival, id);
      IterationStep(c, m, id, t0, resent, link.arrivals, first, polls, now, pass);
      PassOverClient(id, m, answered, now);
      CommandingThen(old(clientLog), log, clientLog, old(link.commands), commands, link.commands);
      c' := TimedAfter(answered, pass, id);
      resent' := resent + if Expires(answered, pass) && Retries(answered.entry) then [pass.at] else [];
    }

    // The next two clock readings are not far from the last one.
    lemma ClockSteps(now: nat)
      requires Valid() && clock.Advances() && clock.readings >= 1 && now == clock.ticks(clock.readings - 1)
      ensures now <= clock.Now() <= clock.ticks(clock.readings + 1) <= now + HALF_TICKS
    {
      assert clock.ticks(clock.readings) <= now + 0x4000_0000;
      assert clock.ticks(clock.readings + 1) <= clock.ticks(clock.readings) + 0x4000_0000;
    }

    // What the loop of send_synchronous knows; j is a reading at which the deadline has come.
    ghost predicate Waiting(id: uint16, m: seq<byte>, t0: nat, first: nat, c: TimedCell, resent: seq<nat>, j: nat)
      reads this, client, clock, link, flag
    {
      && clock.readings >= 1 && first <= link.polls
      && var now := clock.ticks(clock.readings - 1);
      && t0 <= now && OnlyWatched(client.entries, id) && Find(client.entries, id) == Erase(c) && OnTime(c, now, now)
      && Progress(c, m, id, t0, resent, link.arrivals, first, link.polls, flag.error, now)
      && (c.Held? ==> clock.readings <= j && clock.ticks(j) >= c.deadline)
    }

    // An iteration either retransmits, or uses up one of the readings before the deadline.
    method IterateTowards(msg: Message, ghost id: uint16, ghost m: seq<byte>, ghost t0: nat, ghost first: nat,
                          ghost c: TimedCell, ghost resent: seq<nat>, ghost j: nat)
      returns (ghost c': TimedCell, ghost resent': seq<nat>, ghost j': nat)
      requires Valid() && clock.Advances() && Waiting(id, m, t0, first, c, resent, j)
      requires flag.error == NoError && c.Held?
      requires |m| >= MINIMUM_COAP_MESSAGE_LENGTH && TypeOf(m) == CON && IdOf(m) == id
      modifies this`clientLog, client, client.Repr, link`polls, link`sent, link`commands, clock, counter, flag, msg
      ensures Valid() && fresh(client.Repr - old(client.Repr)) && Waiting(id, m, t0, first, c', resent', j')
      ensures |resent| <= |resent'| <= MAX_RETRANSMIT && old(clientLog) <= clientLog
      ensures c'.Held? && |resent'| == |resent| ==> j' == j && clock.readings > old(clock.readings)
      ensures clock.readings <= j' || c'.Gone?
      ensures Commanding(old(clientLog), clientLog, old(link.commands), link.commands)
      ensures multiset(link.sent)[m] + |resent| == old(multiset(link.sent)[m]) + |resent'|
    {
      hide CoAPReliableChannel.Valid, Find, OnlyWatched, Progress, Clock.Advances, StoreSpec.Valid, Commanding;
      c', resent' := Iterate(msg, id, m, t0, first, c, resent, clock.ticks(clock.readings - 1));
      ProgressEnds(c', m, id, t0, resent', link.arrivals, first, link.polls, flag.error,
                   clock.ticks(clock.readings - 1));
      j' := j;
      if c'.Held? && |resent'| > |resent| {
        j' := ReadingAfter(c'.deadline);
      } else if c'.Held? {
        StillBefore(j, c'.deadline);
      }
    }

    // The loop of send_synchronous: waits until the message has left the client store or the channel has failed.
    method AwaitOutcome(msg: Message, id: uint16, ghost m: seq<byte>, ghost t0: nat, ghost c0: TimedCell,
                        ghost first: nat, ghost j0: nat)
      returns (ghost resent: seq<nat>)
      requires Valid() && clock.Advances() && Waiting(id, m, t0, first, c0, [], j0)
      requires flag.error == NoError && c0.Held?
      requires |m| >= MINIMUM_COAP_MESSAGE_LENGTH && TypeOf(m) == CON && IdOf(m) == id
      modifies this`clientLog, client, client.Repr, link`polls, link`sent, link`commands, clock, counter, flag, msg
      ensures Valid() && fresh(client.Repr - old(client.Repr)) && OnlyWatched(client.entries, id)
      ensures old(clientLog) <= clientLog && clock.readings >= 1
      ensures Commanding(old(clientLog), clientLog, old(link.commands), link.commands)
      ensures multiset(link.sent)[m] == old(multiset(link.sent)[m]) + |resent| && |resent| <= MAX_RETRANSMIT
      ensures Outcome(id, t0, resent, link.arrivals, first, link.polls, flag.error, clock.ticks(clock.readings - 1))
    {
      hide CoAPReliableChannel.Valid, Waiting, CoAPMessageStore.Valid, StoreSpec.Valid, Run, Find, OnlyWatched, Outcome,
           Clock.Advances, Commanding;
      StoresAreLogged();
      NothingCommanded(clientLog, link.commands);
      ghost var c, j: nat := c0, j0;
      resent := [];
      WaitingFacts(id, m, t0, first, c, resent, j);
      var pending := client.FromId(id);
      while pending != null && flag.error == NoError
        invariant Valid() && fresh(client.Repr - old(client.Repr)) && old(clientLog) <= clientLog
        invariant Commanding(old(clientLog), clientLog, old(link.commands), link.commands)
        invariant Waiting(id, m, t0, first, c, resent, j) && (pending == null <==> c.Gone?)
        invariant |resent| <= MAX_RETRANSMIT && (clock.readings <= j || c.Gone?)
        invariant multiset(link.sent)[m] == old(multiset(link.sent)[m]) + |resent|
        decreases MAX_RETRANSMIT - |resent|, if c.Held? then j - clock.readings + 1 else 0
      {
        ghost var log, commands := clientLog, link.commands;
        c, resent, j := IterateTowards(msg, id, m, t0, first, c, resent, j);
        CommandingThen(old(clientLog), log, clientLog, old(link.commands), commands, link.commands);
        WaitingFacts(id, m, t0, first, c, resent, j);
        pending := client.FromId(id);
      }
      WaitingFacts(id, m, t0, first, c, resent, j);
    }

    lemma WaitingFacts(id: uint16, m: seq<byte>, t0: nat, first: nat, c: TimedCell, resent: seq<nat>, j: nat)
      requires Valid() && Waiting(id, m, t0, first, c, resent, j)
      ensures client.Valid() && (Find(client.entries, id) == Absent <==> c.Gone?)
      ensures clock.readings <= j || c.Gone?
      ensures OnlyWatched(client.entries, id) && clock.readings >= 1
      ensures c.Gone? || flag.error != NoError ==>
                Outcome(id, t0, resent, link.arrivals, first, link.polls, flag.error, clock.ticks(clock.readings - 1))
    {
      ProgressEnds(c, m, id, t0, resent, link.arrivals, first, link.polls, flag.error,
                   clock.ticks(clock.readings - 1));
    }

    // A reading at which the deadline has come.
    lemma ReadingAfter(deadline: nat) returns (j: nat)
      requires Valid() && clock.Advances()
      requires clock.readings >= 1 && clock.ticks(clock.readings - 1) < deadline
      ensures clock.ticks(j) >= deadline && clock.readings <= j
    {
      assert clock.Reaches(deadline);
      j :| clock.ticks(j) >= deadline;
    }

    lemma StillBefore(j: nat, deadline: nat)
      requires Valid() && clock.readings >= 1 && clock.ticks(clock.readings - 1) < deadline <= clock.ticks(j)
      ensures clock.readings <= j
    {
    }

    // client.from_id(id)->set_delivered_handler(&flag_delivered)
    method WatchClient(id: uint16)
      requires Valid() && clock.readings >= 1 && EndTime(0, clientLog) <= clock.ticks(clock.readings - 1)
      modifies this`clientLog, client`entries, client.Repr`delivered
      ensures Valid()
      ensures clientLog == old(clientLog) + [Watch(id, clock.ticks(clock.readings - 1))]
    {
      hide CoAPMessageStore.Valid, StoreSpec.Valid, Run, WatchedAt, ServerHistory;
      ghost var at := clock.ticks(clock.readings - 1);
      ClientHistoryExtends(clientLog, Watch(id, at), at, clock.Now());
      clientLog := clientLog + [Watch(id, at)];
      client.SetDeliveredHandler(id);
    }

    // client.clear_message(id)
    method ForgetClient(id: uint16)
      requires Valid() && OnlyWatched(client.entries, id)
      modifies this`clientLog, client, client.Repr, counter
      ensures Valid() && client.Repr == old(client.Repr)
      ensures NoneWatched(client.entries) && Find(client.entries, id) == Absent
      ensures clientLog == old(clientLog) + [Forget(id, old(clock.Now()))]
    {
      hide StoreSpec.Valid, Run, Without, Find, ServerHistory, OnlyWatched, NoneWatched;
      ghost var op, s := Forget(id, clock.Now()), client.entries;
      ClientHistoryExtends(clientLog, op, clock.Now(), clock.Now());
      StoreIsValid();
      StepKeepsOnlyWatched(s, op, id);
      FindWithout(s, id, id);
      clientLog := clientLog + [op];
      var _ := client.ClearMessage(id);
    }

    lemma StoreIsValid()
      requires Valid()
      ensures StoreSpec.Valid(client.entries)
    {
    }

    // client.send for a message without an ID: it is refused.
    method RefuseAtClient(msg: Message) returns (error: ProtocolError)
      requires Valid() && msg.Stamped() && msg.id < 0 && IsRequest(msg.bytes) && |msg.bytes| <= CHANNEL_BUFFER_SIZE
      modifies client, client.Repr, clock, counter
      ensures Valid() && error == MissingMessageId
      ensures client.entries == old(client.entries) && client.Repr == old(client.Repr)
      ensures clock.readings == old(clock.readings) + 1
    {
      hide StoreSpec.Valid, Run, Sent, ClientHistory, ServerHistory;
      AdvanceTime();
      var now := clock.Millis();
      error := client.Send(msg, now, 0);
    }

    // Installs the delivery handler on the message just sent and waits for the outcome.
    method WatchAndWait(msg: Message, id: uint16, ghost log: seq<Op>, ghost send: Op) returns (ghost resent: seq<nat>)
      requires Valid() && clock.Advances()
      requires AllLegal(log) && NoneWatched(Run(log)) && Requests(send, id) && clientLog == log + [send]
      requires clock.readings >= 1 && send.at == clock.ticks(clock.readings - 1)
      modifies this`clientLog, client, client.Repr, link`polls, link`sent, link`commands, clock, counter, flag, msg
      ensures Valid() && fresh(client.Repr - old(client.Repr)) && OnlyWatched(client.entries, id)
      ensures old(clientLog) <= clientLog && clock.readings >= 1
      ensures multiset(link.sent)[send.msg] == old(multiset(link.sent)[send.msg]) + |resent|
      ensures |resent| <= MAX_RETRANSMIT
      ensures Commanding(old(clientLog), clientLog, old(link.commands), link.commands)
      ensures Outcome(id, send.at, resent, link.arrivals, old(link.polls), link.polls, flag.error,
                      clock.ticks(clock.readings - 1))
    {
      hide CoAPReliableChannel.Valid, CoAPMessageStore.Valid, StoreSpec.Valid, Run, Find, OnlyWatched, NoneWatched,
           Progress, Outcome, Clock.Advances, Step, OnTime, FirstWatched, Commanding;
      ghost var watch := Watch(id, send.at);
      WaitingStartsAfter(log, send, watch, id, link.arrivals, link.polls);
      flag.error := NoError;
      WatchClient(id);
      StoresAreLogged();
      QuietOperation(log + [send], watch, link.commands);
      ghost var watched, commands := clientLog, link.commands;
      ghost var j := ReadingAfter(FirstWatched(send).deadline);
      resent := AwaitOutcome(msg, id, send.msg, send.at, FirstWatched(send), link.polls, j);
      CommandingThen(log + [send], watched, clientLog, old(link.commands), commands, link.commands);
    }

    // send_synchronous up to the end of its loop, for a message with an ID
    method SendAndWait(msg: Message) returns (error: ProtocolError, ghost resent: seq<nat>)
      requires Valid() && NoneWatched(client.entries) && clock.Advances()
      requires IsRequest(msg.bytes) && msg.Stamped() && msg.id >= 0 && |msg.bytes| <= CHANNEL_BUFFER_SIZE
      modifies this`clientLog, client, client.Repr, link`polls, link`sent, link`commands, clock, counter, flag, msg
      ensures Valid() && fresh(client.Repr - old(client.Repr)) && OnlyWatched(client.entries, IdOf(old(msg.bytes)))
      ensures clock.readings >= 1 && old(clientLog) <= clientLog && error != MissingMessageId
      ensures Commanding(old(clientLog), clientLog, old(link.commands), link.commands)
      ensures link.sendResults(|old(link.sent)|).Refused? || TypeOf(old(msg.bytes)) == NON ==>
                link.sent == old(link.sent) + [old(msg.bytes)]
                && error == link.sendResults(|old(link.sent)|).ToError()
      ensures link.sendResults(|old(link.sent)|).Accepted? && TypeOf(old(msg.bytes)) == CON ==>
                && multiset(link.sent)[old(msg.bytes)] == old(multiset(link.sent)[msg.bytes]) + 1 + |resent|
                && |resent| <= MAX_RETRANSMIT
                && Outcome(IdOf(old(msg.bytes)), old(clock.Now()), resent, link.arrivals, old(link.polls), link.polls,
                           error, clock.ticks(clock.readings - 1))
    {
      hide CoAPReliableChannel.Valid, CoAPMessageStore.Valid, StoreSpec.Valid, Run, Find, OnlyWatched, NoneWatched,
           Progress, Outcome, Clock.Advances, Step, OnTime, Commanding;
      resent := [];
      var m := msg.bytes;
      var id := IdOf(m);
      ghost var log, send := clientLog, SentAt(m, clock, clock.readings);
      StoresAreLogged();
      OperationKeepsNoneWatched(log, send, id);
      QuietOperation(log, send, link.commands);
      error := SendAtClient(msg);
      StoresAreLogged();
      SentOnce(link.sent, m);
      error := link.Send(m);
      if error == NoError && TypeOf(m) == CON {
        ghost var first := link.polls;
        resent := WatchAndWait(msg, id, log, send);
        CommandingThen(log, log + [send], clientLog, old(link.commands), old(link.commands), link.commands);
        error := flag.error;
        OutcomeKinds(id, send.at, resent, link.arrivals, first, link.polls, error, clock.ticks(clock.readings - 1));
      }
    }

    lemma SentOnce(sent: seq<seq<byte>>, m: seq<byte>)
      ensures multiset(sent + [m])[m] == multiset(sent)[m] + 1
    {
    }

    // What it has sent, and what the result means.
    ghost predicate Awaited(m: seq<byte>, id: int, before: Before, error: ProtocolError, resent: seq<nat>)
      reads link`sent, link`polls, clock`readings
    {
      var result := link.sendResults(|before.sent|);
      if id < 0 then
        // without an ID nothing is sent
        error == MissingMessageId && link.sent == before.sent
      else if |m| < MINIMUM_COAP_MESSAGE_LENGTH || result.Refused? || TypeOf(m) == NON then
        // when the channel refuses the message, and when it needs no confirmation, nothing is awaited
        link.sent == before.sent + [m] && error == result.ToError()
      else
        // otherwise the outcome is the one that the network brought about
        && clock.readings >= 1 && |resent| <= MAX_RETRANSMIT
        && multiset(link.sent)[m] == multiset(before.sent)[m] + 1 + |resent|
        && Outcome(IdOf(m), clock.ticks(before.readings), resent, link.arrivals, before.polls, link.polls, error,
                   clock.ticks(clock.readings - 1))
    }

    // What a send that must be confirmed has done, from the values before it: the message is gone, and the channel has
    // been told to close for every request given up and to discard the session for every reset.
    ghost predicate Confirmed(m: seq<byte>, id: int, before: Before, error: ProtocolError, resent: seq<nat>)
      reads this, client, link, clock
    {
      && Find(client.entries, Low16(id)) == Absent
      && Commanding(before.client, clientLog, before.commands, link.commands)
      && Awaited(m, id, before, error, resent)
    }

    // The values that the contract of a send refers back to.
    ghost function Now(): Before
      reads this, link, clock
    {
      Before(clientLog, serverLog, link.sent, link.commands, link.polls, clock.readings)
    }

    // send_synchronous up to the end of its loop
    method SendOrRefuse(msg: Message) returns (error: ProtocolError, ghost resent: seq<nat>)
      requires Valid() && NoneWatched(client.entries) && clock.Advances()
      requires IsRequest(msg.bytes) && msg.Stamped() && |msg.bytes| <= CHANNEL_BUFFER_SIZE
      modifies this`clientLog, client, client.Repr, link`polls, link`sent, link`commands, clock, counter, flag, msg
      ensures Valid() && fresh(client.Repr - old(client.Repr)) && OnlyWatched(client.entries, Low16(old(msg.id)))
      ensures Commanding(old(clientLog), clientLog, old(link.commands), link.commands)
      ensures Awaited(old(msg.bytes), old(msg.id), old(Now()), error, resent)
      ensures old(msg.id) >= 0 ==> error != MissingMessageId
    {
      hide CoAPReliableChannel.Valid, CoAPMessageStore.Valid, StoreSpec.Valid, Run, Find, OnlyWatched, NoneWatched,
           Outcome, Clock.Advances, Commanding;
      if msg.id < 0 {
        StoresAreLogged();
        NothingCommanded(clientLog, link.commands);
        WatchedNowhere(Low16(msg.id));
        resent := [];
        error := RefuseAtClient(msg);
      } else {
        error, resent := SendAndWait(msg);
      }
    }

    // CoAPReliableChannel::send_synchronous: always returns, and no stored message refers to its delivery handler any more.
    method SendSynchronous(msg: Message) returns (error: ProtocolError, ghost resent: seq<nat>)
      requires Valid() && NoneWatched(client.entries) && clock.Advances()
      requires IsRequest(msg.bytes) && msg.Stamped() && |msg.bytes| <= CHANNEL_BUFFER_SIZE
      modifies this`clientLog, client, client.Repr, link`polls, link`sent, link`commands, link`notifications,
               clock, counter, flag, msg
      ensures Valid() && fresh(client.Repr - old(client.Repr)) && NoneWatched(client.entries)
      ensures link.notifications == old(link.notifications)
                + if old(client.entries) != [] && client.entries == [] then 1 else 0
      ensures Confirmed(old(msg.bytes), old(msg.id), old(Now()), error, resent) && old(clientLog) <= clientLog
      ensures old(msg.id) >= 0 ==> error != MissingMessageId
    {
      hide CoAPReliableChannel.Valid, CoAPMessageStore.Valid, StoreSpec.Valid, Run, Find, OnlyWatched, NoneWatched,
           Awaited, Clock.Advances, Commanding;
      StoresAreLogged();
      var id := Low16(msg.id);
      var hadClientMessages := client.HasMessages();
      error, resent := SendOrRefuse(msg);
      StoresAreLogged();
      ghost var log, commands, forget := clientLog, link.commands, Forget(id, clock.Now());
      ForgetClient(id);
      StoresAreLogged();
      QuietOperation(log, forget, commands);
      CommandingThen(old(clientLog), log, clientLog, old(link.commands), commands, link.commands);
      CommandingExtends(old(clientLog), clientLog, old(link.commands), link.commands);
      NotifyIfProcessed(hadClientMessages);
    }

    lemma WatchedNowhere(id: uint16)
      requires NoneWatched(client.entries)
      ensures OnlyWatched(client.entries, id)
    {
    }

    method Refuse(msg: Message) returns (error: ProtocolError)
      requires Valid() && |msg.bytes| >= MINIMUM_COAP_MESSAGE_LENGTH && msg.Stamped() && msg.id < 0
      requires |msg.bytes| <= CHANNEL_BUFFER_SIZE
      modifies client, client.Repr, server, server.Repr, clock, counter
      ensures Valid() && error == MissingMessageId
      ensures client.Repr == old(client.Repr) && server.Repr == old(server.Repr)
      ensures clock.readings == old(clock.readings) + 1
    {
      hide StoreSpec.Valid, Run, Sent, ClientHistory, ServerHistory;
      AdvanceTime();
      var now := clock.Millis();
      if IsRequest(msg.bytes) {
        error := client.Send(msg, now, 0);
      } else {
        error := server.Send(msg, now, 0);
      }
    }

    // store.send(msg, millis()) on the store that the message belongs to
    method Register(msg: Message) returns (error: ProtocolError)
      requires Valid() && |msg.bytes| >= MINIMUM_COAP_MESSAGE_LENGTH && msg.Stamped()
      requires |msg.bytes| <= CHANNEL_BUFFER_SIZE
      modifies this`clientLog, this`serverLog, client, client.Repr, server, server.Repr, clock, counter
      ensures Valid() && fresh(client.Repr - old(client.Repr)) && fresh(server.Repr - old(server.Repr))
      ensures clock.readings == old(clock.readings) + 1
      ensures error == if msg.id < 0 then MissingMessageId else NoError
      ensures clientLog == old(clientLog)
                + if msg.id >= 0 && IsRequest(msg.bytes) then [SentAt(msg.bytes, clock, old(clock.readings))] else []
      ensures serverLog == old(serverLog)
                + if msg.id >= 0 && !IsRequest(msg.bytes) then [SentAt(msg.bytes, clock, old(clock.readings))] else []
    {
      hide CoAPReliableChannel.Valid, CoAPMessageStore.Valid;
      if msg.id < 0 {
        error := Refuse(msg);
      } else if IsRequest(msg.bytes) {
        error := SendAtClient(msg);
      } else {
        error := SendAtServer(msg);
      }
    }

    // What a send has done, from the values before it.
    ghost predicate Handled(m: seq<byte>, id: int, confirm: bool, before: Before, error: ProtocolError, resent: seq<nat>)
      reads this, client, link, clock
    {
      var result := link.sendResults(|before.sent|).ToError();
      if |m| < MINIMUM_COAP_MESSAGE_LENGTH then
        // a message too short for CoAP goes straight to the channel
        && clientLog == before.client && serverLog == before.server && link.commands == before.commands
        && link.sent == before.sent + [m] && error == result
      else if IsRequest(m) && confirm then
        // a request that must be confirmed is awaited
        serverLog == before.server && Confirmed(m, id, before, error, resent)
      else
        // any other message is registered with its store and transmitted once
        var logged := if id < 0 then [] else [SentAt(m, clock, before.readings)];
        && clientLog == before.client + (if IsRequest(m) then logged else [])
        && serverLog == before.server + (if IsRequest(m) then [] else logged)
        && link.commands == before.commands
        && link.sent == before.sent + (if id < 0 then [] else [m])
        && error == if id < 0 then MissingMessageId else result
    }

    // Registering a message installs no delivery handler.
    method RegisterQuietly(msg: Message) returns (error: ProtocolError)
      requires Valid() && |msg.bytes| >= MINIMUM_COAP_MESSAGE_LENGTH && msg.Stamped()
      requires |msg.bytes| <= CHANNEL_BUFFER_SIZE && NoneWatched(client.entries)
      modifies this`clientLog, this`serverLog, client, client.Repr, server, server.Repr, clock, counter
      ensures Valid() && fresh(client.Repr - old(client.Repr)) && fresh(server.Repr - old(server.Repr))
      ensures NoneWatched(client.entries)
      ensures error == if msg.id < 0 then MissingMessageId else NoError
      ensures clientLog == old(clientLog)
                + if msg.id >= 0 && IsRequest(msg.bytes) then [SentAt(msg.bytes, clock, old(clock.readings))] else []
      ensures serverLog == old(serverLog)
                + if msg.id >= 0 && !IsRequest(msg.bytes) then [SentAt(msg.bytes, clock, old(clock.readings))] else []
    {
      hide CoAPReliableChannel.Valid, CoAPMessageStore.Valid, StoreSpec.Valid, Run, NoneWatched, OnlyWatched;
      StoresAreLogged();
      OperationKeepsNoneWatched(clientLog, SentAt(msg.bytes, clock, clock.readings), 0);
      error := Register(msg);
      StoresAreLogged();
      assert clientLog == old(clientLog) || clientLog == old(clientLog) + [SentAt(msg.bytes, clock, old(clock.readings))];
    }

    // CoAPReliableChannel::send
    method Send(msg: Message) returns (error: ProtocolError, ghost resent: seq<nat>)
      requires Valid() && NoneWatched(client.entries) && Accounts()
      requires |msg.bytes| >= MINIMUM_COAP_MESSAGE_LENGTH && IsRequest(msg.bytes) && msg.confirmReceived ==> clock.Advances()
      requires msg.Stamped() && |msg.bytes| <= CHANNEL_BUFFER_SIZE
      modifies this`clientLog, this`serverLog, client, client.Repr, server, server.Repr,
               link`polls, link`sent, link`commands, link`notifications, clock, counter, flag, msg
      ensures Valid() && NoneWatched(client.entries) && Accounts()
      ensures fresh(client.Repr - old(client.Repr)) && fresh(server.Repr - old(server.Repr))
      ensures Handled(old(msg.bytes), old(msg.id), old(msg.confirmReceived), old(Now()), error, resent)
      ensures old(msg.id) >= 0 ==> error != MissingMessageId
    {
      hide CoAPReliableChannel.Valid, CoAPMessageStore.Valid, StoreSpec.Valid, Run, Find, OnlyWatched, NoneWatched,
           Outcome, Clock.Advances, Confirmed, Commanding, Recorded;
      resent := [];
      if |msg.bytes| < MINIMUM_COAP_MESSAGE_LENGTH {
        error := link.Send(msg.bytes);
        return;
      }
      if IsRequest(msg.bytes) && msg.confirmReceived {
        error, resent := SendSynchronous(msg);
        StillAccounts(old(clientLog), serverLog);
        return;
      }
      error := RegisterQuietly(msg);
      StillAccounts(old(clientLog), old(serverLog));
      if error == NoError {
        error := link.Send(msg.bytes);
      }
    }

    // CoAPReliableChannel::establish: a new session starts with empty stores, whatever comes of it.
    method Establish() returns (error: ProtocolError)
      requires Valid() && Accounts()
      modifies this`clientLog, this`serverLog, client, client.Repr, server, server.Repr, counter, link`established
      ensures link.established == old(link.established) + 1
      ensures error == link.sessions(old(link.established)).ToError()
      ensures Valid() && Accounts() && client.entries == [] && server.entries == [] && counter.count == 0
      ensures Sessions(serverLog) == Sessions(old(serverLog)) + 1
      ensures clientLog == old(clientLog) + [StoreSpec.Clear(old(clock.Now()))]
      ensures serverLog == old(serverLog) + [StoreSpec.Clear(old(clock.Now()))]
    {
      hide StoreSpec.Valid, Run, ClientHistory, ServerHistory, Recorded;
      ghost var op := StoreSpec.Clear(clock.Now());
      LastOp(serverLog, op);
      ClientHistoryExtends(clientLog, op, clock.Now(), clock.Now());
      ServerHistoryExtends(serverLog, op, clock.Now(), clock.Now());
      server.Clear();
      client.Clear();
      clientLog, serverLog := clientLog + [op], serverLog + [op];
      StillAccounts(old(clientLog), old(serverLog));
      error := link.Establish();
    }
  }

  // CoAPChannel: gives every CoAP message without an ID the next one.
  class CoAPChannel {
    const base: CoAPReliableChannel
    var messageId: uint16

    constructor (base: CoAPReliableChannel, seed: uint16)
      ensures this.base == base && messageId == seed
    {
      this.base := base;
      messageId := seed;
    }

    // CoAPChannel::send up to the call of the base channel: afterwards the ID in the header is the ID of the message.
    method AssignId(msg: Message)
      requires msg.id < 0x1_0000
      modifies this`messageId, msg
      ensures |old(msg.bytes)| >= MINIMUM_COAP_MESSAGE_LENGTH ==>
                && msg.Stamped() && msg.id >= 0
                && msg.id == (if old(msg.id) >= 0 then old(msg.id) else Low16(old(messageId) + 1))
                && msg.bytes == WithId(old(msg.bytes), msg.id)
                && messageId == if old(msg.id) >= 0 then old(messageId) else msg.id
      ensures |old(msg.bytes)| < MINIMUM_COAP_MESSAGE_LENGTH ==>
                msg.bytes == old(msg.bytes) && msg.id == old(msg.id) && messageId == old(messageId)
      ensures msg.confirmReceived == old(msg.confirmReceived)
    {
      if |msg.bytes| >= MINIMUM_COAP_MESSAGE_LENGTH {
        var id;
        if msg.id >= 0 {
          id := msg.id;
        } else {
          messageId := Low16(messageId + 1);
          id := messageId;
        }
        msg.bytes := WithId(msg.bytes, id);
        var _ := msg.DecodeId();
      }
    }

    // CoAPChannel::send: whatever the application passes down, the reliable channel handles a message whose ID is set.
    method Send(msg: Message) returns (error: ProtocolError, ghost resent: seq<nat>)
      requires base.Valid() && NoneWatched(base.client.entries) && base.Accounts()
      requires |msg.bytes| >= MINIMUM_COAP_MESSAGE_LENGTH && IsRequest(msg.bytes) && msg.confirmReceived ==>
                 base.clock.Advances()
      requires msg.id < 0x1_0000 && |msg.bytes| <= CHANNEL_BUFFER_SIZE
      requires |msg.bytes| < MINIMUM_COAP_MESSAGE_LENGTH ==> msg.id < 0
      modifies this`messageId, base, base.client, base.client.Repr, base.server, base.server.Repr,
               base.link`polls, base.link`sent, base.link`commands, base.link`notifications,
               base.clock, base.counter, base.flag, msg
      ensures base.Valid() && NoneWatched(base.client.entries) && base.Accounts()
      ensures messageId == if |old(msg.bytes)| >= MINIMUM_COAP_MESSAGE_LENGTH && old(msg.id) < 0
                           then Low16(old(messageId) + 1) else old(messageId)
      ensures if |old(msg.bytes)| < MINIMUM_COAP_MESSAGE_LENGTH then
                base.Handled(old(msg.bytes), old(msg.id), old(msg.confirmReceived), old(base.Now()), error, resent)
              else
                var id := if old(msg.id) >= 0 then old(msg.id) else Low16(old(messageId) + 1);
                && base.Handled(WithId(old(msg.bytes), id), id, old(msg.confirmReceived), old(base.Now()), error, resent)
                && error != MissingMessageId
    {
      hide CoAPReliableChannel.Valid, CoAPMessageStore.Valid, StoreSpec.Valid, Run, NoneWatched, Clock.Advances,
           CoAPReliableChannel.Handled;
      AssignId(msg);
      error, resent := base.Send(msg);
    }
  }
}
