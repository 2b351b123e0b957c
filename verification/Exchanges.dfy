// What the application gets to see of the messages that arrive: every poll of the reliable channel, with the message that
// arrived, what was handed over and what was transmitted in answer.
module Exchanges {
  import opened Words
  import opened CoapMessage
  import opened StoreSpec
  import opened StoreRuns
  import opened StoreGuarantees
  import opened Link

  function BytesOf(arrival: Arrival): seq<byte> {
    match arrival
    case Failed(_) => []
    case Arrived(bytes) => bytes
  }

  // What the stores do with a message that the channel has delivered; the clock shows the given time.
  datatype Intake = Intake(
    client: seq<Op>,          // the operation on the client store, if any
    server: seq<Op>,          // the operation on the server store, if any
    passed: seq<byte>,        // what the application gets to see
    replies: seq<seq<byte>>,  // what is transmitted in answer
    commands: seq<Command>)   // what the channel is told

  ghost function TakenIn(bytes: seq<byte>, requests: bool, client: seq<Entry>, server: seq<Entry>, now: nat): Intake {
    var op := StoreSpec.Receive(bytes, now);
    if bytes == [] || (IsRequest(bytes) && !requests) then Intake([], [], bytes, [], [])
    else if IsRequest(bytes) then
      var r := React(server, bytes, Low32(now));
      Intake([], [op], if r.passed then bytes else [], r.replies, [])
    else
      var r := React(client, bytes, Low32(now));
      Intake([op], [], if r.passed then bytes else [], [], if r.discard then [DiscardSession] else [])
  }

  // A confirmable request goes to the server store: one that it holds is swallowed, and answered when an answer is held. A
  // reply goes to the client store, and is handed over exactly when that holds the request. Everything else is handed over.
  lemma TakenInExactly(bytes: seq<byte>, requests: bool, client: seq<Entry>, server: seq<Entry>, now: nat)
    ensures var i := TakenIn(bytes, requests, client, server, now);
            var shown := [StoreSpec.Receive(bytes, now)];
            && i.server == (if IsRequest(bytes) && requests then shown else [])
            && i.client == (if bytes == [] || IsRequest(bytes) then [] else shown)
            && i.commands == (if MessageType(bytes) == RESET then [DiscardSession] else [])
            && match MessageType(bytes)
               case CON =>
                 if !requests then i.passed == bytes && i.replies == []
                 else
                   var found := Find(server, IdOf(bytes));
                   && i.passed == (if found.Present? then [] else bytes)
                   && i.replies == if found.Present? && |found.entry.data| > 0 && TypeOf(found.entry.data) in {ACK, RESET}
                                   then [found.entry.data] else []
               case NON => i.passed == bytes && i.replies == []
               case ACK => i.passed == (if Find(client, IdOf(bytes)).Present? then bytes else []) && i.replies == []
               case RESET => i.passed == (if Find(client, IdOf(bytes)).Present? then bytes else []) && i.replies == []
               case ERROR => i.passed == bytes && i.replies == []
  {
  }

  // One poll for the application.
  datatype Exchange = Exchange(
    session: nat,             // the number of sessions that had been established
    poll: nat,                // the number of the poll of the channel below
    at: nat,
    requests: bool,           // were requests polled for, too?
    handed: seq<byte>,        // what the application got
    replies: seq<seq<byte>>,  // what was transmitted in answer
    place: nat)               // the place of the message among the operations of the store that it was shown to

  function Sessions(ops: seq<Op>): nat {
    if ops == [] then 0 else Sessions(ops[..|ops| - 1]) + if ops[|ops| - 1].Clear? then 1 else 0
  }

  // The message of the exchange was shown to the store with this log.
  ghost predicate Shown(x: Exchange, bytes: seq<byte>, log: seq<Op>)
    requires AllLegal(log)
  {
    && x.place < |log| && log[x.place] == StoreSpec.Receive(bytes, x.at)
    && x.handed == (if Delivers(Run(log[..x.place]), log[x.place]) then bytes else [])
    && x.replies == Transmits(Run(log[..x.place]), log[x.place])
  }

  // The exchange was about a request, and the server store was asked.
  ghost predicate OfServer(x: Exchange, arrivals: nat -> Arrival) {
    x.requests && IsRequest(BytesOf(arrivals(x.poll)))
  }

  ghost predicate Accounted(x: Exchange, arrivals: nat -> Arrival, client: seq<Op>, server: seq<Op>)
    requires AllLegal(client) && AllLegal(server)
  {
    var bytes := BytesOf(arrivals(x.poll));
    if OfServer(x, arrivals) then Shown(x, bytes, server) && x.session == Sessions(server[..x.place])
    else if bytes == [] || IsRequest(bytes) then x.handed == bytes && x.replies == []
    else Shown(x, bytes, client)
  }

  ghost predicate InOrder(xs: seq<Exchange>, arrivals: nat -> Arrival) {
    forall i, j :: 0 <= i < j < |xs| && OfServer(xs[i], arrivals) && OfServer(xs[j], arrivals) ==>
      xs[i].place < xs[j].place
  }

  ghost predicate HasExchange(xs: seq<Exchange>, arrivals: nat -> Arrival, place: nat) {
    exists i :: 0 <= i < |xs| && OfServer(xs[i], arrivals) && xs[i].place == place
  }

  // The exchanges and the logs of the stores tell the same story: every message that arrived was shown to its store, and
  // the server store has seen no others.
  ghost predicate Recorded(xs: seq<Exchange>, arrivals: nat -> Arrival, client: seq<Op>, server: seq<Op>) {
    && AllLegal(client) && AllLegal(server) && InOrder(xs, arrivals)
    && (forall i :: 0 <= i < |xs| ==> Accounted(xs[i], arrivals, client, server))
    && (forall k :: 0 <= k < |server| && server[k].Receive? ==> HasExchange(xs, arrivals, k))
  }

  // ---- The exchanges stay recorded

  lemma {:induction false} SessionsConcat(a: seq<Op>, b: seq<Op>)
    ensures Sessions(a + b) == Sessions(a) + Sessions(b)
  {
    if b == [] {
      assert a + b == a;
    } else {
      assert (a + b)[..|a + b| - 1] == a + b[..|b| - 1];
      SessionsConcat(a, b[..|b| - 1]);
    }
  }

  lemma ShownLasts(x: Exchange, bytes: seq<byte>, log: seq<Op>, more: seq<Op>)
    requires AllLegal(log) && AllLegal(log + more) && Shown(x, bytes, log)
    ensures Shown(x, bytes, log + more) && (log + more)[..x.place] == log[..x.place]
  {
    hide Run, Delivers, Transmits;
    assert (log + more)[..x.place] == log[..x.place];
    assert (log + more)[x.place] == log[x.place];
  }

  // Operations that show nothing to the server store leave the exchanges as they are.
  lemma RecordedLasts(xs: seq<Exchange>, arrivals: nat -> Arrival, client: seq<Op>, server: seq<Op>, client': seq<Op>,
                      server': seq<Op>)
    requires Recorded(xs, arrivals, client, server) && AllLegal(client') && AllLegal(server')
    requires client <= client' && server <= server'
    requires forall k :: |server| <= k < |server'| ==> !server'[k].Receive?
    ensures Recorded(xs, arrivals, client', server')
  {
    hide Shown, HasExchange, OfServer, InOrder, Sessions;
    assert client' == client + client'[|client|..] && server' == server + server'[|server|..];
    forall i | 0 <= i < |xs|
      ensures Accounted(xs[i], arrivals, client', server')
    {
      var bytes := BytesOf(arrivals(xs[i].poll));
      assert Accounted(xs[i], arrivals, client, server);
      if OfServer(xs[i], arrivals) {
        ShownLasts(xs[i], bytes, server, server'[|server|..]);
      } else if bytes != [] && !IsRequest(bytes) {
        ShownLasts(xs[i], bytes, client, client'[|client|..]);
      }
    }
    assert forall k :: 0 <= k < |server| ==> server'[k] == server[k];
  }

  // What a poll for the application adds.
  ghost function NewExchange(bytes: seq<byte>, requests: bool, poll: nat, client: seq<Op>, server: seq<Op>, now: nat):
    Exchange
    requires AllLegal(client) && AllLegal(server)
  {
    var i := TakenIn(bytes, requests, Run(client), Run(server), now);
    Exchange(Sessions(server), poll, now, requests, i.passed, i.replies,
             if IsRequest(bytes) then |server| else |client|)
  }

  lemma TakenInShows(bytes: seq<byte>, requests: bool, client: seq<Entry>, server: seq<Entry>, now: nat)
    requires StoreSpec.Valid(client) && StoreSpec.Valid(server)
    ensures var i := TakenIn(bytes, requests, client, server, now);
            var op := StoreSpec.Receive(bytes, now);
            if requests && IsRequest(bytes) then
              && i.client == [] && i.server == [op]
              && i.passed == (if Delivers(server, op) then bytes else []) && i.replies == Transmits(server, op)
            else if bytes == [] || IsRequest(bytes) then
              i.client == [] && i.server == [] && i.passed == bytes && i.replies == []
            else
              && i.client == [op] && i.server == []
              && i.passed == (if Delivers(client, op) then bytes else []) && i.replies == Transmits(client, op)
  {
    hide Find, Without, StoreSpec.Valid;
  }

  lemma NewExchangeIsAccounted(arrivals: nat -> Arrival, requests: bool, poll: nat, client: seq<Op>, server: seq<Op>,
                               now: nat)
    requires AllLegal(client) && AllLegal(server)
    ensures var bytes := BytesOf(arrivals(poll));
            var i := TakenIn(bytes, requests, Run(client), Run(server), now);
            && AllLegal(client + i.client) && AllLegal(server + i.server)
            && Accounted(NewExchange(bytes, requests, poll, client, server, now), arrivals, client + i.client,
                         server + i.server)
  {
    hide Run, Delivers, Transmits, TakenIn, Sessions, IsRequest, StoreSpec.Valid;
    var bytes := BytesOf(arrivals(poll));
    TakenInShows(bytes, requests, Run(client), Run(server), now);
    var op := StoreSpec.Receive(bytes, now);
    LastOp(client, op);
    LastOp(server, op);
  }

  lemma LastOp(ops: seq<Op>, op: Op)
    ensures (ops + [op])[..|ops|] == ops && (ops + [op])[|ops|] == op && ops + [] == ops
  {
  }

  lemma RecordedGrows(xs: seq<Exchange>, arrivals: nat -> Arrival, requests: bool, poll: nat, client: seq<Op>,
                      server: seq<Op>, now: nat)
    requires Recorded(xs, arrivals, client, server)
    ensures var bytes := BytesOf(arrivals(poll));
            var i := TakenIn(bytes, requests, Run(client), Run(server), now);
            Recorded(xs + [NewExchange(bytes, requests, poll, client, server, now)], arrivals, client + i.client,
                     server + i.server)
  {
    hide Shown, Sessions, Run, Delivers, React;
    var bytes := BytesOf(arrivals(poll));
    var i := TakenIn(bytes, requests, Run(client), Run(server), now);
    TakenInExactly(bytes, requests, Run(client), Run(server), now);
    var x := NewExchange(bytes, requests, poll, client, server, now);
    var all, client', server' := xs + [x], client + i.client, server + i.server;
    NewExchangeIsAccounted(arrivals, requests, poll, client, server, now);
    forall k | 0 <= k < |all|
      ensures Accounted(all[k], arrivals, client', server')
      ensures k < |xs| && OfServer(xs[k], arrivals) ==> xs[k].place < |server|
    {
      if k < |xs| {
        assert all[k] == xs[k];
        AccountedLasts(xs[k], arrivals, client, server, i.client, i.server);
      }
    }
    forall k | 0 <= k < |server'| && server'[k].Receive?
      ensures HasExchange(all, arrivals, k)
    {
      if k < |server| {
        assert server'[k] == server[k];
        assert HasExchange(xs, arrivals, k);
        var m :| 0 <= m < |xs| && OfServer(xs[m], arrivals) && xs[m].place == k;
        assert all[m] == xs[m];
      } else {
        assert all[|xs|] == x && OfServer(x, arrivals);
      }
    }
  }

  lemma AccountedLasts(x: Exchange, arrivals: nat -> Arrival, client: seq<Op>, server: seq<Op>, c: seq<Op>, s: seq<Op>)
    requires AllLegal(client) && AllLegal(server) && AllLegal(client + c) && AllLegal(server + s)
    requires Accounted(x, arrivals, client, server)
    ensures Accounted(x, arrivals, client + c, server + s)
    ensures OfServer(x, arrivals) ==> x.place < |server|
  {
    hide Sessions, Run, Delivers, Transmits;
    var bytes := BytesOf(arrivals(x.poll));
    if OfServer(x, arrivals) {
      ShownLasts(x, bytes, server, s);
    } else if bytes != [] && !IsRequest(bytes) {
      ShownLasts(x, bytes, client, c);
    }
  }

  // ---- What the application can rely on

  // The exchange was about a confirmable request with the ID.
  ghost predicate AboutRequest(x: Exchange, arrivals: nat -> Arrival, id: uint16) {
    var bytes := BytesOf(arrivals(x.poll));
    x.requests && MessageType(bytes) == CON && IdOf(bytes) == id
  }

  lemma {:induction false} SameSession(ops: seq<Op>, i: nat, j: nat)
    requires i <= j <= |ops| && Sessions(ops[..i]) == Sessions(ops[..j])
    ensures forall k :: i <= k < j ==> !ops[k].Clear?
  {
    forall k | i <= k < j
      ensures !ops[k].Clear?
    {
      SessionsConcat(ops[..i], ops[i..k]);
      SessionsConcat(ops[..k + 1], ops[k + 1..j]);
      assert ops[..i] + ops[i..k] == ops[..k] && ops[..k + 1] + ops[k + 1..j] == ops[..j];
      assert ops[..k + 1][..k] == ops[..k];
    }
  }

  // A request ID is handed to the application at most once in any 45 s of a session.
  lemma HandedOverOnce(xs: seq<Exchange>, arrivals: nat -> Arrival, client: seq<Op>, server: seq<Op>, i: nat, j: nat,
                       id: uint16)
    requires Recorded(xs, arrivals, client, server) && WellTimed(0, server)
    requires forall op :: op in server ==> ServerOp(op)
    requires i < j < |xs| && xs[i].session == xs[j].session
    requires AboutRequest(xs[i], arrivals, id) && AboutRequest(xs[j], arrivals, id)
    requires xs[i].handed != [] && xs[j].handed != []
    ensures xs[j].at >= xs[i].at + MAX_TRANSMIT_SPAN
  {
    hide Run, Delivers, Transmits, WellTimed, Sessions, HasExchange;
    assert Accounted(xs[i], arrivals, client, server) && Accounted(xs[j], arrivals, client, server);
    var a, b := xs[i].place, xs[j].place;
    SameSession(server, a, b);
    CutTwice(server, a, b);
    var pre, mid := server[..a], server[a + 1..b];
    SuffixMonotone(0, pre + ([server[a]] + mid + [server[b]]), server[b + 1..]);
    forall op | op in mid
      ensures ServerOp(op) && !op.Clear?
    {
      var k :| 0 <= k < |mid| && op == mid[k];
      assert op == server[a + 1 + k];
    }
    DeliveriesAreOneSpanApart(0, pre, server[a], mid, server[b], id);
  }

  lemma CutTwice(s: seq<Op>, i: nat, j: nat)
    requires i < j < |s|
    ensures s[..j] == s[..i] + ([s[i]] + s[i + 1..j])
    ensures s == s[..i] + ([s[i]] + s[i + 1..j] + [s[j]]) + s[j + 1..]
  {
  }

  // An earlier request of the session with the ID was handed over, and no pass has come 45 s later.
  ghost predicate HandedBefore(xs: seq<Exchange>, arrivals: nat -> Arrival, server: seq<Op>, j: nat, id: uint16)
    requires j < |xs| && xs[j].place <= |server|
  {
    exists i :: 0 <= i < j && AboutRequest(xs[i], arrivals, id) && xs[i].handed != []
                && xs[i].place < xs[j].place && Lasts(server[..xs[j].place], xs[i].place)
  }

  // An answer with the ID was sent earlier in the session, and no pass has come 45 s later.
  ghost predicate AnsweredBefore(xs: seq<Exchange>, server: seq<Op>, j: nat, id: uint16)
    requires j < |xs| && xs[j].place <= |server|
  {
    exists k: nat :: k < xs[j].place && IsAnswer(server[k], id) && Lasts(server[..xs[j].place], k)
  }

  // A request is handed over exactly when none with its ID was handed over or answered before, or that is long ago.
  lemma HandedOverUnlessKnown(xs: seq<Exchange>, arrivals: nat -> Arrival, client: seq<Op>, server: seq<Op>, j: nat,
                              id: uint16)
    requires Recorded(xs, arrivals, client, server) && WellTimed(0, server)
    requires forall op :: op in server ==> ServerOp(op)
    requires j < |xs| && AboutRequest(xs[j], arrivals, id)
    ensures xs[j].place < |server|
    ensures xs[j].handed == if HandedBefore(xs, arrivals, server, j, id) || AnsweredBefore(xs, server, j, id)
                            then [] else BytesOf(arrivals(xs[j].poll))
  {
    hide Run, Delivers, Transmits, WellTimed, Sessions, Lasts, HasExchange;
    assert Accounted(xs[j], arrivals, client, server);
    var b := xs[j].place;
    var before := server[..b];
    assert server == before + server[b..];
    SuffixMonotone(0, before, server[b..]);
    HandedOverExactly(0, before, server[b], id);
    if HandedBefore(xs, arrivals, server, j, id) || AnsweredBefore(xs, server, j, id) {
      var k := KnownIsRemembered(xs, arrivals, client, server, j, id);
    } else if k: nat :| Remembered(before, k, id) {
      RememberedIsKnown(xs, arrivals, client, server, j, k, id);
    }
  }

  // It is answered exactly when an answer with the ID was sent before that is not long ago, with the latest one.
  lemma AnsweredIfKnown(xs: seq<Exchange>, arrivals: nat -> Arrival, client: seq<Op>, server: seq<Op>, j: nat, id: uint16)
    requires Recorded(xs, arrivals, client, server) && WellTimed(0, server)
    requires forall op :: op in server ==> ServerOp(op)
    requires j < |xs| && AboutRequest(xs[j], arrivals, id)
    ensures xs[j].place < |server|
    ensures (forall k: nat :: !LatestAnswer(server[..xs[j].place], k, id)) ==> xs[j].replies == []
    ensures forall k: nat :: LatestAnswer(server[..xs[j].place], k, id) ==>
              k < xs[j].place && server[k].Send? && xs[j].replies == [server[k].msg]
  {
    hide Run, Delivers, Transmits, WellTimed, Sessions, LatestAnswer, HasExchange;
    assert Accounted(xs[j], arrivals, client, server);
    var b := xs[j].place;
    assert server == server[..b] + server[b..];
    SuffixMonotone(0, server[..b], server[b..]);
    AnsweredExactly(0, server[..b], server[b], id);
    forall k: nat | LatestAnswer(server[..b], k, id)
      ensures k < b && server[..b][k] == server[k] && server[k].Send?
    {
      AnswerIsThere(server[..b], k, id);
    }
  }

  lemma AnswerIsThere(ops: seq<Op>, k: nat, id: uint16)
    requires LatestAnswer(ops, k, id)
    ensures k < |ops| && ops[k].Send?
  {
  }

  // The exchange behind a request that the server store has handed over.
  lemma ExchangeAt(xs: seq<Exchange>, arrivals: nat -> Arrival, client: seq<Op>, server: seq<Op>, k: nat, id: uint16)
    returns (i: nat)
    requires Recorded(xs, arrivals, client, server) && k < |server|
    requires IsConRequest(server[k], id) && Delivers(Run(server[..k]), server[k])
    ensures i < |xs| && xs[i].place == k && AboutRequest(xs[i], arrivals, id) && xs[i].handed != []
  {
    hide Run, Delivers, Transmits, Sessions, Lasts, InOrder;
    assert HasExchange(xs, arrivals, k);
    i :| 0 <= i < |xs| && OfServer(xs[i], arrivals) && xs[i].place == k;
    assert Accounted(xs[i], arrivals, client, server);
  }

  lemma RememberedIsKnown(xs: seq<Exchange>, arrivals: nat -> Arrival, client: seq<Op>, server: seq<Op>, j: nat, k: nat,
                          id: uint16)
    requires Recorded(xs, arrivals, client, server)
    requires j < |xs| && AboutRequest(xs[j], arrivals, id) && xs[j].place < |server|
    requires AllLegal(server[..xs[j].place]) && Remembered(server[..xs[j].place], k, id)
    ensures HandedBefore(xs, arrivals, server, j, id) || AnsweredBefore(xs, server, j, id)
  {
    hide Run, Delivers, Sessions, Lasts, Accounted, HasExchange, IsAnswer, IsConRequest;
    var before := server[..xs[j].place];
    assert before[k] == server[k] && before[..k] == server[..k];
    if !IsAnswer(server[k], id) {
      var i := ExchangeAt(xs, arrivals, client, server, k, id);
      assert i < j;
    }
  }

  lemma KnownIsRemembered(xs: seq<Exchange>, arrivals: nat -> Arrival, client: seq<Op>, server: seq<Op>, j: nat,
                          id: uint16)
    returns (k: nat)
    requires Recorded(xs, arrivals, client, server)
    requires j < |xs| && AboutRequest(xs[j], arrivals, id) && xs[j].place < |server|
    requires HandedBefore(xs, arrivals, server, j, id) || AnsweredBefore(xs, server, j, id)
    ensures AllLegal(server[..xs[j].place]) && Remembered(server[..xs[j].place], k, id)
  {
    hide Run, Delivers, Transmits, Sessions, Lasts, HasExchange;
    var before := server[..xs[j].place];
    if AnsweredBefore(xs, server, j, id) {
      k :| k < xs[j].place && IsAnswer(server[k], id) && Lasts(before, k);
    } else {
      var i :| 0 <= i < j && AboutRequest(xs[i], arrivals, id) && xs[i].handed != []
               && xs[i].place < xs[j].place && Lasts(before, xs[i].place);
      assert Accounted(xs[i], arrivals, client, server);
      k := xs[i].place;
    }
    assert before[k] == server[k] && before[..k] == server[..k];
  }
}
