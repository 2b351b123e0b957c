// The table of event handlers and the delivery of events to them, with the parser that works inside the receive buffer.
module Subscriptions {
  import opened Words
  import opened CoapMessage
  import opened Link
  import opened CoapOptions
  import opened EventMessages

  const MAX_SUBSCRIPTIONS := 6
  const MAX_FILTER_LENGTH := 64
  const MAX_ID_LENGTH := 12

  datatype Scope = MyDevices | Firehose

  // FilteringEventHandler; handler 0 marks an empty slot.
  datatype Handler = Handler(filter: seq<byte>, handler: nat, data: nat, scope: Scope, deviceId: seq<byte>)

  const EMPTY := Handler([], 0, 0, MyDevices, [])

  predicate Occupied(h: Handler) {
    h.handler != 0
  }

  // ---- Tables on values

  // The occupied slots come first.
  ghost predicate GapFree(table: seq<Handler>) {
    forall i, j :: 0 <= i < j < |table| && Occupied(table[j]) ==> Occupied(table[i])
  }

  // What for_each visits, of those handlers whose filter begins the name.
  function Matching(table: seq<Handler>, name: seq<byte>): seq<Handler> {
    if table == [] then []
    else
      var front, last := table[..|table| - 1], table[|table| - 1];
      Matching(front, name) + if Occupied(last) && last.filter <= name then [last] else []
  }

  // Exactly the handlers whose filter begins the name.
  lemma {:induction false} MatchingExactly(table: seq<Handler>, name: seq<byte>, h: Handler)
    ensures h in Matching(table, name) <==>
              h in table && h.handler != 0 && |h.filter| <= |name| && h.filter == name[..|h.filter|]
  {
    if table != [] {
      MatchingExactly(table[..|table| - 1], name, h);
      assert table == table[..|table| - 1] + [table[|table| - 1]];
    }
  }

  // In a gap-free table nothing matches behind the first empty slot.
  lemma {:induction false} NothingBehindAGap(table: seq<Handler>, k: nat, name: seq<byte>)
    requires GapFree(table) && k < |table| && !Occupied(table[k])
    ensures Matching(table, name) == Matching(table[..k], name)
  {
    var front, last := table[..|table| - 1], table[|table| - 1];
    assert !Occupied(last);
    if k < |table| - 1 {
      NothingBehindAGap(front, k, name);
      assert front[..k] == table[..k];
    }
  }

  // The handlers with another filter, in order.
  function Others(table: seq<Handler>, filter: seq<byte>): (r: seq<Handler>)
    ensures |r| <= |table|
  {
    if table == [] then []
    else
      var front, last := table[..|table| - 1], table[|table| - 1];
      Others(front, filter) + if last.filter == filter then [] else [last]
  }

  lemma {:induction false} OthersExactly(table: seq<Handler>, filter: seq<byte>, h: Handler)
    ensures h in Others(table, filter) <==> h in table && h.filter != filter
  {
    if table != [] {
      OthersExactly(table[..|table| - 1], filter, h);
      assert table == table[..|table| - 1] + [table[|table| - 1]];
    }
  }

  function Padded(table: seq<Handler>, n: nat): (r: seq<Handler>)
    requires |table| <= n
    ensures |r| == n
  {
    table + seq(n - |table|, _ => EMPTY)
  }

  lemma {:induction false} OthersAreGapFree(table: seq<Handler>, filter: seq<byte>, n: nat)
    requires GapFree(table) && |table| <= n
    ensures GapFree(Others(table, filter))
    ensures forall k :: 0 <= k < |Others(table, filter)| ==> Others(table, filter)[k] in table
    ensures GapFree(Padded(Others(table, filter), n))
  {
    if table != [] {
      var front, last := table[..|table| - 1], table[|table| - 1];
      OthersAreGapFree(front, filter, n);
      var kept := Others(front, filter);
      assert forall k :: 0 <= k < |kept| ==> kept[k] in front;
      if Occupied(last) {
        assert forall h :: h in front ==> Occupied(h);
      }
    }
  }

  // Removing a filter takes away its handlers and no others, and it takes away nothing else from any delivery.
  lemma {:induction false} RemovalIsExact(table: seq<Handler>, filter: seq<byte>, name: seq<byte>)
    ensures Matching(Others(table, filter), name) == Others(Matching(table, name), filter)
  {
    if table != [] {
      var front, last := table[..|table| - 1], table[|table| - 1];
      RemovalIsExact(front, filter, name);
      OneRemoval(front, last, filter, name);
      assert table == front + [last];
    }
  }

  lemma OneRemoval(front: seq<Handler>, last: Handler, filter: seq<byte>, name: seq<byte>)
    requires Matching(Others(front, filter), name) == Others(Matching(front, name), filter)
    ensures Matching(Others(front + [last], filter), name) == Others(Matching(front + [last], name), filter)
  {
    hide Matching, Others;
    OthersGrow(front, last, filter);
    MatchingGrows(front, last, name);
    var kept, hit := Others(front, filter), Matching(front, name);
    if last.filter == filter {
      assert kept + [] == kept;
    } else {
      MatchingGrows(kept, last, name);
    }
    if Occupied(last) && last.filter <= name {
      OthersGrow(hit, last, filter);
      assert Others(hit, filter) + [] == Others(hit, filter);
    } else {
      assert hit + [] == hit && Matching(kept, name) + [] == Matching(kept, name);
    }
  }

  lemma MatchingGrows(table: seq<Handler>, last: Handler, name: seq<byte>)
    ensures Matching(table + [last], name)
              == Matching(table, name) + if Occupied(last) && last.filter <= name then [last] else []
  {
    assert (table + [last])[..|table|] == table;
  }

  lemma OthersGrow(table: seq<Handler>, last: Handler, filter: seq<byte>)
    ensures Others(table + [last], filter) == Others(table, filter) + if last.filter == filter then [] else [last]
  {
    assert (table + [last])[..|table|] == table;
  }

  lemma {:induction false} NothingBehind(table: seq<Handler>, k: nat, name: seq<byte>)
    requires k <= |table| && forall j :: k <= j < |table| ==> !Occupied(table[j])
    ensures Matching(table, name) == Matching(table[..k], name)
  {
    if k < |table| {
      NothingBehind(table[..|table| - 1], k, name);
      assert table[..|table| - 1][..k] == table[..k];
    } else {
      assert table[..k] == table;
    }
  }

  // A handler in the first empty slot gets the events whose name its filter begins, after all the others.
  lemma NewHandlerMatches(table: seq<Handler>, i: nat, h: Handler, name: seq<byte>)
    requires GapFree(table) && i < |table| && !Occupied(table[i]) && forall j :: 0 <= j < i ==> Occupied(table[j])
    ensures Matching(table[i := h], name)
         == Matching(table, name) + if Occupied(h) && h.filter <= name then [h] else []
  {
    hide Matching;
    forall j | i <= j < |table|
      ensures !Occupied(table[j])
    {
    }
    NothingBehind(table, i, name);
    NothingBehind(table[i := h], i + 1, name);
    assert table[i := h][..i + 1] == table[..i] + [h];
    MatchingGrows(table[..i], h, name);
  }

  lemma {:induction false} PaddingMatchesNothing(table: seq<Handler>, n: nat, name: seq<byte>)
    requires |table| <= n
    ensures Matching(Padded(table, n), name) == Matching(table, name)
    decreases n
  {
    var padded := Padded(table, n);
    if |table| < n {
      PaddingMatchesNothing(table, n - 1, name);
      assert padded[..n - 1] == Padded(table, n - 1);
    } else {
      assert padded == table;
    }
  }

  // ---- The comparison of a name with a filter

  // How many bytes of the filter strcmp reads: up to the first difference or the terminator of either, that one included.
  function BytesRead(name: seq<byte>, filter: seq<byte>): nat {
    if name == [] || filter == [] || name[0] != filter[0] then 1 else 1 + BytesRead(name[1..], filter[1..])
  }

  // It reads the byte behind the filter exactly when the filter begins the name.
  lemma {:induction false} ReadsTerminatorExactly(name: seq<byte>, filter: seq<byte>)
    ensures BytesRead(name, filter) <= |filter| + 1
    ensures BytesRead(name, filter) == |filter| + 1 <==> filter <= name
  {
    if name != [] && filter != [] && name[0] == filter[0] {
      ReadsTerminatorExactly(name[1..], filter[1..]);
      assert filter == [filter[0]] + filter[1..] && name == [name[0]] + name[1..];
    }
  }

  // A filter of 64 bytes fills its array and has no terminator: the comparison leaves the array exactly when such a filter
  // begins the name.
  lemma ComparisonStaysInside(name: seq<byte>, filter: seq<byte>)
    requires |filter| <= MAX_FILTER_LENGTH
    ensures BytesRead(name, filter) <= MAX_FILTER_LENGTH <==> |filter| < MAX_FILTER_LENGTH || !(filter <= name)
  {
    ReadsTerminatorExactly(name, filter);
  }

  // The filter that is stored for a name of 64 bytes or more is one for which it does.
  lemma OwnFilterIsLeft(name: seq<byte>)
    requires |name| >= MAX_FILTER_LENGTH
    ensures BytesRead(name, Truncated(name, MAX_FILTER_LENGTH)) == MAX_FILTER_LENGTH + 1
  {
    ReadsTerminatorExactly(name, Truncated(name, MAX_FILTER_LENGTH));
  }

  // One delivery of an event to a handler.
  datatype Call = Call(handler: Handler, name: seq<byte>, data: Option<seq<byte>>)

  function Calls(handlers: seq<Handler>, name: seq<byte>, data: Option<seq<byte>>): (r: seq<Call>)
    ensures |r| == |handlers|
    ensures forall k :: 0 <= k < |r| ==> r[k].handler == handlers[k] && r[k].name == name && r[k].data == data
  {
    seq(|handlers|, k requires 0 <= k < |handlers| => Call(handlers[k], name, data))
  }

  datatype EventResult = Delivered | MalformedMessage | Undelivered(code: nat)

  // The channel as far as events need it: it may have no room for an acknowledgement, and may refuse to send it.
  class EventChannel {
    const unreliable: bool
    const responds: nat -> bool
    const results: nat -> SendResult
    var responses: nat
    var acks: seq<int>

    constructor (unreliable: bool, responds: nat -> bool, results: nat -> SendResult)
      ensures this.unreliable == unreliable && this.responds == responds && this.results == results
      ensures responses == 0 && acks == []
    {
      this.unreliable, this.responds, this.results := unreliable, responds, results;
      responses, acks := 0, [];
    }

    method Response() returns (ok: bool)
      modifies this`responses
      ensures responses == old(responses) + 1 && ok == responds(old(responses))
    {
      ok := responds(responses);
      responses := responses + 1;
    }

    method SendAck(id: int) returns (result: SendResult)
      modifies this`acks
      ensures acks == old(acks) + [id] && result == results(|old(acks)|)
    {
      result := results(|acks|);
      acks := acks + [id];
    }
  }

  class Subscriptions {
    const handlers: array<Handler>
    ghost var calls: seq<Call>

    ghost predicate Valid()
      reads this, handlers
    {
      && handlers.Length == MAX_SUBSCRIPTIONS
      && GapFree(handlers[..])
      && forall k :: 0 <= k < handlers.Length ==> |handlers[k].filter| <= MAX_FILTER_LENGTH
    }

    constructor ()
      ensures Valid() && fresh(handlers) && calls == []
      ensures forall k :: 0 <= k < handlers.Length ==> handlers[k] == EMPTY
    {
      handlers := new Handler[MAX_SUBSCRIPTIONS](_ => EMPTY);
      calls := [];
    }

    ghost predicate Candidate(h: Handler, name: seq<byte>, handler: nat, data: nat, scope: Scope) {
      h.handler == handler && h.data == data && h.scope == scope && Truncated(name, MAX_FILTER_LENGTH) <= h.filter
    }

    ghost predicate SameDevice(h: Handler, id: seq<byte>) {
      if Truncated(id, MAX_ID_LENGTH) == [] then h.deviceId == [] else Truncated(id, MAX_ID_LENGTH) <= h.deviceId
    }

    // The first slot with the same handler, data and scope whose filter begins with the name, as far as 64 bytes of it, is
    // for the same device.
    ghost predicate Exists(table: seq<Handler>, name: seq<byte>, handler: nat, data: nat, scope: Scope, id: seq<byte>) {
      exists k :: 0 <= k < |table| && Candidate(table[k], name, handler, data, scope) && SameDevice(table[k], id)
                  && forall j :: 0 <= j < k ==> !Candidate(table[j], name, handler, data, scope)
    }

    method EventHandlerExists(name: seq<byte>, handler: nat, data: nat, scope: Scope, id: seq<byte>) returns (found: bool)
      requires Valid()
      ensures found <==> Exists(handlers[..], name, handler, data, scope, id)
    {
      for i := 0 to handlers.Length
        invariant forall j :: 0 <= j < i ==> !Candidate(handlers[..][j], name, handler, data, scope)
      {
        var h := handlers[i];
        if h.handler == handler && h.data == data && h.scope == scope && Truncated(name, MAX_FILTER_LENGTH) <= h.filter {
          assert Candidate(handlers[..][i], name, handler, data, scope);
          var short := Truncated(id, MAX_ID_LENGTH);
          return if short == [] then h.deviceId == [] else short <= h.deviceId;
        }
      }
      found := false;
    }

    // The filter and the device ID are cut to the room that the slot has for them.
    function NewHandler(name: seq<byte>, handler: nat, data: nat, scope: Scope, id: seq<byte>): Handler {
      Handler(Truncated(name, MAX_FILTER_LENGTH), handler, data, scope, Truncated(id, MAX_ID_LENGTH))
    }

    // A handler is found exactly when the first slot that agrees in handler, data, scope and the first 64 bytes of the name
    // is for the same device, in the first 12 bytes of its ID, or for all devices when none is given.
    lemma FoundExactly(table: seq<Handler>, name: seq<byte>, handler: nat, data: nat, scope: Scope, id: seq<byte>)
      ensures var filter, device := if |name| > 64 then name[..64] else name, if |id| > 12 then id[..12] else id;
              Exists(table, name, handler, data, scope, id) <==>
                exists k :: 0 <= k < |table|
                  && table[k].handler == handler && table[k].data == data && table[k].scope == scope
                  && filter <= table[k].filter && (if device == [] then table[k].deviceId == [] else device <= table[k].deviceId)
                  && forall j :: 0 <= j < k ==>
                       !(table[j].handler == handler && table[j].data == data && table[j].scope == scope
                         && filter <= table[j].filter)
    {
    }

    // A handler that has just been added is found again exactly when no slot before it agrees in all but the device.
    lemma AddedIsFoundExactly(table: seq<Handler>, i: nat, name: seq<byte>, handler: nat, data: nat, scope: Scope,
                              id: seq<byte>)
      requires i < |table| && !Exists(table, name, handler, data, scope, id)
      ensures Exists(table[i := NewHandler(name, handler, data, scope, id)], name, handler, data, scope, id)
         <==> !exists j :: 0 <= j < i && table[j].handler == handler && table[j].data == data && table[j].scope == scope
                           && (if |name| > 64 then name[..64] else name) <= table[j].filter
    {
      var after := table[i := NewHandler(name, handler, data, scope, id)];
      assert Candidate(after[i], name, handler, data, scope) && SameDevice(after[i], id);
      assert forall j :: 0 <= j < i ==> after[j] == table[j];
      if j :| 0 <= j < i && Candidate(table[j], name, handler, data, scope) {
        var k := FirstCandidate(table, j, name, handler, data, scope);
        assert after[k] == table[k] && !SameDevice(table[k], id);
      }
    }

    lemma {:induction false} FirstCandidate(table: seq<Handler>, j: nat, name: seq<byte>, handler: nat, data: nat,
                                            scope: Scope)
      returns (k: nat)
      requires j < |table| && Candidate(table[j], name, handler, data, scope)
      ensures k <= j && Candidate(table[k], name, handler, data, scope)
      ensures forall m :: 0 <= m < k ==> !Candidate(table[m], name, handler, data, scope)
    {
      k := j;
      if m :| 0 <= m < j && Candidate(table[m], name, handler, data, scope) {
        k := FirstCandidate(table, m, name, handler, data, scope);
      }
    }

    ghost predicate FirstEmpty(i: nat)
      reads handlers
    {
      i < handlers.Length && !Occupied(handlers[i]) && forall j :: 0 <= j < i ==> Occupied(handlers[j])
    }

    // A new handler goes to the first empty slot. (With a null handler the slot stays empty.)
    method AddEventHandler(name: seq<byte>, handler: nat, data: nat, scope: Scope, id: seq<byte>)
      returns (error: ProtocolError)
      requires Valid()
      modifies handlers
      ensures Valid()
      ensures if old(Exists(handlers[..], name, handler, data, scope, id)) then
                error == NoError && handlers[..] == old(handlers[..])
              else if forall k :: 0 <= k < handlers.Length ==> old(Occupied(handlers[k])) then
                error == InsufficientStorage && handlers[..] == old(handlers[..])
              else
                error == NoError
                && (exists i :: 0 <= i < handlers.Length && old(FirstEmpty(i))
                     && handlers[..] == old(handlers[..])[i := NewHandler(name, handler, data, scope, id)])
                && forall event :: Matching(handlers[..], event)
                     == Matching(old(handlers[..]), event)
                        + if handler != 0 && (if |name| > 64 then name[..64] else name) <= event
                          then [Handler(if |name| > 64 then name[..64] else name, handler, data, scope,
                                        if |id| > 12 then id[..12] else id)]
                          else []
    {
      hide Exists, Matching;
      var found := EventHandlerExists(name, handler, data, scope, id);
      if found {
        return NoError;
      }
      for i := 0 to handlers.Length
        invariant forall j :: 0 <= j < i ==> Occupied(handlers[j])
        invariant handlers[..] == old(handlers[..])
      {
        if handlers[i].handler == 0 {
          assert FirstEmpty(i);
          handlers[i] := NewHandler(name, handler, data, scope, id);
          assert handlers[..] == old(handlers[..])[i := handlers[i]];
          ghost var h := Handler(if |name| > 64 then name[..64] else name, handler, data, scope,
                                 if |id| > 12 then id[..12] else id);
          assert handlers[i].filter == h.filter && handlers[i].deviceId == h.deviceId;
          assert handlers[i] == h;
          forall event: seq<byte>
            ensures Matching(handlers[..], event) == Matching(old(handlers[..]), event)
                      + if handler != 0 && h.filter <= event then [h] else []
          {
            NewHandlerMatches(old(handlers[..]), i, h, event);
          }
          return NoError;
        }
      }
      error := InsufficientStorage;
    }

    // Moves the handlers with another filter to the front and clears the rest.
    method Compact(filter: seq<byte>)
      requires handlers.Length == MAX_SUBSCRIPTIONS
      modifies handlers
      ensures handlers[..] == Padded(Others(old(handlers[..]), filter), MAX_SUBSCRIPTIONS)
    {
      hide Others;
      ghost var was := handlers[..];
      OthersEmpty(filter);
      var dest := 0;
      for i := 0 to handlers.Length
        invariant dest == |Others(was[..i], filter)| <= i
        invariant forall k :: 0 <= k < dest ==> handlers[k] == Others(was[..i], filter)[k]
        invariant forall k :: dest <= k < i ==> handlers[k] == EMPTY
        invariant forall k :: i <= k < handlers.Length ==> handlers[k] == was[k]
      {
        assert was[..i + 1] == was[..i] + [was[i]];
        OthersGrow(was[..i], was[i], filter);
        if filter == handlers[i].filter {
          handlers[i] := EMPTY;
        } else {
          if dest != i {
            handlers[dest] := handlers[i];
            handlers[i] := EMPTY;
          }
          dest := dest + 1;
        }
      }
      assert was[..handlers.Length] == was;
    }

    lemma OthersEmpty(filter: seq<byte>)
      ensures Others([], filter) == []
    {
    }

    // Without a name everything is removed. With one, no comparison may leave the filter: see ComparisonStaysInside.
    method RemoveEventHandlers(name: Option<seq<byte>>)
      requires Valid()
      requires name.Some? ==> forall k :: 0 <= k < handlers.Length ==>
                                BytesRead(name.value, handlers[k].filter) <= MAX_FILTER_LENGTH
      modifies handlers
      ensures Valid()
      ensures handlers[..] == match name
                              case None => Padded([], MAX_SUBSCRIPTIONS)
                              case Some(filter) => Padded(Others(old(handlers[..]), filter), MAX_SUBSCRIPTIONS)
      ensures forall event :: Matching(handlers[..], event) ==
                match name
                case None => []
                case Some(filter) => Others(Matching(old(handlers[..]), event), filter)
    {
      hide Matching, Others;
      match name
      case None =>
        forall k | 0 <= k < handlers.Length {
          handlers[k] := EMPTY;
        }
        assert handlers[..] == Padded([], MAX_SUBSCRIPTIONS);
        NothingMatches();
      case Some(filter) =>
        ghost var was := handlers[..];
        OthersAreGapFree(was, filter, MAX_SUBSCRIPTIONS);
        Compact(filter);
        ghost var kept := Others(was, filter);
        assert forall k :: 0 <= k < |kept| ==> handlers[k] == kept[k] && kept[k] in was;
        RemovedFromDeliveries(was, filter);
    }

    lemma NothingMatches()
      ensures forall event :: Matching(Padded([], MAX_SUBSCRIPTIONS), event) == []
    {
      forall event: seq<byte>
        ensures Matching(Padded([], MAX_SUBSCRIPTIONS), event) == []
      {
        PaddingMatchesNothing([], MAX_SUBSCRIPTIONS, event);
      }
    }

    lemma RemovedFromDeliveries(table: seq<Handler>, filter: seq<byte>)
      requires |table| <= MAX_SUBSCRIPTIONS
      ensures forall event :: Matching(Padded(Others(table, filter), MAX_SUBSCRIPTIONS), event)
                           == Others(Matching(table, event), filter)
    {
      forall event: seq<byte>
        ensures Matching(Padded(Others(table, filter), MAX_SUBSCRIPTIONS), event) == Others(Matching(table, event), filter)
      {
        PaddingMatchesNothing(Others(table, filter), MAX_SUBSCRIPTIONS, event);
        RemovalIsExact(table, filter, event);
      }
    }

    // ---- handle_event

    method DecodeOption(buf: array<byte>, len: nat, src: nat, ghost q: seq<byte>) returns (next: nat, length: nat)
      requires src < len <= buf.Length && |q| == len && Whole(q, src)
      requires forall k :: src <= k < len ==> buf[k] == q[k]
      ensures src < next && next + length == After(q, src) <= len
      ensures length == |Segment(q, src)| && forall k :: 0 <= k < length ==> Segment(q, src)[k] == q[next + k]
    {
      SameOption(buf[..len], q, src);
      var option := OptionDecode(buf[..len], src);
      next, length := option.next, option.length;
    }

    // memmove to a lower address
    method MoveDown(buf: array<byte>, to: nat, from: nat, n: nat)
      requires to <= from && from + n <= buf.Length
      modifies buf
      ensures forall k :: to <= k < to + n ==> buf[k] == old(buf[k - to + from])
      ensures forall k :: 0 <= k < to || to + n <= k < buf.Length ==> buf[k] == old(buf[k])
    {
      var shift := from - to;
      forall k | to <= k < to + n {
        buf[k] := buf[k + shift];
      }
    }

    method PutSegment(buf: array<byte>, dst: nat, from: nat, n: nat)
      requires dst < from && from + n <= buf.Length
      modifies buf
      ensures buf[dst] == SLASH && forall k :: dst < k <= dst + n ==> buf[k] == old(buf[k - dst - 1 + from])
      ensures forall k :: 0 <= k < dst || dst + 1 + n <= k < buf.Length ==> buf[k] == old(buf[k])
    {
      buf[dst] := SLASH;
      if dst + 1 != from {
        MoveDown(buf, dst + 1, from, n);
      }
    }

    // One turn of the loop: a slash and the data of the option move down to dst.
    method JoinOne(buf: array<byte>, len: nat, start: nat, src: nat, dst: nat, ghost q: seq<byte>)
      returns (src': nat, dst': nat)
      requires start <= dst <= src < len <= buf.Length && |q| == len && Whole(q, src)
      requires forall k :: src <= k < len ==> buf[k] == q[k]
      modifies buf
      ensures dst < dst' <= src' == After(q, src) <= len
      ensures buf[start..dst'] == old(buf[start..dst]) + [SLASH] + Segment(q, src)
      ensures forall k :: src' <= k < buf.Length ==> buf[k] == old(buf[k])
    {
      hide Readable, OptionDecode, Whole;
      var next, length := DecodeOption(buf, len, src, q);
      ghost var before := buf[start..dst];
      PutSegment(buf, dst, next, length);
      src', dst' := next + length, dst + 1 + length;
      Combined(buf[..], start, dst, before, Segment(q, src));
    }

    // Joins the Uri-Path options behind the first segment of the name, in place: src reads, dst writes and never
    // overtakes it.
    method JoinPath(buf: array<byte>, len: nat, start: nat, first: nat) returns (dst: nat, src: nat)
      requires start <= first <= len <= buf.Length && WholePath(buf[..len], first)
      modifies buf
      ensures start <= dst <= src <= len && src == PathEnd(old(buf[..len]), first)
      ensures buf[start..dst] == old(buf[start..first]) + Joined(old(buf[..len]), first)
      ensures forall k :: src <= k < buf.Length ==> buf[k] == old(buf[k])
    {
      hide OptionDecode, Readable, Joined, PathEnd, WholePath, Whole;
      ghost var q := buf[..len];
      src, dst := first, first;
      ghost var name := q[start..first];
      assert buf[start..first] == name;
      while src < len && buf[src] / 16 == 0
        invariant first <= dst <= src <= len && WholePath(q, src)
        invariant PathEnd(q, src) == PathEnd(q, first)
        invariant name + Joined(q, src) == q[start..first] + Joined(q, first)
        invariant buf[start..dst] == name
        invariant forall k :: src <= k < buf.Length ==> buf[k] == old(buf[k])
        decreases len - src
      {
        assert q[src] == buf[src];
        JoinedUnfolds(q, src, name);
        name := name + [SLASH] + Segment(q, src);
        src, dst := JoinOne(buf, len, start, src, dst, q);
      }
      NothingJoined(q, src, name);
    }

    lemma NothingJoined(q: seq<byte>, pos: nat, name: seq<byte>)
      requires pos <= |q| && !IsPath(q, pos)
      ensures WholePath(q, pos) && name + Joined(q, pos) == name && PathEnd(q, pos) == pos
    {
    }

    lemma JoinedUnfolds(q: seq<byte>, pos: nat, joined: seq<byte>)
      requires pos <= |q| && WholePath(q, pos) && IsPath(q, pos)
      ensures Whole(q, pos) && WholePath(q, After(q, pos))
      ensures joined + Joined(q, pos) == (joined + [SLASH] + Segment(q, pos)) + Joined(q, After(q, pos))
      ensures PathEnd(q, pos) == PathEnd(q, After(q, pos))
    {
    }

    lemma Combined(s: seq<byte>, start: nat, dst: nat, before: seq<byte>, segment: seq<byte>)
      requires start <= dst && dst + 1 + |segment| <= |s| && |before| == dst - start
      requires (forall k :: 0 <= k < |before| ==> s[start + k] == before[k]) && s[dst] == SLASH
      requires forall k :: dst < k <= dst + |segment| ==> s[k] == segment[k - dst - 1]
      ensures s[start..dst + 1 + |segment|] == before + [SLASH] + segment
    {
    }

    lemma SameOption(p: seq<byte>, q: seq<byte>, pos: nat)
      requires |p| == |q| && (forall k :: pos <= k < |p| ==> p[k] == q[k]) && Readable(q, pos)
      ensures Readable(p, pos) && OptionDecode(p, pos) == OptionDecode(q, pos)
    {
    }

    // Calls every handler whose filter begins the name, up to the first empty slot.
    method Dispatch(name: seq<byte>, data: Option<seq<byte>>)
      requires Valid()
      modifies this`calls
      ensures calls == old(calls) + Calls(Matching(handlers[..], name), name, data)
    {
      hide Matching, Calls, GapFree;
      NoCalls(name, data);
      var i := 0;
      while i < handlers.Length && handlers[i].handler != 0
        invariant i <= handlers.Length
        invariant calls == old(calls) + Calls(Matching(handlers[..i], name), name, data)
        decreases handlers.Length - i
      {
        assert handlers[..i + 1] == handlers[..i] + [handlers[i]];
        MatchingGrows(handlers[..i], handlers[i], name);
        OneMoreCall(old(calls), Matching(handlers[..i], name), handlers[i], name, data);
        var filter := handlers[i].filter;
        if |filter| <= |name| && filter == name[..|filter|] {
          calls := calls + [Call(handlers[i], name, data)];
        }
        i := i + 1;
      }
      if i < handlers.Length {
        NothingBehindAGap(handlers[..], i, name);
        assert handlers[..][..i] == handlers[..i];
      } else {
        assert handlers[..i] == handlers[..];
      }
    }

    lemma NoCalls(name: seq<byte>, data: Option<seq<byte>>)
      ensures Calls(Matching([], name), name, data) == []
    {
    }

    lemma OneMoreCall(before: seq<Call>, matching: seq<Handler>, h: Handler, name: seq<byte>, data: Option<seq<byte>>)
      ensures before + Calls(matching + [h], name, data) == before + Calls(matching, name, data) + [Call(h, name, data)]
      ensures matching + [] == matching
    {
    }

    // A string in the buffer, with its terminator behind it.
    ghost predicate StringAt(buf: array<byte>, start: nat, text: seq<byte>)
      reads buf
    {
      start + |text| < buf.Length && buf[start..start + |text|] == text && buf[start + |text|] == 0
    }

    // Skips the Max-Age option and terminates the data, if there is any.
    method FindData(buf: array<byte>, len: nat, src: nat, ghost q: seq<byte>) returns (data: Option<nat>)
      requires src <= len <= buf.Length && |q| == len && forall k :: src <= k < len ==> buf[k] == q[k]
      requires src < len && q[src] / 16 == 3 ==> Readable(q, src)
      requires PayloadAt(q, SkipMaxAge(q, src)).Some? ==> len < buf.Length
      modifies buf
      ensures forall k :: 0 <= k < len ==> buf[k] == old(buf[k])
      ensures match PayloadAt(q, SkipMaxAge(q, src))
              case None => data == None
              case Some(d) => data.Some? && src < data.value && data.value + |d| == len && StringAt(buf, data.value, d)
    {
      hide OptionDecode, Readable;
      SameTail(buf[..len], q, src);
      var pos := SkipMaxAge(buf[..len], src);
      data := None;
      if pos < len && buf[pos] == 0xff {
        data := Some(pos + 1);
        buf[len] := 0;
        assert buf[pos + 1..len] == q[pos + 1..];
      }
    }

    method FirstSegment(buf: array<byte>, len: nat) returns (start: nat, first: nat)
      requires 0 < len <= buf.Length && WellFormed(buf[..len]) && HasName(buf[..len])
      ensures var q := buf[..len];
              && Whole(q, NameOption(q)) && first == After(q, NameOption(q)) <= len && start < first
              && buf[start..first] == Segment(q, NameOption(q)) && start == NameStart(q)
    {
      ghost var q := buf[..len];
      assert Whole(q, NameOption(q));
      var option := OptionDecode(buf[..len], NameOption(buf[..len]));
      start, first := option.next, option.next + option.length;
      assert first == After(q, NameOption(q));
      PartOfPart(buf, len, start, first);
    }

    // Reads the name and the data of an event and terminates both; the terminator of the name does not hit the data.
    method ReadEvent(buf: array<byte>, len: nat) returns (start: nat, name: seq<byte>, data: Option<nat>)
      requires 0 < len <= buf.Length && WellFormed(buf[..len]) && HasName(buf[..len])
      requires TerminatorsFit(buf[..len], buf.Length)
      modifies buf
      ensures Parse(old(buf[..len])).Parsed? && name == Parse(old(buf[..len])).name && StringAt(buf, start, name)
      ensures match Parse(old(buf[..len])).data
              case None => data == None
              case Some(d) => data.Some? && data.value + |d| == len && StringAt(buf, data.value, d)
    {
      hide OptionDecode, Readable, Joined, PathEnd, WholePath, Whole, Segment, After, SkipMaxAge, PayloadAt;
      ghost var q := buf[..len];
      var first;
      start, first := FirstSegment(buf, len);
      var dst, src := JoinPath(buf, len, start, first);
      name := buf[start..dst];
      assert name == Segment(q, NameOption(q)) + Joined(q, first);
      data := FindData(buf, len, src, q);
      assert buf[start..dst] == name;
      buf[dst] := 0;
      assert buf[start..dst] == name;
    }

    lemma PartOfPart(buf: array<byte>, len: nat, i: nat, j: nat)
      requires i <= j <= len <= buf.Length
      ensures buf[..len][i..j] == buf[i..j]
    {
      assert forall k :: 0 <= k < j - i ==> buf[..len][i..j][k] == buf[i + k];
    }

    lemma SameTail(p: seq<byte>, q: seq<byte>, pos: nat)
      requires |p| == |q| && (forall k :: pos <= k < |p| ==> p[k] == q[k])
      requires pos < |q| && q[pos] / 16 == 3 ==> Readable(q, pos)
      ensures pos < |p| && p[pos] / 16 == 3 ==> Readable(p, pos)
      ensures SkipMaxAge(p, pos) == SkipMaxAge(q, pos) >= pos
    {
    }

    lemma NamedOrMalformed(q: seq<byte>)
      requires WellFormed(q)
      ensures Parse(q).Malformed? <==> !HasName(q)
    {
    }

    method HandleEvent(buf: array<byte>, len: nat, id: int, channel: EventChannel) returns (result: EventResult)
      requires Valid() && 0 < len <= buf.Length && WellFormed(buf[..len]) && TerminatorsFit(buf[..len], buf.Length)
      modifies buf, this`calls, channel
      ensures Valid()
      ensures var q := old(buf[..len]);
              var answers := TypeOf(q) == CON && channel.unreliable && channel.responds(old(channel.responses));
              var refused := answers && channel.results(|old(channel.acks)|).Refused?;
              && channel.acks == old(channel.acks) + (if answers then [id] else [])
              && if refused then
                   result == Undelivered(channel.results(|old(channel.acks)|).code) && calls == old(calls)
                 else if Parse(q).Malformed? then result == MalformedMessage && calls == old(calls)
                 else result == Delivered
                      && calls == old(calls) + Calls(Matching(handlers[..], Parse(q).name), Parse(q).name, Parse(q).data)
    {
      hide OptionDecode, Readable, WholePath, Joined, Matching, GapFree, PathEnd, Parse, HasName, WellFormed, Calls;
      NamedOrMalformed(buf[..len]);
      if TypeOf(buf[..len]) == CON && channel.unreliable {
        var answers := channel.Response();
        if answers {
          var sent := channel.SendAck(id);
          if sent.Refused? {
            return Undelivered(sent.code);
          }
        }
      }
      if !HasName(buf[..len]) {
        return MalformedMessage;
      }
      var start, name, data := ReadEvent(buf, len);
      Dispatch(name, match data case None => None case Some(at) => Some(buf[at..len]));
      result := Delivered;
    }
  }
}
