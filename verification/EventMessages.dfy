// Event messages: what Messages::event writes, and what Subscriptions::handle_event reads.
module EventMessages {
  import opened Words
  import opened CoapMessage
  import opened CoapOptions

  const MAX_EVENT_NAME_LENGTH := 64
  const MAX_EVENT_DATA_LENGTH := 622
  const DEFAULT_TTL := 60

  function Truncated(s: seq<byte>, n: nat): (r: seq<byte>)
    ensures r <= s && |r| == Min(n, |s|)
  {
    s[..Min(n, |s|)]
  }

  // ---- Writing

  function EventHeader(id: uint16, eventType: byte, confirmable: bool): seq<byte> {
    [if confirmable then 0x40 else 0x50, 0x02, id / 256, id % 256, 0xb1, eventType]
  }

  // The event name as a single Uri-Path option that follows another one.
  function NamePath(name: seq<byte>): seq<byte>
    requires |name| <= MAX_EVENT_NAME_LENGTH
  {
    if name == [] then [] else OptionBytes(0, name)
  }

  // The Max-Age option: the low 24 bits of the time to live; the default is not sent.
  function MaxAge(ttl: int): seq<byte> {
    if ttl == DEFAULT_TTL then [] else [0x33, ttl / 0x1_0000 % 256, ttl / 256 % 256, ttl % 256]
  }

  function DataPayload(data: Option<seq<byte>>): seq<byte> {
    match data
    case None => []
    case Some(d) => [0xff] + Truncated(d, MAX_EVENT_DATA_LENGTH)
  }

  // An event message: names and data that are too long are cut off.
  function EventBytes(id: uint16, name: seq<byte>, data: Option<seq<byte>>, ttl: int, eventType: byte, confirmable: bool):
    seq<byte>
  {
    EventHeader(id, eventType, confirmable) + NamePath(Truncated(name, MAX_EVENT_NAME_LENGTH)) + MaxAge(ttl)
    + DataPayload(data)
  }

  // What the server reads in front of the name: a POST request (code 0.02 of RFC 7252) without a token that is confirmable
  // or not, its ID, and a Uri-Path option (number 11) of one byte, the type of the event.
  lemma EventIsPostRequest(id: uint16, name: seq<byte>, data: Option<seq<byte>>, ttl: int, eventType: byte,
                           confirmable: bool)
    ensures var q := EventBytes(id, name, data, ttl, eventType, confirmable);
            && |q| >= 6 && q[0] / 64 == 1 && q[0] % 16 == 0 && q[1] == 2
            && MessageType(q) == (if confirmable then CON else NON) && IdOf(q) == id
            && q[4] / 16 == 11 && q[4] % 16 == 1 && q[5] == eventType
  {
    var q := EventBytes(id, name, data, ttl, eventType, confirmable);
    assert q[..6] == EventHeader(id, eventType, confirmable);
    assert q[0] == q[..6][0] && q[1] == q[..6][1] && q[2] == q[..6][2] && q[3] == q[..6][3] && q[4] == q[..6][4];
  }

  // A Max-Age option (number 14, three behind Uri-Path) of three bytes gives the time to live, unless it is a minute.
  lemma MaxAgeIsTimeToLive(ttl: int)
    requires 0 <= ttl < 0x100_0000
    ensures var o := MaxAge(ttl);
            if ttl == 60 then o == []
            else |o| == 4 && o[0] / 16 == 14 - 11 && o[0] % 16 == 3
                 && o[1] as int * 0x1_0000 + o[2] as int * 0x100 + o[3] as int == ttl
  {
  }

  // Appends bytes to a message under construction.
  method Append(buf: array<byte>, start: nat, bytes: seq<byte>) returns (end: nat)
    requires start + |bytes| <= buf.Length
    modifies buf
    ensures end == start + |bytes| && buf[..end] == old(buf[..start]) + bytes
  {
    forall k | 0 <= k < |bytes| {
      buf[start + k] := bytes[k];
    }
    end := start + |bytes|;
  }

  // event_name_uri_path
  method EventNameUriPath(buf: array<byte>, start: nat, name: seq<byte>) returns (end: nat)
    requires |name| <= MAX_EVENT_NAME_LENGTH && start + |NamePath(name)| <= buf.Length
    modifies buf
    ensures end == start + |NamePath(name)| && buf[..end] == old(buf[..start]) + NamePath(name)
  {
    hide NamePath;
    if |name| == 0 {
      NoNamePath();
      return start;
    }
    var head: seq<byte>;
    if |name| < 13 {
      head := [|name|];
    } else {
      head := [0x0d, |name| - 13];
    }
    NamePathHead(name);
    end := Append(buf, start, head);
    end := Append(buf, end, name);
    Reassociate(old(buf[..start]), head, name);
  }

  lemma NoNamePath()
    ensures NamePath([]) == []
  {
  }

  lemma NamePathHead(name: seq<byte>)
    requires |name| <= MAX_EVENT_NAME_LENGTH
    ensures 0 < |name| < 13 ==> NamePath(name) == [|name|] + name
    ensures 13 <= |name| ==> NamePath(name) == [0x0d, |name| - 13] + name
  {
    if |name| > 0 {
      var head := OptionHead(0, |name|);
      assert Nibble(0) == 0 && Extended(0) == [];
      assert head == [Nibble(|name|)] + Extended(|name|);
    }
  }

  // Messages::event
  method Event(buf: array<byte>, id: uint16, name: seq<byte>, data: Option<seq<byte>>, ttl: int, eventType: byte,
               confirmable: bool)
    returns (end: nat)
    requires |EventBytes(id, name, data, ttl, eventType, confirmable)| <= buf.Length
    modifies buf
    ensures end <= buf.Length && buf[..end] == EventBytes(id, name, data, ttl, eventType, confirmable)
  {
    hide OptionHead, NamePath;
    end := Append(buf, 0, [if confirmable then 0x40 else 0x50, 0x02, id / 256, id % 256, 0xb1, eventType]);
    ghost var header := buf[..end];
    assert header == EventHeader(id, eventType, confirmable);
    end := EventNameUriPath(buf, end, Truncated(name, MAX_EVENT_NAME_LENGTH));
    if ttl != DEFAULT_TTL {
      end := Append(buf, end, [0x33, ttl / 0x1_0000 % 256, ttl / 256 % 256, ttl % 256]);
    }
    assert buf[..end] == header + NamePath(Truncated(name, MAX_EVENT_NAME_LENGTH)) + MaxAge(ttl);
    if data.Some? {
      end := Append(buf, end, [0xff] + Truncated(data.value, MAX_EVENT_DATA_LENGTH));
    }
  }

  // ---- Reading

  const SLASH: byte := '/' as int

  // Is there another Uri-Path option, one whose delta is zero?
  predicate IsPath(q: seq<byte>, pos: nat) {
    pos < |q| && q[pos] / 16 == 0
  }

  // The option at the position lies inside the message and does not have the reserved length.
  predicate Whole(q: seq<byte>, pos: nat) {
    && Readable(q, pos) && q[pos] % 16 != 15
    && OptionDecode(q, pos).next + OptionDecode(q, pos).length <= |q|
  }

  function After(q: seq<byte>, pos: nat): (r: nat)
    requires Whole(q, pos)
    ensures pos < r <= |q|
  {
    OptionDecode(q, pos).next + OptionDecode(q, pos).length
  }

  function Segment(q: seq<byte>, pos: nat): seq<byte>
    requires Whole(q, pos)
  {
    q[OptionDecode(q, pos).next..After(q, pos)]
  }

  // All Uri-Path options from the position on are whole.
  predicate WholePath(q: seq<byte>, pos: nat)
    decreases |q| - pos
  {
    IsPath(q, pos) ==> Whole(q, pos) && WholePath(q, After(q, pos))
  }

  // Where they end, and what the further segments add to the name.
  function PathEnd(q: seq<byte>, pos: nat): (r: nat)
    requires WholePath(q, pos) && pos <= |q|
    ensures pos <= r <= |q| && !IsPath(q, r)
    decreases |q| - pos
  {
    if IsPath(q, pos) then PathEnd(q, After(q, pos)) else pos
  }

  function Joined(q: seq<byte>, pos: nat): seq<byte>
    requires WholePath(q, pos) && pos <= |q|
    decreases |q| - pos
  {
    if IsPath(q, pos) then [SLASH] + Segment(q, pos) + Joined(q, After(q, pos)) else []
  }

  // The position behind the Max-Age option, if there is one.
  function SkipMaxAge(q: seq<byte>, pos: nat): nat
    requires pos < |q| && q[pos] / 16 == 3 ==> Readable(q, pos)
  {
    if pos < |q| && q[pos] / 16 == 3 then OptionDecode(q, pos).next + OptionDecode(q, pos).length else pos
  }

  function PayloadAt(q: seq<byte>, pos: nat): Option<seq<byte>> {
    if pos < |q| && q[pos] == 0xff then Some(q[pos + 1..]) else None
  }

  // The position of the event name option: behind the header, the token and the option with the event type.
  function NameOption(q: seq<byte>): nat
    requires q != []
  {
    6 + q[0] % 16
  }

  predicate HasName(q: seq<byte>) {
    q != [] && Readable(q, NameOption(q)) && OptionDecode(q, NameOption(q)).length > 0
  }

  // What handle_event takes for granted about a message: options that are inside it.
  predicate WellFormed(q: seq<byte>) {
    && q != [] && Readable(q, NameOption(q))
    && (HasName(q) ==>
          && Whole(q, NameOption(q)) && WholePath(q, After(q, NameOption(q)))
          && var end := PathEnd(q, After(q, NameOption(q)));
             end < |q| && q[end] / 16 == 3 ==> Readable(q, end))
  }

  // Where the name begins in the buffer.
  function NameStart(q: seq<byte>): nat
    requires HasName(q)
  {
    OptionDecode(q, NameOption(q)).next
  }

  datatype Parsed = Malformed | Parsed(name: seq<byte>, data: Option<seq<byte>>)

  function Parse(q: seq<byte>): Parsed
    requires WellFormed(q)
  {
    if !HasName(q) then Malformed
    else
      var second := After(q, NameOption(q));
      Parsed(Segment(q, NameOption(q)) + Joined(q, second), PayloadAt(q, SkipMaxAge(q, PathEnd(q, second))))
  }

  // handle_event puts a terminator behind the name and, when there is a payload, one behind the message.
  // Do both stay inside the buffer?
  ghost predicate TerminatorsFit(q: seq<byte>, capacity: nat)
    requires WellFormed(q)
  {
    HasName(q) ==>
      && NameStart(q) + |Parse(q).name| < capacity
      && (Parse(q).data.Some? ==> |q| < capacity)
  }

  lemma {:induction false} JoinedIsShorter(q: seq<byte>, pos: nat)
    requires WholePath(q, pos) && pos <= |q|
    ensures pos + |Joined(q, pos)| <= PathEnd(q, pos)
    decreases |q| - pos
  {
    if IsPath(q, pos) {
      JoinedIsShorter(q, After(q, pos));
    }
  }

  // They do exactly when there is room behind the message, or when it has no payload and the name ends before it does.
  lemma TerminatorsFitExactly(q: seq<byte>, capacity: nat)
    requires WellFormed(q) && HasName(q) && |q| <= capacity
    ensures NameStart(q) + |Parse(q).name| <= |q|
    ensures TerminatorsFit(q, capacity) <==>
              |q| < capacity || (Parse(q).data.None? && NameStart(q) + |Parse(q).name| < |q|)
  {
    JoinedIsShorter(q, After(q, NameOption(q)));
  }

  // A message with a payload that fills the buffer is one for which they do not.
  lemma FullBufferIsLeft(header: seq<byte>, data: seq<byte>)
    requires |header| == 6 && header[0] % 16 == 0
    ensures var q := header + OptionBytes(0, ['n' as int]) + [0xff] + data;
            |q| == |data| + 9 && WellFormed(q) && Parse(q) == Parsed(['n' as int], Some(data))
            && !TerminatorsFit(q, |q|) && TerminatorsFit(q, |q| + 1)
  {
    hide OptionDecode, Readable, OptionHead, OptionBytes;
    var path := OptionBytes(0, ['n' as int]);
    var q := header + path + [0xff] + data;
    assert |path| == 2 by {
      NamePathHead(['n' as int]);
    }
    EventParts(q, header, path, [0xff], data);
    PathOptionIsRead(q, 6, ['n' as int]);
    assert q[8] == q[8..][0] == 0xff && q[9..] == data;
    TerminatorsFitExactly(q, |q|);
    TerminatorsFitExactly(q, |q| + 1);
  }

  // ---- Round trips

  function Slashed(segments: seq<seq<byte>>): seq<byte> {
    if segments == [] then [] else [SLASH] + segments[0] + Slashed(segments[1..])
  }

  function PathOptions(segments: seq<seq<byte>>): (r: seq<Opt>)
    requires forall k :: 0 <= k < |segments| ==> |segments[k]| < 0x1_0000
    ensures |r| == |segments| && forall k :: 0 <= k < |r| ==> Plain(r[k]) && r[k] == Opt(0, segments[k])
  {
    seq(|segments|, k requires 0 <= k < |segments| => Opt(0, segments[k]))
  }

  // Any number of segments, of any length and with headers of any size, is joined by slashes.
  lemma {:induction false} SegmentsAreJoined(q: seq<byte>, pos: nat, segments: seq<seq<byte>>)
    requires forall k :: 0 <= k < |segments| ==> |segments[k]| < 0x1_0000
    requires At(q, pos, OptionsBytes(PathOptions(segments)))
    requires !IsPath(q, pos + |OptionsBytes(PathOptions(segments))|)
    ensures WholePath(q, pos) && Joined(q, pos) == Slashed(segments)
    ensures PathEnd(q, pos) == pos + |OptionsBytes(PathOptions(segments))|
    decreases |segments|
  {
    hide OptionDecode, Readable, OptionHead;
    if segments != [] {
      var options := PathOptions(segments);
      var first, rest := OptionBytes(0, segments[0]), OptionsBytes(options[1..]);
      assert options[1..] == PathOptions(segments[1..]);
      assert Plain(options[0]) && OptionsBytes(options) == first + rest;
      AtParts(q, pos, first, rest);
      PathOptionIsRead(q, pos, segments[0]);
      SegmentsAreJoined(q, pos + |first|, segments[1..]);
    }
  }

  lemma PathOptionIsRead(q: seq<byte>, pos: nat, segment: seq<byte>)
    requires |segment| < 0x1_0000 && At(q, pos, OptionBytes(0, segment))
    ensures IsPath(q, pos) && Whole(q, pos) && Segment(q, pos) == segment
    ensures After(q, pos) == pos + |OptionBytes(0, segment)|
  {
    OptionRoundTrip(q, pos, 0, segment);
    assert q[pos] == q[pos..pos + |OptionBytes(0, segment)|][0] == OptionHead(0, |segment|)[0];
  }

  // What is published arrives: the name and the data, each cut to its longest permitted length; absent data stays
  // different from empty data. Only the empty name cannot be sent.
  lemma EventRoundTrip(id: uint16, name: seq<byte>, data: Option<seq<byte>>, ttl: int, eventType: byte, confirmable: bool)
    requires name != []
    ensures var q := EventBytes(id, name, data, ttl, eventType, confirmable);
            && WellFormed(q)
            && Parse(q) == Parsed(Truncated(name, MAX_EVENT_NAME_LENGTH),
                                  match data case None => None case Some(d) => Some(Truncated(d, MAX_EVENT_DATA_LENGTH)))
  {
    hide OptionDecode, Readable, OptionHead, OptionBytes, EventHeader, MaxAge, DataPayload, NamePath;
    var q := EventBytes(id, name, data, ttl, eventType, confirmable);
    var short, tail := Truncated(name, MAX_EVENT_NAME_LENGTH), MaxAge(ttl) + DataPayload(data);
    HeaderIsSix(id, eventType, confirmable);
    NameIsOption(short);
    EventParts(q, EventHeader(id, eventType, confirmable), NamePath(short), MaxAge(ttl), DataPayload(data));
    PathOptionIsRead(q, 6, short);
    TailIsRead(q, 6 + |NamePath(short)|, ttl, data);
  }

  lemma HeaderIsSix(id: uint16, eventType: byte, confirmable: bool)
    ensures |EventHeader(id, eventType, confirmable)| == 6 && EventHeader(id, eventType, confirmable)[0] % 16 == 0
  {
  }

  lemma NameIsOption(name: seq<byte>)
    requires 0 < |name| <= MAX_EVENT_NAME_LENGTH
    ensures NamePath(name) == OptionBytes(0, name)
  {
  }

  lemma EventParts(q: seq<byte>, header: seq<byte>, path: seq<byte>, age: seq<byte>, payload: seq<byte>)
    requires q == header + path + age + payload && |header| > 0
    ensures q[0] == header[0] && At(q, |header|, path) && q[|header| + |path|..] == age + payload
  {
  }

  lemma TailIsRead(q: seq<byte>, end: nat, ttl: int, data: Option<seq<byte>>)
    requires end <= |q| && q[end..] == MaxAge(ttl) + DataPayload(data)
    ensures !IsPath(q, end) && (end < |q| && q[end] / 16 == 3 ==> Readable(q, end))
    ensures PayloadAt(q, SkipMaxAge(q, end))
              == match data case None => None case Some(d) => Some(Truncated(d, MAX_EVENT_DATA_LENGTH))
  {
    var age, payload := MaxAge(ttl), DataPayload(data);
    if age != [] {
      assert q[end] == q[end..][0] == 0x33;
    } else if payload != [] {
      assert q[end] == q[end..][0] == 0xff;
    }
    var pos := SkipMaxAge(q, end);
    assert pos == end + |age|;
    assert q[pos..] == payload;
    if data.Some? {
      assert q[pos] == payload[0] == 0xff && q[pos + 1..] == payload[1..];
    }
  }
}
