// CoAP options (section 3.1 of RFC 7252): CoAP::add_option writes them and CoAP::option_decode reads them.
module CoapOptions {
  import opened Words

  // ---- Writing

  function Nibble(value: nat): (r: nat)
    ensures r <= 14
  {
    if value <= 12 then value else if value <= 0xFF + 13 then 13 else 14
  }

  function Extended(value: uint16): seq<byte> {
    if value <= 12 then []
    else if value <= 0xFF + 13 then [value - 13]
    else [(value - 269) / 256, (value - 269) % 256]
  }

  // The bytes of an option in front of its data.
  function OptionHead(delta: uint16, length: uint16): seq<byte> {
    [Nibble(delta) * 16 + Nibble(length)] + Extended(delta) + Extended(length)
  }

  function OptionBytes(delta: uint16, data: seq<byte>): seq<byte>
    requires |data| < 0x1_0000
  {
    OptionHead(delta, |data|) + data
  }

  // Section 3.1 of RFC 7252: what a nibble and the extension that belongs to it stand for.
  predicate StandsFor(nibble: nat, extension: seq<byte>, value: nat) {
    || (nibble <= 12 && extension == [] && value == nibble)
    || (nibble == 13 && |extension| == 1 && value == extension[0] as int + 13)
    || (nibble == 14 && |extension| == 2 && value == extension[0] as int * 256 + extension[1] + 269)
  }

  // The head of an option stands for its delta and its length.
  lemma HeadStandsFor(delta: uint16, length: uint16)
    ensures exists n: byte, d: seq<byte>, l: seq<byte> ::
              OptionHead(delta, length) == [n] + d + l && StandsFor(n / 16, d, delta) && StandsFor(n % 16, l, length)
  {
    var n: byte := Nibble(delta) * 16 + Nibble(length);
    assert n / 16 == Nibble(delta) && n % 16 == Nibble(length);
    assert StandsFor(n / 16, Extended(delta), delta) && StandsFor(n % 16, Extended(length), length);
    assert OptionHead(delta, length) == [n] + Extended(delta) + Extended(length);
  }

  // Writes an extended value and returns how many bytes it takes.
  method ExtendedOptionValue(buf: array<byte>, start: nat, nibble: nat, value: uint16) returns (size: nat)
    requires nibble == Nibble(value) && start + |Extended(value)| <= buf.Length
    modifies buf
    ensures size == |Extended(value)|
    ensures forall k :: 0 <= k < buf.Length ==>
              buf[k] == if start <= k < start + size then Extended(value)[k - start] else old(buf[k])
  {
    size := 0;
    if nibble == 13 {
      buf[start] := value - 13;
      size := 1;
    } else if nibble == 14 {
      buf[start] := (value - 269) / 256;
      buf[start + 1] := (value - 269) % 256;
      size := 2;
    }
  }

  method AddOption(buf: array<byte>, start: nat, previous: uint16, current: uint16, data: seq<byte>) returns (size: nat)
    requires |data| < 0x1_0000 && start + |OptionBytes(Low16(current - previous), data)| <= buf.Length
    modifies buf
    ensures var option := OptionBytes(Low16(current - previous), data);
            && size == |option|
            && forall k :: 0 <= k < buf.Length ==>
                 buf[k] == if start <= k < start + size then option[k - start] else old(buf[k])
  {
    var p := start;
    var delta: uint16 := Low16(current - previous);
    var deltaNibble, lengthNibble := Nibble(delta), Nibble(|data|);
    buf[p] := deltaNibble * 16 + lengthNibble;
    p := p + 1;
    var n := ExtendedOptionValue(buf, p, deltaNibble, delta);
    p := p + n;
    n := ExtendedOptionValue(buf, p, lengthNibble, |data|);
    p := p + n;
    forall k | 0 <= k < |data| {
      buf[p + k] := data[k];
    }
    p := p + |data|;
    size := p - start;
  }

  // ---- Reading

  datatype Head = Head(length: nat, next: nat)

  // The bytes that option_decode looks at are there.
  predicate Readable(q: seq<byte>, pos: nat) {
    && pos < |q|
    && (q[pos] % 16 == 13 ==> pos + 1 < |q|)
    && (q[pos] % 16 == 14 ==> pos + 2 < |q|)
  }

  // The length of the data of an option, and where the data begins. The delta is not looked at, and the reserved
  // length 15 stops the decoder where it stands.
  function OptionDecode(q: seq<byte>, pos: nat): Head
    requires Readable(q, pos)
  {
    var nibble := q[pos] % 16;
    if nibble < 13 then Head(nibble, pos + 1)
    else if nibble == 13 then Head(q[pos + 1] as int + 13, pos + 2)
    else if nibble == 14 then Head(q[pos + 1] as int * 256 + q[pos + 2] + 269, pos + 3)
    else Head(0, pos)
  }

  // The bytes stand in the buffer at the position.
  predicate At(q: seq<byte>, pos: nat, bytes: seq<byte>) {
    pos + |bytes| <= |q| && q[pos..pos + |bytes|] == bytes
  }

  // Decoding finds the data of an option exactly when its delta has no extension.
  lemma OptionRoundTrip(q: seq<byte>, pos: nat, delta: uint16, data: seq<byte>)
    requires |data| < 0x1_0000 && At(q, pos, OptionBytes(delta, data))
    ensures var head := OptionHead(delta, |data|);
            && (delta <= 12 <==> Readable(q, pos) && OptionDecode(q, pos) == Head(|data|, pos + |head|))
            && At(q, pos + |head|, data)
  {
    AtParts(q, pos, OptionHead(delta, |data|), data);
    HeadDecodes(q, pos, delta, |data|);
  }

  lemma HeadDecodes(q: seq<byte>, pos: nat, delta: uint16, length: uint16)
    requires At(q, pos, OptionHead(delta, length))
    ensures delta <= 12 <==>
              Readable(q, pos) && OptionDecode(q, pos) == Head(length, pos + |OptionHead(delta, length)|)
  {
    var head := OptionHead(delta, length);
    var here := q[pos..pos + |head|];
    assert q[pos] == here[0] && q[pos] % 16 == Nibble(length);
    if delta <= 12 {
      assert head == [head[0]] + Extended(length);
      if length > 12 {
        assert q[pos + 1] == here[1] == Extended(length)[0];
      }
      if length > 268 {
        assert q[pos + 2] == here[2] == Extended(length)[1];
      }
    }
  }

  datatype Opt = Opt(delta: uint16, data: seq<byte>)

  predicate Plain(o: Opt) {
    o.delta <= 12 && |o.data| < 0x1_0000
  }

  function OptionsBytes(options: seq<Opt>): seq<byte>
    requires forall k :: 0 <= k < |options| ==> Plain(options[k])
  {
    if options == [] then []
    else
      assert Plain(options[0]);
      OptionBytes(options[0].delta, options[0].data) + OptionsBytes(options[1..])
  }

  function DataOf(options: seq<Opt>): seq<seq<byte>> {
    if options == [] then [] else [options[0].data] + DataOf(options[1..])
  }

  datatype Walk = Broken | Walked(slices: seq<seq<byte>>, pos: nat)

  // Decodes n options one after the other.
  function WalkOptions(q: seq<byte>, pos: nat, n: nat): Walk
    decreases n
  {
    if n == 0 then Walked([], pos)
    else if !Readable(q, pos) then Broken
    else
      var h := OptionDecode(q, pos);
      if h.next + h.length > |q| then Broken
      else
        match WalkOptions(q, h.next + h.length, n - 1)
        case Broken => Broken
        case Walked(slices, end) => Walked([q[h.next..h.next + h.length]] + slices, end)
  }

  // Every list of options is read back as it was written, to the last byte.
  lemma {:induction false} OptionsRoundTrip(q: seq<byte>, pos: nat, options: seq<Opt>)
    requires forall k :: 0 <= k < |options| ==> Plain(options[k])
    requires At(q, pos, OptionsBytes(options))
    ensures WalkOptions(q, pos, |options|) == Walked(DataOf(options), pos + |OptionsBytes(options)|)
    decreases |options|
  {
    hide Readable, OptionDecode, OptionHead;
    if options != [] {
      assert Plain(options[0]);
      var first, rest := OptionBytes(options[0].delta, options[0].data), OptionsBytes(options[1..]);
      AtParts(q, pos, first, rest);
      OptionRoundTrip(q, pos, options[0].delta, options[0].data);
      OptionsRoundTrip(q, pos + |first|, options[1..]);
    }
  }

  lemma AtParts(q: seq<byte>, pos: nat, first: seq<byte>, rest: seq<byte>)
    requires At(q, pos, first + rest)
    ensures At(q, pos, first) && At(q, pos + |first|, rest)
  {
    var both := q[pos..pos + |first + rest|];
    assert both[..|first|] == first && both[|first|..] == rest;
    assert both[..|first|] == q[pos..pos + |first|];
    assert both[|first|..] == q[pos + |first|..pos + |first| + |rest|];
  }
}
