// Messages as views on the one buffer of a channel, and the room that a response gets behind the message it answers.
module MessageBuffer {

  // The buffer of a channel: every message is preceded by a prefix and followed by a suffix that belong to the channel.
  datatype Layout = Layout(max: nat, prefix: nat, suffix: nat)

  ghost predicate Sound(l: Layout) {
    l.prefix + l.suffix <= l.max
  }

  // The part of the buffer that a message occupies.
  datatype Slot = Slot(start: nat, capacity: nat, length: nat)

  // The frame of a message of n bytes at a place, prefix and suffix included, lies inside the buffer.
  ghost predicate Inside(l: Layout, start: nat, n: nat) {
    l.prefix <= start && start + n + l.suffix <= l.max
  }

  // A message whose whole capacity can be used.
  ghost predicate Roomy(l: Layout, s: Slot) {
    Inside(l, s.start, s.capacity) && s.length <= s.capacity
  }

  ghost function Splintered(l: Layout, original: Slot): Slot {
    if original.length <= original.capacity then
      Slot(original.start + original.length + l.prefix + l.suffix, original.capacity - original.length, 0)
    else original
  }

  // A response with a payload of at most the required size has a frame inside the buffer that begins behind the frame
  // of the message it answers. Exactly the payloads that leave room for another prefix and suffix have one:
  // the capacity that the response claims to have is too large by that much.
  lemma ResponseFrame(l: Layout, original: Slot, required: nat, n: nat)
    requires Roomy(l, original) && required + l.prefix + l.suffix <= original.capacity - original.length
    ensures var response := Splintered(l, original);
            && original.start + original.length + l.suffix == response.start - l.prefix
            && (n <= required ==> Inside(l, response.start, n))
            && (original.start + original.capacity + l.suffix == l.max ==>
                  (Inside(l, response.start, n) <==> n + l.prefix + l.suffix <= response.capacity))
  {
  }

  // A response to a message with spare room behind it is roomy itself only if there is room for another prefix and two
  // more suffixes behind that; so in a channel that adds anything, a response to a response is not safe.
  lemma ResponseIsRoomy(l: Layout, original: Slot, required: nat)
    requires Roomy(l, original) && required + l.prefix + l.suffix <= original.capacity - original.length
    ensures Roomy(l, Splintered(l, original)) <==> original.start + original.capacity + l.prefix + 2 * l.suffix <= l.max
  {
  }

  // The buffer of a message: where it stands and how much of it is used. (CoapMessage.Message is what stands in it.)
  class MessageView {
    var start: nat
    var capacity: nat
    var length: nat
    var id: int

    constructor ()
      ensures start == 0 && capacity == 0 && length == 0 && id == -1
    {
      start, capacity, length, id := 0, 0, 0, -1;
    }

    ghost function View(): Slot
      reads this
    {
      Slot(start, capacity, length)
    }

    // A length beyond the capacity is ignored.
    method SetLength(n: nat)
      modifies this`length
      ensures length == if n <= capacity then n else old(length)
    {
      if n <= capacity {
        length := n;
      }
    }

    method SetBuffer(start: nat, capacity: nat)
      modifies this`start, this`capacity, this`length
      ensures View() == Slot(start, capacity, 0)
    {
      this.start, this.capacity, length := start, capacity, 0;
    }

    method TrimCapacity() returns (trimmed: nat)
      requires length <= capacity
      modifies this`capacity
      ensures trimmed == old(capacity) - length && capacity == length
    {
      trimmed := capacity - length;
      capacity := length;
    }

    method Splinter(target: MessageView, required: nat, offset: nat) returns (ok: bool)
      requires length <= capacity && target != this
      modifies this`capacity, target`start, target`capacity, target`length
      ensures ok <==> required + offset <= old(capacity) - length
      ensures !ok ==> capacity == old(capacity) && target.View() == old(target.View())
      ensures ok ==> capacity == length
      ensures ok ==> target.View() == Slot(start + length + offset, old(capacity) - length, 0)
    {
      var available := capacity - length;
      if available < required + offset {
        return false;
      }
      var excess := TrimCapacity();
      target.SetBuffer(start + length + offset, excess);
      ok := true;
    }
  }

  class BufferMessageChannel<T(0)> {
    const layout: Layout
    const queue: array<T>

    ghost predicate Valid() {
      Sound(layout) && queue.Length == layout.max
    }

    constructor (layout: Layout)
      requires Sound(layout)
      ensures this.layout == layout && Valid() && fresh(queue)
    {
      this.layout := layout;
      queue := new T[layout.max];
    }

    // A new message gets the whole buffer.
    method Create(message: MessageView, minimum: nat) returns (ok: bool)
      requires Valid()
      modifies message
      ensures ok <==> minimum <= layout.max - layout.prefix - layout.suffix
      ensures if ok then message.View() == Slot(layout.prefix, layout.max - layout.prefix - layout.suffix, 0)
                         && Roomy(layout, message.View()) && message.id == -1
              else unchanged(message)
    {
      if minimum > queue.Length - layout.prefix - layout.suffix {
        return false;
      }
      message.id := -1;
      message.SetBuffer(layout.prefix, queue.Length - layout.suffix - layout.prefix);
      message.SetLength(0);
      ok := true;
    }

    // A response to a roomy message has a frame of its own for every payload up to the required size, and the message it
    // answers keeps just its own bytes: a second response to it is refused.
    method Response(original: MessageView, response: MessageView, required: nat) returns (ok: bool)
      requires Valid() && original != response && original.length <= original.capacity
      modifies original`capacity, response`start, response`capacity, response`length
      ensures ok <==> required + layout.prefix + layout.suffix <= old(original.capacity) - original.length
      ensures !ok ==> original.View() == old(original.View()) && response.View() == old(response.View())
      ensures ok ==> response.View() == Splintered(layout, old(original.View())) && original.capacity == original.length
      ensures ok && old(Roomy(layout, original.View())) ==>
                && Roomy(layout, original.View())
                && original.start + original.length + layout.suffix <= response.start - layout.prefix
                && (forall n: nat :: n <= required ==> Inside(layout, response.start, n))
                && (Roomy(layout, response.View()) <==>
                      original.start + old(original.capacity) + layout.prefix + 2 * layout.suffix <= layout.max)
    {
      ghost var before := original.View();
      if Roomy(layout, before) && required + layout.prefix + layout.suffix <= before.capacity - before.length {
        ResponseIsRoomy(layout, before, required);
      }
      ok := original.Splinter(response, required, layout.prefix + layout.suffix);
    }
  }
}
