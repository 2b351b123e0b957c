// The chunked firmware transfer as a state machine over the set of received chunks and the flash memory, and what
// every run of it guarantees. ChunkedTransfer is proved against it.
module OtaSpec {
  import opened Words

  const NO_CHUNKS_MISSING := 65535
  const MAX_CHUNKS := 65535
  const MISSED_CHUNKS_TO_SEND := 40
  const MINIMUM_CHUNK_INCREASE := 2

  // FileTransfer::Descriptor::chunk_count, in 32-bit unsigned arithmetic.
  function ChunkCount(fileLength: uint32, chunkSize: uint16): nat {
    if chunkSize == 0 then 0 else Low32(fileLength as int + chunkSize - 1) / chunkSize
  }

  // The chunks cover the file, and none of them is superfluous.
  ghost predicate Covers(count: nat, fileLength: nat, chunkSize: nat) {
    count * chunkSize >= fileLength && (count > 0 ==> (count - 1) * chunkSize < fileLength)
  }

  // The chunk count is right exactly when the rounding-up sum does not overflow 32 bits and the chunk size is not zero
  // for a file that is not empty.
  lemma ChunkCountCovers(fileLength: uint32, chunkSize: uint16)
    ensures Covers(ChunkCount(fileLength, chunkSize), fileLength, chunkSize) <==>
              if chunkSize == 0 then fileLength == 0 else fileLength as int + chunkSize - 1 < TICKS
  {
    if chunkSize > 0 {
      var sum := fileLength as int + chunkSize - 1;
      if sum < TICKS {
        RoundedUp(fileLength, chunkSize);
      } else {
        assert Low32(sum) == sum - TICKS < chunkSize as int;
        DivSmall(Low32(sum), chunkSize);
      }
    }
  }

  lemma RoundedUp(n: nat, d: nat)
    requires d > 0
    ensures var q := (n + d - 1) / d; q * d >= n && (q > 0 ==> (q - 1) * d < n)
  {
    var q, r := (n + d - 1) / d, (n + d - 1) % d;
    assert n + d - 1 == q * d + r;
    assert (q - 1) * d == q * d - d;
  }

  lemma DivSmall(n: nat, d: nat)
    requires n < d
    ensures n / d == 0
  {
  }

  // ---- Chunks of an image in flash

  // What is transferred: the image, its place in flash and its division into chunks.
  datatype Job = Job(address: nat, image: seq<byte>, chunkSize: nat, count: nat)

  ghost predicate GoodJob(job: Job) {
    && Covers(job.count, |job.image|, job.chunkSize) && job.count < MAX_CHUNKS
    && job.address + |job.image| <= TICKS
  }

  ghost function ChunkOf(job: Job, i: nat): seq<byte>
    requires GoodJob(job) && i < job.count
  {
    ChunkBounds(job, i);
    job.image[i * job.chunkSize..Min((i + 1) * job.chunkSize, |job.image|)]
  }

  lemma ChunkBounds(job: Job, i: nat)
    requires GoodJob(job) && i < job.count
    ensures i * job.chunkSize <= (i + 1) * job.chunkSize && i * job.chunkSize < |job.image|
  {
    MultipleGrows(i, job.count - 1, job.chunkSize);
    MultipleGrows(i, i + 1, job.chunkSize);
  }

  lemma MultipleGrows(a: nat, b: nat, d: nat)
    requires a <= b
    ensures a * d <= b * d
  {
    assert b * d == a * d + (b - a) * d;
  }

  // Where a chunk goes, in 32-bit unsigned arithmetic.
  function ChunkAddress(address: nat, index: nat, chunkSize: nat): uint32 {
    Low32(address + index * chunkSize)
  }

  type Flash = map<nat, byte>

  function Write(flash: Flash, address: nat, data: seq<byte>): (r: Flash)
    ensures forall a :: a in r <==> a in flash || address <= a < address + |data|
    ensures forall a :: a in r ==>
              r[a] == if address <= a < address + |data| then data[a - address] else flash[a]
    decreases |data|
  {
    if data == [] then flash
    else Write(flash[address := data[0]], address + 1, data[1..])
  }

  // ---- The state machine

  datatype Ota = Ota(
    active: bool,              // an update is in progress
    received: set<nat>,        // the flagged chunks
    flight: uint16,            // the chunks that arrived since the last UPDATE_BEGIN or UPDATE_DONE
    flash: Flash,
    commits: seq<Flash>,       // flash at each finish_firmware_update(SUCCESS)
    requests: seq<seq<nat>>)   // the chunk indices of each request for missing chunks

  datatype Event =
    | Chunk(index: uint16, payload: seq<byte>, crcValid: bool)
    | UpdateDone(acknowledged: bool)  // the transmission of the acknowledgement succeeded

  // The missing chunks from a start index on, in increasing order.
  function Missing(received: set<nat>, start: nat, count: nat): seq<nat>
    decreases count - start
  {
    if start >= count then []
    else (if start in received then [] else [start]) + Missing(received, start + 1, count)
  }

  // How many missing chunks are requested after a flight of n chunks.
  function RequestLimit(n: uint16): nat {
    Min(n + Max(n / 5, MINIMUM_CHUNK_INCREASE), MISSED_CHUNKS_TO_SEND)
  }

  function Take(s: seq<nat>, n: nat): (r: seq<nat>)
    ensures r <= s && |r| == Min(n, |s|)
  {
    s[..Min(n, |s|)]
  }

  // A chunk outside a transfer, with an index that is out of range or with a wrong check sum changes nothing.
  function AcceptChunk(job: Job, s: Ota, index: uint16, payload: seq<byte>, crcValid: bool): Ota {
    if !s.active || index >= MAX_CHUNKS || !crcValid then s
    else s.(received := s.received + {index},
            flash := Write(s.flash, ChunkAddress(job.address, index, job.chunkSize), payload))
  }

  function Step(job: Job, s: Ota, e: Event): Ota {
    match e
    case Chunk(index, payload, crcValid) =>
      AcceptChunk(job, s.(flight := Low16(s.flight + 1)), index, payload, crcValid)
    case UpdateDone(acknowledged) =>
      var missing := Missing(s.received, 0, job.count);
      if !acknowledged || !s.active then s
      else if missing == [] then s.(active := false, commits := s.commits + [s.flash])
      else s.(flight := 0, requests := s.requests + [Take(missing, RequestLimit(s.flight))])
  }

  // During an update a chunk with the right check sum is flagged and goes to its place, any other changes nothing.
  lemma ChunkGoesToItsPlace(job: Job, s: Ota, index: uint16, payload: seq<byte>, crcValid: bool)
    requires s.active && index < MAX_CHUNKS
    ensures var s' := Step(job, s, Chunk(index, payload, crcValid));
            && s'.active && s'.commits == s.commits && s'.requests == s.requests
            && s'.received == (if crcValid then s.received + {index} else s.received)
            && s'.flash == if crcValid then Write(s.flash, (job.address + index * job.chunkSize) % 0x1_0000_0000, payload)
                           else s.flash
  {
  }

  function Run(job: Job, s: Ota, events: seq<Event>): Ota {
    if events == [] then s
    else Step(job, Run(job, s, events[..|events| - 1]), events[|events| - 1])
  }

  lemma RunAppend(job: Job, s: Ota, events: seq<Event>, e: Event)
    ensures Run(job, s, events + [e]) == Step(job, Run(job, s, events), e)
  {
    assert (events + [e])[..|events|] == events;
  }

  // The device does not know the image, and it does not matter to what it does.
  lemma {:induction false} RunIgnoresImage(job: Job, s: Ota, events: seq<Event>)
    ensures Run(job.(image := []), s, events) == Run(job, s, events)
  {
    if events != [] {
      RunIgnoresImage(job, s, events[..|events| - 1]);
    }
  }

  // A chunk whose CRC is right carries the bytes of the image that belong to its index.
  ghost predicate Genuine(job: Job, e: Event) {
    GoodJob(job) && (e.Chunk? && e.crcValid ==> e.index < job.count && e.payload == ChunkOf(job, e.index))
  }

  // ---- Safety

  ghost predicate RightAt(job: Job, flash: Flash, offset: nat) {
    offset < |job.image| && job.address + offset in flash && flash[job.address + offset] == job.image[offset]
  }

  ghost predicate Saved(job: Job, flash: Flash, i: nat) {
    forall o: nat :: i * job.chunkSize <= o < Min((i + 1) * job.chunkSize, |job.image|) ==> RightAt(job, flash, o)
  }

  ghost predicate WholeImage(job: Job, flash: Flash) {
    forall o: nat :: o < |job.image| ==> RightAt(job, flash, o)
  }

  // During an update every flagged chunk has been saved.
  ghost predicate Safe(job: Job, s: Ota) {
    s.active ==> forall i :: i in s.received && i < job.count ==> Saved(job, s.flash, i)
  }

  // Flash held the whole image at every commit but the first n.
  ghost predicate CommitsWholeFrom(job: Job, commits: seq<Flash>, n: nat) {
    forall k :: n <= k < |commits| ==> WholeImage(job, commits[k])
  }

  lemma {:induction false} MissingIsComplement(received: set<nat>, start: nat, count: nat)
    ensures forall i :: i in Missing(received, start, count) <==> start <= i < count && i !in received
    ensures forall j, k :: 0 <= j < k < |Missing(received, start, count)| ==>
              Missing(received, start, count)[j] < Missing(received, start, count)[k]
    decreases count - start
  {
    if start < count {
      MissingIsComplement(received, start + 1, count);
      var rest := Missing(received, start + 1, count);
      assert forall k :: 0 <= k < |rest| ==> rest[k] in rest;
    }
  }

  lemma {:induction false} GenuineWrite(job: Job, flash: Flash, i: nat, o: nat)
    requires GoodJob(job) && i < job.count
    ensures RightAt(job, flash, o) ==>
              RightAt(job, Write(flash, ChunkAddress(job.address, i, job.chunkSize), ChunkOf(job, i)), o)
    ensures i * job.chunkSize <= o < Min((i + 1) * job.chunkSize, |job.image|) ==>
              RightAt(job, Write(flash, ChunkAddress(job.address, i, job.chunkSize), ChunkOf(job, i)), o)
  {
    hide Write, RightAt, ChunkOf, ChunkAddress, GoodJob;
    var first, end := ChunkEnds(job, i);
    WriteRight(job, flash, first, ChunkOf(job, i), o);
  }

  // Chunk i starts at offset i * chunkSize and ends where the next one starts, or where the image ends.
  lemma ChunkPlace(job: Job, i: nat)
    requires GoodJob(job) && i < job.count
    ensures i * job.chunkSize + |ChunkOf(job, i)| == Min((i + 1) * job.chunkSize, |job.image|)
    ensures forall k :: 0 <= k < |ChunkOf(job, i)| ==> ChunkOf(job, i)[k] == job.image[i * job.chunkSize + k]
    ensures ChunkAddress(job.address, i, job.chunkSize) == job.address + i * job.chunkSize
  {
    ChunkBounds(job, i);
  }

  lemma ChunkEnds(job: Job, j: nat) returns (first: nat, end: nat)
    requires GoodJob(job) && j < job.count
    ensures first == j * job.chunkSize && end == Min((j + 1) * job.chunkSize, |job.image|)
    ensures first + |ChunkOf(job, j)| == end
    ensures forall k :: 0 <= k < |ChunkOf(job, j)| ==> ChunkOf(job, j)[k] == job.image[first + k]
    ensures ChunkAddress(job.address, j, job.chunkSize) == job.address + first
  {
    ChunkPlace(job, j);
    first, end := j * job.chunkSize, Min((j + 1) * job.chunkSize, |job.image|);
  }

  lemma WriteRight(job: Job, flash: Flash, first: nat, chunk: seq<byte>, o: nat)
    requires first + |chunk| <= |job.image|
    requires forall k :: 0 <= k < |chunk| ==> chunk[k] == job.image[first + k]
    ensures RightAt(job, flash, o) ==> RightAt(job, Write(flash, job.address + first, chunk), o)
    ensures first <= o < first + |chunk| ==> RightAt(job, Write(flash, job.address + first, chunk), o)
  {
    if first <= o < first + |chunk| {
      assert chunk[o - first] == job.image[first + (o - first)];
    }
  }

  lemma AllChunksAreTheImage(job: Job, flash: Flash)
    requires GoodJob(job) && forall i: nat :: i < job.count ==> Saved(job, flash, i)
    ensures WholeImage(job, flash)
  {
    forall o: nat | o < |job.image|
      ensures RightAt(job, flash, o)
    {
      var i := ChunkAt(job, o);
      assert Saved(job, flash, i);
    }
  }

  lemma ChunkAt(job: Job, o: nat) returns (i: nat)
    requires GoodJob(job) && o < |job.image|
    ensures i < job.count && i * job.chunkSize <= o < (i + 1) * job.chunkSize
  {
    Multiples(job.chunkSize, job.count, o / Max(job.chunkSize, 1));
    i := o / job.chunkSize;
    assert o == i * job.chunkSize + o % job.chunkSize;
    assert (i + 1) * job.chunkSize == i * job.chunkSize + job.chunkSize;
  }

  lemma Multiples(d: nat, n: nat, i: nat)
    ensures d == 0 ==> n * d == 0
    ensures i >= n ==> i * d >= n * d
  {
    if i >= n {
      assert i * d == n * d + (i - n) * d;
    }
  }

  // The device goes by the address of the image and searches at least as many chunks as the image has.
  ghost predicate Embraces(shape: Job, job: Job) {
    shape.address == job.address && shape.chunkSize == job.chunkSize && shape.count >= job.count
  }

  // Every event keeps the flagged chunks saved, and if it commits, it commits the whole image.
  lemma StepIsSafe(job: Job, shape: Job, s: Ota, e: Event)
    requires Safe(job, s) && Genuine(job, e) && Embraces(shape, job)
    ensures Safe(job, Step(shape, s, e))
    ensures s.commits <= Step(shape, s, e).commits && CommitsWholeFrom(job, Step(shape, s, e).commits, |s.commits|)
  {
    var s' := Step(shape, s, e);
    match e
    case Chunk(index, payload, crcValid) =>
      if s'.flash != s.flash || s'.received != s.received {
        forall i | i in s'.received && i < job.count
          ensures Saved(job, s'.flash, i)
        {
          forall o: nat | i * job.chunkSize <= o < Min((i + 1) * job.chunkSize, |job.image|)
            ensures RightAt(job, s'.flash, o)
          {
            GenuineWrite(job, s.flash, index, o);
            assert i == index || Saved(job, s.flash, i);
          }
        }
      }
    case UpdateDone(_) =>
      if s'.commits != s.commits {
        MissingIsComplement(s.received, 0, shape.count);
        forall i: nat | i < job.count
          ensures Saved(job, s.flash, i)
        {
          assert i !in Missing(s.received, 0, shape.count);
        }
        AllChunksAreTheImage(job, s.flash);
      }
  }

  // For every order, loss and duplication of chunks and any number of repair rounds, and whatever was committed before:
  // whenever this update is committed, the flash region holds the image, byte for byte.
  lemma {:induction false} CommitsAreComplete(job: Job, shape: Job, s: Ota, events: seq<Event>)
    requires Safe(job, s) && Embraces(shape, job) && forall e :: e in events ==> Genuine(job, e)
    ensures Safe(job, Run(shape, s, events))
    ensures s.commits <= Run(shape, s, events).commits
    ensures CommitsWholeFrom(job, Run(shape, s, events).commits, |s.commits|)
  {
    if events != [] {
      var front, e := events[..|events| - 1], events[|events| - 1];
      assert e in events;
      CommitsAreComplete(job, shape, s, front);
      StepIsSafe(job, shape, Run(shape, s, front), e);
    }
  }

  // A fast transfer starts with no chunk flagged.
  lemma FastTransferCommitsTheImage(job: Job, s: Ota, events: seq<Event>)
    requires s.received == {} && forall e :: e in events ==> Genuine(job, e)
    ensures CommitsWholeFrom(job, Run(job, s, events).commits, |s.commits|)
  {
    CommitsAreComplete(job, job, s, events);
  }

  // ---- When the device goes on with another file

  // From every state in which the flagged chunks are saved, and whatever else arrives, only the whole image is committed.
  ghost predicate Guarantees(shape: Job, job: Job) {
    forall s: Ota, events: seq<Event> ::
      s.active && Safe(job, s) && (forall e :: e in events ==> Genuine(job, e)) ==>
        CommitsWholeFrom(job, Run(shape, s, events).commits, |s.commits|)
  }

  // An UPDATE_BEGIN that does not start a transfer replaces the file of the one in progress. The guarantee for the image
  // survives exactly when the new file has the same address and at least as many chunks.
  lemma GuaranteeSurvivesExactly(job: Job, address: uint32, count: nat)
    requires GoodJob(job) && job.count > 0
    ensures var shape := Job(address, [], job.chunkSize, count);
            Guarantees(shape, job) <==> address == job.address && count >= job.count
  {
    var shape := Job(address, [], job.chunkSize, count);
    if address == job.address && count >= job.count {
      forall s: Ota, events: seq<Event> |
        s.active && Safe(job, s) && forall e :: e in events ==> Genuine(job, e)
        ensures CommitsWholeFrom(job, Run(shape, s, events).commits, |s.commits|)
      {
        CommitsAreComplete(job, shape, s, events);
      }
    } else if count < job.count {
      FewerChunksFail(job, shape);
    } else {
      AnotherAddressFails(job, shape);
    }
  }

  function Range(lo: nat, hi: nat): (r: set<nat>)
    ensures forall i: nat :: i in r <==> lo <= i < hi
    decreases hi - lo
  {
    if lo >= hi then {} else {lo} + Range(lo + 1, hi)
  }

  // Flash with a part of the image, and nothing else.
  ghost function Part(job: Job, from: nat, to: nat): Flash
    requires from <= to <= |job.image|
  {
    Write(map[], job.address + from, job.image[from..to])
  }

  // Flash with the first n chunks of the image.
  ghost function Front(job: Job, n: nat): Flash {
    Part(job, 0, Min(n * job.chunkSize, |job.image|))
  }

  // With fewer chunks, nothing need be received of the others.
  lemma FewerChunksFail(job: Job, shape: Job)
    requires GoodJob(job) && shape.count < job.count
    ensures !Guarantees(shape, job)
  {
    var all := Range(0, shape.count);
    var s := Ota(true, all, 0, Front(job, shape.count), [], []);
    forall i: nat | i < shape.count
      ensures Saved(job, s.flash, i)
    {
      FrontSaves(job, shape.count, i);
    }
    AllReceived(all, 0, shape.count);
    var events := [UpdateDone(true)];
    assert events[..0] == [];
    assert Run(shape, s, events).commits == [s.flash];
    ChunkBounds(job, shape.count);
    PartIsRight(job, 0, Min(shape.count * job.chunkSize, |job.image|), shape.count * job.chunkSize);
    assert !RightAt(job, s.flash, shape.count * job.chunkSize);
    assert !CommitsWholeFrom(job, [s.flash], 0) by {
      assert [s.flash][0] == s.flash;
    }
    assert Safe(job, s) && forall e :: e in events ==> Genuine(job, e);
  }

  // Flash with all but the first chunk of the image.
  ghost function Back(job: Job): Flash {
    Part(job, Min(job.chunkSize, |job.image|), |job.image|)
  }

  // With another address, the first chunk to arrive afterwards goes elsewhere.
  lemma AnotherAddressFails(job: Job, shape: Job)
    requires GoodJob(job) && 0 < job.count <= shape.count && shape.chunkSize == job.chunkSize
    requires shape.address != job.address && shape.address < TICKS
    ensures !Guarantees(shape, job)
  {
    var s := Ota(true, Range(1, shape.count), 0, Back(job), [], []);
    forall i: nat | 1 <= i < job.count
      ensures Saved(job, s.flash, i)
    {
      BackSaves(job, i);
    }
    var events := [Chunk(0, ChunkOf(job, 0), true), UpdateDone(true)];
    FirstChunkCompletes(shape, s, ChunkOf(job, 0));
    FirstChunkElsewhere(job, shape.address);
    var commits := Run(shape, s, events).commits;
    assert commits == [Write(s.flash, shape.address, ChunkOf(job, 0))];
    assert !WholeImage(job, commits[0]);
    assert Safe(job, s) && forall e :: e in events ==> Genuine(job, e);
  }

  // The first chunk arrives after all the others.
  lemma FirstChunkCompletes(shape: Job, s: Ota, payload: seq<byte>)
    requires s.active && s.received == Range(1, shape.count) && shape.address < TICKS
    ensures Run(shape, s, [Chunk(0, payload, true), UpdateDone(true)]).commits
         == s.commits + [Write(s.flash, shape.address, payload)]
  {
    var first := Chunk(0, payload, true);
    RunAppend(shape, s, [], first);
    RunAppend(shape, s, [first], UpdateDone(true));
    assert [] + [first] == [first] && [first] + [UpdateDone(true)] == [first, UpdateDone(true)];
    AllReceived(s.received + {0}, 0, shape.count);
  }

  lemma FirstChunkElsewhere(job: Job, address: nat)
    requires GoodJob(job) && job.count > 0 && address != job.address
    ensures !WholeImage(job, Write(Back(job), address, ChunkOf(job, 0)))
  {
    ChunkPlace(job, 0);
    ChunkBounds(job, 0);
    ChunkIsNotEmpty(job);
    var o := if address > job.address then 0 else |ChunkOf(job, 0)| - 1;
    PartIsRight(job, Min(job.chunkSize, |job.image|), |job.image|, o);
    assert !RightAt(job, Write(Back(job), address, ChunkOf(job, 0)), o);
  }

  lemma PartIsRight(job: Job, from: nat, to: nat, o: nat)
    requires from <= to <= |job.image|
    ensures RightAt(job, Part(job, from, to), o) <==> from <= o < to
  {
    if from <= o < to {
      assert job.image[from..to][o - from] == job.image[o];
    }
  }

  lemma BackSaves(job: Job, i: nat)
    requires 1 <= i
    ensures Saved(job, Back(job), i)
  {
    MultipleGrows(1, i, job.chunkSize);
    forall o: nat | i * job.chunkSize <= o < Min((i + 1) * job.chunkSize, |job.image|)
      ensures RightAt(job, Back(job), o)
    {
      PartIsRight(job, Min(job.chunkSize, |job.image|), |job.image|, o);
    }
  }

  lemma FrontSaves(job: Job, n: nat, i: nat)
    requires i < n
    ensures Saved(job, Front(job, n), i)
  {
    MultipleGrows(i + 1, n, job.chunkSize);
    forall o: nat | i * job.chunkSize <= o < Min((i + 1) * job.chunkSize, |job.image|)
      ensures RightAt(job, Front(job, n), o)
    {
      PartIsRight(job, 0, Min(n * job.chunkSize, |job.image|), o);
    }
  }

  // ---- Progress of the repair rounds

  ghost function MissingSet(job: Job, s: Ota): set<nat> {
    set i: nat | i < job.count && i !in s.received
  }

  // In every round at least 2 and at most 40 chunks are asked for, however many arrived before.
  lemma RequestLimitBounds(n: uint16)
    ensures MINIMUM_CHUNK_INCREASE <= RequestLimit(n) <= MISSED_CHUNKS_TO_SEND
  {
  }

  // From one round to the next the number of chunks asked for grows by a fifth, rounded down, and by two at least.
  lemma RequestLimitGrows(n: uint16)
    ensures RequestLimit(n) < 40 ==>
              RequestLimit(n) - n >= 2 && 5 * (RequestLimit(n) - n + 1) > n
              && (RequestLimit(n) - n > 2 ==> 5 * (RequestLimit(n) - n) <= n)
    ensures RequestLimit(n) == 40 <==> n >= 34
  {
  }

  lemma {:induction false} MissingCount(job: Job, s: Ota, start: nat)
    requires start <= job.count
    ensures |Missing(s.received, start, job.count)| == |set i: nat | start <= i < job.count && i !in s.received|
    decreases job.count - start
  {
    var all := set i: nat | start <= i < job.count && i !in s.received;
    if start < job.count {
      MissingCount(job, s, start + 1);
      var rest := set i: nat | start + 1 <= i < job.count && i !in s.received;
      assert all == rest + if start in s.received then {} else {start};
    } else {
      assert all == {};
    }
  }

  lemma MissingSize(job: Job, s: Ota)
    ensures |Missing(s.received, 0, job.count)| == |MissingSet(job, s)|
    ensures Missing(s.received, 0, job.count) == [] <==> MissingSet(job, s) == {}
  {
    MissingCount(job, s, 0);
    assert MissingSet(job, s) == set i: nat | 0 <= i < job.count && i !in s.received;
  }

  // A repair round: UPDATE_DONE is acknowledged, and every chunk that was then asked for arrives intact.
  ghost predicate RepairRound(job: Job, s: Ota, events: seq<Event>) {
    && events != [] && events[0] == UpdateDone(true)
    && (forall e :: e in events[1..] ==> e.Chunk? && Genuine(job, e))
    && var asked := Take(Missing(s.received, 0, job.count), RequestLimit(s.flight));
       forall i :: i in asked ==> exists e :: e in events[1..] && e.crcValid && e.index == i
  }

  lemma {:induction false} ChunksArrive(job: Job, s: Ota, events: seq<Event>)
    requires s.active && GoodJob(job) && forall e :: e in events ==> e.Chunk? && Genuine(job, e)
    ensures var s' := Run(job, s, events);
            && s'.active && s'.commits == s.commits && s.received <= s'.received
            && forall e :: e in events && e.crcValid ==> e.index in s'.received
  {
    if events != [] {
      var front, e := events[..|events| - 1], events[|events| - 1];
      assert events == front + [e] && e in events;
      ChunksArrive(job, s, front);
    }
  }

  lemma {:induction false} RunConcat(job: Job, s: Ota, a: seq<Event>, b: seq<Event>)
    ensures Run(job, s, a + b) == Run(job, Run(job, s, a), b)
  {
    if b == [] {
      assert a + b == a;
    } else {
      assert (a + b)[..|a + b| - 1] == a + b[..|b| - 1];
      RunConcat(job, s, a, b[..|b| - 1]);
    }
  }

  // A round leaves at least two chunks fewer to ask for, until none is left.
  lemma {:induction false} RoundShrinksMissing(job: Job, s: Ota, events: seq<Event>)
    requires s.active && GoodJob(job) && MissingSet(job, s) != {} && RepairRound(job, s, events)
    ensures var s' := Run(job, s, events);
            s'.active && s'.commits == s.commits
            && MissingSet(job, s') < MissingSet(job, s)
            && |MissingSet(job, s')| <= Max(0, |MissingSet(job, s)| - 2)
  {
    hide Missing, RequestLimit, Step;
    var asked := Take(Missing(s.received, 0, job.count), RequestLimit(s.flight));
    RequestedChunks(job, s);
    RoundReceives(job, s, events);
    var s' := Run(job, s, events);
    assert forall i :: i in asked ==> i in s'.received;
    AskedAndGone(asked, MissingSet(job, s), MissingSet(job, s'));
  }

  // What is asked for in a round: missing chunks, in order, at least two of them unless fewer are missing.
  lemma RequestedChunks(job: Job, s: Ota)
    ensures var asked := Take(Missing(s.received, 0, job.count), RequestLimit(s.flight));
            && (forall j, k :: 0 <= j < k < |asked| ==> asked[j] < asked[k])
            && (forall i :: i in asked ==> i in MissingSet(job, s))
            && |asked| >= Min(2, |MissingSet(job, s)|)
            && (Missing(s.received, 0, job.count) == [] <==> MissingSet(job, s) == {})
  {
    var missing := Missing(s.received, 0, job.count);
    MissingIsComplement(s.received, 0, job.count);
    MissingCount(job, s, 0);
    assert MissingSet(job, s) == set i: nat | 0 <= i < job.count && i !in s.received;
    var asked := Take(missing, RequestLimit(s.flight));
    assert forall i :: i in asked ==> i in missing;
  }

  // A round receives everything that was asked for and commits nothing.
  lemma RoundReceives(job: Job, s: Ota, events: seq<Event>)
    requires s.active && GoodJob(job) && MissingSet(job, s) != {} && RepairRound(job, s, events)
    ensures var s' := Run(job, s, events);
            && s'.active && s'.commits == s.commits && s.received <= s'.received
            && forall i :: i in Take(Missing(s.received, 0, job.count), RequestLimit(s.flight)) ==> i in s'.received
  {
    hide Missing, RequestLimit;
    RequestedChunks(job, s);
    var s1 := Step(job, s, events[0]);
    RunConcat(job, s, [events[0]], events[1..]);
    assert events == [events[0]] + events[1..] && [events[0]][..0] == [];
    ChunksArrive(job, s1, events[1..]);
  }

  function Elements(s: seq<nat>): (r: set<nat>)
    ensures forall i :: i in r <==> i in s
  {
    if s == [] then {} else {s[0]} + Elements(s[1..])
  }

  // If an increasing list of missing chunks is asked for and arrives, that many fewer are missing.
  lemma AskedAndGone(asked: seq<nat>, before: set<nat>, after: set<nat>)
    requires forall j, k :: 0 <= j < k < |asked| ==> asked[j] < asked[k]
    requires after <= before && forall i :: i in asked ==> i in before && i !in after
    ensures |after| <= |before| - |asked|
    ensures asked != [] ==> after < before
  {
    DistinctSize(asked);
    var gone := Elements(asked);
    assert gone * after == {};
    assert |gone + after| == |gone| + |after|;
    SubsetSize(gone + after, before);
    if asked != [] {
      assert asked[0] in before && asked[0] !in after;
    }
  }

  lemma SubsetSize(a: set<nat>, b: set<nat>)
    requires a <= b
    ensures |a| <= |b|
  {
    assert b == a + (b - a);
  }

  lemma {:induction false} DistinctSize(s: seq<nat>)
    requires forall j, k :: 0 <= j < k < |s| ==> s[j] < s[k]
    ensures |Elements(s)| == |s|
  {
    if s != [] {
      DistinctSize(s[1..]);
      assert s[0] !in s[1..];
    }
  }

  // A sequence of repair rounds, each served after the one before.
  ghost predicate RepairRounds(job: Job, s: Ota, rounds: seq<seq<Event>>)
    decreases |rounds|
  {
    rounds != [] ==>
      && (MissingSet(job, s) != {} ==> RepairRound(job, s, rounds[0]))
      && RepairRounds(job, Run(job, s, rounds[0]), rounds[1..])
  }

  ghost function RunRounds(job: Job, s: Ota, rounds: seq<seq<Event>>): Ota
    decreases |rounds|
  {
    if rounds == [] || MissingSet(job, s) == {} then s else RunRounds(job, Run(job, s, rounds[0]), rounds[1..])
  }

  // After at most half as many served rounds as chunks are missing (rounded up) nothing is missing, and the next
  // acknowledged UPDATE_DONE commits the update.
  lemma {:induction false} RoundsComplete(job: Job, s: Ota, rounds: seq<seq<Event>>)
    requires s.active && GoodJob(job) && RepairRounds(job, s, rounds)
    requires 2 * |rounds| >= |MissingSet(job, s)|
    ensures var s' := RunRounds(job, s, rounds);
            && s'.active && MissingSet(job, s') == {}
            && Step(job, s', UpdateDone(true)).commits == s'.commits + [s'.flash]
    decreases |rounds|
  {
    if MissingSet(job, s) == {} || rounds == [] {
      MissingCount(job, s, 0);
      assert MissingSet(job, s) == set i: nat | 0 <= i < job.count && i !in s.received;
    } else {
      RoundShrinksMissing(job, s, rounds[0]);
      RoundsComplete(job, Run(job, s, rounds[0]), rounds[1..]);
    }
  }

  // ---- Where the promise ends

  // A chunk of the index with the right check sum is among the events.
  ghost predicate Arrived(events: seq<Event>, i: nat) {
    exists k :: 0 <= k < |events| && events[k].Chunk? && events[k].crcValid && events[k].index == i
  }

  lemma ArrivedAppend(events: seq<Event>, e: Event, i: nat)
    ensures Arrived(events + [e], i) <==> Arrived(events, i) || (e.Chunk? && e.crcValid && e.index == i)
  {
    var longer := events + [e];
    assert longer[|events|] == e && forall k :: 0 <= k < |events| ==> longer[k] == events[k];
    if Arrived(longer, i) {
      var k :| 0 <= k < |longer| && longer[k].Chunk? && longer[k].crcValid && longer[k].index == i;
      assert k < |events| ==> events[k] == longer[k];
    }
  }

  ghost predicate RightBetween(job: Job, flash: Flash, lo: nat, hi: int) {
    forall o: nat :: lo <= o < hi ==> RightAt(job, flash, o)
  }

  // A write somewhere else leaves alone what is between two places.
  lemma WriteElsewhere(job: Job, flash: Flash, first: nat, chunk: seq<byte>, lo: nat, hi: int)
    requires hi <= first || first + |chunk| <= lo
    ensures RightBetween(job, Write(flash, job.address + first, chunk), lo, hi) <==> RightBetween(job, flash, lo, hi)
  {
    var written := Write(flash, job.address + first, chunk);
    forall o: nat | lo <= o < hi
      ensures RightAt(job, written, o) <==> RightAt(job, flash, o)
    {
    }
  }

  lemma WriteElsewhereKeeps(job: Job, flash: Flash, first: nat, chunk: seq<byte>, i: nat, lo: nat, hi: int)
    requires lo == i * job.chunkSize && hi == Min((i + 1) * job.chunkSize, |job.image|)
    requires hi <= first || first + |chunk| <= lo
    ensures Saved(job, Write(flash, job.address + first, chunk), i) <==> Saved(job, flash, i)
  {
    WriteElsewhere(job, flash, first, chunk, lo, hi);
    assert Saved(job, flash, i) <==> RightBetween(job, flash, lo, hi);
    assert Saved(job, Write(flash, job.address + first, chunk), i)
      <==> RightBetween(job, Write(flash, job.address + first, chunk), lo, hi);
  }

  lemma ChunksAreApart(i: nat, j: nat, d: nat, n: nat)
    requires i != j
    ensures Min((i + 1) * d, n) <= j * d || Min((j + 1) * d, n) <= i * d
  {
    if i < j {
      MultipleGrows(i + 1, j, d);
    } else {
      MultipleGrows(j + 1, i, d);
    }
  }

  // The write of another chunk leaves a chunk as it was.
  lemma {:induction false} OtherWrite(job: Job, flash: Flash, i: nat, j: nat)
    requires GoodJob(job) && i < job.count && j < job.count && i != j
    ensures Saved(job, Write(flash, ChunkAddress(job.address, j, job.chunkSize), ChunkOf(job, j)), i)
       <==> Saved(job, flash, i)
  {
    hide Write, Saved, ChunkOf, ChunkAddress, GoodJob;
    ChunksAreApart(i, j, job.chunkSize, |job.image|);
    var lo, hi := ChunkEnds(job, i);
    var first, end := ChunkEnds(job, j);
    WriteElsewhereKeeps(job, flash, first, ChunkOf(job, j), i, lo, hi);
  }

  lemma OwnWrite(job: Job, flash: Flash, i: nat)
    requires GoodJob(job) && i < job.count
    ensures Saved(job, Write(flash, ChunkAddress(job.address, i, job.chunkSize), ChunkOf(job, i)), i)
  {
    forall o: nat | i * job.chunkSize <= o < Min((i + 1) * job.chunkSize, |job.image|)
      ensures RightAt(job, Write(flash, ChunkAddress(job.address, i, job.chunkSize), ChunkOf(job, i)), o)
    {
      GenuineWrite(job, flash, i, o);
    }
  }

  // Until the update is committed, a chunk is in flash exactly when it was there before or has arrived.
  lemma {:induction false} SavedExactly(job: Job, s: Ota, events: seq<Event>, i: nat)
    requires s.active && GoodJob(job) && i < job.count
    requires forall k :: 0 <= k < |events| ==> Genuine(job, events[k]) && events[k] != UpdateDone(true)
    ensures var s' := Run(job, s, events);
            && s'.active && s'.commits == s.commits && s.received <= s'.received
            && (Saved(job, s'.flash, i) <==> Saved(job, s.flash, i) || Arrived(events, i))
  {
    if events != [] {
      var front, e := events[..|events| - 1], events[|events| - 1];
      assert Genuine(job, e) && e != UpdateDone(true);
      SavedExactly(job, s, front, i);
      assert events == front + [e];
      ArrivedAppend(front, e, i);
      if e.Chunk? && e.crcValid {
        if e.index == i {
          OwnWrite(job, Run(job, s, front).flash, i);
        } else {
          OtherWrite(job, Run(job, s, front).flash, i, e.index);
        }
      }
    }
  }

  // Every chunk was in flash before, or has arrived.
  ghost predicate AllBroughtIn(job: Job, flash: Flash, events: seq<Event>) {
    forall i: nat :: i < job.count ==> Saved(job, flash, i) || Arrived(events, i)
  }

  lemma {:induction false} SlowStaysComplete(job: Job, s: Ota, events: seq<Event>)
    requires s.active
    requires forall k :: 0 <= k < |events| ==> events[k] != UpdateDone(true)
    ensures var s' := Run(job, s, events); s'.active && s'.commits == s.commits && s.received <= s'.received
  {
    if events != [] {
      assert events[|events| - 1] != UpdateDone(true);
      SlowStaysComplete(job, s, events[..|events| - 1]);
    }
  }

  lemma NothingSaved(job: Job, i: nat)
    requires GoodJob(job) && i < job.count
    ensures !Saved(job, map[], i)
  {
    ChunkBounds(job, i);
    ChunkIsNotEmpty(job);
    assert (i + 1) * job.chunkSize == i * job.chunkSize + job.chunkSize;
    assert !RightAt(job, map[], i * job.chunkSize);
  }

  lemma ChunkIsNotEmpty(job: Job)
    requires GoodJob(job) && job.count > 0
    ensures job.chunkSize > 0 && job.image != []
  {
    Multiples(job.chunkSize, job.count, 0);
    Multiples(job.chunkSize, job.count - 1, 0);
  }

  // In transfers that are not fast every bit of the bitmap is set from the start, so nothing is ever missing, and the
  // first acknowledged UPDATE_DONE commits the update, whatever arrived before. The commit is of the whole image exactly
  // when every chunk has arrived with the right check sum or was in flash before: the sender must see to it.
  lemma {:induction false} SlowTransferCommits(job: Job, s: Ota, events: seq<Event>)
    requires s.active && GoodJob(job) && forall i: nat :: i < job.count ==> i in s.received
    requires forall k :: 0 <= k < |events| ==> Genuine(job, events[k]) && events[k] != UpdateDone(true)
    ensures var flash := Run(job, s, events).flash;
            && Run(job, s, events + [UpdateDone(true)]).commits == s.commits + [flash]
            && (WholeImage(job, flash) <==> AllBroughtIn(job, s.flash, events))
  {
    hide Saved, Arrived, Genuine, GoodJob;
    var s' := Run(job, s, events);
    RunAppend(job, s, events, UpdateDone(true));
    SlowStaysComplete(job, s, events);
    AllReceived(s'.received, 0, job.count);
    forall i: nat | i < job.count
      ensures Saved(job, s'.flash, i) <==> Saved(job, s.flash, i) || Arrived(events, i)
    {
      SavedExactly(job, s, events, i);
    }
    WholeIsAllChunks(job, s'.flash);
  }

  lemma WholeIsAllChunks(job: Job, flash: Flash)
    requires GoodJob(job)
    ensures WholeImage(job, flash) <==> forall i: nat :: i < job.count ==> Saved(job, flash, i)
  {
    if forall i: nat :: i < job.count ==> Saved(job, flash, i) {
      AllChunksAreTheImage(job, flash);
    }
  }

  // From an empty flash, every chunk must arrive.
  lemma NothingWasThere(job: Job, events: seq<Event>)
    requires GoodJob(job)
    ensures AllBroughtIn(job, map[], events) <==> forall i: nat :: i < job.count ==> Arrived(events, i)
  {
    forall i: nat | i < job.count
      ensures !Saved(job, map[], i)
    {
      NothingSaved(job, i);
    }
  }

  lemma {:induction false} AllReceived(received: set<nat>, start: nat, count: nat)
    requires forall i :: start <= i < count ==> i in received
    ensures Missing(received, start, count) == []
    decreases count - start
  {
    if start < count {
      AllReceived(received, start + 1, count);
    }
  }

  // When the chunks do not cover the file there are none, so a transfer commits without receiving anything: the commit
  // is of the whole image exactly when flash already held it.
  lemma UncoveredFileIsCommittedAtOnce(job: Job, s: Ota, fileLength: uint32, chunkSize: uint16)
    requires |job.image| == fileLength && job.chunkSize == chunkSize && job.count == ChunkCount(fileLength, chunkSize)
    requires !Covers(job.count, fileLength, chunkSize) && s.active
    ensures job.count == 0 && job.image != []
    ensures Run(job, s, [UpdateDone(true)]).commits == s.commits + [s.flash]
    ensures s.flash == map[] ==> !WholeImage(job, Run(job, s, [UpdateDone(true)]).commits[|s.commits|])
  {
    ChunkCountCovers(fileLength, chunkSize);
    if chunkSize > 0 {
      DivSmall(Low32(fileLength as int + chunkSize - 1), chunkSize);
    }
    assert [UpdateDone(true)][..0] == [];
    if s.flash == map[] {
      assert !RightAt(job, s.flash, 0);
    }
  }

  // Two such descriptors: a file of 2^32 - 1 bytes in chunks of 512, and one of a single byte in chunks of none.
  lemma UncoveredFilesExist()
    ensures ChunkCount(0xFFFF_FFFF, 512) == 0 && !Covers(0, 0xFFFF_FFFF, 512)
    ensures ChunkCount(1, 0) == 0 && !Covers(0, 1, 0)
  {
    ChunkCountCovers(0xFFFF_FFFF, 512);
    ChunkCountCovers(1, 0);
  }

  // ---- The request for missing chunks on the wire

  const REQUEST_HEADER: seq<byte> := [0x40, 0x01, 0, 0, 0xb1, 'c' as int, 0xff]

  // A confirmable GET request (code 0.01 of RFC 7252) without a token and with the ID zero, for the path c.
  lemma RequestHeaderIsGet()
    ensures REQUEST_HEADER[0] / 64 == 1 && REQUEST_HEADER[0] / 16 % 4 == 0 && REQUEST_HEADER[0] % 16 == 0
    ensures REQUEST_HEADER[1] == 1 && REQUEST_HEADER[2] == 0 && REQUEST_HEADER[3] == 0
    ensures REQUEST_HEADER[4] / 16 == 11 && REQUEST_HEADER[4] % 16 == 1 && REQUEST_HEADER[5] as char == 'c'
    ensures |REQUEST_HEADER| == 7 && REQUEST_HEADER[6] == 0xFF
  {
  }

  function TwoBytes(n: nat): seq<byte>
    requires n < 0x1_0000
  {
    [n / 256, n % 256]
  }

  predicate Words16(indices: seq<nat>) {
    forall k :: 0 <= k < |indices| ==> indices[k] < 0x1_0000
  }

  function BigEndian(indices: seq<nat>): (r: seq<byte>)
    requires Words16(indices)
    ensures |r| == 2 * |indices|
  {
    if indices == [] then []
    else
      var last := indices[|indices| - 1];
      BigEndian(indices[..|indices| - 1]) + TwoBytes(last)
  }

  // Reading the payload two bytes at a time gives the indices back, in order.
  lemma {:induction false} BigEndianDecodes(indices: seq<nat>, k: nat)
    requires Words16(indices) && k < |indices|
    ensures BigEndian(indices)[2 * k] as int * 256 + BigEndian(indices)[2 * k + 1] == indices[k]
  {
    var front, last := indices[..|indices| - 1], indices[|indices| - 1];
    if k < |front| {
      BigEndianDecodes(front, k);
    }
  }
}
