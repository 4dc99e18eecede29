/**
  The full snapshot packet: one block per component type, written by parallel jobs and joined in
  type order, then the input records of all players.
 */
module RegistryPacket {
  import opened Bytes
  import opened Wrappers

  function Flatten(pieces: seq<seq<Byte>>): (s: seq<Byte>) {
    if pieces == [] then [] else pieces[0] + Flatten(pieces[1..])
  }

  lemma {:induction false} FlattenAppend(a: seq<seq<Byte>>, b: seq<seq<Byte>>)
    ensures Flatten(a + b) == Flatten(a) + Flatten(b)
  {
    if a == [] {
      assert a + b == b;
    } else {
      FlattenAppend(a[1..], b);
      assert (a + b)[1..] == a[1..] + b;
      Associative(a[0], Flatten(a[1..]), Flatten(b));
    }
  }

  lemma FlattenEnd(a: seq<seq<Byte>>, piece: seq<Byte>)
    ensures Flatten(a + [piece]) == Flatten(a) + piece
  {
    FlattenAppend(a, [piece]);
    assert Flatten([piece]) == piece + [];
  }

  class OutputArchive {
    var buffer: seq<Byte>

    constructor ()
      ensures buffer == []
    {
      buffer := [];
    }

    method AppendRaw(data: seq<Byte>)
      modifies this
      ensures buffer == old(buffer) + data
    {
      if |data| == 0 {
        return;
      }
      buffer := buffer + data;
    }
  }

  // ---------------------------------------------------------------- parallel serialisation

  /** The archive calls of one type's job, in order; each job writes only to its own archive. */
  type Job = seq<seq<Byte>>

  datatype Jobs = Jobs(archives: seq<seq<Byte>>, progress: seq<nat>)

  function NoneStarted(jobs: seq<Job>): (s: Jobs)
    ensures |s.archives| == |s.progress| == |jobs|
  {
    Jobs(seq(|jobs|, _ => []), seq(|jobs|, _ => 0))
  }

  /** Job `i` makes its next archive call, if it has one left. */
  function Work(jobs: seq<Job>, s: Jobs, i: nat): (r: Jobs)
    requires |s.archives| == |s.progress| == |jobs|
    ensures |r.archives| == |r.progress| == |jobs|
  {
    if i < |jobs| && s.progress[i] < |jobs[i]| then
      Jobs(s.archives[i := s.archives[i] + jobs[i][s.progress[i]]], s.progress[i := s.progress[i] + 1])
    else s
  }

  /** A schedule says which job is next at every moment. */
  function Scheduled(jobs: seq<Job>, schedule: seq<nat>): (s: Jobs)
    ensures |s.archives| == |s.progress| == |jobs|
  {
    if schedule == [] then NoneStarted(jobs)
    else Work(jobs, Scheduled(jobs, schedule[..|schedule| - 1]), schedule[|schedule| - 1])
  }

  ghost predicate Finished(jobs: seq<Job>, s: Jobs)
    requires |s.archives| == |s.progress| == |jobs|
  {
    forall i :: 0 <= i < |jobs| ==> s.progress[i] >= |jobs[i]|
  }

  lemma {:induction false} ArchivesHoldProgress(jobs: seq<Job>, schedule: seq<nat>, i: nat)
    requires i < |jobs|
    ensures var s := Scheduled(jobs, schedule);
            s.progress[i] <= |jobs[i]| && s.archives[i] == Flatten(jobs[i][..s.progress[i]])
  {
    if schedule != [] {
      var before := Scheduled(jobs, schedule[..|schedule| - 1]);
      var next := schedule[|schedule| - 1];
      ArchivesHoldProgress(jobs, schedule[..|schedule| - 1], i);
      if next == i && before.progress[i] < |jobs[i]| {
        FlattenEnd(jobs[i][..before.progress[i]], jobs[i][before.progress[i]]);
        assert jobs[i][..before.progress[i] + 1] == jobs[i][..before.progress[i]] + [jobs[i][before.progress[i]]];
      }
    }
  }

  /** How often a schedule gives a job its turn. */
  function Turns(schedule: seq<nat>, i: nat): (n: nat) {
    if schedule == [] then 0
    else Turns(schedule[..|schedule| - 1], i) + (if schedule[|schedule| - 1] == i then 1 else 0)
  }

  /** A job has made as many calls as it has had turns, up to all it has; so every schedule that gives each job a turn
      for each of its calls finishes. */
  lemma {:induction false} TurnsAreProgress(jobs: seq<Job>, schedule: seq<nat>, i: nat)
    requires i < |jobs|
    ensures var turns := Turns(schedule, i);
            Scheduled(jobs, schedule).progress[i] == if turns < |jobs[i]| then turns else |jobs[i]|
  {
    if schedule != [] {
      TurnsAreProgress(jobs, schedule[..|schedule| - 1], i);
    }
  }

  lemma FairSchedulesFinish(jobs: seq<Job>, schedule: seq<nat>)
    ensures Finished(jobs, Scheduled(jobs, schedule)) <==>
              forall i :: 0 <= i < |jobs| ==> Turns(schedule, i) >= |jobs[i]|
  {
    forall i | 0 <= i < |jobs|
      ensures Scheduled(jobs, schedule).progress[i] >= |jobs[i]| <==> Turns(schedule, i) >= |jobs[i]|
    {
      TurnsAreProgress(jobs, schedule, i);
    }
  }

  /** Every type's bytes in type order: what running the jobs one after another into one archive gives. */
  function Sequential(jobs: seq<Job>): (s: seq<Byte>) {
    if jobs == [] then [] else Flatten(jobs[0]) + Sequential(jobs[1..])
  }

  lemma {:induction false} FlattenOfJobs(jobs: seq<Job>, archives: seq<seq<Byte>>)
    requires |archives| == |jobs| && forall i :: 0 <= i < |jobs| ==> archives[i] == Flatten(jobs[i])
    ensures Flatten(archives) == Sequential(jobs)
  {
    if jobs != [] {
      FlattenOfJobs(jobs[1..], archives[1..]);
    }
  }

  /** However the jobs are interleaved, once all have finished the joined archives are the sequential bytes. */
  lemma ParallelEqualsSequential(jobs: seq<Job>, schedule: seq<nat>)
    requires Finished(jobs, Scheduled(jobs, schedule))
    ensures Flatten(Scheduled(jobs, schedule).archives) == Sequential(jobs)
  {
    var s := Scheduled(jobs, schedule);
    forall i | 0 <= i < |jobs| ensures s.archives[i] == Flatten(jobs[i]) {
      ArchivesHoldProgress(jobs, schedule, i);
      assert jobs[i][..|jobs[i]|] == jobs[i];
    }
    FlattenOfJobs(jobs, s.archives);
  }

  /** The join at the end of the parallel form. */
  method JoinArchives(archives: seq<seq<Byte>>, output: OutputArchive)
    modifies output
    ensures output.buffer == old(output.buffer) + Flatten(archives)
  {
    assert archives[..0] == [] && archives[..|archives|] == archives;
    for i := 0 to |archives|
      invariant output.buffer == old(output.buffer) + Flatten(archives[..i])
    {
      FlattenEnd(archives[..i], archives[i]);
      assert archives[..i + 1] == archives[..i] + [archives[i]];
      Associative(old(output.buffer), Flatten(archives[..i]), archives[i]);
      output.AppendRaw(archives[i]);
    }
  }

  // ---------------------------------------------------------------- the packet

  const RECORD_BYTES := 60
  const INPUT_REST_BYTES := 52

  /** One component of one entity. */
  datatype Component = Component(entity: nat, bytes: seq<Byte>)

  /** A player's input: its tick and the bytes of its other fields. */
  datatype Input = Input(tick: nat, rest: seq<Byte>)

  datatype Record = Record(entity: nat, input: Input)

  function ComponentBytes(components: seq<Component>): (s: seq<Byte>) {
    if components == [] then [] else U32(components[0].entity) + components[0].bytes + ComponentBytes(components[1..])
  }

  function BlockBytes(components: seq<Component>): (s: seq<Byte>) {
    U32(|components|) + ComponentBytes(components)
  }

  function SnapshotBytes(blocks: seq<seq<Component>>): (s: seq<Byte>) {
    if blocks == [] then [] else BlockBytes(blocks[0]) + SnapshotBytes(blocks[1..])
  }

  function RecordBytes(r: Record): (s: seq<Byte>) {
    U32(r.entity) + U32(r.input.tick) + r.input.rest
  }

  function RecordsBytes(records: seq<Record>): (s: seq<Byte>) {
    if records == [] then [] else RecordBytes(records[0]) + RecordsBytes(records[1..])
  }

  function Packet(snapshot: seq<Byte>, records: seq<Record>): (s: seq<Byte>) {
    U32(|snapshot|) + snapshot + U32(|records|) + RecordsBytes(records)
  }

  method Serialize(archives: seq<seq<Byte>>, records: seq<Record>) returns (packet: seq<Byte>)
    ensures packet == Packet(Flatten(archives), records)
  {
    var snapshotArchive := new OutputArchive();
    JoinArchives(archives, snapshotArchive);
    assert snapshotArchive.buffer == Flatten(archives);
    var packetArchive := new OutputArchive();
    packetArchive.AppendRaw(U32(|snapshotArchive.buffer|));
    packetArchive.AppendRaw(snapshotArchive.buffer);
    packetArchive.AppendRaw(U32(|records|));
    ghost var head := packetArchive.buffer;
    assert head == U32(|Flatten(archives)|) + Flatten(archives) + U32(|records|);
    var i := 0;
    while i < |records|
      invariant i <= |records|
      invariant packetArchive.buffer + RecordsBytes(records[i..]) == head + RecordsBytes(records)
    {
      Associative(packetArchive.buffer, RecordBytes(records[i]), RecordsBytes(records[i..][1..]));
      assert records[i..][1..] == records[i + 1..];
      packetArchive.AppendRaw(RecordBytes(records[i]));
      i := i + 1;
    }
    assert packetArchive.buffer + [] == packetArchive.buffer;
    return packetArchive.buffer;
  }

  // ---------------------------------------------------------------- loading

  /** A bounds-checked reader; None stands for the exception it throws at the end of its data. */
  class InputArchive {
    const data: seq<Byte>
    var offset: nat

    constructor (data: seq<Byte>)
      ensures this.data == data && offset == 0
    {
      this.data := data;
      offset := 0;
    }

    method Read(size: nat) returns (value: Option<seq<Byte>>)
      modifies this`offset
      ensures if old(offset) + size > |data| then value == None && offset == old(offset)
              else value == Some(data[old(offset)..old(offset) + size]) && offset == old(offset) + size
    {
      if offset + size > |data| {
        return None;
      }
      value := Some(data[offset..offset + size]);
      offset := offset + size;
    }
  }

  function ReadComponents(data: seq<Byte>, at: nat, count: nat, size: nat): (r: Option<(seq<Component>, nat)>)
    decreases count
  {
    if count == 0 then Some(([], at))
    else if at + 4 + size > |data| then None
    else
      match ReadComponents(data, at + 4 + size, count - 1, size)
      case None => None
      case Some((rest, end)) => Some(([Component(ReadU32(data, at), data[at + 4..at + 4 + size])] + rest, end))
  }

  function ReadBlock(data: seq<Byte>, at: nat, size: nat): (r: Option<(seq<Component>, nat)>) {
    if at + 4 > |data| then None else ReadComponents(data, at + 4, ReadU32(data, at), size)
  }

  /** The blocks of a snapshot, for the component sizes of the types in order. */
  function ReadBlocks(data: seq<Byte>, at: nat, sizes: seq<nat>): (r: Option<(seq<seq<Component>>, nat)>)
    decreases |sizes|
  {
    if sizes == [] then Some(([], at))
    else
      match ReadBlock(data, at, sizes[0])
      case None => None
      case Some((block, next)) =>
        match ReadBlocks(data, next, sizes[1..])
        case None => None
        case Some((blocks, end)) => Some(([block] + blocks, end))
  }

  ghost predicate FitsBlock(components: seq<Component>, size: nat) {
    && |components| < U32_LIMIT
    && forall c :: c in components ==> c.entity < U32_LIMIT && |c.bytes| == size
  }

  ghost predicate FitsBlocks(blocks: seq<seq<Component>>, sizes: seq<nat>) {
    |blocks| == |sizes| && forall i :: 0 <= i < |blocks| ==> FitsBlock(blocks[i], sizes[i])
  }

  /** Reading one component in front of others. */
  lemma ReadComponent(c: Component, before: seq<Byte>, after: seq<Byte>)
    requires c.entity < U32_LIMIT
    ensures var data, at, size := before + U32(c.entity) + c.bytes + after, |before|, |c.bytes|;
            |data| >= at + 4 + size && ReadU32(data, at) == c.entity && data[at + 4..at + 4 + size] == c.bytes
  {
    hide U32, ReadU32;
    var head := before + U32(c.entity);
    Associative(head, c.bytes, after);
    ReadU32In(c.entity, before, c.bytes + after);
    Middle(head, c.bytes, after);
  }

  lemma NoComponents(data: seq<Byte>, at: nat, size: nat)
    ensures ReadComponents(data, at, 0, size) == Some(([], at))
  {
  }

  lemma FitsFirstAndRest(components: seq<Component>, size: nat)
    requires FitsBlock(components, size) && components != []
    ensures components[0].entity < U32_LIMIT && |components[0].bytes| == size && FitsBlock(components[1..], size)
  {
    assert components[0] in components;
  }

  lemma ReadComponentsStep(data: seq<Byte>, at: nat, count: nat, size: nat)
    requires count > 0 && at + 4 + size <= |data|
    ensures var later := ReadComponents(data, at + 4 + size, count - 1, size);
            ReadComponents(data, at, count, size) ==
            if later.None? then None
            else Some(([Component(ReadU32(data, at), data[at + 4..at + 4 + size])] + later.value.0, later.value.1))
  {
    hide ReadU32;
  }

  lemma {:induction false} ComponentsRoundTrip(components: seq<Component>, size: nat,
                                               before: seq<Byte>, after: seq<Byte>)
    requires FitsBlock(components, size)
    ensures ReadComponents(before + ComponentBytes(components) + after, |before|, |components|, size)
         == Some((components, |before| + |ComponentBytes(components)|))
  {
    hide U32, ReadU32, FitsBlock, ReadComponents;
    if components == [] {
      NoComponents(before + ComponentBytes(components) + after, |before|, size);
    } else {
      var c, others := components[0], components[1..];
      var rest := ComponentBytes(others);
      var next := before + U32(c.entity) + c.bytes;
      FitsFirstAndRest(components, size);
      AppendPair(before, U32(c.entity), c.bytes, rest);
      ComponentsRoundTrip(others, size, next, after);
      Associative(next, rest, after);
      ReadComponent(c, before, rest + after);
      ReadComponentsStep(before + ComponentBytes(components) + after, |before|, |components|, size);
      FirstAndRest(components);
    }
  }

  lemma BlockRoundTrip(components: seq<Component>, size: nat, before: seq<Byte>, after: seq<Byte>)
    requires FitsBlock(components, size)
    ensures ReadBlock(before + BlockBytes(components) + after, |before|, size)
         == Some((components, |before| + |BlockBytes(components)|))
  {
    hide U32, ReadU32, ReadComponents, ComponentBytes, FitsBlock;
    var body := ComponentBytes(components);
    var data := before + BlockBytes(components) + after;
    assert |components| < U32_LIMIT by { FewComponents(components, size); }
    assert data == before + U32(|components|) + (body + after);
    ReadU32In(|components|, before, body + after);
    assert data == (before + U32(|components|)) + body + after;
    ComponentsRoundTrip(components, size, before + U32(|components|), after);
  }

  lemma FewComponents(components: seq<Component>, size: nat)
    requires FitsBlock(components, size)
    ensures |components| < U32_LIMIT
  {
  }

  lemma {:induction false} BlocksRoundTrip(blocks: seq<seq<Component>>, sizes: seq<nat>, before: seq<Byte>)
    requires FitsBlocks(blocks, sizes)
    ensures ReadBlocks(before + SnapshotBytes(blocks), |before|, sizes)
         == Some((blocks, |before| + |SnapshotBytes(blocks)|))
  {
    hide ReadBlock, BlockBytes;
    if blocks != [] {
      var block, rest := blocks[0], SnapshotBytes(blocks[1..]);
      Associative(before, BlockBytes(block), rest);
      BlockRoundTrip(block, sizes[0], before, rest);
      BlocksRoundTrip(blocks[1..], sizes[1..], before + BlockBytes(block));
      assert blocks == [block] + blocks[1..];
    }
  }

  function ParseRecord(bytes: seq<Byte>): (r: Record)
    requires |bytes| == RECORD_BYTES
  {
    Record(ReadU32(bytes, 0), Input(ReadU32(bytes, 4), bytes[8..]))
  }

  /** The records that can be read before the data ends, at most `count`. */
  function ReadRecords(data: seq<Byte>, at: nat, count: nat): (records: seq<Record>)
    ensures |records| <= count
    decreases count
  {
    if count == 0 || at + RECORD_BYTES > |data| then []
    else [ParseRecord(data[at..at + RECORD_BYTES])] + ReadRecords(data, at + RECORD_BYTES, count - 1)
  }

  /** What the loader knows about entities: server entity to local entity, the live local entities, and the
      server entity of the local player. */
  datatype Entities = Entities(toLocal: map<nat, nat>, alive: set<nat>, localPlayer: Option<nat>) {
    /** The live local entity a record is for. */
    function Target(r: Record): (e: Option<nat>) {
      if r.entity in toLocal && toLocal[r.entity] in alive then Some(toLocal[r.entity]) else None
    }

    predicate IsLocalPlayer(e: nat) {
      localPlayer.Some? && localPlayer.value in toLocal && toLocal[localPlayer.value] == e
    }
  }

  datatype Inputs = Inputs(byEntity: map<nat, Input>, acked: nat)

  function ApplyRecord(known: Entities, s: Inputs, r: Record): (s': Inputs) {
    var target := known.Target(r);
    if target.None? then s
    else if known.IsLocalPlayer(target.value) then s.(acked := r.input.tick)
    else s.(byEntity := s.byEntity[target.value := r.input])
  }

  function ApplyRecords(known: Entities, s: Inputs, records: seq<Record>): (s': Inputs)
    decreases |records|
  {
    if records == [] then s else ApplyRecords(known, ApplyRecord(known, s, records[0]), records[1..])
  }

  lemma ReadRecordsStep(data: seq<Byte>, at: nat, count: nat)
    ensures ReadRecords(data, at, count) ==
            if count == 0 || at + RECORD_BYTES > |data| then []
            else [ParseRecord(data[at..at + RECORD_BYTES])] + ReadRecords(data, at + RECORD_BYTES, count - 1)
  {
    hide ParseRecord;
  }

  lemma ApplyNone(known: Entities, s: Inputs)
    ensures ApplyRecords(known, s, []) == s
  {
  }

  lemma ApplyFirst(known: Entities, s: Inputs, r: Record, rest: seq<Record>)
    ensures ApplyRecords(known, s, [r] + rest) == ApplyRecords(known, ApplyRecord(known, s, r), rest)
  {
    hide ApplyRecord;
    assert ([r] + rest)[1..] == rest;
  }

  datatype Loaded = Thrown | Loaded(blocks: seq<seq<Component>>)

  class Loader {
    var inputs: map<nat, Input>  // the InputSnapshot of each local entity

    /** Returns the blocks it loaded into the registry and the acknowledged tick; `sizes` are the sizes of the
        synced component types, `known` the entities once the snapshot is loaded. */
    method Apply(data: seq<Byte>, sizes: seq<nat>, known: Entities) returns (r: Loaded, acked: nat)
      modifies this
      ensures match Sections(data, sizes)
              case None => r == Thrown && inputs == old(inputs) && acked == 0
              case Some((blocks, count, tail)) =>
                var records := ReadRecords(tail, 4, count);
                && r == (if |records| == count then Loaded(blocks) else Thrown)
                && Inputs(inputs, acked) == ApplyRecords(known, Inputs(old(inputs), 0), records)
    {
      hide Value, ReadBlocks, ParseRecord, ReadRecords, ApplyRecords;
      acked := 0;
      var packetArchive := new InputArchive(data);
      var field := packetArchive.Read(4);
      if field.None? {
        return Thrown, acked;
      }
      assert data[0..4] == field.value;
      var snapshotSize := Value(field.value);
      if 4 + snapshotSize > |data| {
        return Thrown, acked;
      }
      var loaded := ReadBlocks(data[4..4 + snapshotSize], 0, sizes);
      if loaded.None? {
        return Thrown, acked;
      }
      var remoteInputArchive := new InputArchive(data[4 + snapshotSize..]);
      field := remoteInputArchive.Read(4);
      if field.None? {
        return Thrown, acked;
      }
      var remoteInputCount := Value(field.value);
      ghost var tail := remoteInputArchive.data;
      ghost var all := ApplyRecords(known, Inputs(inputs, 0), ReadRecords(tail, 4, remoteInputCount));
      var i := 0;
      while i < remoteInputCount
        invariant i <= remoteInputCount && remoteInputArchive.offset == 4 + i * RECORD_BYTES
        invariant ApplyRecords(known, Inputs(inputs, acked),
                               ReadRecords(tail, remoteInputArchive.offset, remoteInputCount - i)) == all
        invariant |ReadRecords(tail, 4, remoteInputCount)|
               == i + |ReadRecords(tail, remoteInputArchive.offset, remoteInputCount - i)|
        invariant fresh(remoteInputArchive) && remoteInputArchive.data == tail
      {
        ghost var at := remoteInputArchive.offset;
        ReadRecordsStep(tail, at, remoteInputCount - i);
        field := remoteInputArchive.Read(RECORD_BYTES);
        if field.None? {
          ApplyNone(known, Inputs(inputs, acked));
          return Thrown, acked;
        }
        var record := ParseRecord(field.value);
        ghost var rest := ReadRecords(tail, at + RECORD_BYTES, remoteInputCount - i - 1);
        ApplyFirst(known, Inputs(inputs, acked), record, rest);
        i := i + 1;
        var target := known.Target(record);
        if target.None? {
          continue;
        }
        if known.IsLocalPlayer(target.value) {
          acked := record.input.tick;
          continue;
        }
        inputs := inputs[target.value := record.input];
      }
      ReadRecordsStep(tail, remoteInputArchive.offset, 0);
      ApplyNone(known, Inputs(inputs, acked));
      return Loaded(loaded.value.0), acked;
    }
  }

  /** The parts of a packet: the blocks of its snapshot, the number of records, and the data from that number
      on; None if one of them is cut short. */
  function Sections(data: seq<Byte>, sizes: seq<nat>): (r: Option<(seq<seq<Component>>, nat, seq<Byte>)>) {
    if |data| < 4 || 4 + ReadU32(data, 0) > |data| then None
    else
      var end := 4 + ReadU32(data, 0);
      match ReadBlocks(data[4..end], 0, sizes)
      case None => None
      case Some((blocks, _)) => if end + 4 > |data| then None else Some((blocks, ReadU32(data[end..], 0), data[end..]))
  }

  ghost predicate FitsRecord(r: Record) {
    r.entity < U32_LIMIT && r.input.tick < U32_LIMIT && |r.input.rest| == INPUT_REST_BYTES
  }

  lemma RecordRoundTrip(r: Record)
    requires FitsRecord(r)
    ensures |RecordBytes(r)| == RECORD_BYTES && ParseRecord(RecordBytes(r)) == r
  {
    hide U32, ReadU32;
    var bytes := RecordBytes(r);
    assert bytes == [] + U32(r.entity) + (U32(r.input.tick) + r.input.rest);
    ReadU32In(r.entity, [], U32(r.input.tick) + r.input.rest);
    ReadU32In(r.input.tick, U32(r.entity), r.input.rest);
    assert bytes[8..] == r.input.rest;
  }

  lemma {:induction false} RecordsRoundTrip(records: seq<Record>, before: seq<Byte>)
    requires forall r :: r in records ==> FitsRecord(r)
    ensures ReadRecords(before + RecordsBytes(records), |before|, |records|) == records
  {
    hide RecordBytes, ParseRecord, FitsRecord;
    if records != [] {
      var r, rest := records[0], RecordsBytes(records[1..]);
      assert r in records;
      RecordRoundTrip(r);
      RecordsRoundTrip(records[1..], before + RecordBytes(r));
      Associative(before, RecordBytes(r), rest);
      var data := before + RecordsBytes(records);
      assert data[|before|..|before| + RECORD_BYTES] == RecordBytes(r);
      assert records == [r] + records[1..];
    }
  }

  /** The receiver finds in a packet the blocks and the records the sender put into it. */
  lemma PacketRoundTrip(blocks: seq<seq<Component>>, sizes: seq<nat>, records: seq<Record>)
    requires FitsBlocks(blocks, sizes) && |SnapshotBytes(blocks)| < U32_LIMIT
    requires |records| < U32_LIMIT && forall r :: r in records ==> FitsRecord(r)
    ensures var tail := U32(|records|) + RecordsBytes(records);
            && Sections(Packet(SnapshotBytes(blocks), records), sizes) == Some((blocks, |records|, tail))
            && ReadRecords(tail, 4, |records|) == records
  {
    hide U32, ReadU32, ReadBlocks, SnapshotBytes, RecordsBytes, ReadRecords, FitsBlocks, FitsRecord;
    var snapshot := SnapshotBytes(blocks);
    var tail := U32(|records|) + RecordsBytes(records);
    var packet := Packet(snapshot, records);
    Associative(U32(|snapshot|) + snapshot, U32(|records|), RecordsBytes(records));
    Associative(U32(|snapshot|), snapshot, tail);
    assert [] + U32(|snapshot|) == U32(|snapshot|);
    ReadU32In(|snapshot|, [], snapshot + tail);
    Middle(U32(|snapshot|), snapshot, tail);
    BlocksRoundTrip(blocks, sizes, []);
    assert [] + snapshot == snapshot;
    assert [] + U32(|records|) == U32(|records|);
    ReadU32In(|records|, [], RecordsBytes(records));
    RecordsRoundTrip(records, U32(|records|));
  }

  // ---------------------------------------------------------------- truncation

  /** Reading succeeds the same way, and inside the data, whatever more follows. */
  lemma {:induction false} ComponentsWithMore(data: seq<Byte>, more: seq<Byte>, at: nat, count: nat, size: nat)
    requires at <= |data| && ReadComponents(data, at, count, size).Some?
    ensures ReadComponents(data, at, count, size).value.1 <= |data|
    ensures ReadComponents(data + more, at, count, size) == ReadComponents(data, at, count, size)
    decreases count
  {
    hide ReadU32;
    if count > 0 {
      ComponentsWithMore(data, more, at + 4 + size, count - 1, size);
      ReadU32Prefix(data, at, more);
      assert (data + more)[at + 4..at + 4 + size] == data[at + 4..at + 4 + size];
    }
  }

  lemma {:induction false} BlocksWithMore(data: seq<Byte>, more: seq<Byte>, at: nat, sizes: seq<nat>)
    requires at <= |data| && ReadBlocks(data, at, sizes).Some?
    ensures ReadBlocks(data, at, sizes).value.1 <= |data|
    ensures ReadBlocks(data + more, at, sizes) == ReadBlocks(data, at, sizes)
    decreases |sizes|
  {
    hide ReadU32, ReadComponents;
    if sizes != [] {
      ReadU32Prefix(data, at, more);
      ComponentsWithMore(data, more, at + 4, ReadU32(data, at), sizes[0]);
      BlocksWithMore(data, more, ReadBlock(data, at, sizes[0]).value.1, sizes[1..]);
    }
  }

  /** A snapshot that is cut short anywhere cannot be read. */
  lemma TruncatedSnapshot(blocks: seq<seq<Component>>, sizes: seq<nat>, cut: nat)
    requires FitsBlocks(blocks, sizes) && cut < |SnapshotBytes(blocks)|
    ensures ReadBlocks(SnapshotBytes(blocks)[..cut], 0, sizes).None?
  {
    hide ReadBlocks, SnapshotBytes, FitsBlocks;
    var snapshot := SnapshotBytes(blocks);
    BlocksRoundTrip(blocks, sizes, []);
    AppendNothing(snapshot);
    assert snapshot[..cut] + snapshot[cut..] == snapshot;
    if ReadBlocks(snapshot[..cut], 0, sizes).Some? {
      BlocksWithMore(snapshot[..cut], snapshot[cut..], 0, sizes);
    }
  }

  lemma {:induction false} RecordsNeedBytes(data: seq<Byte>, at: nat, count: nat)
    requires |ReadRecords(data, at, count)| == count
    ensures count > 0 ==> at + RECORD_BYTES * count <= |data|
    decreases count
  {
    hide ParseRecord;
    if count > 1 {
      RecordsNeedBytes(data, at + RECORD_BYTES, count - 1);
    }
  }

  lemma {:induction false} RecordsLength(records: seq<Record>)
    requires forall r :: r in records ==> FitsRecord(r)
    ensures |RecordsBytes(records)| == RECORD_BYTES * |records|
  {
    hide RecordBytes, FitsRecord;
    if records != [] {
      assert records[0] in records;
      RecordRoundTrip(records[0]);
      RecordsLength(records[1..]);
    }
  }

  /** A packet that is cut short anywhere makes the loader throw: a section is missing, or a record. */
  lemma TruncatedPacketThrows(blocks: seq<seq<Component>>, sizes: seq<nat>, records: seq<Record>, cut: nat)
    requires FitsBlocks(blocks, sizes) && |SnapshotBytes(blocks)| < U32_LIMIT
    requires |records| < U32_LIMIT && forall r :: r in records ==> FitsRecord(r)
    requires cut < |Packet(SnapshotBytes(blocks), records)|
    ensures match Sections(Packet(SnapshotBytes(blocks), records)[..cut], sizes)
            case None => true
            case Some((_, count, tail)) => |ReadRecords(tail, 4, count)| < count
  {
    hide U32, ReadU32, ReadBlocks, SnapshotBytes, RecordsBytes, ReadRecords, FitsBlocks, FitsRecord;
    var snapshot, tail := SnapshotBytes(blocks), U32(|records|) + RecordsBytes(records);
    var packet := Packet(snapshot, records);
    var data, end := packet[..cut], 4 + |snapshot|;
    Associative(U32(|snapshot|) + snapshot, U32(|records|), RecordsBytes(records));
    Associative(U32(|snapshot|), snapshot, tail);
    RecordsLength(records);
    if cut >= 4 {
      SizeField(snapshot, tail, cut);
      if cut >= end + 4 {
        CountField(snapshot, records, cut);
        if |ReadRecords(data[end..], 4, |records|)| == |records| {
          RecordsNeedBytes(data[end..], 4, |records|);
        }
      }
    }
  }

  lemma SizeField(snapshot: seq<Byte>, tail: seq<Byte>, cut: nat)
    requires |snapshot| < U32_LIMIT && 4 <= cut <= |U32(|snapshot|) + (snapshot + tail)|
    ensures ReadU32((U32(|snapshot|) + (snapshot + tail))[..cut], 0) == |snapshot|
  {
    hide U32, ReadU32;
    var all := U32(|snapshot|) + (snapshot + tail);
    AppendNothing(U32(|snapshot|));
    ReadU32In(|snapshot|, [], snapshot + tail);
    ReadU32Prefix(all[..cut], 0, all[cut..]);
    assert all[..cut] + all[cut..] == all;
  }

  lemma CountField(snapshot: seq<Byte>, records: seq<Record>, cut: nat)
    requires |records| < U32_LIMIT && 4 + |snapshot| + 4 <= cut <= |Packet(snapshot, records)|
    ensures ReadU32(Packet(snapshot, records)[..cut][4 + |snapshot|..], 0) == |records|
  {
    hide U32, ReadU32;
    var packet, head := Packet(snapshot, records), U32(|snapshot|) + snapshot;
    ReadU32In(|records|, head, RecordsBytes(records));
    ReadU32Prefix(packet[..cut], |head|, packet[cut..]);
    assert packet[..cut] + packet[cut..] == packet;
    ReadU32Suffix(packet[..cut], |head|);
  }

  /** Where the parts of a packet stand. */
  lemma PacketLayout(snapshot: seq<Byte>, records: seq<Record>)
    ensures var p, end := Packet(snapshot, records), 4 + |snapshot|;
            && p[..4] == U32(|snapshot|) && p[4..end] == snapshot
            && p[end..end + 4] == U32(|records|) && p[end + 4..] == RecordsBytes(records)
  {
    hide U32, RecordsBytes;
    FourParts(U32(|snapshot|), snapshot, U32(|records|), RecordsBytes(records));
  }

  /** Where the fields of a record stand. */
  lemma RecordLayout(r: Record)
    ensures var b := RecordBytes(r);
            b[..4] == U32(r.entity) && b[4..8] == U32(r.input.tick) && b[8..] == r.input.rest
  {
    hide U32;
  }

  // ---------------------------------------------------------------- the jobs that write a snapshot

  function ComponentCalls(components: seq<Component>): (calls: Job) {
    if components == [] then []
    else [U32(components[0].entity), components[0].bytes] + ComponentCalls(components[1..])
  }

  /** The archive calls of one type: the number of components, then each entity and its component. */
  function JobOf(block: seq<Component>): (job: Job) {
    [U32(|block|)] + ComponentCalls(block)
  }

  function JobsOf(blocks: seq<seq<Component>>): (jobs: seq<Job>)
    ensures |jobs| == |blocks|
  {
    if blocks == [] then [] else [JobOf(blocks[0])] + JobsOf(blocks[1..])
  }

  lemma FlattenFirst(piece: seq<Byte>, rest: seq<seq<Byte>>)
    ensures Flatten([piece] + rest) == piece + Flatten(rest)
  {
    assert ([piece] + rest)[1..] == rest;
  }

  lemma {:induction false} CallsWriteComponents(components: seq<Component>)
    ensures Flatten(ComponentCalls(components)) == ComponentBytes(components)
  {
    hide U32;
    if components != [] {
      var c, rest := components[0], ComponentCalls(components[1..]);
      CallsWriteComponents(components[1..]);
      assert [U32(c.entity), c.bytes] + rest == [U32(c.entity)] + ([c.bytes] + rest);
      FlattenFirst(U32(c.entity), [c.bytes] + rest);
      FlattenFirst(c.bytes, rest);
      Associative(U32(c.entity), c.bytes, Flatten(rest));
    }
  }

  /** The jobs of the types, run one after another, write the snapshot. */
  lemma {:induction false} JobsWriteSnapshot(blocks: seq<seq<Component>>)
    ensures Sequential(JobsOf(blocks)) == SnapshotBytes(blocks)
  {
    hide U32;
    if blocks != [] {
      JobsWriteSnapshot(blocks[1..]);
      assert JobsOf(blocks)[1..] == JobsOf(blocks[1..]);
      FlattenFirst(U32(|blocks[0]|), ComponentCalls(blocks[0]));
      CallsWriteComponents(blocks[0]);
    }
  }

  /** Whatever the schedule of the jobs that write the snapshot, the receiver finds the blocks and the records. */
  lemma ParallelPacketRoundTrip(blocks: seq<seq<Component>>, sizes: seq<nat>, records: seq<Record>,
                                schedule: seq<nat>)
    requires FitsBlocks(blocks, sizes) && |SnapshotBytes(blocks)| < U32_LIMIT
    requires |records| < U32_LIMIT && forall r :: r in records ==> FitsRecord(r)
    requires Finished(JobsOf(blocks), Scheduled(JobsOf(blocks), schedule))
    ensures var packet := Packet(Flatten(Scheduled(JobsOf(blocks), schedule).archives), records);
            var sections := Sections(packet, sizes);
            && sections.Some? && sections.value.0 == blocks && sections.value.1 == |records|
            && ReadRecords(sections.value.2, 4, |records|) == records
  {
    hide Packet, Sections, ReadRecords, FitsBlocks, FitsRecord, Scheduled, Finished;
    ParallelEqualsSequential(JobsOf(blocks), schedule);
    JobsWriteSnapshot(blocks);
    PacketRoundTrip(blocks, sizes, records);
  }

  // ---------------------------------------------------------------- what loading does to inputs

  /** The last input recorded for a local entity. */
  function LastFor(known: Entities, records: seq<Record>, e: nat): (r: Option<Input>) {
    if records == [] then None
    else
      var later := LastFor(known, records[1..], e);
      if later.Some? then later
      else
        var server := records[0].entity;
        if server in known.toLocal && known.toLocal[server] == e && e in known.alive then Some(records[0].input)
        else None
  }

  /** What loading records means for an entity: the local player keeps its own input and its last recorded tick
      is reported as acknowledged; every other entity gets its last recorded input, or keeps what it had. */
  lemma {:induction false} LoadedInput(known: Entities, s: Inputs, records: seq<Record>, e: nat)
    ensures var after, last := ApplyRecords(known, s, records), LastFor(known, records, e);
            var player := known.localPlayer;
            var isPlayer := player.Some? && player.value in known.toLocal && known.toLocal[player.value] == e;
            && (isPlayer ==>
                  && (e in after.byEntity <==> e in s.byEntity)
                  && (e in s.byEntity ==> after.byEntity[e] == s.byEntity[e])
                  && after.acked == (if last.Some? then last.value.tick else s.acked))
            && (!isPlayer ==>
                  && (e in after.byEntity <==> e in s.byEntity || last.Some?)
                  && (e in after.byEntity ==> after.byEntity[e] == if last.Some? then last.value else s.byEntity[e]))
            && ((forall x :: !known.IsLocalPlayer(x)) ==> after.acked == s.acked)
    decreases |records|
  {
    if records != [] {
      LoadedInput(known, ApplyRecord(known, s, records[0]), records[1..], e);
    }
  }
}
