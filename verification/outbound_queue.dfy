/**
  The per-client outbound queue: a game thread enqueues framed messages while a network thread pops
  them one at a time and writes each without holding the lock. A message with a non-zero key takes
  the place of the queued message with that key; message key 0 is reliable.
 */
module OutboundQueue {
  import opened Bytes
  import opened Wrappers

  const NS_PER_MS := 1_000_000

  datatype Item = Item(key: nat, bytes: seq<Byte>)

  datatype Entry = Entry(item: Item, enqueuedNs: nat)

  // ---------------------------------------------------------------- the queue

  function FindKey(entries: seq<Entry>, key: nat): (i: nat)
    ensures i <= |entries|
    ensures i < |entries| ==> entries[i].item.key == key
    ensures forall j :: 0 <= j < i ==> entries[j].item.key != key
  {
    if entries == [] || entries[0].item.key == key then 0 else 1 + FindKey(entries[1..], key)
  }

  /** Replacement in place, at the old entry's position; key 0 always appends. */
  function Enqueued(entries: seq<Entry>, item: Item, now: nat): (r: seq<Entry>) {
    var i := FindKey(entries, item.key);
    if item.key != 0 && i < |entries| then entries[i := Entry(item, now)] else entries + [Entry(item, now)]
  }

  /** `now - enqueuedNs` in unsigned 64-bit arithmetic. */
  function AgeNs(now: nat, enqueuedNs: nat): (age: int) {
    if enqueuedNs <= now then now - enqueuedNs else U64_LIMIT + now - enqueuedNs
  }

  predicate Culled(e: Entry, now: nat, maxAgeNs: nat) {
    maxAgeNs > 0 && e.item.key != 0 && AgeNs(now, e.enqueuedNs) > maxAgeNs
  }

  /** An entry that really is older than the limit. */
  predicate Stale(e: Entry, now: nat, maxAgeNs: nat) {
    e.enqueuedNs + maxAgeNs < now
  }

  /** The entries a flush at `now` would write. */
  function Kept(entries: seq<Entry>, now: nat, maxAgeNs: nat): (r: seq<Item>) {
    if entries == [] then []
    else (if Culled(entries[0], now, maxAgeNs) then [] else [entries[0].item]) + Kept(entries[1..], now, maxAgeNs)
  }

  /** A flush that stopped at `lost`: that entry is gone from the queue, everything behind it is still there. */
  ghost predicate FailedAt(before: seq<Entry>, after: seq<Entry>, lost: Item) {
    |after| < |before| && before[|before| - |after|..] == after && before[|before| - |after| - 1].item == lost
  }

  /** A message enqueued by the game thread while a flush is under way. */
  datatype Arrival = Arrival(item: Item, at: nat)

  function AllEnqueued(entries: seq<Entry>, arrivals: seq<Arrival>): (r: seq<Entry>)
    decreases |arrivals|
  {
    if arrivals == [] then entries else AllEnqueued(Enqueued(entries, arrivals[0].item, arrivals[0].at), arrivals[1..])
  }

  /** The queue a critical section finds: what arrived since the one before has landed. */
  function Found(entries: seq<Entry>, arrivals: seq<seq<Arrival>>): (queue: seq<Entry>) {
    if arrivals == [] then entries else AllEnqueued(entries, arrivals[0])
  }

  function Later(arrivals: seq<seq<Arrival>>): (r: seq<seq<Arrival>>) {
    if arrivals == [] then [] else arrivals[1..]
  }

  datatype Outcome = Outcome(entries: seq<Entry>, written: seq<Item>, ok: bool)

  /** What a flush does to the queue and the socket: `arrivals` lists, for each of its critical sections, what is
      enqueued before it; the write with index `failing` is the first that fails. */
  function Flushed(entries: seq<Entry>, arrivals: seq<seq<Arrival>>, now: nat, maxAgeNs: nat, failing: nat)
      : (r: Outcome)
    decreases |arrivals|, |entries|
  {
    var queue := Found(entries, arrivals);
    if queue == [] then Outcome([], [], true)
    else if Culled(queue[0], now, maxAgeNs) then Flushed(queue[1..], Later(arrivals), now, maxAgeNs, failing)
    else if failing == 0 then Outcome(queue[1..], [], false)
    else
      var r := Flushed(queue[1..], Later(arrivals), now, maxAgeNs, failing - 1);
      r.(written := [queue[0].item] + r.written)
  }

  /** One critical section of a flush that has written `written`. */
  lemma FlushedStep(entries: seq<Entry>, arrivals: seq<seq<Arrival>>, now: nat, maxAgeNs: nat, failing: nat,
                    written: seq<Item>)
    ensures var r, queue := Flushed(entries, arrivals, now, maxAgeNs, failing), Found(entries, arrivals);
            r.(written := written + r.written) ==
            if queue == [] then Outcome([], written, true)
            else if Culled(queue[0], now, maxAgeNs) then
              var later := Flushed(queue[1..], Later(arrivals), now, maxAgeNs, failing);
              later.(written := written + later.written)
            else if failing == 0 then Outcome(queue[1..], written, false)
            else
              var later := Flushed(queue[1..], Later(arrivals), now, maxAgeNs, failing - 1);
              later.(written := written + [queue[0].item] + later.written)
  {
    hide Culled, Found, Later;
    var queue := Found(entries, arrivals);
    AppendNothing(written);
    if queue != [] && !Culled(queue[0], now, maxAgeNs) && failing > 0 {
      Associative(written, [queue[0].item], Flushed(queue[1..], Later(arrivals), now, maxAgeNs, failing - 1).written);
    }
  }

  /** A flush during which nothing arrives writes the entries that are not dropped, in order; at a failing write
      exactly that entry is lost and the rest stays queued. */
  lemma {:induction false} QuietFlush(entries: seq<Entry>, now: nat, maxAgeNs: nat, failing: nat)
    ensures var r, kept := Flushed(entries, [], now, maxAgeNs, failing), Kept(entries, now, maxAgeNs);
            && (r.ok <==> |kept| <= failing)
            && (r.ok ==> r.written == kept && r.entries == [])
            && (!r.ok ==> r.written == kept[..failing] && FailedAt(entries, r.entries, kept[failing]))
            && (!r.ok ==> Kept(r.entries, now, maxAgeNs) == kept[failing + 1..])
  {
    QuietStep(entries, now, maxAgeNs, failing);
    hide Culled, Flushed, Kept, FailedAt;
    if entries != [] {
      var e, rest := entries[0], entries[1..];
      var kept := Kept(rest, now, maxAgeNs);
      if Culled(e, now, maxAgeNs) {
        QuietFlush(rest, now, maxAgeNs, failing);
        var r := Flushed(rest, [], now, maxAgeNs, failing);
        if !r.ok {
          FailedBehind(entries, r.entries, kept[failing]);
        }
      } else if failing > 0 {
        QuietFlush(rest, now, maxAgeNs, failing - 1);
        var r := Flushed(rest, [], now, maxAgeNs, failing - 1);
        if !r.ok {
          FailedBehind(entries, r.entries, kept[failing - 1]);
          BehindFirst(e.item, kept, failing);
        }
      } else {
        BehindFirst(e.item, kept, 0);
        FailedFirst(entries);
      }
    }
  }

  lemma QuietStep(entries: seq<Entry>, now: nat, maxAgeNs: nat, failing: nat)
    ensures var r, kept := Flushed(entries, [], now, maxAgeNs, failing), Kept(entries, now, maxAgeNs);
            if entries == [] then r == Outcome([], [], true) && kept == []
            else
              var e, rest := entries[0], entries[1..];
              if Culled(e, now, maxAgeNs) then
                r == Flushed(rest, [], now, maxAgeNs, failing) && kept == Kept(rest, now, maxAgeNs)
              else
                && kept == [e.item] + Kept(rest, now, maxAgeNs)
                && r == if failing == 0 then Outcome(rest, [], false)
                        else
                          var later := Flushed(rest, [], now, maxAgeNs, failing - 1);
                          later.(written := [e.item] + later.written)
  {
    hide Culled;
  }

  lemma FailedBehind(entries: seq<Entry>, after: seq<Entry>, lost: Item)
    requires entries != [] && FailedAt(entries[1..], after, lost)
    ensures FailedAt(entries, after, lost)
  {
  }

  lemma FailedFirst(entries: seq<Entry>)
    requires entries != []
    ensures FailedAt(entries, entries[1..], entries[0].item)
  {
  }

  lemma BehindFirst(x: Item, items: seq<Item>, n: nat)
    requires n <= |items|
    ensures ([x] + items)[..n] == (if n == 0 then [] else [x] + items[..n - 1])
    ensures ([x] + items)[n + 1..] == items[n..]
  {
  }

  datatype Front = Empty | Dropped(item: Item) | Taken(item: Item)

  class OutboundQueue {
    var entries: seq<Entry>

    constructor ()
      ensures entries == []
    {
      entries := [];
    }

    /** One critical section: `framedBytes` is None for a null pointer. */
    method Enqueue(replaceKey: nat, framedBytes: Option<seq<Byte>>, now: nat)
      modifies this
      ensures entries == match framedBytes
                         case None => old(entries)
                         case Some(bytes) => Enqueued(old(entries), Item(replaceKey, bytes), now)
    {
      if framedBytes.None? {
        return;
      }
      var item := Item(replaceKey, framedBytes.value);
      if replaceKey != 0 {
        for i := 0 to |entries|
          invariant entries == old(entries)
          invariant i <= FindKey(entries, replaceKey)
        {
          if entries[i].item.key == replaceKey {
            entries := entries[i := Entry(item, now)];
            return;
          }
        }
      }
      entries := entries + [Entry(item, now)];
    }

    /** The critical section of a flush: drops or takes the front entry. */
    method TakeFront(now: nat, maxAgeNs: nat) returns (front: Front)
      modifies this
      ensures if old(entries) == [] then front == Empty && entries == []
              else var e := old(entries)[0];
                && entries == old(entries)[1..]
                && front == if Culled(e, now, maxAgeNs) then Dropped(e.item) else Taken(e.item)
    {
      if entries == [] {
        return Empty;
      }
      var e := entries[0];
      entries := entries[1..];
      if maxAgeNs > 0 && e.item.key != 0 && AgeNs(now, e.enqueuedNs) > maxAgeNs {
        return Dropped(e.item);
      }
      return Taken(e.item);
    }

    /** The game thread's enqueues while the lock is free. */
    method Land(arrivals: seq<Arrival>)
      modifies this
      ensures entries == AllEnqueued(old(entries), arrivals)
    {
      var i := 0;
      while i < |arrivals|
        invariant i <= |arrivals|
        invariant AllEnqueued(entries, arrivals[i..]) == AllEnqueued(old(entries), arrivals)
      {
        assert arrivals[i..][1..] == arrivals[i + 1..];
        Enqueue(arrivals[i].item.key, Some(arrivals[i].item.bytes), arrivals[i].at);
        i := i + 1;
      }
    }

    /** The lock is held only to take an entry: `arrivals` lists what is enqueued before each of these critical
        sections. The write with index `failing` is the first that fails. */
    method FlushTo(connected: bool, now: nat, maxAgeMs: nat, failing: nat, arrivals: seq<seq<Arrival>>)
        returns (ok: bool, written: seq<Item>)
      modifies this
      ensures !connected ==> !ok && written == [] && entries == old(entries)
      ensures connected ==>
                Outcome(entries, written, ok) == Flushed(old(entries), arrivals, now, maxAgeMs * NS_PER_MS, failing)
    {
      hide Culled, AllEnqueued, Flushed;
      written := [];
      if !connected {
        return false, [];
      }
      var maxAgeNs := maxAgeMs * NS_PER_MS;
      var coming := arrivals;
      ghost var all := Flushed(entries, arrivals, now, maxAgeNs, failing);
      AppendNothing(all.written);
      while true
        invariant |written| <= failing
        invariant var r := Flushed(entries, coming, now, maxAgeNs, failing - |written|);
                  all == r.(written := written + r.written)
        decreases |coming|, |entries|
      {
        FlushedStep(entries, coming, now, maxAgeNs, failing - |written|, written);
        if coming != [] {
          Land(coming[0]);
          coming := coming[1..];
        }
        var front := TakeFront(now, maxAgeNs);
        match front {
        case Empty =>
          return true, written;
        case Dropped(_) =>
        case Taken(item) =>
          if |written| == failing {
            return false, written;
          }
          written := written + [item];
        }
      }
    }
  }

  // ---------------------------------------------------------------- interleaved runs

  /** What the network thread is doing: nothing, between two pops of a flush, or writing an entry it took. */
  datatype Flush = Idle | Between(now: nat, maxAgeNs: nat) | Writing(now: nat, maxAgeNs: nat, item: Item)

  /** A message that left the queue; `stale` says whether it was older than the limit of the flush that took it. */
  datatype Gone = Gone(item: Item, dropped: bool, stale: bool)

  /** The queue and the network thread, with the histories of both ends. */
  datatype State = State(entries: seq<Entry>, flush: Flush, enqueued: seq<Item>, gone: seq<Gone>, shipped: seq<Item>)

  /** The atomic steps of the two threads. A step that its thread cannot take changes nothing. */
  datatype Step =
    | Enqueue(item: Item, now: nat)
    | BeginFlush(now: nat, maxAgeMs: nat)
    | TakeFront
    | FinishWrite

  const START := State([], Idle, [], [], [])

  function Next(s: State, step: Step): (r: State) {
    match step
    case Enqueue(item, now) => s.(entries := Enqueued(s.entries, item, now), enqueued := s.enqueued + [item])
    case BeginFlush(now, maxAgeMs) => if s.flush.Idle? then s.(flush := Between(now, maxAgeMs * NS_PER_MS)) else s
    case TakeFront =>
      if !s.flush.Between? then s
      else if s.entries == [] then s.(flush := Idle)
      else
        var e := s.entries[0];
        var dropped := Culled(e, s.flush.now, s.flush.maxAgeNs);
        s.(entries := s.entries[1..], gone := s.gone + [Gone(e.item, dropped, Stale(e, s.flush.now, s.flush.maxAgeNs))],
           flush := if dropped then s.flush else Writing(s.flush.now, s.flush.maxAgeNs, e.item))
    case FinishWrite =>
      if !s.flush.Writing? then s
      else s.(shipped := s.shipped + [s.flush.item], flush := Between(s.flush.now, s.flush.maxAgeNs))
  }

  function Run(steps: seq<Step>): (s: State) {
    if steps == [] then START else Next(Run(steps[..|steps| - 1]), steps[|steps| - 1])
  }

  lemma RunThen(steps: seq<Step>, step: Step)
    ensures Run(steps + [step]) == Next(Run(steps), step)
  {
    assert (steps + [step])[..|steps|] == steps;
  }

  // ---------------------------------------------------------------- a flush as a run

  function Arrive(arrivals: seq<Arrival>): (steps: seq<Step>) {
    if arrivals == [] then [] else [Enqueue(arrivals[0].item, arrivals[0].at)] + Arrive(arrivals[1..])
  }

  /** What lands before the next critical section, and that section. */
  function Section(arrivals: seq<seq<Arrival>>): (steps: seq<Step>) {
    (if arrivals == [] then [] else Arrive(arrivals[0])) + [TakeFront]
  }

  /** The steps of a flush after its beginning, and of the enqueues that land during it. */
  function FlushSteps(entries: seq<Entry>, arrivals: seq<seq<Arrival>>, now: nat, maxAgeNs: nat, failing: nat)
      : (steps: seq<Step>)
    decreases |arrivals|, |entries|
  {
    var queue := Found(entries, arrivals);
    Section(arrivals) +
    if queue == [] then []
    else if Culled(queue[0], now, maxAgeNs) then FlushSteps(queue[1..], Later(arrivals), now, maxAgeNs, failing)
    else if failing == 0 then []
    else [FinishWrite] + FlushSteps(queue[1..], Later(arrivals), now, maxAgeNs, failing - 1)
  }

  lemma {:induction false} ArrivalsRun(steps: seq<Step>, arrivals: seq<Arrival>)
    ensures var before, after := Run(steps), Run(steps + Arrive(arrivals));
            && after.entries == AllEnqueued(before.entries, arrivals)
            && after.flush == before.flush && after.shipped == before.shipped
    decreases |arrivals|
  {
    hide Run, Enqueued;
    if arrivals == [] {
      assert steps + [] == steps;
    } else {
      var first := Enqueue(arrivals[0].item, arrivals[0].at);
      RunThen(steps, first);
      ArrivalsRun(steps + [first], arrivals[1..]);
      Associative(steps, [first], Arrive(arrivals[1..]));
    }
  }

  lemma SectionRuns(steps: seq<Step>, arrivals: seq<seq<Arrival>>, now: nat, maxAgeNs: nat)
    requires Run(steps).flush == Between(now, maxAgeNs)
    ensures var before, after := Run(steps), Run(steps + Section(arrivals));
            var queue := Found(before.entries, arrivals);
            && after.shipped == before.shipped
            && after.entries == (if queue == [] then [] else queue[1..])
            && after.flush == if queue == [] then Idle
                              else if Culled(queue[0], now, maxAgeNs) then Between(now, maxAgeNs)
                              else Writing(now, maxAgeNs, queue[0].item)
  {
    hide Run, Culled, Stale, AllEnqueued, Arrive;
    var landing := if arrivals == [] then [] else Arrive(arrivals[0]);
    assert steps + [] == steps;
    if arrivals != [] {
      ArrivalsRun(steps, arrivals[0]);
    }
    RunThen(steps + landing, TakeFront);
    Associative(steps, landing, [TakeFront]);
  }

  lemma {:induction false} FlushContinues(steps: seq<Step>, arrivals: seq<seq<Arrival>>, now: nat, maxAgeNs: nat,
                                          failing: nat)
    requires Run(steps).flush == Between(now, maxAgeNs)
    ensures var before := Run(steps);
            var after := Run(steps + FlushSteps(before.entries, arrivals, now, maxAgeNs, failing));
            var r := Flushed(before.entries, arrivals, now, maxAgeNs, failing);
            && after.entries == r.entries && after.shipped == before.shipped + r.written
            && (if r.ok then after.flush.Idle? else after.flush.Writing?)
    decreases |arrivals|, |Run(steps).entries|
  {
    hide Run, Culled, Found, Section;
    var taken, queue := steps + Section(arrivals), Found(Run(steps).entries, arrivals);
    var shipped := Run(steps).shipped;
    SectionRuns(steps, arrivals, now, maxAgeNs);
    Shorter(Run(steps).entries, arrivals);
    assert shipped + [] == shipped;
    if queue == [] || (!Culled(queue[0], now, maxAgeNs) && failing == 0) {
      Associative(steps, Section(arrivals), []);
      assert taken + [] == taken;
    } else if Culled(queue[0], now, maxAgeNs) {
      var rest := FlushSteps(queue[1..], Later(arrivals), now, maxAgeNs, failing);
      FlushContinues(taken, Later(arrivals), now, maxAgeNs, failing);
      Associative(steps, Section(arrivals), rest);
    } else {
      var rest := FlushSteps(queue[1..], Later(arrivals), now, maxAgeNs, failing - 1);
      RunThen(taken, FinishWrite);
      FlushContinues(taken + [FinishWrite], Later(arrivals), now, maxAgeNs, failing - 1);
      Associative(taken, [FinishWrite], rest);
      Associative(steps, Section(arrivals), [FinishWrite] + rest);
      Associative(shipped, [queue[0].item],
                  Flushed(queue[1..], Later(arrivals), now, maxAgeNs, failing - 1).written);
    }
  }

  lemma Shorter(entries: seq<Entry>, arrivals: seq<seq<Arrival>>)
    ensures |Later(arrivals)| < |arrivals| || (arrivals == [] && Found(entries, arrivals) == entries)
  {
  }

  /** A flush, whatever arrives during it, is a run of the two threads' steps, so that what is known of all runs
      holds of it. A failing write leaves its entry in flight. */
  lemma FlushIsRun(steps: seq<Step>, arrivals: seq<seq<Arrival>>, now: nat, maxAgeMs: nat, failing: nat)
    requires Run(steps).flush.Idle?
    ensures var before, maxAgeNs := Run(steps), maxAgeMs * NS_PER_MS;
            var flushing := FlushSteps(before.entries, arrivals, now, maxAgeNs, failing);
            var after := Run(steps + [BeginFlush(now, maxAgeMs)] + flushing);
            var r := Flushed(before.entries, arrivals, now, maxAgeNs, failing);
            && after.entries == r.entries && after.shipped == before.shipped + r.written
            && (if r.ok then after.flush.Idle? else after.flush.Writing?)
  {
    hide Run, FlushSteps, Flushed;
    RunThen(steps, BeginFlush(now, maxAgeMs));
    FlushContinues(steps + [BeginFlush(now, maxAgeMs)], arrivals, now, maxAgeMs * NS_PER_MS, failing);
  }

  // ---------------------------------------------------------------- histories by key

  /** The messages with one key, in order. */
  function Of(key: nat, items: seq<Item>): (r: seq<Item>) {
    if items == [] then [] else (if items[0].key == key then [items[0]] else []) + Of(key, items[1..])
  }

  lemma {:induction false} OfAppend(key: nat, a: seq<Item>, b: seq<Item>)
    ensures Of(key, a + b) == Of(key, a) + Of(key, b)
  {
    if a == [] {
      assert a + b == b && [] + Of(key, b) == Of(key, b);
    } else {
      assert (a + b)[1..] == a[1..] + b;
      OfAppend(key, a[1..], b);
      Associative(if a[0].key == key then [a[0]] else [], Of(key, a[1..]), Of(key, b));
    }
  }

  lemma OfEnd(key: nat, items: seq<Item>, x: Item)
    ensures Of(key, items + [x]) == if x.key == key then Of(key, items) + [x] else Of(key, items)
  {
    OfAppend(key, items, [x]);
    assert Of(key, [x]) == if x.key == key then [x] else [];
  }

  function Items(entries: seq<Entry>): (r: seq<Item>)
    ensures |r| == |entries|
    ensures forall i :: 0 <= i < |r| ==> r[i] == entries[i].item
  {
    seq(|entries|, i requires 0 <= i < |entries| => entries[i].item)
  }

  function GoneItems(gone: seq<Gone>): (r: seq<Item>)
    ensures |r| == |gone|
    ensures forall i :: 0 <= i < |r| ==> r[i] == gone[i].item
  {
    seq(|gone|, i requires 0 <= i < |gone| => gone[i].item)
  }

  /** The messages that left the queue and then those still queued. */
  function Line(s: State): (r: seq<Item>) {
    GoneItems(s.gone) + Items(s.entries)
  }

  function NotDropped(gone: seq<Gone>): (r: seq<Item>) {
    if gone == [] then []
    else NotDropped(gone[..|gone| - 1]) + (if gone[|gone| - 1].dropped then [] else [gone[|gone| - 1].item])
  }

  ghost predicate Subsequence(a: seq<Item>, b: seq<Item>) {
    || a == []
    || (b != [] && a[|a| - 1] == b[|b| - 1] && Subsequence(a[..|a| - 1], b[..|b| - 1]))
    || (b != [] && Subsequence(a, b[..|b| - 1]))
  }

  lemma SubsequenceGrows(a: seq<Item>, b: seq<Item>, x: Item)
    requires Subsequence(a, b)
    ensures Subsequence(a, b + [x]) && Subsequence(a + [x], b + [x])
  {
    assert (b + [x])[..|b|] == b && (a + [x])[..|a|] == a;
  }

  lemma {:induction false} SubsequenceInit(a: seq<Item>, x: Item, b: seq<Item>)
    requires Subsequence(a + [x], b)
    ensures Subsequence(a, b)
    decreases |b|
  {
    var ax := a + [x];
    assert ax[..|ax| - 1] == a;
    if a != [] {
      if Subsequence(ax, b[..|b| - 1]) {
        SubsequenceInit(a, x, b[..|b| - 1]);
      }
    }
  }

  ghost predicate KeyInvariant(s: State, key: nat) {
    && |Of(key, Items(s.entries))| <= 1
    && Subsequence(Of(key, Line(s)), Of(key, s.enqueued))
    && (Of(key, s.enqueued) != [] ==>
          Of(key, Line(s)) != [] && Last(Of(key, Line(s))) == Last(Of(key, s.enqueued)))
  }

  function Last(items: seq<Item>): Item
    requires items != []
  {
    items[|items| - 1]
  }

  lemma OfAround(key: nat, before: seq<Item>, x: Item, after: seq<Item>)
    ensures Of(key, before + [x] + after)
         == Of(key, before) + (if x.key == key then [x] else []) + Of(key, after)
  {
    OfAppend(key, before + [x], after);
    OfEnd(key, before, x);
  }

  lemma SplitAround(items: seq<Item>, i: nat)
    requires i < |items|
    ensures items == items[..i] + [items[i]] + items[i + 1..]
  {
  }

  lemma ItemsReplaced(entries: seq<Entry>, i: nat, e: Entry)
    requires i < |entries|
    ensures Items(entries[i := e]) == Items(entries)[..i] + [e.item] + Items(entries)[i + 1..]
  {
  }

  /** How an enqueue changes the line: it appends, or exchanges one queued message for another with its key. */
  lemma EnqueueLine(s: State, item: Item, now: nat)
    ensures var after := Next(s, Enqueue(item, now));
            var i := FindKey(s.entries, item.key);
            var items := Items(s.entries);
            if item.key != 0 && i < |items|
            then && Line(s) == (GoneItems(s.gone) + items[..i]) + [items[i]] + items[i + 1..]
                 && Line(after) == (GoneItems(s.gone) + items[..i]) + [item] + items[i + 1..]
                 && Items(after.entries) == items[..i] + [item] + items[i + 1..]
                 && items == items[..i] + [items[i]] + items[i + 1..]
            else Line(after) == Line(s) + [item] && Items(after.entries) == items + [item]
  {
    var after := Next(s, Enqueue(item, now));
    var i := FindKey(s.entries, item.key);
    var gone, items := GoneItems(s.gone), Items(s.entries);
    if item.key != 0 && i < |items| {
      SplitAround(items, i);
      ItemsReplaced(s.entries, i, Entry(item, now));
      AppendPair(gone, items[..i], [items[i]], items[i + 1..]);
      AppendPair(gone, items[..i], [item], items[i + 1..]);
    } else {
      assert Items(after.entries) == items + [item];
      Associative(gone, items, [item]);
    }
  }

  /** The queued message of a key gives way to a later one. */
  lemma ReplacementKeepsKey(key: nat, gone: seq<Item>, before: seq<Item>, x: Item, item: Item, after: seq<Item>,
                            enqueued: seq<Item>)
    requires x.key == item.key && |Of(key, before + [x] + after)| <= 1
    requires var line := Of(key, gone + before + [x] + after);
             && Subsequence(line, Of(key, enqueued))
             && (Of(key, enqueued) != [] ==> line != [] && Last(line) == Last(Of(key, enqueued)))
    ensures |Of(key, before + [item] + after)| <= 1
    ensures var line, now := Of(key, gone + before + [item] + after), Of(key, enqueued + [item]);
            Subsequence(line, now) && (now != [] ==> line != [] && Last(line) == Last(now))
  {
    hide Subsequence, Of, Last;
    OfAround(key, gone + before, x, after);
    OfAround(key, gone + before, item, after);
    OfAround(key, before, x, after);
    OfAround(key, before, item, after);
    OfEnd(key, enqueued, item);
    if item.key == key {
      NoneAfterOnly(Of(key, before), x, Of(key, after));
      AppendNothing(Of(key, gone + before) + [x]);
      AppendNothing(Of(key, gone + before) + [item]);
      ReplacedLast(Of(key, gone + before), x, item, Of(key, enqueued));
    }
  }

  lemma NoneAfterOnly(before: seq<Item>, x: Item, after: seq<Item>)
    requires |before + [x] + after| <= 1
    ensures after == [] && before == []
  {
    assert |before + [x] + after| == |before| + 1 + |after|;
  }

  lemma ReplacedLast(older: seq<Item>, x: Item, item: Item, enqueued: seq<Item>)
    requires Subsequence(older + [x], enqueued)
    ensures Subsequence(older + [item], enqueued + [item])
    ensures Last(older + [item]) == Last(enqueued + [item])
  {
    SubsequenceInit(older, x, enqueued);
    SubsequenceGrows(older, enqueued, item);
    hide Subsequence;
  }

  lemma AppendingKeepsKey(key: nat, line: seq<Item>, queued: seq<Item>, item: Item, enqueued: seq<Item>)
    requires |Of(key, queued)| <= (if item.key == key then 0 else 1)
    requires Subsequence(Of(key, line), Of(key, enqueued))
    requires Of(key, enqueued) != [] ==> Of(key, line) != [] && Last(Of(key, line)) == Last(Of(key, enqueued))
    ensures |Of(key, queued + [item])| <= 1
    ensures var line, now := Of(key, line + [item]), Of(key, enqueued + [item]);
            Subsequence(line, now) && (now != [] ==> line != [] && Last(line) == Last(now))
  {
    hide Subsequence, Of;
    OfEnd(key, line, item);
    OfEnd(key, queued, item);
    OfEnd(key, enqueued, item);
    SubsequenceGrows(Of(key, line), Of(key, enqueued), item);
  }

  lemma EnqueueKeepsKey(s: State, item: Item, now: nat, key: nat)
    requires key != 0 && KeyInvariant(s, key)
    ensures KeyInvariant(Next(s, Enqueue(item, now)), key)
  {
    hide Subsequence, Of, Line, Items, GoneItems, Enqueued;
    var i := FindKey(s.entries, item.key);
    var items := Items(s.entries);
    EnqueueLine(s, item, now);
    if item.key != 0 && i < |items| {
      ReplacementKeepsKey(key, GoneItems(s.gone), items[..i], items[i], item, items[i + 1..], s.enqueued);
    } else {
      if item.key == key {
        FindKeyNone(s.entries, key);
      }
      AppendingKeepsKey(key, Line(s), items, item, s.enqueued);
    }
  }

  lemma FindKeyNone(entries: seq<Entry>, key: nat)
    requires FindKey(entries, key) == |entries|
    ensures Of(key, Items(entries)) == []
  {
    if entries != [] {
      assert Items(entries)[1..] == Items(entries[1..]);
      FindKeyNone(entries[1..], key);
    }
  }

  /** Popping, dropping and writing leave the line as it is. */
  lemma OtherStepsKeepLine(s: State, step: Step)
    requires !step.Enqueue?
    ensures Line(Next(s, step)) == Line(s) && Next(s, step).enqueued == s.enqueued
    ensures |Items(Next(s, step).entries)| <= |Items(s.entries)|
  {
    if step.TakeFront? && s.flush.Between? && s.entries != [] {
      var after := Next(s, step);
      var front := s.entries[0].item;
      assert GoneItems(after.gone) == GoneItems(s.gone) + [front];
      assert Items(s.entries) == [front] + Items(after.entries);
      Associative(GoneItems(s.gone), [front], Items(after.entries));
    }
  }

  lemma {:induction false} KeyInvariantHolds(steps: seq<Step>, key: nat)
    requires key != 0
    ensures KeyInvariant(Run(steps), key)
  {
    if steps != [] {
      var before, step := Run(steps[..|steps| - 1]), steps[|steps| - 1];
      KeyInvariantHolds(steps[..|steps| - 1], key);
      if step.Enqueue? {
        EnqueueKeepsKey(before, step.item, step.now, key);
      } else {
        OtherStepsKeepLine(before, step);
        if Next(before, step).entries != before.entries {
          assert Items(before.entries) == [before.entries[0].item] + Items(Next(before, step).entries);
          OfAround(key, [], before.entries[0].item, Items(Next(before, step).entries));
          assert [] + [before.entries[0].item] == [before.entries[0].item];
        }
      }
    }
  }

  /** The messages taken off the queue that were not dropped are those written and the one being written. */
  ghost predicate TakenWritten(s: State) {
    && NotDropped(s.gone) == s.shipped + (if s.flush.Writing? then [s.flush.item] else [])
    && forall g :: g in s.gone && g.dropped ==> g.item.key != 0
  }

  lemma NotDroppedEnd(gone: seq<Gone>, g: Gone)
    ensures NotDropped(gone + [g]) == if g.dropped then NotDropped(gone) else NotDropped(gone) + [g.item]
  {
    assert (gone + [g])[..|gone|] == gone;
    assert NotDropped(gone) + [] == NotDropped(gone);
  }

  lemma StepKeepsTakenWritten(s: State, step: Step)
    requires TakenWritten(s)
    ensures TakenWritten(Next(s, step))
  {
    hide NotDropped, Enqueued, Stale, AgeNs;
    if step.TakeFront? && s.flush.Between? && s.entries != [] {
      var e := s.entries[0];
      var dropped := Culled(e, s.flush.now, s.flush.maxAgeNs);
      NotDroppedEnd(s.gone, Gone(e.item, dropped, Stale(e, s.flush.now, s.flush.maxAgeNs)));
      assert s.shipped + [] == s.shipped;
    } else if step.FinishWrite? && s.flush.Writing? {
      assert s.shipped + [s.flush.item] + [] == s.shipped + [s.flush.item];
    }
  }

  lemma {:induction false} TakenAreWritten(steps: seq<Step>)
    ensures TakenWritten(Run(steps))
  {
    if steps != [] {
      hide Next;
      TakenAreWritten(steps[..|steps| - 1]);
      StepKeepsTakenWritten(Run(steps[..|steps| - 1]), steps[|steps| - 1]);
    } else {
      assert NotDropped([]) == [];
    }
  }

  lemma {:induction false} ReliableLine(steps: seq<Step>)
    ensures Of(0, Line(Run(steps))) == Of(0, Run(steps).enqueued)
  {
    if steps != [] {
      var before, step := Run(steps[..|steps| - 1]), steps[|steps| - 1];
      ReliableLine(steps[..|steps| - 1]);
      if step.Enqueue? {
        var i := FindKey(before.entries, step.item.key);
        var items := Items(before.entries);
        EnqueueLine(before, step.item, step.now);
        OfEnd(0, before.enqueued, step.item);
        if step.item.key != 0 && i < |items| {
          OfAround(0, GoneItems(before.gone) + items[..i], items[i], items[i + 1..]);
          OfAround(0, GoneItems(before.gone) + items[..i], step.item, items[i + 1..]);
        } else {
          OfEnd(0, Line(before), step.item);
        }
      } else {
        OtherStepsKeepLine(before, step);
      }
    }
  }

  lemma GoneItemsEnd(gone: seq<Gone>, g: Gone)
    ensures GoneItems(gone + [g]) == GoneItems(gone) + [g.item]
  {
  }

  /** Dropping never reorders. */
  lemma {:induction false} NotDroppedSubsequence(gone: seq<Gone>, key: nat)
    ensures Subsequence(Of(key, NotDropped(gone)), Of(key, GoneItems(gone)))
  {
    if gone != [] {
      var before, last := gone[..|gone| - 1], gone[|gone| - 1];
      hide Subsequence, Of, NotDropped, GoneItems;
      assert gone == before + [last];
      NotDroppedSubsequence(before, key);
      NotDroppedEnd(before, last);
      GoneItemsEnd(before, last);
      OfEnd(key, GoneItems(before), last.item);
      OfEnd(key, NotDropped(before), last.item);
      SubsequenceGrows(Of(key, NotDropped(before)), Of(key, GoneItems(before)), last.item);
    }
  }

  /** Dropping messages of other keys does not touch the messages of a key. */
  lemma {:induction false} NotDroppedOfOthers(gone: seq<Gone>, key: nat)
    requires forall g :: g in gone && g.dropped ==> g.item.key != key
    ensures Of(key, NotDropped(gone)) == Of(key, GoneItems(gone))
  {
    if gone != [] {
      var before, last := gone[..|gone| - 1], gone[|gone| - 1];
      hide Of, NotDropped, GoneItems;
      assert gone == before + [last];
      NotDroppedOfOthers(before, key);
      NotDroppedEnd(before, last);
      GoneItemsEnd(before, last);
      OfEnd(key, GoneItems(before), last.item);
      OfEnd(key, NotDropped(before), last.item);
    } else {
      assert NotDropped(gone) == GoneItems(gone) == [];
    }
  }

  lemma {:induction false} SubsequenceTransitive(a: seq<Item>, b: seq<Item>, c: seq<Item>)
    requires Subsequence(a, b) && Subsequence(b, c)
    ensures Subsequence(a, c)
    decreases |c|
  {
    if a != [] {
      var c' := c[..|c| - 1];
      if Subsequence(b, c') {
        SubsequenceTransitive(a, b, c');
      } else if Subsequence(a, b[..|b| - 1]) {
        SubsequenceTransitive(a, b[..|b| - 1], c');
      } else {
        SubsequenceTransitive(a[..|a| - 1], b[..|b| - 1], c');
      }
    }
  }

  lemma {:induction false} SubsequencePrefix(a: seq<Item>, b: seq<Item>)
    ensures Subsequence(a, a + b)
  {
    if b != [] {
      SubsequencePrefix(a, b[..|b| - 1]);
      assert (a + b)[..|a + b| - 1] == a + b[..|b| - 1];
    } else {
      assert a + b == a;
      if a != [] { SubsequencePrefix(a[..|a| - 1], []); assert a[..|a| - 1] + [] == a[..|a| - 1]; }
    }
  }

  /** The messages that reached the socket or are being written to it. */
  function Written(s: State): (r: seq<Item>) {
    s.shipped + (if s.flush.Writing? then [s.flush.item] else [])
  }

  /** Whatever the interleaving: reliable messages written, being written and still queued are those enqueued,
      in order. */
  lemma ReliableInOrder(steps: seq<Step>)
    ensures Of(0, Written(Run(steps))) + Of(0, Items(Run(steps).entries)) == Of(0, Run(steps).enqueued)
  {
    var s := Run(steps);
    ReliableLine(steps);
    TakenAreWritten(steps);
    NotDroppedOfOthers(s.gone, 0);
    OfAppend(0, GoneItems(s.gone), Items(s.entries));
  }

  /** Whatever the interleaving: at most one message of a key is queued, and it is the latest enqueued one; the
      written ones are a subsequence of the enqueued ones; and the latest enqueued one is queued, written or dropped
      for its age. */
  lemma KeyedLatest(steps: seq<Step>, key: nat)
    requires key != 0
    ensures var s := Run(steps);
            var queued, enqueued, gone := Of(key, Items(s.entries)), Of(key, s.enqueued), Of(key, GoneItems(s.gone));
            && |queued| <= 1
            && (queued != [] ==> enqueued != [] && Last(enqueued) == queued[0])
            && Subsequence(Of(key, Written(s)), enqueued)
            && (queued == [] && enqueued != [] ==> gone != [] && Last(gone) == Last(enqueued))
  {
    var s := Run(steps);
    KeyInvariantHolds(steps, key);
    TakenAreWritten(steps);
    NotDroppedSubsequence(s.gone, key);
    OfAppend(key, GoneItems(s.gone), Items(s.entries));
    var gone, queued := Of(key, GoneItems(s.gone)), Of(key, Items(s.entries));
    SubsequencePrefix(gone, queued);
    SubsequenceTransitive(Of(key, Written(s)), gone, gone + queued);
    SubsequenceTransitive(Of(key, Written(s)), gone + queued, Of(key, s.enqueued));
    assert queued == [] ==> gone + queued == gone;
  }

  // ---------------------------------------------------------------- times of queued messages

  /** Everything that was enqueued, with the time of each enqueue. */
  function Stamped(steps: seq<Step>): (r: seq<Entry>) {
    if steps == [] then []
    else
      var before, step := Stamped(steps[..|steps| - 1]), steps[|steps| - 1];
      if step.Enqueue? then before + [Entry(step.item, step.now)] else before
  }

  /** The entries with one key, in order. */
  function EntriesOf(key: nat, entries: seq<Entry>): (r: seq<Entry>) {
    if entries == [] then []
    else (if entries[0].item.key == key then [entries[0]] else []) + EntriesOf(key, entries[1..])
  }

  lemma {:induction false} EntriesOfAppend(key: nat, a: seq<Entry>, b: seq<Entry>)
    ensures EntriesOf(key, a + b) == EntriesOf(key, a) + EntriesOf(key, b)
  {
    if a == [] {
      AppendNothing(b);
      AppendNothing(EntriesOf(key, b));
    } else {
      assert (a + b)[1..] == a[1..] + b;
      EntriesOfAppend(key, a[1..], b);
      Associative(if a[0].item.key == key then [a[0]] else [], EntriesOf(key, a[1..]), EntriesOf(key, b));
    }
  }

  lemma EntriesOfOne(key: nat, e: Entry)
    ensures EntriesOf(key, [e]) == if e.item.key == key then [e] else []
  {
    AppendNothing(if e.item.key == key then [e] else []);
  }

  lemma EntriesAround(key: nat, before: seq<Entry>, e: Entry, after: seq<Entry>)
    ensures EntriesOf(key, before + [e] + after)
         == EntriesOf(key, before) + (if e.item.key == key then [e] else []) + EntriesOf(key, after)
  {
    EntriesOfAppend(key, before + [e], after);
    EntriesOfAppend(key, before, [e]);
    EntriesOfOne(key, e);
  }

  lemma ReplacedAround(entries: seq<Entry>, i: nat, e: Entry)
    requires i < |entries|
    ensures entries == entries[..i] + [entries[i]] + entries[i + 1..]
    ensures entries[i := e] == entries[..i] + [e] + entries[i + 1..]
  {
  }

  lemma {:induction false} NoneOf(key: nat, entries: seq<Entry>)
    requires forall e :: e in entries ==> e.item.key != key
    ensures EntriesOf(key, entries) == []
  {
    if entries != [] {
      assert entries[0] in entries;
      NoneOf(key, entries[1..]);
    }
  }

  /** What an enqueue does to the queued entries of a key: a new entry with its own time replaces the queued one of
      its non-zero key, or goes to the end. */
  lemma EnqueuedOf(entries: seq<Entry>, item: Item, now: nat, key: nat)
    requires key != 0 ==> |EntriesOf(key, entries)| <= 1
    ensures EntriesOf(key, Enqueued(entries, item, now)) ==
            if item.key != key then EntriesOf(key, entries)
            else if key != 0 then [Entry(item, now)]
            else EntriesOf(key, entries) + [Entry(item, now)]
  {
    hide EntriesOf;
    var i, e := FindKey(entries, item.key), Entry(item, now);
    if item.key != 0 && i < |entries| {
      var before, after := entries[..i], entries[i + 1..];
      ReplacedAround(entries, i, e);
      EntriesAround(key, before, entries[i], after);
      EntriesAround(key, before, e, after);
      if item.key == key {
        assert EntriesOf(key, before) == [] && EntriesOf(key, after) == [];
      }
    } else {
      EntriesOfAppend(key, entries, [e]);
      EntriesOfOne(key, e);
      if item.key == key != 0 {
        NoneOf(key, entries);
        AppendNothing([e]);
      } else {
        AppendNothing(EntriesOf(key, entries));
      }
    }
  }

  ghost predicate Suffixes(last: seq<Entry>, all: seq<Entry>) {
    |last| <= |all| && all[|all| - |last|..] == last
  }

  lemma SuffixGrows(last: seq<Entry>, all: seq<Entry>, e: Entry)
    requires Suffixes(last, all)
    ensures Suffixes(last + [e], all + [e]) && Suffixes([e], all + [e])
  {
  }

  /** Whatever the interleaving: the queued entries of a key are the last ones enqueued with it, each with the time
      of its enqueue; of a non-zero key that is at most one. */
  lemma {:induction false} QueuedAsEnqueued(steps: seq<Step>, key: nat)
    ensures var queued := EntriesOf(key, Run(steps).entries);
            Suffixes(queued, EntriesOf(key, Stamped(steps))) && (key != 0 ==> |queued| <= 1)
  {
    if steps != [] {
      var before, step := steps[..|steps| - 1], steps[|steps| - 1];
      var s, stamped := Run(before), Stamped(before);
      QueuedAsEnqueued(before, key);
      if step.Enqueue? {
        var e := Entry(step.item, step.now);
        hide EntriesOf, Suffixes, Enqueued;
        EnqueuedOf(s.entries, step.item, step.now, key);
        EntriesOfAppend(key, stamped, [e]);
        EntriesOfOne(key, e);
        AppendNothing(EntriesOf(key, stamped));
        SuffixGrows(EntriesOf(key, s.entries), EntriesOf(key, stamped), e);
      } else if step.TakeFront? && s.flush.Between? && s.entries != [] {
        FirstTaken(key, s.entries, EntriesOf(key, stamped));
      }
    }
  }

  lemma FirstTaken(key: nat, entries: seq<Entry>, all: seq<Entry>)
    requires entries != [] && Suffixes(EntriesOf(key, entries), all)
    ensures Suffixes(EntriesOf(key, entries[1..]), all)
    ensures |EntriesOf(key, entries[1..])| <= |EntriesOf(key, entries)|
  {
  }

  lemma {:induction false} StampedAppend(a: seq<Step>, b: seq<Step>)
    ensures Stamped(a + b) == Stamped(a) + Stamped(b)
    decreases |b|
  {
    if b == [] {
      AppendNothing(a);
      AppendNothing(Stamped(a));
    } else {
      var before, step := b[..|b| - 1], b[|b| - 1];
      assert (a + b)[..|a + b| - 1] == a + before;
      StampedAppend(a, before);
      if step.Enqueue? {
        Associative(Stamped(a), Stamped(before), [Entry(step.item, step.now)]);
      }
    }
  }

  /** The number of critical sections among some steps. */
  function Sections(steps: seq<Step>): (n: nat) {
    if steps == [] then 0
    else Sections(steps[..|steps| - 1]) + (if steps[|steps| - 1].TakeFront? then 1 else 0)
  }

  lemma {:induction false} SectionsAppend(a: seq<Step>, b: seq<Step>)
    ensures Sections(a + b) == Sections(a) + Sections(b)
    decreases |b|
  {
    if b == [] {
      AppendNothing(a);
    } else {
      assert (a + b)[..|a + b| - 1] == a + b[..|b| - 1];
      SectionsAppend(a, b[..|b| - 1]);
    }
  }

  function AsEntries(arrivals: seq<Arrival>): (r: seq<Entry>) {
    if arrivals == [] then [] else [Entry(arrivals[0].item, arrivals[0].at)] + AsEntries(arrivals[1..])
  }

  /** What arrives before the first `n` critical sections. */
  function FirstArrivals(arrivals: seq<seq<Arrival>>, n: nat): (r: seq<Entry>) {
    if n == 0 || arrivals == [] then [] else AsEntries(arrivals[0]) + FirstArrivals(arrivals[1..], n - 1)
  }

  lemma {:induction false} ArrivalsStamped(arrivals: seq<Arrival>)
    ensures Stamped(Arrive(arrivals)) == AsEntries(arrivals) && Sections(Arrive(arrivals)) == 0
  {
    if arrivals != [] {
      var first := Enqueue(arrivals[0].item, arrivals[0].at);
      ArrivalsStamped(arrivals[1..]);
      StampedAppend([first], Arrive(arrivals[1..]));
      SectionsAppend([first], Arrive(arrivals[1..]));
      assert Stamped([first]) == [] + [Entry(arrivals[0].item, arrivals[0].at)];
    }
  }

  lemma SectionStamped(arrivals: seq<seq<Arrival>>, rest: seq<Step>)
    ensures Stamped(Section(arrivals) + rest) == FirstArrivals(arrivals, 1) + Stamped(rest)
    ensures Sections(Section(arrivals) + rest) == 1 + Sections(rest)
  {
    hide Arrive;
    var landing := if arrivals == [] then [] else Arrive(arrivals[0]);
    if arrivals != [] {
      ArrivalsStamped(arrivals[0]);
      AppendNothing(AsEntries(arrivals[0]));
    }
    StampedAppend(landing + [TakeFront], rest);
    SectionsAppend(landing + [TakeFront], rest);
    StampedAppend(landing, [TakeFront]);
    SectionsAppend(landing, [TakeFront]);
    assert Stamped([TakeFront]) == [] && Sections([TakeFront]) == 1;
    AppendNothing(Stamped(landing));
  }

  lemma WriteStamped(rest: seq<Step>)
    ensures Stamped([FinishWrite] + rest) == Stamped(rest) && Sections([FinishWrite] + rest) == Sections(rest)
  {
    StampedAppend([FinishWrite], rest);
    SectionsAppend([FinishWrite], rest);
    AppendNothing(Stamped(rest));
  }

  lemma MoreArrivals(arrivals: seq<seq<Arrival>>, n: nat)
    ensures FirstArrivals(arrivals, n + 1) ==
            FirstArrivals(arrivals, 1) + FirstArrivals(if arrivals == [] then [] else arrivals[1..], n)
  {
    if arrivals != [] {
      AppendNothing(AsEntries(arrivals[0]));
      assert FirstArrivals(arrivals[1..], 0) == [];
    }
  }

  /** What is enqueued in the run of a flush is exactly what arrives before its critical sections, in order and
      with its times. */
  lemma {:induction false} ArrivalsLand(entries: seq<Entry>, arrivals: seq<seq<Arrival>>, now: nat, maxAgeNs: nat,
                                        failing: nat)
    ensures var steps := FlushSteps(entries, arrivals, now, maxAgeNs, failing);
            Sections(steps) > 0 && Stamped(steps) == FirstArrivals(arrivals, Sections(steps))
    decreases |arrivals|, |entries|
  {
    hide Culled, Found, Section, Stamped, Sections, FirstArrivals;
    var queue := Found(entries, arrivals);
    Shorter(entries, arrivals);
    assert Stamped([]) == [] && Sections([]) == 0 by { NothingStamped(); }
    if queue == [] || (!Culled(queue[0], now, maxAgeNs) && failing == 0) {
      SectionStamped(arrivals, []);
      AppendNothing(FirstArrivals(arrivals, 1));
    } else if Culled(queue[0], now, maxAgeNs) {
      var rest := FlushSteps(queue[1..], Later(arrivals), now, maxAgeNs, failing);
      ArrivalsLand(queue[1..], Later(arrivals), now, maxAgeNs, failing);
      SectionStamped(arrivals, rest);
      MoreArrivals(arrivals, Sections(rest));
    } else {
      var rest := FlushSteps(queue[1..], Later(arrivals), now, maxAgeNs, failing - 1);
      ArrivalsLand(queue[1..], Later(arrivals), now, maxAgeNs, failing - 1);
      WriteStamped(rest);
      SectionStamped(arrivals, [FinishWrite] + rest);
      MoreArrivals(arrivals, Sections(rest));
    }
  }

  lemma NothingStamped()
    ensures Stamped([]) == [] && Sections([]) == 0
  {
  }

  /** The clock and the age limit of the last flush that was begun. */
  function LastBegun(steps: seq<Step>): (r: Option<(nat, nat)>) {
    if steps == [] then None
    else
      var before, step := steps[..|steps| - 1], steps[|steps| - 1];
      if step.BeginFlush? && Run(before).flush.Idle? then Some((step.now, step.maxAgeMs)) else LastBegun(before)
  }

  lemma {:induction false} FlushKeepsClock(steps: seq<Step>)
    ensures var flush, begun := Run(steps).flush, LastBegun(steps);
            !flush.Idle? ==>
              begun.Some? && flush.now == begun.value.0 && flush.maxAgeNs == begun.value.1 * NS_PER_MS
  {
    if steps != [] {
      FlushKeepsClock(steps[..|steps| - 1]);
    }
  }

  // ---------------------------------------------------------------- age culling

  /** Exactly which entries a flush drops. The subtraction wraps for an entry enqueued after the flush read its
      clock, so such an entry counts as ancient unless the clocks differ by almost the whole 64-bit range. */
  lemma CulledExactly(e: Entry, now: nat, maxAgeNs: nat)
    requires now < U64_LIMIT && e.enqueuedNs < U64_LIMIT
    ensures Culled(e, now, maxAgeNs) <==>
              && e.item.key != 0 && maxAgeNs > 0
              && (Stale(e, now, maxAgeNs) || (now < e.enqueuedNs && e.enqueuedNs - now < U64_LIMIT - maxAgeNs))
  {
  }

  /** Only stale entries are dropped if and only if the entry was enqueued no later than the flush read its
      clock (for a keyed entry, culling switched on, and clocks less than half the 64-bit range apart). */
  lemma CulledIffStale(e: Entry, now: nat, maxAgeMs: nat)
    requires now < U64_LIMIT && e.enqueuedNs < now + U64_LIMIT / 2 && 0 < maxAgeMs < U32_LIMIT && e.item.key != 0
    ensures (Culled(e, now, maxAgeMs * NS_PER_MS) <==> Stale(e, now, maxAgeMs * NS_PER_MS)) <==> e.enqueuedNs <= now
  {
  }

  /** The latest time any step has read. */
  function Clock(steps: seq<Step>): (now: nat) {
    if steps == [] then 0
    else match steps[|steps| - 1]
      case Enqueue(_, now) => now
      case BeginFlush(now, _) => now
      case _ => Clock(steps[..|steps| - 1])
  }

  /** Times never go back or out of range, and nothing is enqueued while a flush is under way. */
  ghost predicate Quiet(steps: seq<Step>) {
    steps != [] ==>
      var before := steps[..|steps| - 1];
      && Quiet(before)
      && Clock(before) <= Clock(steps) < U64_LIMIT
      && (steps[|steps| - 1].Enqueue? ==> Run(before).flush.Idle?)
  }

  ghost predicate EnqueuedBefore(entries: seq<Entry>, now: nat) {
    forall e :: e in entries ==> e.enqueuedNs <= now
  }

  /** In a run without enqueues during flushes, every message dropped for its age is over age. */
  lemma {:induction false} QuietRunsDropOnlyStale(steps: seq<Step>)
    requires Quiet(steps)
    ensures var s := Run(steps);
            && EnqueuedBefore(s.entries, Clock(steps))
            && (!s.flush.Idle? ==> s.flush.now <= Clock(steps) && EnqueuedBefore(s.entries, s.flush.now))
            && (forall g :: g in s.gone && g.dropped ==> g.stale)
  {
    if steps != [] {
      QuietRunsDropOnlyStale(steps[..|steps| - 1]);
    }
  }

  /** In such a run the front entry is dropped exactly if its message was enqueued, by its own enqueue step, more
      than the limit before the flush read its clock, and has a key. */
  lemma QuietDropsExactly(steps: seq<Step>)
    requires Quiet(steps) && Run(steps).flush.Between? && Run(steps).entries != []
    ensures var s, after := Run(steps), Run(steps + [TakeFront]);
            && LastBegun(steps).Some? && |after.gone| == |s.gone| + 1
            && var (clock, maxAgeMs), gone := LastBegun(steps).value, after.gone[|s.gone|];
               var sent := EntriesOf(gone.item.key, Stamped(steps));
               && gone.item == s.entries[0].item
               && (gone.dropped ==> gone.item.key != 0)
               && (gone.item.key != 0 ==>
                     && sent != [] && sent[|sent| - 1].item == gone.item
                     && (gone.dropped <==> maxAgeMs > 0 && sent[|sent| - 1].enqueuedNs + maxAgeMs * NS_PER_MS < clock))
  {
    var s := Run(steps);
    var e := s.entries[0];
    RunThen(steps, TakeFront);
    FlushKeepsClock(steps);
    QuietRunsDropOnlyStale(steps);
    hide Run, Stamped, LastBegun, Quiet;
    QueuedAsEnqueued(steps, e.item.key);
    assert e in s.entries && EntriesOf(e.item.key, s.entries)[0] == e;
  }

  /** A snapshot enqueued while a flush is under way, one nanosecond after it began, is dropped instead of sent. */
  lemma FreshSnapshotDropped(key: nat, bytes: seq<Byte>, now: nat, maxAgeMs: nat)
    requires key != 0 && now + 1 < U64_LIMIT && 0 < maxAgeMs < U32_LIMIT
    ensures var steps := [BeginFlush(now, maxAgeMs), Enqueue(Item(key, bytes), now + 1), TakeFront];
            Run(steps).gone == [Gone(Item(key, bytes), true, false)] && Run(steps).entries == []
  {
    var begin, enqueue := BeginFlush(now, maxAgeMs), Enqueue(Item(key, bytes), now + 1);
    var steps := [begin, enqueue, TakeFront];
    assert [begin][..0] == [] && [begin, enqueue][..1] == [begin] && steps[..2] == [begin, enqueue];
    assert Run([]) == START;
    assert Run([begin]) == START.(flush := Between(now, maxAgeMs * NS_PER_MS));
    assert Run([begin, enqueue]).entries == [Entry(Item(key, bytes), now + 1)];
  }

  /** Replacement does not move a message to the back: the newer snapshot still goes out before the older event. */
  lemma ReplacementKeepsPosition(key: nat, older: seq<Byte>, newer: seq<Byte>, event: seq<Byte>, t: nat)
    requires key != 0
    ensures Items(Run([Enqueue(Item(key, older), t), Enqueue(Item(0, event), t), Enqueue(Item(key, newer), t)]).entries)
         == [Item(key, newer), Item(0, event)]
  {
    var a, b, c := Enqueue(Item(key, older), t), Enqueue(Item(0, event), t), Enqueue(Item(key, newer), t);
    assert [a][..0] == [] && [a, b][..1] == [a] && [a, b, c][..2] == [a, b];
    assert Run([]) == START;
    assert Run([a]).entries == [Entry(Item(key, older), t)];
    assert Run([a, b]).entries == [Entry(Item(key, older), t), Entry(Item(0, event), t)];
    assert FindKey(Run([a, b]).entries, key) == 0;
  }
}
