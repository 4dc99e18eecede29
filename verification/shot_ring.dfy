/**
  The shot debugger's ring of the 30 most recent shots: a client's view and the server's view of one
  shot arrive separately, in either order, and are paired by the shot's input tick.
 */
module ShotRing {
  import opened Wrappers

  const RING_MAX := 30

  /** A report about a shot, with its other fields as one value. */
  datatype Capture = Capture(tick: nat, view: int)

  datatype Pair = Pair(tick: nat, client: Option<Capture>, server: Option<Capture>)

  const EMPTY_PAIR := Pair(0, None, None)

  datatype Side = Client | Server

  function WithView(p: Pair, side: Side, cap: Capture): (r: Pair)
    ensures r.tick == p.tick && (r.client.Some? || r.server.Some?)
  {
    if side.Client? then p.(client := Some(cap)) else p.(server := Some(cap))
  }

  // ---------------------------------------------------------------- the list of recent shots

  /** Index of the pair with a tick in a newest-first list. */
  function FindTick(shots: seq<Pair>, tick: nat): (i: nat)
    ensures i <= |shots|
    ensures i < |shots| ==> shots[i].tick == tick
    ensures forall j :: 0 <= j < i ==> shots[j].tick != tick
  {
    if shots == [] || shots[0].tick == tick then 0 else 1 + FindTick(shots[1..], tick)
  }

  function Newest(shots: seq<Pair>): (r: seq<Pair>)
    ensures r <= shots && |r| <= RING_MAX
  {
    if |shots| <= RING_MAX then shots else shots[..RING_MAX]
  }

  /** A report completes the pair of its tick, or starts a new pair and pushes out the oldest. */
  function Pushed(shots: seq<Pair>, side: Side, cap: Capture): (r: seq<Pair>) {
    var i := FindTick(shots, cap.tick);
    if i < |shots| then shots[i := WithView(shots[i], side, cap)]
    else Newest([WithView(Pair(cap.tick, None, None), side, cap)] + shots)
  }

  ghost predicate DistinctTicks(shots: seq<Pair>) {
    forall i, j :: 0 <= i < j < |shots| ==> shots[i].tick != shots[j].tick
  }

  lemma PushKeepsDistinct(shots: seq<Pair>, side: Side, cap: Capture)
    requires DistinctTicks(shots)
    ensures DistinctTicks(Pushed(shots, side, cap))
  {
    var i := FindTick(shots, cap.tick);
    if i == |shots| {
      var all := [WithView(Pair(cap.tick, None, None), side, cap)] + shots;
      assert forall j :: 1 <= j < |all| ==> all[j] == shots[j - 1];
    }
  }

  lemma FindTickAfterUpdate(shots: seq<Pair>, p: Pair)
    requires FindTick(shots, p.tick) < |shots|
    ensures FindTick(shots[FindTick(shots, p.tick) := p], p.tick) == FindTick(shots, p.tick)
  {
    var i := FindTick(shots, p.tick);
    var k := FindTick(shots[i := p], p.tick);
    assert shots[i := p][i] == p;
  }

  /** Both reports of a shot give the same list in either order. */
  lemma ReportsCommute(shots: seq<Pair>, client: Capture, server: Capture)
    requires client.tick == server.tick
    ensures Pushed(Pushed(shots, Client, client), Server, server)
         == Pushed(Pushed(shots, Server, server), Client, client)
  {
    var i := FindTick(shots, client.tick);
    if i < |shots| {
      FindTickAfterUpdate(shots, WithView(shots[i], Client, client));
      FindTickAfterUpdate(shots, WithView(shots[i], Server, server));
    } else {
      var one, other := Pushed(shots, Client, client), Pushed(shots, Server, server);
      assert FindTick(one, client.tick) == 0 && FindTick(other, client.tick) == 0;
    }
  }

  datatype Report = Report(side: Side, cap: Capture)

  function Shots(reports: seq<Report>): (shots: seq<Pair>) {
    if reports == [] then []
    else var r := reports[|reports| - 1]; Pushed(Shots(reports[..|reports| - 1]), r.side, r.cap)
  }

  /** The ticks for which a pair was started, newest first. */
  function Created(reports: seq<Report>): (ticks: seq<nat>) {
    if reports == [] then []
    else
      var before, tick := reports[..|reports| - 1], reports[|reports| - 1].cap.tick;
      if FindTick(Shots(before), tick) < |Shots(before)| then Created(before) else [tick] + Created(before)
  }

  /** After any reports the list holds, newest first, the 30 most recently created ticks, all different. */
  lemma {:induction false} RecentTicks(reports: seq<Report>)
    ensures var shots, created := Shots(reports), Created(reports);
            && |shots| == (if |created| < RING_MAX then |created| else RING_MAX)
            && (forall i :: 0 <= i < |shots| ==> shots[i].tick == created[i])
            && DistinctTicks(shots)
  {
    if reports != [] {
      var before, r := reports[..|reports| - 1], reports[|reports| - 1];
      RecentTicks(before);
      PushKeepsDistinct(Shots(before), r.side, r.cap);
    }
  }

  ghost predicate Listed(shots: seq<Pair>, tick: nat) {
    exists i :: 0 <= i < |shots| && shots[i].tick == tick
  }

  /** The last report one side made about a tick since the tick was last entered in the list. */
  ghost function LastReport(reports: seq<Report>, side: Side, tick: nat): (cap: Option<Capture>) {
    if reports == [] then None
    else
      var before, r := reports[..|reports| - 1], reports[|reports| - 1];
      if r.cap.tick == tick && r.side == side then Some(r.cap)
      else if r.cap.tick == tick && !Listed(Shots(before), tick) then None
      else LastReport(before, side, tick)
  }

  /** Each listed shot shows, for either side, that side's last report about it, or nothing if there is none. */
  lemma {:induction false} ViewsAreLastReports(reports: seq<Report>, i: nat)
    requires i < |Shots(reports)|
    ensures var p := Shots(reports)[i];
            p.client == LastReport(reports, Client, p.tick) && p.server == LastReport(reports, Server, p.tick)
  {
    var before, r := reports[..|reports| - 1], reports[|reports| - 1];
    var shots := Shots(before);
    var k := FindTick(shots, r.cap.tick);
    RecentTicks(before);
    assert Listed(shots, r.cap.tick) <==> k < |shots|;
    if k < |shots| {
      ViewsAreLastReports(before, i);
    } else if i > 0 {
      assert Shots(reports)[i] == shots[i - 1];
      ViewsAreLastReports(before, i - 1);
    }
  }

  // ---------------------------------------------------------------- the ring

  /** Slot of the newest pair but `i`: the walk of the table and the overlay. */
  function Slot(head: nat, i: nat): (idx: nat)
    requires head < RING_MAX && i < RING_MAX
    ensures idx < RING_MAX
  {
    (head + RING_MAX - 1 - i) % 30
  }

  /** Slots fill from 0 on, so while the ring is not full the live slots are those below `head`; `count` slots
      are live. */
  ghost predicate ValidRing(ring: seq<Pair>, head: nat, count: nat) {
    && |ring| == RING_MAX && head < RING_MAX && count <= RING_MAX
    && (count < RING_MAX ==> head == count)
    && (forall i :: 0 <= i < count ==> ring[i].client.Some? || ring[i].server.Some?)
  }

  /** The pairs the newest-first walk lists. */
  function Walk(ring: seq<Pair>, head: nat, count: nat): (shots: seq<Pair>)
    requires |ring| == RING_MAX && head < RING_MAX && count <= RING_MAX
    ensures |shots| == count
    ensures forall i :: 0 <= i < count ==> shots[i] == ring[Slot(head, i)]
  {
    seq(count, i requires 0 <= i < count => ring[Slot(head, i)])
  }

  lemma RingShape(ring: seq<Pair>, head: nat, count: nat)
    requires ValidRing(ring, head, count)
    ensures |ring| == RING_MAX && head < RING_MAX && count <= RING_MAX
  {
  }

  /** Where the walk lists a live slot. */
  lemma WalkLists(ring: seq<Pair>, head: nat, count: nat, idx: nat) returns (i: nat)
    requires ValidRing(ring, head, count) && idx < count
    ensures i < count && Slot(head, i) == idx && Walk(ring, head, count)[i] == ring[idx]
    ensures forall j :: 0 <= j < count && j != i ==> Slot(head, j) != idx
  {
    i := if idx < head then head - 1 - idx else head + RING_MAX - 1 - idx;
  }

  /** Writing a live slot changes that pair of the list. */
  lemma UpdateLive(ring: seq<Pair>, head: nat, count: nat, idx: nat, p: Pair)
    requires ValidRing(ring, head, count) && idx < count
    requires (p.client.Some? || p.server.Some?) && p.tick == ring[idx].tick
    requires DistinctTicks(Walk(ring, head, count))
    ensures ValidRing(ring[idx := p], head, count)
    ensures var shots, i := Walk(ring, head, count), FindTick(Walk(ring, head, count), p.tick);
            i < count && shots[i] == ring[idx] && Walk(ring[idx := p], head, count) == shots[i := p]
  {
    var shots := Walk(ring, head, count);
    var k := WalkLists(ring, head, count, idx);
    var i := FindTick(shots, p.tick);
    assert i == k by {
      assert shots[k].tick == p.tick;
    }
  }

  lemma SlotsAfterClaim(head: nat, i: nat)
    requires head < RING_MAX && 0 < i < RING_MAX
    ensures Slot((head + 1) % RING_MAX, 0) == head
    ensures Slot((head + 1) % RING_MAX, i) == Slot(head, i - 1) != head
  {
  }

  lemma ClaimKeepsValid(ring: seq<Pair>, head: nat, count: nat, p: Pair)
    requires ValidRing(ring, head, count) && (p.client.Some? || p.server.Some?)
    ensures ValidRing(ring[head := p], (head + 1) % RING_MAX, if count < RING_MAX then count + 1 else count)
  {
  }

  lemma WalkAfterClaim(ring: seq<Pair>, head: nat, count: nat, p: Pair, i: nat)
    requires |ring| == RING_MAX && head < RING_MAX && i <= count <= RING_MAX && i < RING_MAX
    ensures ring[head := p][Slot((head + 1) % RING_MAX, i)] == ([p] + Walk(ring, head, count))[i]
  {
    hide Slot;
    SlotsAfterClaim(head, if i == 0 then 1 else i);
  }

  /** Writing the head slot puts a pair in front of the list and drops the oldest if the ring was full. */
  lemma ClaimHead(ring: seq<Pair>, head: nat, count: nat, p: Pair)
    requires ValidRing(ring, head, count) && (p.client.Some? || p.server.Some?)
    ensures var count' := if count < RING_MAX then count + 1 else count;
            && ValidRing(ring[head := p], (head + 1) % RING_MAX, count')
            && Walk(ring[head := p], (head + 1) % RING_MAX, count') == Newest([p] + Walk(ring, head, count))
  {
    var head', count' := (head + 1) % RING_MAX, if count < RING_MAX then count + 1 else count;
    RingShape(ring, head, count);
    ClaimKeepsValid(ring, head, count, p);
    hide Slot, ValidRing;
    var all, after := [p] + Walk(ring, head, count), Walk(ring[head := p], head', count');
    forall i | 0 <= i < count' ensures after[i] == all[i] {
      WalkAfterClaim(ring, head, count, p, i);
    }
  }

  class ShotRing {
    const ring: array<Pair>
    var head: nat   // next slot to write
    var count: nat  // live slots

    ghost predicate Valid()
      reads this, ring
    {
      ValidRing(ring[..], head, count) && DistinctTicks(Contents())
    }

    ghost function Contents(): (shots: seq<Pair>)
      reads this, ring
      requires ValidRing(ring[..], head, count)
    {
      Walk(ring[..], head, count)
    }

    constructor ()
      ensures Valid() && fresh(ring) && Contents() == []
    {
      ring := new Pair[RING_MAX](_ => EMPTY_PAIR);
      head, count := 0, 0;
    }

    method FindShotPairByTick(tick: nat) returns (idx: int)
      requires Valid()
      ensures -1 <= idx < count
      ensures idx >= 0 ==> ring[idx].tick == tick
      ensures idx < 0 <==> FindTick(Contents(), tick) == count
    {
      var n := if count < RING_MAX then count else RING_MAX;
      for i := 0 to n
        invariant forall j :: 0 <= j < i ==> ring[j].tick != tick
      {
        if ring[i].tick == tick && (ring[i].client.Some? || ring[i].server.Some?) {
          ghost var k := WalkLists(ring[..], head, count, i);
          return i;
        }
      }
      return -1;
    }

    /** A client's or a server's report. */
    method Push(side: Side, cap: Capture)
      requires Valid()
      modifies this, ring
      ensures Valid() && Contents() == Pushed(old(Contents()), side, cap)
    {
      hide Walk, Slot, WithView, DistinctTicks, FindTick, ValidRing, Newest;
      assert |ring[..]| == RING_MAX && head < RING_MAX && count <= RING_MAX by { RingShape(ring[..], head, count); }
      ghost var slots, shots := ring[..], Contents();
      PushKeepsDistinct(shots, side, cap);
      var idx := FindShotPairByTick(cap.tick);
      if idx < 0 {
        idx := head;
        ring[idx] := EMPTY_PAIR;
        ring[idx] := ring[idx].(tick := cap.tick);
        ClaimHead(slots, head, count, WithView(ring[idx], side, cap));
        head := (head + 1) % RING_MAX;
        if count < RING_MAX {
          count := count + 1;
        }
      } else {
        UpdateLive(slots, head, count, idx, WithView(ring[idx], side, cap));
      }
      ring[idx] := WithView(ring[idx], side, cap);
      assert ring[..] == slots[idx := ring[idx]];
    }
  }
}
