/**
  Reassembly of fragmented datagrams in the global directory: fragments of one packet share a key,
  arrive in any order, possibly repeated and interleaved with those of other packets.
 */
module Fragments {
  import opened Bytes
  import opened Wrappers

  const MAX_FRAGMENT_SETS := 2048
  const FRAGMENT_TTL_SECONDS := 3.0

  datatype Addr = Addr(host: string, port: nat)

  datatype Key = Key(addr: Addr, kind: nat, connectionId: nat, channel: nat, sequence: nat, fragmentGroup: nat)

  datatype FragmentSet = FragmentSet(count: nat, firstSeen: real, parts: map<nat, seq<Byte>>)

  type Table = map<Key, FragmentSet>

  /** One fragment with its time of arrival. */
  datatype Fragment = Fragment(key: Key, index: nat, count: nat, payload: seq<Byte>, now: real) {
    predicate WellNumbered() {
      index < count
    }
  }

  /** Rejected stands for an exception, which drops the packet. */
  datatype Outcome = Rejected | Waiting | Complete(payload: seq<Byte>)

  /** The parts with indices below `n`, joined in index order. */
  function Join(parts: map<nat, seq<Byte>>, n: nat): (s: seq<Byte>)
    requires forall i: nat :: i < n ==> i in parts
  {
    if n == 0 then [] else Join(parts, n - 1) + parts[n - 1]
  }

  /** Every stored set lacks at least one part, and its parts are numbered below its count. */
  ghost predicate Incomplete(s: FragmentSet) {
    0 < |s.parts| < s.count && forall i :: i in s.parts ==> i < s.count
  }

  ghost predicate ValidTable(table: Table) {
    |table| <= MAX_FRAGMENT_SETS && forall k :: k in table ==> Incomplete(table[k])
  }

  lemma {:induction false} CountBelow(s: set<nat>, n: nat)
    requires forall i :: i in s ==> i < n
    ensures |s| <= n
    ensures |s| == n ==> forall i: nat :: i < n ==> i in s
  {
    if n > 0 {
      var t := s - {n - 1};
      CountBelow(t, n - 1);
      if n - 1 in s {
        assert |t| == |s| - 1;
        assert forall i: nat :: i < n - 1 && i in t ==> i in s;
      } else {
        assert t == s;
      }
    } else {
      assert s == {};
    }
  }

  /** The set a fragment is added to, if there is one with the same count. */
  function Existing(table: Table, f: Fragment): (r: FragmentSet) {
    if f.key in table && table[f.key].count == f.count then table[f.key] else FragmentSet(f.count, f.now, map[])
  }

  /** The set with the fragment in it; the first payload for an index stays. */
  function Extended(table: Table, f: Fragment): (r: FragmentSet) {
    var existing := Existing(table, f);
    if f.index in existing.parts then existing else existing.(parts := existing.parts[f.index := f.payload])
  }

  ghost predicate TableFull(table: Table, f: Fragment) {
    f.key !in table && |table| >= MAX_FRAGMENT_SETS
  }

  lemma ExtendedParts(table: Table, f: Fragment)
    requires ValidTable(table) && f.WellNumbered()
    ensures var parts := Extended(table, f).parts;
            && (forall i :: i in parts ==> i < f.count)
            && 0 < |parts| <= f.count
            && (|parts| == f.count ==> forall i: nat :: i < f.count ==> i in parts)
  {
    var parts := Extended(table, f).parts;
    assert f.index in parts;
    assert |parts| == |parts.Keys|;
    CountBelow(parts.Keys, f.count);
  }

  /** What one fragment does to the table, and what it yields. */
  ghost function Arrive(table: Table, f: Fragment): (r: (Table, Outcome))
    requires ValidTable(table)
    ensures ValidTable(r.0)
  {
    if !f.WellNumbered() || TableFull(table, f) then (table, Rejected)
    else
      var extended := Extended(table, f);
      ExtendedParts(table, f);
      if |extended.parts| == f.count then (table - {f.key}, Complete(Join(extended.parts, f.count)))
      else
        var r := table[f.key := extended];
        assert r.Keys == table.Keys + {f.key};
        assert |r| == |r.Keys| && |table| == |table.Keys|;
        (r, Waiting)
  }

  /** What pruning keeps. */
  function LiveFragments(fragments: Table, now: real): (r: Table) {
    map k | k in fragments && now - fragments[k].firstSeen <= FRAGMENT_TTL_SECONDS :: fragments[k]
  }

  lemma SubmapSize<K, V>(small: map<K, V>, m: map<K, V>)
    requires small.Keys <= m.Keys
    ensures |small| <= |m|
  {
    SubsetSize(small.Keys, m.Keys);
    assert |small| == |small.Keys| && |m| == |m.Keys|;
  }

  lemma {:induction false} SubsetSize<K>(a: set<K>, b: set<K>)
    requires a <= b
    ensures |a| <= |b|
  {
    assert b == a + (b - a);
  }

  lemma LiveFragmentsValid(fragments: Table, now: real)
    requires ValidTable(fragments)
    ensures ValidTable(LiveFragments(fragments, now))
  {
    SubmapSize(LiveFragments(fragments, now), fragments);
  }

  // ---------------------------------------------------------------- runs

  /** A fragment arrives, or the table is pruned. */
  datatype Happening = Came(fragment: Fragment) | Swept(now: real)

  ghost function TableAfter(table: Table, happenings: seq<Happening>): (r: Table)
    requires ValidTable(table)
    ensures ValidTable(r)
  {
    if happenings == [] then table
    else
      var before := TableAfter(table, happenings[..|happenings| - 1]);
      match happenings[|happenings| - 1]
      case Came(f) => Arrive(before, f).0
      case Swept(now) => LiveFragmentsValid(before, now); LiveFragments(before, now)
  }

  /** The payload that arrived first for each index of a packet. */
  function FirstReceived(happenings: seq<Happening>, key: Key): (parts: map<nat, seq<Byte>>) {
    if happenings == [] then map[]
    else
      var before := FirstReceived(happenings[..|happenings| - 1], key);
      match happenings[|happenings| - 1]
      case Swept(_) => before
      case Came(f) =>
        if f.key == key && f.index < f.count && f.index !in before then before[f.index := f.payload] else before
  }

  /** When the first of the packet's fragments arrived. */
  function FirstArrival(happenings: seq<Happening>, key: Key): (time: Option<real>) {
    if happenings == [] then None
    else
      var before, last := FirstArrival(happenings[..|happenings| - 1], key), happenings[|happenings| - 1];
      if before.None? && last.Came? && last.fragment.key == key && last.fragment.index < last.fragment.count
      then Some(last.fragment.now) else before
  }

  /** The packet's fragments agree on their count, there was room for it when they came, and every pruning since the
      first came within 3 seconds of it. */
  ghost predicate Accepted(table: Table, happenings: seq<Happening>, key: Key, count: nat)
    requires ValidTable(table)
  {
    happenings != [] ==>
      var before := happenings[..|happenings| - 1];
      && Accepted(table, before, key, count)
      && match happenings[|happenings| - 1]
         case Came(f) =>
           f.key == key && f.index < f.count ==>
             f.count == count && (key in TableAfter(table, before) || |TableAfter(table, before)| < MAX_FRAGMENT_SETS)
         case Swept(now) =>
           var first := FirstArrival(before, key);
           first.Some? ==> now - first.value <= FRAGMENT_TTL_SECONDS
  }

  ghost predicate HasAll(parts: map<nat, seq<Byte>>, count: nat) {
    forall i: nat :: i < count ==> i in parts
  }

  lemma {:induction false} FirstReceivedBelow(table: Table, happenings: seq<Happening>, key: Key, count: nat)
    requires ValidTable(table) && Accepted(table, happenings, key, count)
    ensures forall i :: i in FirstReceived(happenings, key) ==> i < count
    ensures FirstReceived(happenings, key) == map[] <==> FirstArrival(happenings, key).None?
  {
    if happenings != [] {
      FirstReceivedBelow(table, happenings[..|happenings| - 1], key, count);
    }
  }

  /** Fragments of other packets do not touch a packet's parts. */
  lemma OtherPacketsUntouched(table: Table, f: Fragment, key: Key)
    requires ValidTable(table) && f.key != key
    ensures var after := Arrive(table, f).0;
            (key in after <==> key in table) && (key in table ==> after[key] == table[key])
  {
    hide Extended, Join, TableFull;
  }

  lemma AllPartsCount(parts: map<nat, seq<Byte>>, count: nat)
    requires HasAll(parts, count) && forall i :: i in parts ==> i < count
    ensures |parts| == count
  {
    assert parts.Keys == Below(count);
  }

  function Below(n: nat): (s: set<nat>)
    ensures |s| == n && forall i: nat :: i in s <==> i < n
  {
    if n == 0 then {} else Below(n - 1) + {n - 1}
  }

  lemma BadFragmentIgnored(table: Table, f: Fragment)
    requires ValidTable(table) && (!f.WellNumbered() || TableFull(table, f))
    ensures Arrive(table, f) == (table, Rejected)
  {
  }

  lemma GoodFragmentTaken(table: Table, f: Fragment)
    requires ValidTable(table) && f.WellNumbered() && !TableFull(table, f)
    ensures var extended := Extended(table, f);
            if |extended.parts| == f.count
            then HasAll(extended.parts, f.count)
              && Arrive(table, f) == (table - {f.key}, Complete(Join(extended.parts, f.count)))
            else Arrive(table, f) == (table[f.key := extended], Waiting)
  {
    ExtendedParts(table, f);
    hide Extended, ValidTable;
  }

  /** What a fragment that is taken does to its own packet. */
  lemma ArriveExactly(table: Table, f: Fragment)
    requires ValidTable(table) && f.index < f.count && (f.key in table || |table| < MAX_FRAGMENT_SETS)
    ensures var parts := Extended(table, f).parts;
            Arrive(table, f) == if HasAll(parts, f.count) then (table - {f.key}, Complete(Join(parts, f.count)))
                                else (table[f.key := Extended(table, f)], Waiting)
  {
    var parts := Extended(table, f).parts;
    ExtendedParts(table, f);
    hide Extended;
    if HasAll(parts, f.count) {
      AllPartsCount(parts, f.count);
    }
  }

  /** As long as a part is missing, the table holds exactly the first-received parts of the packet, from the time
      the first of them came. */
  lemma {:induction false} StoredParts(table: Table, happenings: seq<Happening>, key: Key, count: nat)
    requires ValidTable(table) && key !in table && Accepted(table, happenings, key, count)
    requires !HasAll(FirstReceived(happenings, key), count)
    ensures var parts, after := FirstReceived(happenings, key), TableAfter(table, happenings);
            if parts == map[] then key !in after
            else
              && key in after && after[key].count == count && after[key].parts == parts
              && FirstArrival(happenings, key) == Some(after[key].firstSeen)
  {
    if happenings != [] {
      var before, last := happenings[..|happenings| - 1], happenings[|happenings| - 1];
      var previous := TableAfter(table, before);
      hide Arrive;
      StoredParts(table, before, key, count);
      FirstReceivedBelow(table, before, key, count);
      FirstReceivedBelow(table, happenings, key, count);
      if last.Came? {
        var f := last.fragment;
        if f.key != key {
          OtherPacketsUntouched(previous, f, key);
        } else if f.index < f.count {
          ArriveExactly(previous, f);
          assert Extended(previous, f).parts == FirstReceived(happenings, key);
        } else {
          assert Arrive(previous, f).0 == previous by { BadFragmentIgnored(previous, f); }
        }
      }
    }
  }

  /** Under any order, interleaving and repetition, and any prunings in time: a fragment yields the packet, joined in
      index order from the parts that arrived first, exactly when it brings the last missing part; before that every
      fragment of the packet yields nothing. */
  lemma Reassembly(table: Table, earlier: seq<Happening>, f: Fragment)
    requires ValidTable(table) && f.key !in table && f.index < f.count
    requires Accepted(table, earlier + [Came(f)], f.key, f.count)
    requires !HasAll(FirstReceived(earlier, f.key), f.count)
    ensures var parts := FirstReceived(earlier + [Came(f)], f.key);
            var r := Arrive(TableAfter(table, earlier), f);
            && (HasAll(parts, f.count) ==> r.1 == Complete(Join(parts, f.count)) && f.key !in r.0)
            && (!HasAll(parts, f.count) ==> r.1 == Waiting)
  {
    var all := earlier + [Came(f)];
    assert all[..|all| - 1] == earlier && all[|all| - 1] == Came(f);
    StoredParts(table, earlier, f.key, f.count);
    var previous := TableAfter(table, earlier);
    var parts := Extended(previous, f).parts;
    assert parts == FirstReceived(all, f.key);
    hide Arrive;
    ArriveExactly(previous, f);
  }
}
