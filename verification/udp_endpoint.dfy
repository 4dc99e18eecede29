/**
  The sending side of fragmented datagrams, and its partner on the directory's side: a packet too large for one
  datagram is cut into parts, and however its datagrams are repeated, reordered and mixed with others, the
  directory handles exactly that packet, once the last missing part is there.
 */
module UdpEndpoint {
  import opened Bytes
  import opened DirectoryServer
  import opened Fragments
  import opened Wrappers

  const MAX_FRAGMENTS := 255

  function PartCount(size: nat): (n: nat) {
    (size + G2_MAX_PAYLOAD_BYTES - 1) / 1164
  }

  function PartEnd(data: seq<Byte>, i: nat): (end: nat)
    ensures end <= |data|
  {
    if (i + 1) * G2_MAX_PAYLOAD_BYTES <= |data| then (i + 1) * G2_MAX_PAYLOAD_BYTES else |data|
  }

  /** The bytes fragment `i` carries. */
  function Part(data: seq<Byte>, i: nat): (part: seq<Byte>)
    requires i * G2_MAX_PAYLOAD_BYTES <= |data|
    ensures |part| <= G2_MAX_PAYLOAD_BYTES
  {
    data[i * G2_MAX_PAYLOAD_BYTES..PartEnd(data, i)]
  }

  lemma PartsStartInside(size: nat, i: nat)
    requires i < PartCount(size)
    ensures i * G2_MAX_PAYLOAD_BYTES < size
  {
  }

  /** `flags | 0x01` */
  function Fragmented(flags: nat): (r: nat) {
    if flags % 2 == 0 then flags + 1 else flags
  }

  function FragmentHeader(h: Header, i: nat, count: nat): (r: Header) {
    h.(flags := Fragmented(h.flags), fragmentInfo := i * 256 + count)
  }

  function FragmentDatagram(h: Header, data: seq<Byte>, i: nat): (datagram: seq<Byte>)
    requires i < PartCount(|data|)
  {
    PartsStartInside(|data|, i);
    PackHeader(FragmentHeader(h, i, PartCount(|data|))) + Part(data, i)
  }

  /** The datagram of a packet that needs no cutting. */
  function WholeDatagram(h: Header, data: seq<Byte>): (datagram: seq<Byte>) {
    PackHeader(h.(flags := 0, fragmentInfo := 0)) + data
  }

  function Copies(datagram: seq<Byte>, n: nat): (r: seq<seq<Byte>>)
    ensures |r| == n
  {
    seq(n, _ => datagram)
  }

  /** The datagrams of the first `n` fragments, each `redundancy` times. */
  function FragmentDatagrams(h: Header, data: seq<Byte>, n: nat, redundancy: nat): (r: seq<seq<Byte>>)
    requires n <= PartCount(|data|)
  {
    if n == 0 then []
    else FragmentDatagrams(h, data, n - 1, redundancy) + Copies(FragmentDatagram(h, data, n - 1), redundancy)
  }

  /** The datagrams are those of the fragments in order, each as often as asked. */
  lemma {:induction false} FragmentDatagramAt(h: Header, data: seq<Byte>, n: nat, redundancy: nat, i: nat, at: nat)
    requires i < n <= PartCount(|data|) && i * redundancy <= at < (i + 1) * redundancy
    ensures var all := FragmentDatagrams(h, data, n, redundancy);
            |all| == n * redundancy && at < |all| && all[at] == FragmentDatagram(h, data, i)
  {
    hide FragmentDatagram;
    var before := FragmentDatagrams(h, data, n - 1, redundancy);
    assert n * redundancy == (n - 1) * redundancy + redundancy;
    if n == 1 {
      assert before == [] && i == 0;
    } else if i < n - 1 {
      FragmentDatagramAt(h, data, n - 1, redundancy, i, at);
    } else {
      FragmentDatagramAt(h, data, n - 1, redundancy, 0, 0);
    }
  }

  lemma OneMoreCopy(datagram: seq<Byte>, n: nat)
    ensures Copies(datagram, n + 1) == Copies(datagram, n) + [datagram]
  {
  }

  lemma NoDatagrams(h: Header, data: seq<Byte>, redundancy: nat)
    ensures FragmentDatagrams(h, data, 0, redundancy) == []
    ensures forall datagram :: Copies(datagram, 0) == []
  {
  }

  lemma FragmentsStep(h: Header, data: seq<Byte>, i: nat, redundancy: nat)
    requires i < PartCount(|data|)
    ensures var before, datagram := FragmentDatagrams(h, data, i, redundancy), FragmentDatagram(h, data, i);
            && before + Copies(datagram, 0) == before
            && FragmentDatagrams(h, data, i + 1, redundancy) == before + Copies(datagram, redundancy)
  {
    hide FragmentDatagram;
  }

  lemma PrefixOfPrefix<T>(a: seq<T>, b: seq<T>, c: seq<T>)
    requires a <= b <= c
    ensures a <= c
  {
  }

  lemma PrefixGrows<T>(a: seq<T>, b: seq<T>, more: seq<T>)
    requires a <= b
    ensures a <= b + more
  {
  }

  lemma {:induction false} MoreFragments(h: Header, data: seq<Byte>, n: nat, m: nat, redundancy: nat)
    requires n <= m <= PartCount(|data|)
    ensures FragmentDatagrams(h, data, n, redundancy) <= FragmentDatagrams(h, data, m, redundancy)
    decreases m
  {
    hide FragmentDatagram, Copies;
    if n < m {
      MoreFragments(h, data, n, m - 1, redundancy);
      PrefixGrows(FragmentDatagrams(h, data, n, redundancy), FragmentDatagrams(h, data, m - 1, redundancy),
                  Copies(FragmentDatagram(h, data, m - 1), redundancy));
    }
  }

  lemma CopiesAreFirst(sent: seq<seq<Byte>>, datagram: seq<Byte>, n: nat, redundancy: nat)
    requires n <= redundancy
    ensures sent + Copies(datagram, n) <= sent + Copies(datagram, redundancy)
  {
  }

  /** `sent` are the datagrams handed to the socket and `outcomes` what the socket says to each. */
  method SendFragmented(h: Header, data: seq<Byte>, redundancy: int, outcomes: nat -> bool)
      returns (ok: bool, sent: seq<seq<Byte>>)
    ensures var copies := if redundancy < 1 then 1 else redundancy;
            if |data| <= G2_MAX_PAYLOAD_BYTES then
              sent == Copies(WholeDatagram(h, data), copies) && (ok <==> forall k: nat :: k < copies ==> outcomes(k))
            else if PartCount(|data|) > MAX_FRAGMENTS then !ok && sent == []
            else
              var all := FragmentDatagrams(h, data, PartCount(|data|), copies);
              && sent <= all && (ok ==> sent == all)
              && (ok <==> forall k: nat :: k < |sent| ==> outcomes(k))
              && (!ok ==> sent != [] && forall k: nat :: k < |sent| - 1 ==> outcomes(k))
  {
    hide FragmentDatagram, WholeDatagram, FragmentDatagrams, Copies, PartCount;
    var copies := if redundancy < 1 then 1 else redundancy;
    sent := [];
    ok := true;
    NoDatagrams(h, data, copies);
    if |data| <= G2_MAX_PAYLOAD_BYTES {
      for copy := 0 to copies
        invariant sent == Copies(WholeDatagram(h, data), copy)
        invariant ok <==> forall k: nat :: k < copy ==> outcomes(k)
      {
        OneMoreCopy(WholeDatagram(h, data), copy);
        sent := sent + [WholeDatagram(h, data)];
        if !outcomes(copy) {
          ok := false;
        }
      }
      return;
    }
    var fragCount := PartCount(|data|);
    if fragCount > MAX_FRAGMENTS {
      return false, [];
    }
    for i := 0 to fragCount
      invariant sent == FragmentDatagrams(h, data, i, copies)
      invariant forall k: nat :: k < |sent| ==> outcomes(k)
    {
      ghost var before, datagram := sent, FragmentDatagram(h, data, i);
      FragmentsStep(h, data, i, copies);
      MoreFragments(h, data, i + 1, fragCount, copies);
      for copy := 0 to copies
        invariant sent == before + Copies(datagram, copy)
        invariant forall k: nat :: k < |sent| ==> outcomes(k)
      {
        OneMoreCopy(datagram, copy);
        Associative(before, Copies(datagram, copy), [datagram]);
        CopiesAreFirst(before, datagram, copy + 1, copies);
        PrefixOfPrefix(before + Copies(datagram, copy + 1), FragmentDatagrams(h, data, i + 1, copies),
                       FragmentDatagrams(h, data, fragCount, copies));
        sent := sent + [FragmentDatagram(h, data, i)];
        if !outcomes(|sent| - 1) {
          return false, sent;
        }
      }
    }
  }

  // ---------------------------------------------------------------- the receiving side

  /** What the directory takes in: datagrams, and the ticks at which it prunes. */
  datatype Arrival = Datagram(addr: Addr, bytes: seq<Byte>, now: real) | Tick(now: real)

  /** The fragment a datagram carries, if it is one. */
  function FragmentIn(a: Arrival): (f: Option<Fragment>)
    ensures f.Some? ==> a.Datagram?
  {
    if a.Tick? then None
    else
      match ParsePacket(a.bytes)
      case None => None
      case Some((header, payload)) =>
        if header.flags % 2 == 0 then None else Some(FragmentOf(a.addr, header, payload, a.now))
  }

  /** What an arrival is for the fragment table. */
  function HappeningOf(a: Arrival): (r: seq<Happening>) {
    if a.Tick? then [Swept(a.now)] else if FragmentIn(a).Some? then [Came(FragmentIn(a).value)] else []
  }

  function HappeningsOf(arrivals: seq<Arrival>): (happenings: seq<Happening>) {
    if arrivals == [] then []
    else HappeningsOf(arrivals[..|arrivals| - 1]) + HappeningOf(arrivals[|arrivals| - 1])
  }

  /** The fragment table after some arrivals. */
  ghost function TableOf(table: Table, arrivals: seq<Arrival>): (r: Table)
    requires ValidTable(table)
    ensures ValidTable(r)
  {
    if arrivals == [] then table
    else
      var before, a := TableOf(table, arrivals[..|arrivals| - 1]), arrivals[|arrivals| - 1];
      match a
      case Datagram(addr, bytes, now) => DeliveredValid(before, addr, bytes, now); Delivered(before, addr, bytes, now).0
      case Tick(now) => LiveFragmentsValid(before, now); LiveFragments(before, now)
  }

  lemma DeliveredValid(table: Table, addr: Addr, bytes: seq<Byte>, now: real)
    requires ValidTable(table)
    ensures ValidTable(Delivered(table, addr, bytes, now).0)
  {
    hide ParsePacket, Arrive, ValidTable;
  }

  lemma DeliveredTable(table: Table, a: Arrival)
    requires ValidTable(table) && a.Datagram?
    ensures Delivered(table, a.addr, a.bytes, a.now).0 ==
            if FragmentIn(a).Some? then Arrive(table, FragmentIn(a).value).0 else table
  {
    hide ParsePacket, Arrive, ValidTable;
  }

  lemma TableAfterOne(table: Table, happenings: seq<Happening>, last: Happening)
    requires ValidTable(table)
    ensures var before := TableAfter(table, happenings);
            TableAfter(table, happenings + [last]) ==
            if last.Came? then Arrive(before, last.fragment).0 else LiveFragments(before, last.now)
  {
    hide Arrive, LiveFragments, ValidTable;
    assert (happenings + [last])[..|happenings|] == happenings;
  }

  lemma {:induction false} TableOfFragments(table: Table, arrivals: seq<Arrival>)
    requires ValidTable(table)
    ensures TableOf(table, arrivals) == TableAfter(table, HappeningsOf(arrivals))
  {
    hide FragmentIn, Delivered, LiveFragments, TableAfter, ValidTable;
    if arrivals == [] {
      assert TableAfter(table, []) == table by { NothingHappened(table); }
    } else {
      var before, a := arrivals[..|arrivals| - 1], arrivals[|arrivals| - 1];
      TableOfFragments(table, before);
      if a.Tick? {
        TableAfterOne(table, HappeningsOf(before), Swept(a.now));
      } else {
        DeliveredTable(TableOf(table, before), a);
        AppendNothing(HappeningsOf(before));
        if FragmentIn(a).Some? {
          TableAfterOne(table, HappeningsOf(before), Came(FragmentIn(a).value));
        }
      }
    }
  }

  lemma NothingHappened(table: Table)
    requires ValidTable(table)
    ensures TableAfter(table, []) == table
  {
  }

  function KeyOf(addr: Addr, h: Header): (key: Key) {
    Key(addr, h.kind, h.connectionId, h.channel, h.sequence, h.fragmentGroup)
  }

  /** The header's fields fit their widths. */
  ghost predicate ValidHeader(h: Header) {
    Fit(HeaderFields(h), HEADER_WIDTHS)
  }

  lemma FragmentHeaderFits(h: Header, i: nat, count: nat)
    requires ValidHeader(h) && i < count <= MAX_FRAGMENTS
    ensures ValidHeader(FragmentHeader(h, i, count))
  {
    PowersOf256();
    var before, after := HeaderFields(h), HeaderFields(FragmentHeader(h, i, count));
    assert before[9] < Pow256(HEADER_WIDTHS[9]) && HEADER_WIDTHS[9] == 1 && HEADER_WIDTHS[10] == 2;
    forall k | 0 <= k < 13 && k != 9 && k != 10 ensures after[k] == before[k] {
    }
  }

  /** A sent datagram is received as the fragment it was made from. */
  lemma SentIsReceived(h: Header, data: seq<Byte>, i: nat, a: Arrival)
    requires ValidHeader(h) && i < PartCount(|data|) <= MAX_FRAGMENTS
    requires a.Datagram? && a.bytes == FragmentDatagram(h, data, i)
    ensures i * G2_MAX_PAYLOAD_BYTES <= |data|
    ensures FragmentIn(a) == Some(Fragment(KeyOf(a.addr, h), i, PartCount(|data|), Part(data, i), a.now))
  {
    hide ParsePacket, PackHeader;
    PartsStartInside(|data|, i);
    var header := FragmentHeader(h, i, PartCount(|data|));
    FragmentHeaderFits(h, i, PartCount(|data|));
    PacketRoundTrip(header, Part(data, i));
    assert header.fragmentInfo / 256 == i && header.fragmentInfo % 256 == PartCount(|data|);
  }

  /** An unfragmented packet is handled at once. */
  lemma WholeIsHandled(table: Table, h: Header, data: seq<Byte>, addr: Addr, now: real)
    requires ValidTable(table) && ValidHeader(h) && |data| <= G2_MAX_PAYLOAD_BYTES
    ensures Delivered(table, addr, WholeDatagram(h, data), now) == (table, Handled(h.kind, addr, data, now))
  {
    hide ParsePacket, PackHeader, Arrive;
    var header := h.(flags := 0, fragmentInfo := 0);
    WholeHeaderFits(h);
    PacketRoundTrip(header, data);
  }

  lemma WholeHeaderFits(h: Header)
    requires ValidHeader(h)
    ensures ValidHeader(h.(flags := 0, fragmentInfo := 0))
  {
    var before, after := HeaderFields(h), HeaderFields(h.(flags := 0, fragmentInfo := 0));
    forall k | 0 <= k < 13 && k != 9 && k != 10 ensures after[k] == before[k] {
    }
  }

  /** What a whole packet leads to, by its kind. */
  function Handled(kind: nat, addr: Addr, data: seq<Byte>, now: real): (events: seq<Event>) {
    if kind == 6 then [Control(addr, data, now)]
    else if kind == 5 then [RelayPacket(addr, data, now)]
    else []
  }

  // ---------------------------------------------------------------- end to end

  /** Among the datagrams, the fragments with the packet's key are the packet's own. */
  ghost predicate OnlySent(arrivals: seq<Arrival>, addr: Addr, h: Header, data: seq<Byte>) {
    forall a :: a in arrivals && FragmentIn(a).Some? && FragmentIn(a).value.key == KeyOf(addr, h) ==>
      exists i :: 0 <= i < PartCount(|data|) && a.bytes == FragmentDatagram(h, data, i)
  }

  ghost predicate Arrived(arrivals: seq<Arrival>, addr: Addr, h: Header, data: seq<Byte>, i: nat)
    requires i < PartCount(|data|)
  {
    exists a :: a in arrivals && a.Datagram? && a.addr == addr && a.bytes == FragmentDatagram(h, data, i)
  }

  ghost predicate AllArrived(arrivals: seq<Arrival>, addr: Addr, h: Header, data: seq<Byte>) {
    forall i :: 0 <= i < PartCount(|data|) ==> Arrived(arrivals, addr, h, data, i)
  }

  /** When every datagram that was sent has come at least once, all parts have arrived. */
  lemma SentAllArrived(arrivals: seq<Arrival>, addr: Addr, h: Header, data: seq<Byte>, redundancy: nat)
    requires redundancy > 0
    requires forall d :: d in FragmentDatagrams(h, data, PartCount(|data|), redundancy) ==>
               exists a :: a in arrivals && a.Datagram? && a.addr == addr && a.bytes == d
    ensures AllArrived(arrivals, addr, h, data)
  {
    hide FragmentDatagram, FragmentDatagrams, PartCount;
    var all := FragmentDatagrams(h, data, PartCount(|data|), redundancy);
    forall i | 0 <= i < PartCount(|data|) ensures Arrived(arrivals, addr, h, data, i) {
      assert (i + 1) * redundancy == i * redundancy + redundancy;
      FragmentDatagramAt(h, data, PartCount(|data|), redundancy, i, i * redundancy);
      assert all[i * redundancy] in all;
    }
  }

  /** The parts received first are the parts sent. */
  lemma {:induction false} FirstReceivedAreSent(arrivals: seq<Arrival>, addr: Addr, h: Header, data: seq<Byte>, i: nat)
    requires ValidHeader(h) && i < PartCount(|data|) <= MAX_FRAGMENTS && OnlySent(arrivals, addr, h, data)
    ensures i * G2_MAX_PAYLOAD_BYTES <= |data|
    ensures var parts := FirstReceived(HappeningsOf(arrivals), KeyOf(addr, h));
            (i in parts <==> Arrived(arrivals, addr, h, data, i)) && (i in parts ==> parts[i] == Part(data, i))
  {
    hide FragmentDatagram, FragmentIn, HappeningOf, Part, PartCount, FirstReceived;
    PartsStartInside(|data|, i);
    assert FirstReceived([], KeyOf(addr, h)) == map[] by { NothingReceived(KeyOf(addr, h)); }
    if arrivals != [] {
      var before, a := arrivals[..|arrivals| - 1], arrivals[|arrivals| - 1];
      assert arrivals == before + [a];
      FirstReceivedAreSent(before, addr, h, data, i);
      FirstReceivedThen(HappeningsOf(before), a, KeyOf(addr, h));
      if FragmentIn(a).Some? && FragmentIn(a).value.key == KeyOf(addr, h) {
        var j :| 0 <= j < PartCount(|data|) && a.bytes == FragmentDatagram(h, data, j);
        SentIsReceived(h, data, j, a);
      }
      if a.Datagram? && a.addr == addr && a.bytes == FragmentDatagram(h, data, i) {
        SentIsReceived(h, data, i, a);
      }
    }
  }

  lemma NothingReceived(key: Key)
    ensures FirstReceived([], key) == map[]
  {
  }

  lemma FirstReceivedOne(happenings: seq<Happening>, last: Happening, key: Key)
    ensures var before := FirstReceived(happenings, key);
            FirstReceived(happenings + [last], key) ==
            if last.Swept? then before
            else
              var f := last.fragment;
              if f.key == key && f.index < f.count && f.index !in before then before[f.index := f.payload] else before
  {
    assert (happenings + [last])[..|happenings|] == happenings;
  }

  lemma FirstReceivedThen(happenings: seq<Happening>, a: Arrival, key: Key)
    ensures var before, f := FirstReceived(happenings, key), FragmentIn(a);
            FirstReceived(happenings + HappeningOf(a), key) ==
            if f.Some? && f.value.key == key && f.value.index < f.value.count && f.value.index !in before
            then before[f.value.index := f.value.payload] else before
  {
    hide FragmentIn, FirstReceived;
    AppendNothing(happenings);
    if a.Tick? {
      FirstReceivedOne(happenings, Swept(a.now), key);
    } else if FragmentIn(a).Some? {
      FirstReceivedOne(happenings, Came(FragmentIn(a).value), key);
    }
  }

  /** The joined parts are the packet. */
  lemma {:induction false} JoinedParts(parts: map<nat, seq<Byte>>, data: seq<Byte>, n: nat)
    requires n <= PartCount(|data|)
    requires forall i: nat :: i < n ==> i in parts && i * G2_MAX_PAYLOAD_BYTES <= |data| && parts[i] == Part(data, i)
    ensures Join(parts, n) == if n == 0 then [] else data[..PartEnd(data, n - 1)]
  {
    hide PartCount, PartEnd;
    if n > 0 {
      assert n - 1 in parts && parts[n - 1] == Part(data, n - 1);
      JoinedParts(parts, data, n - 1);
      PartFollows(data, n - 1);
      JoinStep(parts, n);
    }
  }

  lemma JoinStep(parts: map<nat, seq<Byte>>, n: nat)
    requires n > 0 && forall i: nat :: i < n ==> i in parts
    ensures Join(parts, n) == Join(parts, n - 1) + parts[n - 1]
  {
  }

  lemma PartFollows(data: seq<Byte>, i: nat)
    requires i < PartCount(|data|)
    ensures i * G2_MAX_PAYLOAD_BYTES <= |data|
    ensures (if i == 0 then [] else data[..PartEnd(data, i - 1)]) + Part(data, i) == data[..PartEnd(data, i)]
  {
    PartsStartInside(|data|, i);
    var start, end := i * G2_MAX_PAYLOAD_BYTES, PartEnd(data, i);
    assert i > 0 ==> PartEnd(data, i - 1) == start;
    TakeRange(data, start, end);
    AppendNothing(data[..end]);
  }

  lemma TakeRange<T>(s: seq<T>, i: nat, j: nat)
    requires i <= j <= |s|
    ensures s[..i] + s[i..j] == s[..j] && s[..0] == []
  {
  }

  lemma LastPartEnds(data: seq<Byte>)
    requires data != []
    ensures PartCount(|data|) > 0 && PartEnd(data, PartCount(|data|) - 1) == |data|
  {
  }

  /** A large packet sent in fragments: whatever else arrives, however its fragments are reordered and repeated, and
      with any prunings in time, its fragments lead to nothing while one is missing, and the one that completes it
      leads to the packet being handled as it was sent. */
  lemma PacketArrives(table: Table, earlier: seq<Arrival>, last: Arrival, h: Header, data: seq<Byte>)
    requires ValidTable(table) && ValidHeader(h) && last.Datagram? && KeyOf(last.addr, h) !in table
    requires G2_MAX_PAYLOAD_BYTES < |data| && PartCount(|data|) <= MAX_FRAGMENTS
    requires FragmentIn(last).Some? && FragmentIn(last).value.key == KeyOf(last.addr, h)
    requires OnlySent(earlier + [last], last.addr, h, data)
    requires Accepted(table, HappeningsOf(earlier + [last]), KeyOf(last.addr, h), PartCount(|data|))
    requires !AllArrived(earlier, last.addr, h, data)
    ensures Delivered(TableOf(table, earlier), last.addr, last.bytes, last.now).1 ==
            if AllArrived(earlier + [last], last.addr, h, data) then Handled(h.kind, last.addr, data, last.now) else []
  {
    var key, count, all := KeyOf(last.addr, h), PartCount(|data|), earlier + [last];
    var f := FragmentIn(last).value;
    assert all[..|all| - 1] == earlier;
    var j := LastIsSent(earlier, last, h, data);
    hide FragmentDatagram, Part, PartCount, FragmentIn, Arrive, ParsePacket, Accepted, OnlySent, ValidTable;
    hide FirstReceived, HasAll, TableOf, TableAfter, AllArrived, Delivered, Handled;
    SentIsReceived(h, data, j, last);
    TableOfFragments(table, earlier);
    AllPartsThere(earlier, last.addr, h, data);
    AllPartsThere(all, last.addr, h, data);
    assert HappeningsOf(all) == HappeningsOf(earlier) + [Came(f)];
    Reassembly(table, HappeningsOf(earlier), f);
    DeliveredFragment(TableOf(table, earlier), last, h, f);
  }

  lemma LastIsSent(earlier: seq<Arrival>, last: Arrival, h: Header, data: seq<Byte>) returns (j: nat)
    requires FragmentIn(last).Some? && FragmentIn(last).value.key == KeyOf(last.addr, h)
    requires OnlySent(earlier + [last], last.addr, h, data)
    ensures OnlySent(earlier, last.addr, h, data)
    ensures j < PartCount(|data|) && last.bytes == FragmentDatagram(h, data, j)
  {
    hide FragmentDatagram, FragmentIn, PartCount;
    assert last in earlier + [last];
    j :| 0 <= j < PartCount(|data|) && last.bytes == FragmentDatagram(h, data, j);
  }

  lemma AllPartsThere(arrivals: seq<Arrival>, addr: Addr, h: Header, data: seq<Byte>)
    requires ValidHeader(h) && data != [] && PartCount(|data|) <= MAX_FRAGMENTS && OnlySent(arrivals, addr, h, data)
    ensures var parts, count := FirstReceived(HappeningsOf(arrivals), KeyOf(addr, h)), PartCount(|data|);
            && (HasAll(parts, count) <==> AllArrived(arrivals, addr, h, data))
            && (HasAll(parts, count) ==> Join(parts, count) == data)
  {
    hide FragmentDatagram, Part, PartCount, FragmentIn, OnlySent, FirstReceived, HappeningsOf, Arrived;
    var parts, count := FirstReceived(HappeningsOf(arrivals), KeyOf(addr, h)), PartCount(|data|);
    forall i: nat | i < count
      ensures i * G2_MAX_PAYLOAD_BYTES <= |data|
      ensures (i in parts <==> Arrived(arrivals, addr, h, data, i)) && (i in parts ==> parts[i] == Part(data, i))
    {
      FirstReceivedAreSent(arrivals, addr, h, data, i);
    }
    if HasAll(parts, count) {
      JoinedParts(parts, data, count);
      LastPartEnds(data);
      assert data[..|data|] == data;
    }
  }

  lemma DeliveredFragment(table: Table, a: Arrival, h: Header, f: Fragment)
    requires ValidTable(table) && a.Datagram? && FragmentIn(a) == Some(f) && f.key == KeyOf(a.addr, h)
    ensures Delivered(table, a.addr, a.bytes, a.now).1 ==
            var outcome := Arrive(table, f).1;
            if outcome.Complete? then Handled(h.kind, a.addr, outcome.payload, a.now) else []
  {
    hide Arrive, ParsePacket, ValidTable;
  }

  // ---------------------------------------------------------------- in order

  /** The first `n` fragments of a packet, one after another. */
  function InOrder(addr: Addr, h: Header, data: seq<Byte>, now: real, n: nat): (arrivals: seq<Arrival>)
    requires n <= PartCount(|data|)
    ensures |arrivals| == n
  {
    if n == 0 then []
    else InOrder(addr, h, data, now, n - 1) + [Datagram(addr, FragmentDatagram(h, data, n - 1), now)]
  }

  lemma {:induction false} InOrderAt(addr: Addr, h: Header, data: seq<Byte>, now: real, n: nat, i: nat)
    requires i < n <= PartCount(|data|)
    ensures InOrder(addr, h, data, now, n)[i] == Datagram(addr, FragmentDatagram(h, data, i), now)
  {
    hide FragmentDatagram, PartCount;
    if i < n - 1 {
      InOrderAt(addr, h, data, now, n - 1, i);
    }
  }

  /** Fragments of one packet never fill the table with others. */
  lemma {:induction false} OnlyOneKey(happenings: seq<Happening>, key: Key)
    requires forall x :: x in happenings ==> x.Came? && x.fragment.key == key
    ensures TableAfter(map[], happenings).Keys <= {key} && |TableAfter(map[], happenings)| <= 1
  {
    hide Extended, Join;
    if happenings != [] {
      var before, last := happenings[..|happenings| - 1], happenings[|happenings| - 1];
      assert last in happenings;
      OnlyOneKey(before, key);
      assert TableAfter(map[], happenings).Keys <= {key};
    }
    OneKeySize(TableAfter(map[], happenings), key);
  }

  lemma OneKeySize(table: Table, key: Key)
    requires table.Keys <= {key}
    ensures |table| <= 1
  {
    SubsetSize(table.Keys, {key});
    assert |table| == |table.Keys|;
  }

  lemma {:induction false} InOrderHappens(addr: Addr, h: Header, data: seq<Byte>, now: real, n: nat)
    requires ValidHeader(h) && n <= PartCount(|data|) <= MAX_FRAGMENTS
    ensures var happenings := HappeningsOf(InOrder(addr, h, data, now, n));
            && (forall x :: x in happenings ==> x.Came? && x.fragment.key == KeyOf(addr, h))
            && Accepted(map[], happenings, KeyOf(addr, h), PartCount(|data|))
  {
    hide FragmentDatagram, FragmentIn, PartCount, TableAfter;
    if n > 0 {
      var before := InOrder(addr, h, data, now, n - 1);
      var last := Datagram(addr, FragmentDatagram(h, data, n - 1), now);
      InOrderHappens(addr, h, data, now, n - 1);
      SentIsReceived(h, data, n - 1, last);
      var f := FragmentIn(last).value;
      assert (before + [last])[..n - 1] == before;
      assert HappeningsOf(before + [last]) == HappeningsOf(before) + [Came(f)];
      assert (HappeningsOf(before) + [Came(f)])[..|HappeningsOf(before)|] == HappeningsOf(before);
      OnlyOneKey(HappeningsOf(before), KeyOf(addr, h));
    }
  }

  lemma DatagramsDiffer(h: Header, data: seq<Byte>, i: nat, j: nat)
    requires ValidHeader(h) && i < PartCount(|data|) <= MAX_FRAGMENTS && j < PartCount(|data|)
    requires FragmentDatagram(h, data, i) == FragmentDatagram(h, data, j)
    ensures i == j
  {
    hide FragmentDatagram, FragmentIn, PartCount;
    var a := Datagram(Addr("", 0), FragmentDatagram(h, data, i), 0.0);
    SentIsReceived(h, data, i, a);
    SentIsReceived(h, data, j, a);
  }

  /** The simplest run: the fragments arrive in order at an empty table, and only the last one leads to something. */
  lemma InOrderIsHandled(addr: Addr, h: Header, data: seq<Byte>, now: real, i: nat)
    requires ValidHeader(h) && G2_MAX_PAYLOAD_BYTES < |data| && i < PartCount(|data|) <= MAX_FRAGMENTS
    ensures Delivered(TableOf(map[], InOrder(addr, h, data, now, i)), addr, FragmentDatagram(h, data, i), now).1 ==
            if i + 1 == PartCount(|data|) then Handled(h.kind, addr, data, now) else []
  {
    hide FragmentDatagram, FragmentIn, PartCount, TableOf, Delivered, Handled, HappeningsOf, Accepted;
    var earlier, last := InOrder(addr, h, data, now, i), Datagram(addr, FragmentDatagram(h, data, i), now);
    var all := InOrder(addr, h, data, now, i + 1);
    assert all == earlier + [last];
    forall k | 0 <= k < i + 1 ensures all[k] == Datagram(addr, FragmentDatagram(h, data, k), now) {
      InOrderAt(addr, h, data, now, i + 1, k);
    }
    InOrderHappens(addr, h, data, now, i + 1);
    SentIsReceived(h, data, i, last);
    forall n, j: nat | i <= n <= i + 1 && j < PartCount(|data|)
      ensures Arrived(InOrder(addr, h, data, now, n), addr, h, data, j) <==> j < n
    {
      ArrivedInOrder(addr, h, data, now, n, j);
    }
    assert Arrived(earlier, addr, h, data, i) <==> false;
    assert i + 1 < PartCount(|data|) ==> !Arrived(all, addr, h, data, i + 1);
    PacketArrives(map[], earlier, last, h, data);
  }

  lemma ArrivedInOrder(addr: Addr, h: Header, data: seq<Byte>, now: real, n: nat, j: nat)
    requires ValidHeader(h) && n <= PartCount(|data|) <= MAX_FRAGMENTS && j < PartCount(|data|)
    ensures Arrived(InOrder(addr, h, data, now, n), addr, h, data, j) <==> j < n
  {
    hide FragmentDatagram, PartCount;
    var arrivals := InOrder(addr, h, data, now, n);
    if j < n {
      InOrderAt(addr, h, data, now, n, j);
      assert arrivals[j] in arrivals;
    }
    if Arrived(arrivals, addr, h, data, j) {
      var a :| a in arrivals && a.Datagram? && a.addr == addr && a.bytes == FragmentDatagram(h, data, j);
      var k :| 0 <= k < n && arrivals[k] == a;
      InOrderAt(addr, h, data, now, n, k);
      DatagramsDiffer(h, data, k, j);
    }
  }
}
