/**
  The global directory: a UDP server with which game servers register, through which clients find
  them, and which relays packets between a client and a server that cannot reach each other.
  `sign` stands for the keyed hash of relay tokens and `nameOf` for the decoding of server names.
 */
module DirectoryServer {
  import opened Bytes
  import opened Fragments
  import opened Wrappers

  const SERVER_TTL_SECONDS := 15.0
  const CLIENT_TTL_SECONDS := 10.0
  const RELAY_TOKEN_TTL_MS := 30_000
  const RELAY_TOKEN_MAC_BYTES := 32
  const MAX_ADVERTISED_SERVERS := 256
  const MAX_RELAY_CLIENTS := 4096
  const G2_HEADER_SIZE := 36
  const G2_MAX_PACKET_BYTES := 1200
  const G2_MAX_PAYLOAD_BYTES := 1164
  const G2_MAGIC := 0x3247
  const G2_VERSION := 2
  const DIR_MAGIC := 0x32444747
  const DIR_VERSION := 1
  const RELAY_HEADER_BYTES := 50

  const MSG_REGISTER := 1
  const MSG_HEARTBEAT := 3
  const MSG_LIST_REQUEST := 4
  const MSG_PUNCH_REQUEST := 6
  const KIND_RELAY_PAYLOAD := 5
  const KIND_DIRECTORY_CONTROL := 6

  // ---------------------------------------------------------------- packets

  datatype Header = Header(kind: nat, connectionId: nat, sequence: nat, ack: nat, ackBits: nat, routeId: nat,
                           channel: nat, flags: nat, fragmentInfo: nat, fragmentGroup: nat)

  const HEADER_WIDTHS: seq<nat> := [2, 1, 1, 8, 4, 4, 4, 2, 1, 1, 2, 2, 4]
  const ENVELOPE_WIDTHS: seq<nat> := [4, 2, 1]
  const PUNCH_WIDTHS: seq<nat> := [4, 4]
  const TOKEN_WIDTHS: seq<nat> := [4, 4, 8]

  lemma Widths()
    ensures Size(HEADER_WIDTHS) == G2_HEADER_SIZE
    ensures Size(ENVELOPE_WIDTHS) == 7 && Size(PUNCH_WIDTHS) == 8 && Size(TOKEN_WIDTHS) == 16
  {
    HeaderWidth();
  }

  lemma HeaderWidth()
    ensures Size(HEADER_WIDTHS) == G2_HEADER_SIZE
  {
    var tail := HEADER_WIDTHS[5..];
    assert tail == [4, 4, 2, 1, 1, 2, 2, 4];
    assert tail[4..] == [1, 2, 2, 4];
    assert tail[4..][2..] == [2, 4];
    assert HEADER_WIDTHS[2..] == [1, 8, 4, 4, 4, 2, 1, 1, 2, 2, 4];
  }

  /** None stands for an exception. */
  function ParsePacket(data: seq<Byte>): (r: Option<(Header, seq<Byte>)>) {
    Widths();
    if |data| < G2_HEADER_SIZE || |data| > G2_MAX_PACKET_BYTES then None
    else
      var f := Unpack(data, HEADER_WIDTHS);
      if f[0] != G2_MAGIC || f[1] != G2_VERSION then None
      else Some((Header(f[2], f[3], f[4], f[5], f[6], f[7], f[8], f[9], f[10], f[11]), data[G2_HEADER_SIZE..]))
  }

  function HeaderFields(h: Header): (values: seq<nat>)
    ensures |values| == 13
  {
    [G2_MAGIC, G2_VERSION, h.kind, h.connectionId, h.sequence, h.ack, h.ackBits, h.routeId, h.channel, h.flags,
     h.fragmentInfo, h.fragmentGroup, 0]
  }

  function PackHeader(h: Header): (s: seq<Byte>)
    ensures |s| == G2_HEADER_SIZE
  {
    Widths();
    Pack(HeaderFields(h), HEADER_WIDTHS)
  }

  function Envelope(kind: nat, payload: seq<Byte>): (s: seq<Byte>) {
    Pack([DIR_MAGIC, DIR_VERSION, kind], ENVELOPE_WIDTHS) + payload
  }

  function ParseEnvelope(data: seq<Byte>): (r: Option<(nat, seq<Byte>)>) {
    Widths();
    if |data| < 7 then None
    else
      var f := Unpack(data, ENVELOPE_WIDTHS);
      if f[0] != DIR_MAGIC || f[1] != DIR_VERSION then None else Some((f[2], data[7..]))
  }

  /** A packet is parsed into the header and payload it was packed from. */
  lemma PacketRoundTrip(h: Header, payload: seq<Byte>)
    requires Fit(HeaderFields(h), HEADER_WIDTHS) && |payload| <= G2_MAX_PAYLOAD_BYTES
    ensures ParsePacket(PackHeader(h) + payload) == Some((h, payload))
  {
    hide Pack, Unpack, Fit, Size;
    Widths();
    UnpackOfPack(HeaderFields(h), HEADER_WIDTHS, payload);
    Suffix(PackHeader(h), payload);
  }

  const HEADER_OFFSETS: seq<nat> := [0, 2, 3, 4, 12, 16, 20, 24, 26, 27, 28, 30, 32]

  lemma HeaderOffsets(i: nat)
    requires i < 13
    ensures Size(HEADER_WIDTHS[..i]) == HEADER_OFFSETS[i]
  {
    hide Size;
    if i == 0 {
      assert HEADER_WIDTHS[..0] == [];
      NoWidth();
    } else {
      HeaderOffsets(i - 1);
      assert HEADER_WIDTHS[..i] == HEADER_WIDTHS[..i - 1] + [HEADER_WIDTHS[i - 1]];
      SizeThen(HEADER_WIDTHS[..i - 1], HEADER_WIDTHS[i - 1]);
    }
  }

  lemma NoWidth()
    ensures Size([]) == 0
  {
  }

  /** Where the fields of a header stand. */
  lemma HeaderLayout(h: Header)
    ensures var p := PackHeader(h);
            && |p| == 36 && p[..2] == Le(0x3247, 2) && p[2..3] == Le(2, 1) && p[3..4] == Le(h.kind, 1)
            && p[4..12] == Le(h.connectionId, 8) && p[12..16] == Le(h.sequence, 4)
            && p[16..20] == Le(h.ack, 4) && p[20..24] == Le(h.ackBits, 4) && p[24..26] == Le(h.routeId, 2)
            && p[26..27] == Le(h.channel, 1) && p[27..28] == Le(h.flags, 1)
            && p[28..30] == Le(h.fragmentInfo, 2) && p[30..32] == Le(h.fragmentGroup, 2) && p[32..] == Le(0, 4)
  {
    hide Le, Size, Pack, PackHeader;
    HeaderField(h, 0);
    HeaderField(h, 1);
    HeaderField(h, 2);
    HeaderField(h, 3);
    HeaderField(h, 4);
    HeaderField(h, 5);
    HeaderField(h, 6);
    HeaderField(h, 7);
    HeaderField(h, 8);
    HeaderField(h, 9);
    HeaderField(h, 10);
    HeaderField(h, 11);
    HeaderField(h, 12);
  }

  lemma HeaderField(h: Header, i: nat)
    requires i < 13
    ensures var s, at, w := PackHeader(h), HEADER_OFFSETS[i], HEADER_WIDTHS[i];
            at + w <= |s| && s[at..at + w] == Le(HeaderFields(h)[i], w)
  {
    hide Le, Size, Pack;
    HeaderOffsets(i);
    FieldAt(HeaderFields(h), HEADER_WIDTHS, i);
  }

  lemma EnvelopeFits(kind: nat)
    requires kind < 256
    ensures Fit([DIR_MAGIC, DIR_VERSION, kind], ENVELOPE_WIDTHS)
  {
    PowersOf256();
  }

  lemma EnvelopeRoundTrip(kind: nat, payload: seq<Byte>)
    requires kind < 256
    ensures ParseEnvelope(Envelope(kind, payload)) == Some((kind, payload))
  {
    hide Pack, Unpack, Size, Fit;
    Widths();
    var values := [DIR_MAGIC, DIR_VERSION, kind];
    EnvelopeFits(kind);
    UnpackOfPack(values, ENVELOPE_WIDTHS, payload);
    Suffix(Pack(values, ENVELOPE_WIDTHS), payload);
  }

  datatype Registration = Registration(serverId: nat, rawName: seq<Byte>, gamePort: nat,
                                       currentPlayers: Byte, maxPlayers: Byte)

  function ParseRegistration(payload: seq<Byte>): (r: Option<Registration>) {
    if |payload| < 6 then None
    else
      var nameEnd := 6 + ReadU16(payload, 4);
      if |payload| != nameEnd + 4 then None
      else Some(Registration(ReadU32(payload, 0), payload[6..nameEnd], ReadU16(payload, nameEnd),
                             payload[nameEnd + 2], payload[nameEnd + 3]))
  }

  function RegistrationPayload(reg: Registration): (s: seq<Byte>) {
    U32(reg.serverId) + U16(|reg.rawName|) + reg.rawName + U16(reg.gamePort) + [reg.currentPlayers, reg.maxPlayers]
  }

  lemma RegistrationRoundTrip(reg: Registration)
    requires reg.serverId < U32_LIMIT && |reg.rawName| < U16_LIMIT && reg.gamePort < U16_LIMIT
    ensures ParseRegistration(RegistrationPayload(reg)) == Some(reg)
  {
    hide U32, U16, ReadU32, ReadU16;
    var id, size, name, port := U32(reg.serverId), U16(|reg.rawName|), reg.rawName, U16(reg.gamePort);
    var players := [reg.currentPlayers, reg.maxPlayers];
    var payload := RegistrationPayload(reg);
    assert payload == [] + id + (size + name + port + players);
    ReadU32In(reg.serverId, [], size + name + port + players);
    assert payload == id + size + (name + port + players);
    ReadU16In(|name|, id, name + port + players);
    assert payload[6..6 + |name|] == name;
    ReadU16In(reg.gamePort, id + size + name, players);
  }

  /** A relay session is named by the server id and the client's nonce. */
  datatype SessionKey = SessionKey(serverId: nat, nonce: nat)

  function ParsePunchRequest(payload: seq<Byte>): (r: Option<SessionKey>) {
    Widths();
    if |payload| != 8 then None else var f := Unpack(payload, PUNCH_WIDTHS); Some(SessionKey(f[0], f[1]))
  }

  /** A punch request is the server's id and the client's nonce. */
  lemma PunchRequestRoundTrip(key: SessionKey)
    requires key.serverId < U32_LIMIT && key.nonce < U32_LIMIT
    ensures ParsePunchRequest(U32(key.serverId) + U32(key.nonce)) == Some(key)
  {
    Widths();
    PowersOf256();
    var values := [key.serverId, key.nonce];
    assert Fit(values, PUNCH_WIDTHS);
    hide Unpack, Fit, Le;
    assert Pack(values[1..], PUNCH_WIDTHS[1..]) == U32(key.nonce) + [];
    AppendNothing(U32(key.nonce));
    UnpackOfPack(values, PUNCH_WIDTHS, []);
    AppendNothing(Pack(values, PUNCH_WIDTHS));
  }

  datatype Token = Token(key: SessionKey, expiresAtMs: nat, mac: seq<Byte>)

  /** The token in front of a relayed packet; None if the payload is to be ignored. */
  function ParseRelay(payload: seq<Byte>): (r: Option<Token>) {
    Widths();
    if |payload| < RELAY_HEADER_BYTES then None
    else
      var f := Unpack(payload, TOKEN_WIDTHS);
      var innerLen := ReadU16(payload, 48);
      if f[0] == 0 || f[1] == 0 || innerLen < G2_HEADER_SIZE || |payload| != RELAY_HEADER_BYTES + innerLen then None
      else Some(Token(SessionKey(f[0], f[1]), f[2], payload[16..16 + RELAY_TOKEN_MAC_BYTES]))
  }

  /** A relay payload: the token, and the packet to pass on. */
  function RelayPayload(token: Token, inner: seq<Byte>): (s: seq<Byte>) {
    Pack([token.key.serverId, token.key.nonce, token.expiresAtMs], TOKEN_WIDTHS) + token.mac + U16(|inner|) + inner
  }

  ghost predicate WellFormedToken(token: Token) {
    && 0 < token.key.serverId < U32_LIMIT && 0 < token.key.nonce < U32_LIMIT
    && token.expiresAtMs < U64_LIMIT && |token.mac| == RELAY_TOKEN_MAC_BYTES
  }

  lemma RelayFields(fields: seq<Byte>, mac: seq<Byte>, inner: seq<Byte>)
    requires |fields| == 16 && |mac| == RELAY_TOKEN_MAC_BYTES && |inner| < U16_LIMIT
    ensures var payload := fields + mac + U16(|inner|) + inner;
            && payload == fields + (mac + (U16(|inner|) + inner))
            && ReadU16(payload, 48) == |inner|
            && payload[16..16 + RELAY_TOKEN_MAC_BYTES] == mac
  {
    hide U16, ReadU16;
    Associative(fields + mac, U16(|inner|), inner);
    Associative(fields, mac, U16(|inner|) + inner);
    ReadU16In(|inner|, fields + mac, inner);
    Middle(fields, mac, U16(|inner|) + inner);
  }

  lemma RelayRoundTrip(token: Token, inner: seq<Byte>)
    requires WellFormedToken(token) && G2_HEADER_SIZE <= |inner| < U16_LIMIT
    ensures ParseRelay(RelayPayload(token, inner)) == Some(token)
    ensures |RelayPayload(token, inner)| == RELAY_HEADER_BYTES + |inner|
  {
    hide Pack, Unpack, Fit, U16, ReadU16, WellFormedToken, Size;
    Widths();
    var values := [token.key.serverId, token.key.nonce, token.expiresAtMs];
    TokenFits(token);
    UnpackOfPack(values, TOKEN_WIDTHS, token.mac + (U16(|inner|) + inner));
    RelayFields(Pack(values, TOKEN_WIDTHS), token.mac, inner);
  }

  lemma TokenFits(token: Token)
    requires WellFormedToken(token)
    ensures Fit([token.key.serverId, token.key.nonce, token.expiresAtMs], TOKEN_WIDTHS)
    ensures |token.mac| == RELAY_TOKEN_MAC_BYTES && token.key.serverId > 0 && token.key.nonce > 0
  {
    PowersOf256();
  }

  /** Where the fields of a directory message stand. */
  lemma EnvelopeLayout(kind: nat, payload: seq<Byte>)
    ensures var p := Envelope(kind, payload);
            && |p| == 7 + |payload| && p[..4] == U32(0x32444747) && p[4..6] == U16(1) && p[6..7] == Le(kind, 1)
            && p[7..] == payload
  {
    hide Le, Pack;
    ThreeFields(DIR_MAGIC, DIR_VERSION, kind, ENVELOPE_WIDTHS);
  }

  /** Where the fields of a registration stand. */
  lemma RegistrationLayout(reg: Registration)
    ensures var p, n := RegistrationPayload(reg), |reg.rawName|;
            && |p| == n + 10 && p[..4] == U32(reg.serverId) && p[4..6] == U16(n) && p[6..6 + n] == reg.rawName
            && p[6 + n..8 + n] == U16(reg.gamePort) && p[8 + n] == reg.currentPlayers && p[9 + n] == reg.maxPlayers
  {
    hide U32, U16;
  }

  /** Where the fields of a relayed packet stand. */
  lemma RelayLayout(token: Token, inner: seq<Byte>)
    requires WellFormedToken(token)
    ensures var p := RelayPayload(token, inner);
            && |p| == 50 + |inner| && p[..4] == U32(token.key.serverId) && p[4..8] == U32(token.key.nonce)
            && p[8..16] == Le(token.expiresAtMs, 8) && p[16..48] == token.mac
            && p[48..50] == U16(|inner|) && p[50..] == inner
  {
    hide Le, Pack;
    ThreeFields(token.key.serverId, token.key.nonce, token.expiresAtMs, TOKEN_WIDTHS);
  }

  // ---------------------------------------------------------------- what is accepted

  /** An envelope is accepted exactly if it is one of its kind and payload. */
  lemma EnvelopesExactly(data: seq<Byte>, kind: nat, payload: seq<Byte>)
    ensures ParseEnvelope(data) == Some((kind, payload)) <==> kind < 256 && data == Envelope(kind, payload)
  {
    hide Pack, Unpack, Size, Fit;
    Widths();
    if ParseEnvelope(data) == Some((kind, payload)) {
      PackOfUnpack(data, ENVELOPE_WIDTHS);
      var f := Unpack(data, ENVELOPE_WIDTHS);
      assert f == [DIR_MAGIC, DIR_VERSION, kind] && data == data[..7] + data[7..];
      LastFits(f);
    } else if kind < 256 {
      EnvelopeRoundTrip(kind, payload);
    }
  }

  lemma LastFits(f: seq<nat>)
    requires |f| == 3 && Fit(f, ENVELOPE_WIDTHS)
    ensures f[2] < 256
  {
    PowersOf256();
    assert f[2] < Pow256(ENVELOPE_WIDTHS[2]);
  }

  /** A registration is accepted exactly if it is the payload of one. */
  lemma RegistrationsExactly(payload: seq<Byte>, reg: Registration)
    ensures ParseRegistration(payload) == Some(reg) <==>
              && reg.serverId < U32_LIMIT && |reg.rawName| < U16_LIMIT && reg.gamePort < U16_LIMIT
              && payload == RegistrationPayload(reg)
  {
    hide U32, U16, ReadU32, ReadU16;
    if ParseRegistration(payload) == Some(reg) {
      var nameEnd := 6 + |reg.rawName|;
      FieldRead(payload, 0);
      FieldRead(payload, 4);
      FieldRead(payload, nameEnd);
      assert payload == payload[0..4] + payload[4..6] + payload[6..nameEnd] + payload[nameEnd..nameEnd + 2]
                        + [payload[nameEnd + 2], payload[nameEnd + 3]];
    } else if reg.serverId < U32_LIMIT && |reg.rawName| < U16_LIMIT && reg.gamePort < U16_LIMIT {
      RegistrationRoundTrip(reg);
    }
  }

  lemma PunchRequestFits(payload: seq<Byte>)
    ensures var request := ParsePunchRequest(payload);
            request.Some? ==> request.value.serverId < U32_LIMIT && request.value.nonce < U32_LIMIT
  {
    PowersOf256();
    if |payload| == 8 {
      assert Unpack(payload, PUNCH_WIDTHS)[1] == Value(payload[4..][..4]);
    }
  }

  /** A punch request is accepted exactly if it consists of an id and a nonce. */
  lemma PunchRequestsExactly(payload: seq<Byte>, key: SessionKey)
    ensures ParsePunchRequest(payload) == Some(key) <==>
              key.serverId < U32_LIMIT && key.nonce < U32_LIMIT && payload == U32(key.serverId) + U32(key.nonce)
  {
    hide Pack, Unpack, Le, Fit, Size;
    if ParsePunchRequest(payload) == Some(key) {
      PunchRequestFits(payload);
      Widths();
      PackOfUnpack(payload, PUNCH_WIDTHS);
      var f := Unpack(payload, PUNCH_WIDTHS);
      assert f == [key.serverId, key.nonce] && payload[..8] == payload;
      TwoFields(key.serverId, key.nonce, PUNCH_WIDTHS);
    } else if key.serverId < U32_LIMIT && key.nonce < U32_LIMIT {
      PunchRequestRoundTrip(key);
    }
  }

  /** A relayed packet is accepted exactly if a well-formed token and a packet with room for a header are in it. */
  lemma RelayedPacketsExactly(payload: seq<Byte>, token: Token)
    ensures ParseRelay(payload) == Some(token) <==>
              && WellFormedToken(token) && RELAY_HEADER_BYTES + G2_HEADER_SIZE <= |payload|
              && |payload| < RELAY_HEADER_BYTES + U16_LIMIT
              && payload == RelayPayload(token, payload[RELAY_HEADER_BYTES..])
  {
    hide Pack, Unpack, U16, ReadU16, Size, Fit;
    Widths();
    if ParseRelay(payload) == Some(token) {
      PackOfUnpack(payload, TOKEN_WIDTHS);
      var f := Unpack(payload, TOKEN_WIDTHS);
      assert f == [token.key.serverId, token.key.nonce, token.expiresAtMs];
      TokenFieldsFit(f);
      FieldRead(payload, 48);
      assert payload == payload[..16] + payload[16..48] + payload[48..50] + payload[50..];
    } else if WellFormedToken(token) && RELAY_HEADER_BYTES + G2_HEADER_SIZE <= |payload|
              && |payload| < RELAY_HEADER_BYTES + U16_LIMIT {
      RelayRoundTrip(token, payload[RELAY_HEADER_BYTES..]);
    }
  }

  lemma TokenFieldsFit(f: seq<nat>)
    requires |f| == 3 && Fit(f, TOKEN_WIDTHS)
    ensures f[0] < U32_LIMIT && f[1] < U32_LIMIT && f[2] < U64_LIMIT
  {
    PowersOf256();
    assert f[0] < Pow256(TOKEN_WIDTHS[0]) && f[1] < Pow256(TOKEN_WIDTHS[1]) && f[2] < Pow256(TOKEN_WIDTHS[2]);
  }

  /** A packet is accepted exactly if it has an acceptable size and starts like one with its header; the last four
      bytes of the header do not matter. */
  lemma PacketsExactly(data: seq<Byte>, h: Header, payload: seq<Byte>)
    ensures ParsePacket(data) == Some((h, payload)) <==>
              && G2_HEADER_SIZE <= |data| <= G2_MAX_PACKET_BYTES && Fit(HeaderFields(h), HEADER_WIDTHS)
              && data[..32] == PackHeader(h)[..32] && data[G2_HEADER_SIZE..] == payload
  {
    hide PackHeader, Fit, ParsePacket;
    if ParsePacket(data) == Some((h, payload)) {
      ParsedIsPacked(data, h, payload);
    }
    if && G2_HEADER_SIZE <= |data| <= G2_MAX_PACKET_BYTES && Fit(HeaderFields(h), HEADER_WIDTHS)
       && data[..32] == PackHeader(h)[..32] {
      SameButPad(data, h);
    }
  }

  lemma ParsedFields(data: seq<Byte>)
    requires G2_HEADER_SIZE <= |data| <= G2_MAX_PACKET_BYTES
    ensures Size(HEADER_WIDTHS) == G2_HEADER_SIZE
    ensures var f := Unpack(data, HEADER_WIDTHS);
            forall h: Header :: f[..12] == HeaderFields(h)[..12] <==>
              ParsePacket(data) == Some((h, data[G2_HEADER_SIZE..]))
  {
    Widths();
    hide Unpack, Size;
    var f := Unpack(data, HEADER_WIDTHS);
    forall h: Header
      ensures f[..12] == HeaderFields(h)[..12] <==> ParsePacket(data) == Some((h, data[G2_HEADER_SIZE..]))
    {
      FirstTwelve(f, HeaderFields(h));
    }
  }

  lemma FirstTwelve(f: seq<nat>, g: seq<nat>)
    requires |f| == |g| == 13
    ensures f[..12] == g[..12] <==>
              && f[0] == g[0] && f[1] == g[1] && f[2] == g[2] && f[3] == g[3] && f[4] == g[4] && f[5] == g[5]
              && f[6] == g[6] && f[7] == g[7] && f[8] == g[8] && f[9] == g[9] && f[10] == g[10] && f[11] == g[11]
  {
    if f[..12] == g[..12] {
      forall i | 0 <= i < 12 ensures f[i] == g[i] {
        assert f[i] == f[..12][i] == g[..12][i];
      }
    }
  }

  lemma ParsedIsPacked(data: seq<Byte>, h: Header, payload: seq<Byte>)
    requires ParsePacket(data) == Some((h, payload))
    ensures G2_HEADER_SIZE <= |data| <= G2_MAX_PACKET_BYTES && Fit(HeaderFields(h), HEADER_WIDTHS)
    ensures data[..32] == PackHeader(h)[..32] && data[G2_HEADER_SIZE..] == payload
  {
    assert G2_HEADER_SIZE <= |data| <= G2_MAX_PACKET_BYTES && payload == data[G2_HEADER_SIZE..];
    hide ParsePacket, Pack, Unpack, Size, Fit, PackHeader;
    ParsedFields(data);
    PackOfUnpack(data, HEADER_WIDTHS);
    PadIsIgnored(Unpack(data, HEADER_WIDTHS), h);
    TakeOfTake(data, 32, 36);
  }

  lemma TakeOfTake<T>(s: seq<T>, i: nat, j: nat)
    requires i <= j <= |s|
    ensures s[..j][..i] == s[..i]
  {
  }

  lemma ShortHeader(f: seq<nat>)
    requires |f| == 13
    ensures |Pack(f[..12], HEADER_WIDTHS[..12])| == 32
    ensures Pack(f, HEADER_WIDTHS) == Pack(f[..12], HEADER_WIDTHS[..12]) + Le(f[12], 4)
  {
    hide Pack, Le, Size;
    HeaderOffsets(12);
    assert f == f[..12] + [f[12]] && HEADER_WIDTHS == HEADER_WIDTHS[..12] + [4];
    PackThen(f[..12], HEADER_WIDTHS[..12], f[12], 4);
  }

  lemma PadIsIgnored(f: seq<nat>, h: Header)
    requires |f| == 13 && f[..12] == HeaderFields(h)[..12] && Fit(f, HEADER_WIDTHS)
    ensures |Pack(f, HEADER_WIDTHS)| >= 32 && Pack(f, HEADER_WIDTHS)[..32] == PackHeader(h)[..32]
    ensures Fit(HeaderFields(h), HEADER_WIDTHS)
  {
    var g := HeaderFields(h);
    forall i | 0 <= i < 13 ensures g[i] < Pow256(HEADER_WIDTHS[i]) {
      if i < 12 {
        assert g[i] == g[..12][i] == f[..12][i] == f[i];
      }
    }
    hide Pack, Le, Fit;
    ShortHeader(f);
    ShortHeader(g);
  }

  lemma OtherPadFits(h: Header, pad: nat)
    requires Fit(HeaderFields(h), HEADER_WIDTHS) && pad < U32_LIMIT
    ensures Fit(HeaderFields(h)[..12] + [pad], HEADER_WIDTHS)
  {
    PowersOf256();
    var f := HeaderFields(h)[..12] + [pad];
    forall i | 0 <= i < 13 ensures f[i] < Pow256(HEADER_WIDTHS[i]) {
      if i < 12 {
        assert f[i] == HeaderFields(h)[i];
      }
    }
  }

  lemma SameButPad(data: seq<Byte>, h: Header)
    requires G2_HEADER_SIZE <= |data| <= G2_MAX_PACKET_BYTES && Fit(HeaderFields(h), HEADER_WIDTHS)
    requires data[..32] == PackHeader(h)[..32]
    ensures ParsePacket(data) == Some((h, data[G2_HEADER_SIZE..]))
  {
    hide ParsePacket, Pack, Unpack, Size, Fit, Le, Value;
    var pad, g := ReadU32(data, 32), HeaderFields(h);
    var f := g[..12] + [pad];
    OtherPadFits(h, pad);
    assert f[..12] == g[..12] && g == g[..12] + [0] && f[12] == pad;
    ShortHeader(f);
    ShortHeader(g);
    FieldRead(data, 32);
    Suffix(Pack(g[..12], HEADER_WIDTHS[..12]), Le(0, 4));
    assert Pack(f[..12], HEADER_WIDTHS[..12]) == data[..32] by {
      Front(Pack(g[..12], HEADER_WIDTHS[..12]), Le(0, 4));
    }
    HeaderIsFront(data);
    UnpackOfPack(f, HEADER_WIDTHS, data[G2_HEADER_SIZE..]);
    ParsedFields(data);
  }

  lemma HeaderIsFront(data: seq<Byte>)
    requires |data| >= 36
    ensures data[..32] + data[32..32 + 4] + data[36..] == data
  {
  }

  // ---------------------------------------------------------------- tables and steps

  datatype ServerRecord = ServerRecord(serverId: nat, name: string, host: string, gamePort: nat, endpoint: Addr,
                                       udpHost: string, udpPort: nat, currentPlayers: Byte, maxPlayers: Byte,
                                       lastSeen: real)

  datatype Session = Session(endpoint: Addr, expiresAtMs: int, mac: seq<Byte>, lastSeen: real, authorized: bool)

  datatype Tables = Tables(servers: map<nat, ServerRecord>, sessions: map<SessionKey, Session>, nextServerId: nat)

  const EMPTY_TABLES := Tables(map[], map[], 1)

  datatype Reply =
    | RegisterAck(serverId: nat, publicHost: string, text: string, accepted: bool)
    | ListResponse
    | PunchResponse(record: Option<ServerRecord>, expiresAtMs: int, mac: seq<Byte>, text: string)
    | PunchPeer(nonce: nat, host: string, port: nat)
    | Relayed(payload: seq<Byte>)

  datatype Send = Send(to: Addr, reply: Reply)

  /** The keyed hash and the name decoding the server runs with. */
  datatype Config = Config(sign: (nat, nat, int) -> seq<Byte>, nameOf: seq<Byte> -> string)

  /** What the tables react to: a reassembled packet of one of the two kinds, or the periodic pruning. */
  datatype Event =
    | Control(addr: Addr, data: seq<Byte>, now: real)
    | RelayPacket(addr: Addr, payload: seq<Byte>, now: real)
    | Prune(now: real)

  function Milliseconds(now: real): (ms: int) {
    (now * 1000.0).Floor
  }

  predicate Verifies(c: Config, token: Token, now: real) {
    && token.expiresAtMs >= Milliseconds(now)
    && |token.mac| == RELAY_TOKEN_MAC_BYTES
    && token.mac == c.sign(token.key.serverId, token.key.nonce, token.expiresAtMs)
  }

  function Refuse(t: Tables, addr: Addr, text: string): (r: (Tables, seq<Send>)) {
    (t, [Send(addr, RegisterAck(0, addr.host, text, false))])
  }

  function Register(c: Config, t: Tables, addr: Addr, reg: Registration, now: real): (r: (Tables, seq<Send>)) {
    var id := if reg.serverId == 0 then t.nextServerId else reg.serverId;
    var t' := if reg.serverId == 0 then t.(nextServerId := t.nextServerId + 1) else t;
    if id != 0 && id in t.servers && t.servers[id].endpoint != addr then
      Refuse(t', addr, "server id belongs to another endpoint")
    else if id !in t.servers && |t.servers| >= MAX_ADVERTISED_SERVERS then
      Refuse(t', addr, "directory is full")
    else
      var recordId := if id in t.servers then t.servers[id].serverId else id;
      var record := ServerRecord(recordId, c.nameOf(reg.rawName), addr.host, reg.gamePort, addr, addr.host, addr.port,
                                 reg.currentPlayers, reg.maxPlayers, now);
      (t'.(servers := t.servers[id := record]), [Send(addr, RegisterAck(id, addr.host, "registered", true))])
  }

  function RefusePunch(t: Tables, addr: Addr, text: string): (r: (Tables, seq<Send>)) {
    (t, [Send(addr, PunchResponse(None, 0, [], text))])
  }

  /** A punch request that (re)opens the session of its key. */
  predicate PunchAccepted(t: Tables, key: SessionKey) {
    && key.serverId != 0 && key.nonce != 0 && key.serverId in t.servers
    && (key in t.sessions || |t.sessions| < MAX_RELAY_CLIENTS)
  }

  function Punch(c: Config, t: Tables, addr: Addr, key: SessionKey, now: real): (r: (Tables, seq<Send>)) {
    if key.serverId == 0 || key.nonce == 0 then RefusePunch(t, addr, "invalid punch request")
    else if key.serverId !in t.servers then RefusePunch(t, addr, "server not found")
    else if key !in t.sessions && |t.sessions| >= MAX_RELAY_CLIENTS then RefusePunch(t, addr, "relay is busy")
    else
      var record := t.servers[key.serverId];
      var expires := Milliseconds(now) + RELAY_TOKEN_TTL_MS;
      var mac := c.sign(key.serverId, key.nonce, expires);
      (t.(sessions := t.sessions[key := Session(addr, expires, mac, now, false)]),
       [Send(record.endpoint, PunchPeer(key.nonce, addr.host, addr.port)),
        Send(addr, PunchResponse(Some(record), expires, mac, "ok"))])
  }

  /** Oversize packets are dropped by the sender. */
  function SendRelay(to: Addr, payload: seq<Byte>): (sends: seq<Send>) {
    if |payload| > G2_MAX_PAYLOAD_BYTES then [] else [Send(to, Relayed(payload))]
  }

  function Relay(c: Config, t: Tables, addr: Addr, payload: seq<Byte>, now: real): (r: (Tables, seq<Send>)) {
    var parsed := ParseRelay(payload);
    if parsed.None? || parsed.value.key.serverId !in t.servers then (t, [])
    else
      var token := parsed.value;
      var record := t.servers[token.key.serverId];
      if addr == record.endpoint then
        (t, if token.key in t.sessions then SendRelay(t.sessions[token.key].endpoint, payload) else [])
      else if token.key !in t.sessions then (t, [])
      else
        var session := t.sessions[token.key];
        if (!session.authorized || session.endpoint != addr) && !Verifies(c, token, now) then (t, [])
        else
          (t.(sessions := t.sessions[token.key := session.(endpoint := addr, lastSeen := now, authorized := true)]),
           SendRelay(record.endpoint, payload))
  }

  function HandleControl(c: Config, t: Tables, addr: Addr, data: seq<Byte>, now: real): (r: (Tables, seq<Send>)) {
    match ParseEnvelope(data)
    case None => (t, [])
    case Some((kind, payload)) =>
      if kind == MSG_REGISTER || kind == MSG_HEARTBEAT then
        match ParseRegistration(payload)
        case None => (t, [])
        case Some(reg) => Register(c, t, addr, reg, now)
      else if kind == MSG_LIST_REQUEST then (t, [Send(addr, ListResponse)])
      else if kind == MSG_PUNCH_REQUEST then
        match ParsePunchRequest(payload)
        case None => (t, [])
        case Some(key) => Punch(c, t, addr, key, now)
      else (t, [])
  }

  function LiveServers(servers: map<nat, ServerRecord>, now: real): (r: map<nat, ServerRecord>) {
    map id | id in servers && now - servers[id].lastSeen <= SERVER_TTL_SECONDS :: servers[id]
  }

  function LiveSessions(sessions: map<SessionKey, Session>, now: real): (r: map<SessionKey, Session>) {
    map k | k in sessions && now - sessions[k].lastSeen <= CLIENT_TTL_SECONDS :: sessions[k]
  }

  function PruneTables(t: Tables, now: real): (r: Tables) {
    t.(servers := LiveServers(t.servers, now), sessions := LiveSessions(t.sessions, now))
  }

  function Step(c: Config, t: Tables, e: Event): (r: (Tables, seq<Send>)) {
    match e
    case Control(addr, data, now) => HandleControl(c, t, addr, data, now)
    case RelayPacket(addr, payload, now) => Relay(c, t, addr, payload, now)
    case Prune(now) => (PruneTables(t, now), [])
  }

  /** The tables after a history of events; these are the reachable states. */
  function After(c: Config, history: seq<Event>): (t: Tables) {
    if history == [] then EMPTY_TABLES
    else Step(c, After(c, history[..|history| - 1]), history[|history| - 1]).0
  }

  // ---------------------------------------------------------------- limits and ownership

  ghost predicate ValidTables(t: Tables) {
    && |t.servers| <= MAX_ADVERTISED_SERVERS
    && |t.sessions| <= MAX_RELAY_CLIENTS
    && t.nextServerId > 0
    && (forall id :: id in t.servers ==> id != 0 && t.servers[id].serverId == id)
    && (forall key :: key in t.sessions ==> key.serverId != 0 && key.nonce != 0)
  }

  lemma MapUpdateSize<K, V>(m: map<K, V>, k: K, v: V)
    ensures |m[k := v]| == if k in m then |m| else |m| + 1
  {
    var r := m[k := v];
    assert r.Keys == m.Keys + {k};
    assert |r| == |r.Keys| && |m| == |m.Keys|;
  }

  lemma RemoveUpdated<K, V>(m: map<K, V>, k: K, v: V)
    ensures m[k := v] - {k} == m - {k}
  {
  }

  lemma RegisterKeepsTablesValid(c: Config, t: Tables, addr: Addr, reg: Registration, now: real)
    requires ValidTables(t)
    ensures ValidTables(Register(c, t, addr, reg, now).0)
  {
    var id := if reg.serverId == 0 then t.nextServerId else reg.serverId;
    var after := Register(c, t, addr, reg, now).0;
    if id in after.servers {
      MapUpdateSize(t.servers, id, after.servers[id]);
    }
  }

  lemma SessionUpdateKeepsTablesValid(t: Tables, key: SessionKey, session: Session)
    requires ValidTables(t) && key.serverId != 0 && key.nonce != 0
    requires key in t.sessions || |t.sessions| < MAX_RELAY_CLIENTS
    ensures ValidTables(t.(sessions := t.sessions[key := session]))
  {
    MapUpdateSize(t.sessions, key, session);
  }

  lemma StepKeepsTablesValid(c: Config, t: Tables, e: Event)
    requires ValidTables(t)
    ensures ValidTables(Step(c, t, e).0)
  {
    hide Register, ValidTables, ParseEnvelope, ParsePunchRequest, ParseRegistration, Verifies, Milliseconds;
    var after := Step(c, t, e).0;
    match e
    case Control(addr, data, now) =>
      var envelope := ParseEnvelope(data);
      if envelope.Some? {
        var reg, punch := ParseRegistration(envelope.value.1), ParsePunchRequest(envelope.value.1);
        if reg.Some? {
          RegisterKeepsTablesValid(c, t, addr, reg.value, now);
        }
        if punch.Some? && PunchAccepted(t, punch.value) {
          var expires := Milliseconds(now) + RELAY_TOKEN_TTL_MS;
          SessionUpdateKeepsTablesValid(t, punch.value, Session(addr, expires,
            c.sign(punch.value.serverId, punch.value.nonce, expires), now, false));
        }
      }
    case RelayPacket(addr, payload, now) =>
      var token := ParseRelay(payload);
      if token.Some? && token.value.key in after.sessions && after != t {
        SessionUpdateKeepsTablesValid(t, token.value.key, after.sessions[token.value.key]);
      }
    case Prune(now) =>
      PruneKeepsTablesValid(t, now);
  }

  lemma PruneKeepsTablesValid(t: Tables, now: real)
    requires ValidTables(t)
    ensures ValidTables(PruneTables(t, now))
  {
    SubmapSize(PruneTables(t, now).servers, t.servers);
    SubmapSize(PruneTables(t, now).sessions, t.sessions);
  }

  lemma {:induction false} TablesAlwaysValid(c: Config, history: seq<Event>)
    ensures ValidTables(After(c, history))
  {
    if history != [] {
      TablesAlwaysValid(c, history[..|history| - 1]);
      StepKeepsTablesValid(c, After(c, history[..|history| - 1]), history[|history| - 1]);
    }
  }

  /** A live record's endpoint never changes: only pruning frees an id for another endpoint. */
  lemma EndpointsAreStable(c: Config, history: seq<Event>, e: Event, id: nat)
    requires id in After(c, history).servers
    ensures var after := After(c, history + [e]);
            if id in after.servers then after.servers[id].endpoint == After(c, history).servers[id].endpoint
            else e.Prune?
  {
    hide Step, ValidTables;
    AfterThen(c, history, e);
    TablesAlwaysValid(c, history);
    StepKeepsEndpoint(c, After(c, history), e, id);
  }

  lemma AfterThen(c: Config, history: seq<Event>, e: Event)
    ensures After(c, history + [e]) == Step(c, After(c, history), e).0
  {
    hide Step;
    var all := history + [e];
    assert all[..|all| - 1] == history;
  }

  lemma StepKeepsEndpoint(c: Config, t: Tables, e: Event, id: nat)
    requires ValidTables(t) && id in t.servers
    ensures var after := Step(c, t, e).0;
            if id in after.servers then after.servers[id].endpoint == t.servers[id].endpoint else e.Prune?
  {
    hide ParseEnvelope, ParsePunchRequest, ParseRegistration, ParseRelay, Verifies, Milliseconds;
  }

  /** The sends accept a registration or heartbeat for the id. */
  ghost predicate Acknowledges(sends: seq<Send>, id: nat) {
    exists s :: s in sends && s.reply.RegisterAck? && s.reply.accepted && s.reply.serverId == id
  }

  /** Every accepting acknowledgement goes to the endpoint that owns the acknowledged id from then on. */
  lemma AcksGoToOwners(c: Config, history: seq<Event>, e: Event, send: Send)
    requires send in Step(c, After(c, history), e).1 && send.reply.RegisterAck? && send.reply.accepted
    ensures var servers := After(c, history + [e]).servers;
            send.reply.serverId in servers && servers[send.reply.serverId].endpoint == send.to
  {
    hide Step;
    AfterThen(c, history, e);
    AckGoesToOwner(c, After(c, history), e, send);
  }

  lemma AckGoesToOwner(c: Config, t: Tables, e: Event, send: Send)
    requires send in Step(c, t, e).1 && send.reply.RegisterAck? && send.reply.accepted
    ensures var servers := Step(c, t, e).0.servers;
            send.reply.serverId in servers && servers[send.reply.serverId].endpoint == send.to
  {
    hide ParseEnvelope, ParsePunchRequest, ParseRegistration, ParseRelay, Verifies, Milliseconds;
  }

  /** Exactly what survives pruning. */
  lemma PruneKeepsTheLiving(t: Tables, now: real)
    ensures var after := PruneTables(t, now);
            && (forall id :: id in after.servers <==>
                  id in t.servers && now - t.servers[id].lastSeen <= SERVER_TTL_SECONDS)
            && (forall id :: id in after.servers ==> after.servers[id] == t.servers[id])
            && (forall k :: k in after.sessions <==>
                  k in t.sessions && now - t.sessions[k].lastSeen <= CLIENT_TTL_SECONDS)
            && (forall k :: k in after.sessions ==> after.sessions[k] == t.sessions[k])
  {
  }

  /** Exactly when a registration is accepted. A new server (id 0) is given the next id, but any server may have
      claimed that id for itself before, and then the new one is turned away although the directory has room. */
  lemma RegistrationAcceptedExactly(c: Config, t: Tables, addr: Addr, reg: Registration, now: real)
    requires ValidTables(t)
    ensures var id := if reg.serverId == 0 then t.nextServerId else reg.serverId;
            var sends := Register(c, t, addr, reg, now).1;
            Acknowledges(sends, id) <==>
              if id in t.servers then t.servers[id].endpoint == addr else |t.servers| < MAX_ADVERTISED_SERVERS
  {
    var id := if reg.serverId == 0 then t.nextServerId else reg.serverId;
    var sends := Register(c, t, addr, reg, now).1;
    assert |sends| == 1 && sends[0] in sends;
  }

  /** How a new server is turned away: another one has registered itself under the id that is next in line. */
  lemma NewServerTurnedAway(c: Config, t: Tables, squatter: Addr, addr: Addr, reg: Registration, now: real)
    requires ValidTables(t) && t.nextServerId !in t.servers && |t.servers| < MAX_ADVERTISED_SERVERS && squatter != addr
    ensures var claimed := Register(c, t, squatter, reg.(serverId := t.nextServerId), now).0;
            Register(c, claimed, addr, reg.(serverId := 0), now).1
            == [Send(addr, RegisterAck(0, addr.host, "server id belongs to another endpoint", false))]
  {
  }

  // ---------------------------------------------------------------- registration over histories

  /** The registration or heartbeat an event carries. */
  function RegistrationOf(e: Event): (reg: Option<Registration>) {
    if !e.Control? then None
    else
      match ParseEnvelope(e.data)
      case None => None
      case Some((kind, payload)) =>
        if kind == MSG_REGISTER || kind == MSG_HEARTBEAT then ParseRegistration(payload) else None
  }

  /** The event is the registration of a server that has no id yet. */
  predicate IsNewServer(e: Event) {
    RegistrationOf(e).Some? && RegistrationOf(e).value.serverId == 0
  }

  /** The number of registrations of servers without an id. */
  function NewServers(history: seq<Event>): (n: nat) {
    if history == [] then 0
    else NewServers(history[..|history| - 1]) + (if IsNewServer(history[|history| - 1]) then 1 else 0)
  }

  /** The id a registration is about: new servers are numbered from 1 in the order of their registrations. */
  function RequestedId(history: seq<Event>, reg: Registration): (id: nat) {
    if reg.serverId == 0 then 1 + NewServers(history) else reg.serverId
  }

  /** After the history, the event is a registration for the id that finds it its own, or free with room left. */
  ghost predicate Registers(c: Config, history: seq<Event>, e: Event, id: nat) {
    var servers := After(c, history).servers;
    && RegistrationOf(e).Some? && RequestedId(history, RegistrationOf(e).value) == id
    && if id in servers then servers[id].endpoint == e.addr else |servers| < MAX_ADVERTISED_SERVERS
  }

  lemma StepNextId(c: Config, t: Tables, e: Event)
    ensures Step(c, t, e).0.nextServerId == t.nextServerId + (if IsNewServer(e) then 1 else 0)
  {
    hide ParseEnvelope, ParsePunchRequest, ParseRegistration, ParseRelay, Verifies, Milliseconds;
  }

  /** Every registration of a new server uses up an id, whether it is accepted or not. */
  lemma {:induction false} NextIdCounts(c: Config, history: seq<Event>)
    ensures After(c, history).nextServerId == 1 + NewServers(history)
  {
    hide Step, IsNewServer;
    if history != [] {
      NextIdCounts(c, history[..|history| - 1]);
      StepNextId(c, After(c, history[..|history| - 1]), history[|history| - 1]);
    }
  }

  /** Every registration is answered with one acknowledgement, to its sender: it accepts the requested id if the
      registration registers it, and refuses otherwise. Nothing else is answered like that. */
  lemma RegistrationAnswered(c: Config, history: seq<Event>, e: Event)
    ensures var sends := Step(c, After(c, history), e).1;
            match RegistrationOf(e)
            case None => forall s :: s in sends ==> !s.reply.RegisterAck?
            case Some(reg) =>
              var id := RequestedId(history, reg);
              && |sends| == 1 && sends[0].to == e.addr && sends[0].reply.RegisterAck?
              && sends[0].reply.publicHost == e.addr.host
              && sends[0].reply.accepted == Registers(c, history, e, id)
              && sends[0].reply.serverId == if Registers(c, history, e, id) then id else 0
  {
    NextIdCounts(c, history);
    TablesAlwaysValid(c, history);
    hide After, NewServers;
    AckOfStep(c, After(c, history), e);
  }

  lemma AckOfStep(c: Config, t: Tables, e: Event)
    requires ValidTables(t)
    ensures var sends := Step(c, t, e).1;
            match RegistrationOf(e)
            case None => forall s :: s in sends ==> !s.reply.RegisterAck?
            case Some(reg) =>
              var id := if reg.serverId == 0 then t.nextServerId else reg.serverId;
              var free := if id in t.servers then t.servers[id].endpoint == e.addr
                          else |t.servers| < MAX_ADVERTISED_SERVERS;
              && |sends| == 1 && sends[0].to == e.addr && sends[0].reply.RegisterAck?
              && sends[0].reply.publicHost == e.addr.host && sends[0].reply.accepted == free
              && sends[0].reply.serverId == if free then id else 0
  {
    hide ParseEnvelope, ParsePunchRequest, ParseRegistration, ParseRelay, Verifies, Milliseconds;
  }

  lemma AcknowledgedExactly(c: Config, history: seq<Event>, e: Event, id: nat)
    ensures Acknowledges(Step(c, After(c, history), e).1, id) <==> Registers(c, history, e, id)
  {
    hide Step, Registers;
    var sends := Step(c, After(c, history), e).1;
    RegistrationAnswered(c, history, e);
    if RegistrationOf(e).Some? {
      assert sends[0] in sends && forall s :: s in sends ==> s == sends[0];
      assert Registers(c, history, e, id) ==> id == RequestedId(history, RegistrationOf(e).value) by {
        RegistersItsId(c, history, e, id);
      }
    } else {
      assert !Registers(c, history, e, id) by { RegistersItsId(c, history, e, id); }
    }
  }

  lemma RegistersItsId(c: Config, history: seq<Event>, e: Event, id: nat)
    ensures Registers(c, history, e, id) ==>
              RegistrationOf(e).Some? && id == RequestedId(history, RegistrationOf(e).value)
  {
  }

  lemma {:induction false} NewServersGrow(history: seq<Event>, i: nat)
    requires i < |history| && IsNewServer(history[i])
    ensures NewServers(history[..i]) < NewServers(history)
  {
    hide IsNewServer;
    var before := history[..|history| - 1];
    if i < |before| {
      assert before[..i] == history[..i];
      NewServersGrow(before, i);
    }
  }

  /** No two new servers are ever given the same id: later ones get greater ids. */
  lemma NewIdsDiffer(c: Config, history: seq<Event>, i: nat, j: nat, first: nat, second: nat)
    requires i < j < |history| && IsNewServer(history[i]) && IsNewServer(history[j])
    requires Acknowledges(Step(c, After(c, history[..i]), history[i]).1, first)
    requires Acknowledges(Step(c, After(c, history[..j]), history[j]).1, second)
    ensures first < second
  {
    hide Step, Acknowledges, Registers, After;
    AcknowledgedExactly(c, history[..i], history[i], first);
    AcknowledgedExactly(c, history[..j], history[j], second);
    RegistersItsId(c, history[..i], history[i], first);
    RegistersItsId(c, history[..j], history[j], second);
    assert history[..j][..i] == history[..i];
    NewServersGrow(history[..j], i);
  }

  /** Every registration is that of a new server or carries an id that has been handed out. */
  predicate OnlyHandedOutIds(history: seq<Event>) {
    history == [] ||
    (var before, reg := history[..|history| - 1], RegistrationOf(history[|history| - 1]);
     && OnlyHandedOutIds(before)
     && (reg.Some? ==> reg.value.serverId <= NewServers(before)))
  }

  lemma {:induction false} IdsAreHandedOut(c: Config, history: seq<Event>, id: nat)
    requires OnlyHandedOutIds(history) && id in After(c, history).servers
    ensures id <= NewServers(history)
  {
    if history != [] {
      var before, e := history[..|history| - 1], history[|history| - 1];
      NextIdCounts(c, before);
      hide Step;
      if id in After(c, before).servers {
        IdsAreHandedOut(c, before, id);
      } else {
        StepAddsRequested(c, After(c, before), e, id);
      }
    }
  }

  lemma StepAddsRequested(c: Config, t: Tables, e: Event, id: nat)
    requires id in Step(c, t, e).0.servers && id !in t.servers
    ensures RegistrationOf(e).Some?
    ensures var reg := RegistrationOf(e).value; id == if reg.serverId == 0 then t.nextServerId else reg.serverId
  {
    hide ParseEnvelope, ParsePunchRequest, ParseRegistration, ParseRelay, Verifies, Milliseconds;
  }

  /** As long as nobody claims an id that has not been handed out, every new server is accepted while there is
      room, under an id of its own. */
  lemma NewServersAccepted(c: Config, history: seq<Event>, e: Event)
    requires OnlyHandedOutIds(history) && IsNewServer(e)
    requires |After(c, history).servers| < MAX_ADVERTISED_SERVERS
    ensures Acknowledges(Step(c, After(c, history), e).1, 1 + NewServers(history))
  {
    hide Step, Acknowledges, After;
    var id := 1 + NewServers(history);
    AcknowledgedExactly(c, history, e, id);
    if id in After(c, history).servers {
      IdsAreHandedOut(c, history, id);
    }
  }

  // ---------------------------------------------------------------- relay authorisation

  /** The event is a relay packet from `addr` with a token that verifies for the session at that moment. */
  ghost predicate Presents(c: Config, e: Event, key: SessionKey, addr: Addr) {
    && e.RelayPacket? && e.addr == addr
    && ParseRelay(e.payload).Some?
    && ParseRelay(e.payload).value.key == key
    && Verifies(c, ParseRelay(e.payload).value, e.now)
  }

  /** The session a punch request asks for. */
  function PunchOf(e: Event): (key: Option<SessionKey>) {
    if !e.Control? then None
    else
      match ParseEnvelope(e.data)
      case None => None
      case Some((kind, payload)) => if kind == MSG_PUNCH_REQUEST then ParsePunchRequest(payload) else None
  }

  /** The event is a punch request that (re)opens the session. */
  ghost predicate Opens(t: Tables, e: Event, key: SessionKey) {
    PunchOf(e) == Some(key) && PunchAccepted(t, key)
  }

  /** A punch request that opens its session introduces the two sides to each other: the server is told the
      client's address, and the client gets the server's record and its token. Any other punch request is refused,
      and nothing else is answered like that. */
  lemma PunchAnswered(c: Config, t: Tables, e: Event)
    ensures var sends := Step(c, t, e).1;
            match PunchOf(e)
            case None => forall s :: s in sends ==> !s.reply.PunchPeer? && !s.reply.PunchResponse?
            case Some(key) =>
              if Opens(t, e, key) then
                var server, expires := t.servers[key.serverId], Milliseconds(e.now) + RELAY_TOKEN_TTL_MS;
                sends == [Send(server.endpoint, PunchPeer(key.nonce, e.addr.host, e.addr.port)),
                          Send(e.addr, PunchResponse(Some(server), expires,
                                                     c.sign(key.serverId, key.nonce, expires), "ok"))]
              else
                && |sends| == 1 && sends[0].to == e.addr && sends[0].reply.PunchResponse?
                && sends[0].reply.record.None? && sends[0].reply.expiresAtMs == 0 && sends[0].reply.mac == []
  {
    hide ParseEnvelope, ParsePunchRequest, ParseRegistration, ParseRelay, Verifies, Milliseconds;
  }

  /** Except for introductions and relayed packets, every message goes back to where the event came from; a list
      is sent exactly when one is asked for. */
  lemma RepliesGoBack(c: Config, t: Tables, e: Event)
    ensures var sends := Step(c, t, e).1;
            && (forall s :: s in sends && !s.reply.PunchPeer? && !s.reply.Relayed? ==> !e.Prune? && s.to == e.addr)
            && ((exists s :: s in sends && s.reply.ListResponse?) <==>
                  && e.Control? && ParseEnvelope(e.data).Some?
                  && ParseEnvelope(e.data).value.0 == MSG_LIST_REQUEST)
  {
    hide ParseEnvelope, ParsePunchRequest, ParseRegistration, ParseRelay, Verifies, Milliseconds;
    var sends := Step(c, t, e).1;
    if e.Control? && ParseEnvelope(e.data).Some? && ParseEnvelope(e.data).value.0 == MSG_LIST_REQUEST {
      assert sends[0] in sends;
    }
  }

  /** The events since the session was last opened. */
  ghost function SinceOpened(c: Config, history: seq<Event>, key: SessionKey): (r: seq<Event>) {
    if history == [] then []
    else
      var before, e := history[..|history| - 1], history[|history| - 1];
      if Opens(After(c, before), e, key) then [] else SinceOpened(c, before, key) + [e]
  }

  ghost predicate Presented(c: Config, events: seq<Event>, key: SessionKey, addr: Addr) {
    exists e :: e in events && Presents(c, e, key, addr)
  }

  /** What one event can do to a session: open it unauthorised, or move it to an address that is already
      authorised for it or presents a verifying token, or drop it, or nothing. */
  lemma SessionStep(c: Config, t: Tables, e: Event, key: SessionKey)
    requires key in Step(c, t, e).0.sessions
    ensures var after := Step(c, t, e).0.sessions[key];
            if Opens(t, e, key) then !after.authorized
            else
              && key in t.sessions
              && (after == t.sessions[key]
                  || (after.authorized && t.sessions[key].authorized && after.endpoint == t.sessions[key].endpoint)
                  || Presents(c, e, key, after.endpoint))
  {
    hide ParseEnvelope, ParsePunchRequest, ParseRegistration, ParseRelay, Verifies, Milliseconds;
  }

  /** In every reachable state, the endpoint of an authorised session is an address that has presented a token
      verifying for that session since the session was last opened. */
  lemma {:induction false} AuthorisedEndpoints(c: Config, history: seq<Event>, key: SessionKey)
    requires key in After(c, history).sessions && After(c, history).sessions[key].authorized
    ensures Presented(c, SinceOpened(c, history, key), key, After(c, history).sessions[key].endpoint)
  {
    if history != [] {
      var before, e := history[..|history| - 1], history[|history| - 1];
      SessionStep(c, After(c, before), e, key);
      var endpoint := After(c, history).sessions[key].endpoint;
      assert e in SinceOpened(c, before, key) + [e];
      if !Presents(c, e, key, endpoint) {
        AuthorisedEndpoints(c, before, key);
        var w :| w in SinceOpened(c, before, key) && Presents(c, w, key, endpoint);
        assert w in SinceOpened(c, before, key) + [e];
      }
    }
  }

  /** What one event relays, and in which state it leaves the session. */
  lemma RelayStep(c: Config, t: Tables, e: Event, send: Send)
    requires send in Step(c, t, e).1 && send.reply.Relayed?
    ensures e.RelayPacket? && send.reply.payload == e.payload && ParseRelay(e.payload).Some?
    ensures var key := ParseRelay(e.payload).value.key;
            key.serverId in t.servers && key in t.sessions && key in Step(c, t, e).0.sessions
    ensures var key := ParseRelay(e.payload).value.key;
            var server, session := t.servers[key.serverId].endpoint, Step(c, t, e).0.sessions[key];
            if e.addr == server then send.to == t.sessions[key].endpoint
            else send.to == server && session.authorized && session.endpoint == e.addr
  {
    hide ParseEnvelope, ParsePunchRequest, ParseRegistration, ParseRelay, Verifies, Milliseconds;
  }

  /** Every relayed payload is passed on unchanged: from the server's own address to the session's endpoint, or
      to the server from an address that has presented a verifying token since the session was last opened. */
  lemma RelayedPayloads(c: Config, history: seq<Event>, e: Event, send: Send)
    requires send in Step(c, After(c, history), e).1 && send.reply.Relayed?
    ensures e.RelayPacket? && send.reply.payload == e.payload && ParseRelay(e.payload).Some?
    ensures var t, key := After(c, history), ParseRelay(e.payload).value.key;
            key.serverId in t.servers && key in t.sessions
    ensures var t, key := After(c, history), ParseRelay(e.payload).value.key;
            var fromServer := e.addr == t.servers[key.serverId].endpoint;
            && (fromServer ==> send.to == t.sessions[key].endpoint)
            && (!fromServer ==> send.to == t.servers[key.serverId].endpoint)
            && (!fromServer ==> Presented(c, SinceOpened(c, history + [e], key), key, e.addr))
  {
    hide Step, ParseRelay;
    var t := After(c, history);
    RelayStep(c, t, e, send);
    AfterThen(c, history, e);
    var key := ParseRelay(e.payload).value.key;
    if e.addr != t.servers[key.serverId].endpoint {
      AuthorisedEndpoints(c, history + [e], key);
    }
  }

  // ---------------------------------------------------------------- lifetimes

  /** The event is a packet relayed to the server for a client of the session. */
  ghost predicate UsedBy(c: Config, t: Tables, e: Event, key: SessionKey) {
    && e.RelayPacket?
    && ParseRelay(e.payload).Some? && ParseRelay(e.payload).value.key == key
    && key.serverId in t.servers && t.servers[key.serverId].endpoint != e.addr
    && key in t.sessions
    && (Authorised(t, key, e.addr) || Verifies(c, ParseRelay(e.payload).value, e.now))
  }

  /** The event is a packet of the session's own server for its client. */
  ghost predicate ServerPacket(t: Tables, e: Event, key: SessionKey) {
    && e.RelayPacket?
    && ParseRelay(e.payload).Some? && ParseRelay(e.payload).value.key == key
    && key.serverId in t.servers && t.servers[key.serverId].endpoint == e.addr
    && key in t.sessions
  }

  /** What is relayed: exactly the packets clients and servers send each other within a session, unless they are
      too long. */
  lemma RelayedExactly(c: Config, t: Tables, e: Event, key: SessionKey)
    requires e.RelayPacket? && ParseRelay(e.payload).Some? && ParseRelay(e.payload).value.key == key
    ensures Step(c, t, e).1 ==
            if |e.payload| > G2_MAX_PAYLOAD_BYTES then []
            else if ServerPacket(t, e, key) then [Send(t.sessions[key].endpoint, Relayed(e.payload))]
            else if UsedBy(c, t, e, key) then [Send(t.servers[key.serverId].endpoint, Relayed(e.payload))]
            else []
  {
    hide ParseRelay, Verifies;
  }

  ghost predicate Authorised(t: Tables, key: SessionKey, addr: Addr) {
    key in t.sessions && t.sessions[key].authorized && t.sessions[key].endpoint == addr
  }

  /** The position of the last event that opened or used the session. */
  ghost function LastUse(c: Config, history: seq<Event>, key: SessionKey): (r: Option<nat>)
    ensures r.Some? ==> r.value < |history|
  {
    if history == [] then None
    else
      var before, e := history[..|history| - 1], history[|history| - 1];
      var t := After(c, before);
      if Opens(t, e, key) || UsedBy(c, t, e, key) then Some(|before|) else LastUse(c, before, key)
  }

  /** The position of the last registration or heartbeat that registered the server. */
  ghost function LastRegistration(c: Config, history: seq<Event>, id: nat): (r: Option<nat>)
    ensures r.Some? ==> r.value < |history|
  {
    if history == [] then None
    else
      var before, e := history[..|history| - 1], history[|history| - 1];
      if Registers(c, before, e, id) then Some(|before|) else LastRegistration(c, before, id)
  }

  /** Every pruning after event `i` came within `ttl` seconds of it. */
  ghost predicate PrunedInTime(history: seq<Event>, i: nat, ttl: real)
    requires i < |history|
  {
    forall j :: i < j < |history| && history[j].Prune? ==> history[j].now - history[i].now <= ttl
  }

  lemma PrunedInTimeThen(history: seq<Event>, e: Event, i: nat, ttl: real)
    requires i < |history|
    ensures PrunedInTime(history + [e], i, ttl)
            <==> PrunedInTime(history, i, ttl) && (e.Prune? ==> e.now - history[i].now <= ttl)
  {
    var all := history + [e];
    assert all[|history|] == e && all[i] == history[i];
    if PrunedInTime(all, i, ttl) {
      forall j | i < j < |history| && history[j].Prune? ensures history[j].now - history[i].now <= ttl {
        assert all[j] == history[j];
      }
    }
  }

  ghost predicate SessionLives(c: Config, history: seq<Event>, key: SessionKey) {
    var use := LastUse(c, history, key);
    use.Some? && PrunedInTime(history, use.value, CLIENT_TTL_SECONDS)
  }

  ghost predicate ServerLives(c: Config, history: seq<Event>, id: nat) {
    var registration := LastRegistration(c, history, id);
    registration.Some? && PrunedInTime(history, registration.value, SERVER_TTL_SECONDS)
  }

  /** The session is as its last opening or use has left it. */
  ghost predicate LeftBy(session: Session, e: Event) {
    && !e.Prune? && session.endpoint == e.addr && session.lastSeen == e.now
    && (session.authorized <==> e.RelayPacket?)
  }

  /** What one event does to a session. */
  lemma SessionChanges(c: Config, t: Tables, e: Event, key: SessionKey)
    ensures var after := Step(c, t, e).0.sessions;
            if Opens(t, e, key) || UsedBy(c, t, e, key) then key in after && LeftBy(after[key], e)
            else
              && (key in after <==>
                    key in t.sessions && (e.Prune? ==> e.now - t.sessions[key].lastSeen <= CLIENT_TTL_SECONDS))
              && (key in after ==> after[key] == t.sessions[key])
  {
    hide ParseEnvelope, ParsePunchRequest, ParseRegistration, ParseRelay, Verifies, Milliseconds;
  }

  /** The record holds what the event's registration says, and where it came from. */
  ghost predicate HoldsRegistration(c: Config, record: ServerRecord, id: nat, e: Event) {
    RegistrationOf(e).Some? &&
    var reg := RegistrationOf(e).value;
    && record.serverId == id && record.name == c.nameOf(reg.rawName)
    && record.endpoint == e.addr && record.host == e.addr.host
    && record.udpHost == e.addr.host && record.udpPort == e.addr.port
    && record.gamePort == reg.gamePort
    && record.currentPlayers == reg.currentPlayers && record.maxPlayers == reg.maxPlayers
    && record.lastSeen == e.now
  }

  lemma RegisterChanges(c: Config, t: Tables, addr: Addr, reg: Registration, now: real, id: nat)
    requires ValidTables(t)
    ensures var after := Register(c, t, addr, reg, now).0.servers;
            if id == (if reg.serverId == 0 then t.nextServerId else reg.serverId)
               && (if id in t.servers then t.servers[id].endpoint == addr else |t.servers| < MAX_ADVERTISED_SERVERS)
            then id in after && after[id] == ServerRecord(id, c.nameOf(reg.rawName), addr.host, reg.gamePort, addr,
                                                          addr.host, addr.port, reg.currentPlayers, reg.maxPlayers, now)
            else (id in after <==> id in t.servers) && (id in after ==> after[id] == t.servers[id])
  {
  }

  /** What one event does to a server record. */
  lemma ServerChanges(c: Config, history: seq<Event>, e: Event, id: nat)
    ensures var t := After(c, history);
            var after := Step(c, t, e).0.servers;
            if Registers(c, history, e, id) then id in after && HoldsRegistration(c, after[id], id, e)
            else
              && (id in after <==>
                    id in t.servers && (e.Prune? ==> e.now - t.servers[id].lastSeen <= SERVER_TTL_SECONDS))
              && (id in after ==> after[id] == t.servers[id])
  {
    hide Register, ParseEnvelope, ParsePunchRequest, ParseRegistration, ParseRelay, Verifies, Milliseconds;
    TablesAlwaysValid(c, history);
    NextIdCounts(c, history);
    hide After, NewServers, ValidTables;
    if e.Control? && RegistrationOf(e).Some? {
      RegisterChanges(c, After(c, history), e.addr, RegistrationOf(e).value, e.now, id);
    }
  }

  /** A session is in the tables if and only if every pruning since its last opening or use came within 10 seconds
      of that; it then is as that event has left it: at its sender's address, and authorised if it was a use. */
  lemma {:induction false} SessionLivesExactly(c: Config, history: seq<Event>, key: SessionKey)
    ensures key in After(c, history).sessions <==> SessionLives(c, history, key)
    ensures key in After(c, history).sessions ==>
              LeftBy(After(c, history).sessions[key], history[LastUse(c, history, key).value])
  {
    hide Step, Opens, UsedBy, PrunedInTime;
    if history != [] {
      var before, e := history[..|history| - 1], history[|history| - 1];
      assert history == before + [e];
      SessionLivesExactly(c, before, key);
      SessionChanges(c, After(c, before), e, key);
      if LastUse(c, before, key).Some? {
        PrunedInTimeThen(before, e, LastUse(c, before, key).value, CLIENT_TTL_SECONDS);
      }
      LastIsInTime(history, CLIENT_TTL_SECONDS);
    }
  }

  lemma LastIsInTime(history: seq<Event>, ttl: real)
    requires history != []
    ensures PrunedInTime(history, |history| - 1, ttl)
  {
  }

  /** A server is in the tables if and only if every pruning since its last registration or heartbeat came within
      15 seconds of it; its record then holds what that said. */
  lemma {:induction false} ServerLivesExactly(c: Config, history: seq<Event>, id: nat)
    ensures id in After(c, history).servers <==> ServerLives(c, history, id)
    ensures id in After(c, history).servers ==>
              HoldsRegistration(c, After(c, history).servers[id], id,
                                history[LastRegistration(c, history, id).value])
  {
    hide Step, Registers, PrunedInTime;
    if history != [] {
      var before, e := history[..|history| - 1], history[|history| - 1];
      assert history == before + [e];
      ServerLivesExactly(c, before, id);
      ServerChanges(c, before, e, id);
      if LastRegistration(c, before, id).Some? {
        PrunedInTimeThen(before, e, LastRegistration(c, before, id).value, SERVER_TTL_SECONDS);
      }
      LastIsInTime(history, SERVER_TTL_SECONDS);
    }
  }

  /** The position of the last punch request that opened the session. */
  ghost function LastOpening(c: Config, history: seq<Event>, key: SessionKey): (r: Option<nat>)
    ensures r.Some? ==> r.value < |history|
  {
    if history == [] then None
    else
      var before, e := history[..|history| - 1], history[|history| - 1];
      if Opens(After(c, before), e, key) then Some(|before|) else LastOpening(c, before, key)
  }

  /** A session holds the token signed when it was last opened. */
  lemma {:induction false} SessionsHoldTokens(c: Config, history: seq<Event>, key: SessionKey)
    requires key in After(c, history).sessions
    ensures LastOpening(c, history, key).Some?
    ensures var session := After(c, history).sessions[key];
            var expires := Milliseconds(history[LastOpening(c, history, key).value].now) + RELAY_TOKEN_TTL_MS;
            session.expiresAtMs == expires && session.mac == c.sign(key.serverId, key.nonce, expires)
  {
    hide Step, Opens, Milliseconds;
    if history != [] {
      var before, e := history[..|history| - 1], history[|history| - 1];
      StepToken(c, After(c, before), e, key);
      if !Opens(After(c, before), e, key) {
        SessionsHoldTokens(c, before, key);
      }
    }
  }

  lemma StepToken(c: Config, t: Tables, e: Event, key: SessionKey)
    requires key in Step(c, t, e).0.sessions
    ensures var after := Step(c, t, e).0.sessions[key];
            if Opens(t, e, key) then
              var expires := Milliseconds(e.now) + RELAY_TOKEN_TTL_MS;
              after.expiresAtMs == expires && after.mac == c.sign(key.serverId, key.nonce, expires)
            else
              && key in t.sessions
              && after.expiresAtMs == t.sessions[key].expiresAtMs && after.mac == t.sessions[key].mac
  {
    hide ParseEnvelope, ParsePunchRequest, ParseRegistration, ParseRelay, Verifies, Milliseconds;
  }

  /** The token signed for a session at a time. */
  function IssuedToken(c: Config, key: SessionKey, now: real): (token: Token)
    requires Milliseconds(now) + RELAY_TOKEN_TTL_MS >= 0
  {
    var expires := Milliseconds(now) + RELAY_TOKEN_TTL_MS;
    Token(key, expires, c.sign(key.serverId, key.nonce, expires))
  }

  /** A packet with an issued token, from any address but the server's: it goes to the server, and the server's
      packets come back to that address, if and only if the server and the session are in the tables and the
      address is authorised already or the token unexpired. */
  lemma IssuedTokenRelays(c: Config, t: Tables, key: SessionKey, now: real, from: Addr, inner: seq<Byte>, later: real)
    requires Milliseconds(now) + RELAY_TOKEN_TTL_MS >= 0 && WellFormedToken(IssuedToken(c, key, now))
    requires G2_HEADER_SIZE <= |inner| <= G2_MAX_PAYLOAD_BYTES - RELAY_HEADER_BYTES
    requires key.serverId in t.servers ==> from != t.servers[key.serverId].endpoint
    ensures var payload := RelayPayload(IssuedToken(c, key, now), inner);
            var (relaying, sent) := Relay(c, t, from, payload, later);
            if key.serverId in t.servers && key in t.sessions
               && (Authorised(t, key, from) || Milliseconds(later) <= Milliseconds(now) + RELAY_TOKEN_TTL_MS)
            then
              var server := t.servers[key.serverId].endpoint;
              && sent == [Send(server, Relayed(payload))]
              && Relay(c, relaying, server, payload, later).1 == [Send(from, Relayed(payload))]
            else (relaying, sent) == (t, [])
  {
    hide ParseRelay, RelayPayload, Milliseconds;
    RelayRoundTrip(IssuedToken(c, key, now), inner);
  }

  /** The token a punch response carries, used after any further events: it opens the relay for its client, from
      any address, exactly while the session and the server live, and, unless the address is authorised already,
      only until it expires. */
  lemma IssuedTokenOpensRelay(c: Config, history: seq<Event>, punch: nat, key: SessionKey,
                              from: Addr, inner: seq<Byte>, later: real)
    requires punch < |history| && Opens(After(c, history[..punch]), history[punch], key)
    requires var expires := Milliseconds(history[punch].now) + RELAY_TOKEN_TTL_MS;
             0 <= expires < U64_LIMIT && |c.sign(key.serverId, key.nonce, expires)| == RELAY_TOKEN_MAC_BYTES
    requires G2_HEADER_SIZE <= |inner| <= G2_MAX_PAYLOAD_BYTES - RELAY_HEADER_BYTES
    requires var servers := After(c, history).servers;
             key.serverId in servers ==> from != servers[key.serverId].endpoint
    ensures var t, token := After(c, history[..punch]), IssuedToken(c, key, history[punch].now);
            var client := history[punch].addr;
            key.serverId in t.servers && Step(c, t, history[punch]).1 ==
              [Send(t.servers[key.serverId].endpoint, PunchPeer(key.nonce, client.host, client.port)),
               Send(client, PunchResponse(Some(t.servers[key.serverId]), token.expiresAtMs, token.mac, "ok"))]
    ensures var t, token := After(c, history), IssuedToken(c, key, history[punch].now);
            var payload := RelayPayload(token, inner);
            var (relaying, sent) := Relay(c, t, from, payload, later);
            if SessionLives(c, history, key) && ServerLives(c, history, key.serverId)
               && (Authorised(t, key, from) || Milliseconds(later) <= token.expiresAtMs)
            then
              && key.serverId in t.servers
              && var server := t.servers[key.serverId].endpoint;
                && sent == [Send(server, Relayed(payload))]
                && Relay(c, relaying, server, payload, later).1 == [Send(from, Relayed(payload))]
            else (relaying, sent) == (t, [])
  {
    hide Relay, RelayPayload, ParseRelay, Milliseconds, After, ParseEnvelope, ParsePunchRequest;
    hide SessionLives, ServerLives;
    var e := history[punch];
    PunchRequestFits(ParseEnvelope(e.data).value.1);
    IssuedTokenRelays(c, After(c, history), key, e.now, from, inner, later);
    SessionLivesExactly(c, history, key);
    ServerLivesExactly(c, history, key.serverId);
  }

  /** The session can be gone before its token expires: 11 seconds after the punch the token still verifies and the
      server still lives, but the session has been pruned and the packet is dropped. */
  lemma TokenOutlivesSession(c: Config, t: Tables, client: Addr, key: SessionKey, now: real,
                             from: Addr, inner: seq<Byte>)
    requires PunchAccepted(t, key) && from != t.servers[key.serverId].endpoint
    requires now + 11.0 - t.servers[key.serverId].lastSeen <= SERVER_TTL_SECONDS
    requires Milliseconds(now) + RELAY_TOKEN_TTL_MS >= 0 && WellFormedToken(IssuedToken(c, key, now))
    requires G2_HEADER_SIZE <= |inner| <= G2_MAX_PAYLOAD_BYTES - RELAY_HEADER_BYTES
    ensures var pruned := PruneTables(Punch(c, t, client, key, now).0, now + 11.0);
            var token := IssuedToken(c, key, now);
            && key.serverId in pruned.servers
            && Verifies(c, token, now + 11.0)
            && Relay(c, pruned, from, RelayPayload(token, inner), now + 11.0) == (pruned, [])
  {
    hide Relay, RelayPayload;
    assert (now + 11.0) * 1000.0 == now * 1000.0 + 11000.0;
    IssuedTokenRelays(c, PruneTables(Punch(c, t, client, key, now).0, now + 11.0), key, now, from, inner, now + 11.0);
  }

  // ---------------------------------------------------------------- the server

  class DirectoryServer {
    const config: Config
    var servers: map<nat, ServerRecord>
    var sessions: map<SessionKey, Session>
    var fragments: Table
    var nextServerId: nat
    ghost var history: seq<Event>  // the packets handled and prunings so far

    ghost predicate Valid()
      reads this
    {
      State() == After(config, history) && ValidTable(fragments)
    }

    ghost function State(): (t: Tables)
      reads this
    {
      Tables(servers, sessions, nextServerId)
    }

    constructor (config: Config)
      ensures Valid() && history == [] && fragments == map[] && this.config == config
    {
      this.config := config;
      servers, sessions, fragments, nextServerId := map[], map[], map[], 1;
      history := [];
    }

    /** The authorisation property, for a server object. */
    lemma SessionsAreAuthorised(key: SessionKey)
      requires Valid() && key in sessions && sessions[key].authorized
      ensures Presented(config, SinceOpened(config, history, key), key, sessions[key].endpoint)
    {
      AuthorisedEndpoints(config, history, key);
    }

    method ReassembleIfNeeded(addr: Addr, header: Header, payload: seq<Byte>, now: real) returns (outcome: Outcome)
      requires ValidTable(fragments)
      modifies this`fragments
      ensures ValidTable(fragments)
      ensures if header.flags % 2 == 0 then fragments == old(fragments) && outcome == Complete(payload)
              else (fragments, outcome) == Arrive(old(fragments), FragmentOf(addr, header, payload, now))
    {
      if header.flags % 2 == 0 {
        return Complete(payload);
      }
      hide Join, ValidTable, Arrive;
      ghost var f, before := FragmentOf(addr, header, payload, now), fragments;
      var index, count := header.fragmentInfo / 256, header.fragmentInfo % 256;
      if count == 0 || index >= count {
        BadFragmentIgnored(fragments, f);
        return Rejected;
      }
      var key := Key(addr, header.kind, header.connectionId, header.channel, header.sequence, header.fragmentGroup);
      var fragSet := FragmentSet(count, now, map[]);
      if key in fragments && fragments[key].count == count {
        fragSet := fragments[key];
      } else if key !in fragments && |fragments| >= MAX_FRAGMENT_SETS {
        BadFragmentIgnored(fragments, f);
        return Rejected;
      }
      if index !in fragSet.parts {
        fragSet := fragSet.(parts := fragSet.parts[index := payload]);
      }
      fragments := fragments[key := fragSet];
      assert fragSet == Extended(before, f);
      GoodFragmentTaken(before, f);
      if |fragSet.parts| != count {
        return Waiting;
      }
      fragments := fragments - {key};
      RemoveUpdated(before, key, fragSet);
      return Complete(Join(fragSet.parts, count));
    }

    method HandleRegistration(addr: Addr, payload: seq<Byte>, now: real) returns (sent: seq<Send>)
      modifies this`servers, this`nextServerId
      ensures match ParseRegistration(payload)
              case None => State() == old(State()) && sent == []
              case Some(reg) => (State(), sent) == Register(config, old(State()), addr, reg, now)
    {
      var parsed := ParseRegistration(payload);
      if parsed.None? {
        return [];
      }
      var reg := parsed.value;
      var serverId := reg.serverId;
      if serverId == 0 {
        serverId := nextServerId;
        nextServerId := nextServerId + 1;
      }
      var host := addr.host;
      if serverId != 0 && serverId in servers && servers[serverId].endpoint != addr {
        return [Send(addr, RegisterAck(0, host, "server id belongs to another endpoint", false))];
      }
      var recordId := serverId;
      if serverId !in servers {
        if |servers| >= MAX_ADVERTISED_SERVERS {
          return [Send(addr, RegisterAck(0, host, "directory is full", false))];
        }
      } else {
        recordId := servers[serverId].serverId;
      }
      servers := servers[serverId := ServerRecord(recordId, config.nameOf(reg.rawName), host, reg.gamePort, addr, host,
                                                  addr.port, reg.currentPlayers, reg.maxPlayers, now)];
      return [Send(addr, RegisterAck(serverId, host, "registered", true))];
    }

    method HandlePunchRequest(addr: Addr, payload: seq<Byte>, now: real) returns (sent: seq<Send>)
      modifies this`sessions
      ensures match ParsePunchRequest(payload)
              case None => State() == old(State()) && sent == []
              case Some(key) => (State(), sent) == Punch(config, old(State()), addr, key, now)
    {
      var parsed := ParsePunchRequest(payload);
      if parsed.None? {
        return [];
      }
      var key := parsed.value;
      if key.serverId == 0 || key.nonce == 0 {
        return [Send(addr, PunchResponse(None, 0, [], "invalid punch request"))];
      }
      if key.serverId !in servers {
        return [Send(addr, PunchResponse(None, 0, [], "server not found"))];
      }
      if key !in sessions && |sessions| >= MAX_RELAY_CLIENTS {
        return [Send(addr, PunchResponse(None, 0, [], "relay is busy"))];
      }
      var record := servers[key.serverId];
      var expires := Milliseconds(now) + RELAY_TOKEN_TTL_MS;
      var mac := config.sign(key.serverId, key.nonce, expires);
      sessions := sessions[key := Session(addr, expires, mac, now, false)];
      sent := [Send(record.endpoint, PunchPeer(key.nonce, addr.host, addr.port))];
      var response := Send(addr, PunchResponse(Some(record), expires, mac, "ok"));
      assert sent + [response] == [sent[0], response];
      sent := sent + [response];
    }

    method HandleRelayPayload(addr: Addr, payload: seq<Byte>, now: real) returns (sent: seq<Send>)
      modifies this`sessions
      ensures (State(), sent) == Relay(config, old(State()), addr, payload, now)
    {
      var parsed := ParseRelay(payload);
      if parsed.None? {
        return [];
      }
      var token := parsed.value;
      if token.key.serverId !in servers {
        return [];
      }
      var record := servers[token.key.serverId];
      if addr == record.endpoint {
        if token.key in sessions {
          return SendRelay(sessions[token.key].endpoint, payload);
        }
        return [];
      }
      if token.key !in sessions {
        return [];
      }
      var client := sessions[token.key];
      var needsToken := !client.authorized || client.endpoint != addr;
      if needsToken && !Verifies(config, token, now) {
        return [];
      }
      sessions := sessions[token.key := client.(endpoint := addr, lastSeen := now, authorized := true)];
      return SendRelay(record.endpoint, payload);
    }

    method HandleDirectoryControl(addr: Addr, data: seq<Byte>, now: real) returns (sent: seq<Send>)
      modifies this`servers, this`nextServerId, this`sessions
      ensures (State(), sent) == HandleControl(config, old(State()), addr, data, now)
    {
      var parsed := ParseEnvelope(data);
      if parsed.None? {
        return [];
      }
      var (kind, payload) := parsed.value;
      sent := [];
      if kind == MSG_REGISTER || kind == MSG_HEARTBEAT {
        sent := HandleRegistration(addr, payload, now);
      } else if kind == MSG_LIST_REQUEST {
        sent := [Send(addr, ListResponse)];
      } else if kind == MSG_PUNCH_REQUEST {
        sent := HandlePunchRequest(addr, payload, now);
      }
    }

    /** One datagram. What it leads to is one event on the tables, or none. */
    method ReadUdp(addr: Addr, data: seq<Byte>, now: real) returns (sent: seq<Send>)
      requires Valid()
      modifies this
      ensures Valid()
      ensures var delivered := Delivered(old(fragments), addr, data, now);
              && fragments == delivered.0
              && history == old(history) + delivered.1
              && sent == if delivered.1 == [] then [] else Step(config, old(State()), delivered.1[0]).1
    {
      hide ParsePacket, HandleControl, Relay, Arrive, FragmentOf, After;
      sent := [];
      var parsed := ParsePacket(data);
      if parsed.None? {
        return;
      }
      var (header, payload) := parsed.value;
      var outcome := ReassembleIfNeeded(addr, header, payload, now);
      if !outcome.Complete? {
        return;
      }
      if header.kind == KIND_DIRECTORY_CONTROL {
        AfterThen(config, history, Control(addr, outcome.payload, now));
        sent := HandleDirectoryControl(addr, outcome.payload, now);
        history := history + [Control(addr, outcome.payload, now)];
      } else if header.kind == KIND_RELAY_PAYLOAD {
        AfterThen(config, history, RelayPacket(addr, outcome.payload, now));
        sent := HandleRelayPayload(addr, outcome.payload, now);
        history := history + [RelayPacket(addr, outcome.payload, now)];
      }
    }

    method PruneServers(now: real)
      modifies this`servers
      ensures servers == LiveServers(old(servers), now)
    {
      var keys := servers.Keys;
      while keys != {}
        invariant keys <= servers.Keys <= old(servers).Keys
        invariant forall k :: k in servers ==> servers[k] == old(servers)[k]
        invariant forall k :: k in old(servers) && k !in keys ==>
                    (k in servers <==> now - old(servers)[k].lastSeen <= SERVER_TTL_SECONDS)
        decreases keys
      {
        var k :| k in keys;
        keys := keys - {k};
        if now - servers[k].lastSeen > SERVER_TTL_SECONDS {
          servers := servers - {k};
        }
      }
    }

    method PruneSessions(now: real)
      modifies this`sessions
      ensures sessions == LiveSessions(old(sessions), now)
    {
      var keys := sessions.Keys;
      while keys != {}
        invariant keys <= sessions.Keys <= old(sessions).Keys
        invariant forall k :: k in sessions ==> sessions[k] == old(sessions)[k]
        invariant forall k :: k in old(sessions) && k !in keys ==>
                    (k in sessions <==> now - old(sessions)[k].lastSeen <= CLIENT_TTL_SECONDS)
        decreases keys
      {
        var k :| k in keys;
        keys := keys - {k};
        if now - sessions[k].lastSeen > CLIENT_TTL_SECONDS {
          sessions := sessions - {k};
        }
      }
    }

    method PruneFragmentSets(now: real)
      modifies this`fragments
      ensures fragments == LiveFragments(old(fragments), now)
    {
      var keys := fragments.Keys;
      while keys != {}
        invariant keys <= fragments.Keys <= old(fragments).Keys
        invariant forall k :: k in fragments ==> fragments[k] == old(fragments)[k]
        invariant forall k :: k in old(fragments) && k !in keys ==>
                    (k in fragments <==> now - old(fragments)[k].firstSeen <= FRAGMENT_TTL_SECONDS)
        decreases keys
      {
        var k :| k in keys;
        keys := keys - {k};
        if now - fragments[k].firstSeen > FRAGMENT_TTL_SECONDS {
          fragments := fragments - {k};
        }
      }
    }

    method PruneExpired(now: real)
      requires Valid()
      modifies this
      ensures Valid() && history == old(history) + [Prune(now)]
      ensures fragments == LiveFragments(old(fragments), now)
    {
      PruneServers(now);
      PruneSessions(now);
      PruneFragmentSets(now);
      LiveFragmentsValid(old(fragments), now);
      assert (history + [Prune(now)])[..|history|] == history;
      history := history + [Prune(now)];
    }
  }

  function FragmentOf(addr: Addr, header: Header, payload: seq<Byte>, now: real): (f: Fragment) {
    Fragment(Key(addr, header.kind, header.connectionId, header.channel, header.sequence, header.fragmentGroup),
             header.fragmentInfo / 256, header.fragmentInfo % 256, payload, now)
  }

  /** The fragment table after a datagram, and the event it leads to, if any. */
  ghost function Delivered(fragments: Table, addr: Addr, data: seq<Byte>, now: real): (r: (Table, seq<Event>))
    requires ValidTable(fragments)
  {
    match ParsePacket(data)
    case None => (fragments, [])
    case Some((header, payload)) =>
      var r := if header.flags % 2 == 0 then (fragments, Complete(payload))
               else Arrive(fragments, FragmentOf(addr, header, payload, now));
      (r.0, if !r.1.Complete? then []
            else if header.kind == KIND_DIRECTORY_CONTROL then [Control(addr, r.1.payload, now)]
            else if header.kind == KIND_RELAY_PAYLOAD then [RelayPacket(addr, r.1.payload, now)]
            else [])
  }
}
