/** Text chat: the sanitiser for messages, and the packets between client and server. */
module ChatProtocol {
  import opened Bytes
  import opened Utf8
  import opened Wrappers

  const MAX_CHAT_BYTES := 240
  const TEXT_CHAT: Byte := 21
  const SPACE: Byte := 0x20

  // ---------------------------------------------------------------- sanitiser

  predicate IsControl(c: Byte) {
    c < 0x20 || c == 0x7F
  }

  /** Without control bytes, and with runs of spaces reduced to one; `previousSpace` also drops the leading ones. */
  function Clean(s: seq<Byte>, previousSpace: bool): (r: seq<Byte>) {
    if s == [] then []
    else if IsControl(s[0]) || (s[0] == SPACE && previousSpace) then Clean(s[1..], previousSpace)
    else [s[0]] + Clean(s[1..], s[0] == SPACE)
  }

  function TrimRight(s: seq<Byte>): (r: seq<Byte>)
    ensures r <= s
    ensures r != [] ==> r[|r| - 1] != SPACE
  {
    if s != [] && s[|s| - 1] == SPACE then TrimRight(s[..|s| - 1]) else s
  }

  function Clip(s: seq<Byte>): (r: seq<Byte>)
    ensures r <= s && |r| <= MAX_CHAT_BYTES
  {
    if |s| <= MAX_CHAT_BYTES then s else s[..MAX_CHAT_BYTES]
  }

  function Sanitize(text: seq<Byte>): (r: seq<Byte>) {
    if !WellFormed(text) then []
    else
      var out := TrimRight(Clip(Clean(text, true)));
      if WellFormed(out) then out else []
  }

  method SanitizeUtf8(text: seq<Byte>) returns (out: seq<Byte>)
    ensures out == Sanitize(text)
  {
    hide WellFormed;
    var valid := IsValidUtf8(text);
    if !valid {
      return [];
    }
    out := [];
    var previousSpace := true;
    var i := 0;
    assert text[0..] == text;
    while i < |text|
      invariant i <= |text| && |out| <= MAX_CHAT_BYTES
      invariant out + Clean(text[i..], previousSpace) == Clean(text, true)
    {
      var c := text[i];
      assert text[i..][1..] == text[i + 1..];
      i := i + 1;
      if IsControl(c) {
        continue;
      }
      var asciiSpace := c <= 0x7F && c == SPACE;
      if asciiSpace && previousSpace {
        continue;
      }
      if |out| >= MAX_CHAT_BYTES {
        break;
      }
      Associative(out, [c], Clean(text[i..], asciiSpace));
      out := out + [c];
      previousSpace := asciiSpace;
    }
    assert out == Clip(Clean(text, true));
    ghost var clipped := out;
    while out != [] && out[|out| - 1] == SPACE
      invariant TrimRight(out) == TrimRight(clipped)
    {
      out := out[..|out| - 1];
    }
    valid := IsValidUtf8(out);
    if !valid {
      return [];
    }
  }

  // ---------------------------------------------------------------- what sanitising means

  /** No control bytes and no space after a space, where `previousSpace` stands for the byte before. */
  predicate Tidy(s: seq<Byte>, previousSpace: bool) {
    s == [] || (!IsControl(s[0]) && !(s[0] == SPACE && previousSpace) && Tidy(s[1..], s[0] == SPACE))
  }

  /** Valid text that fits, without controls, without leading, trailing or doubled spaces. */
  predicate Canonical(s: seq<Byte>) {
    && WellFormed(s)
    && |s| <= MAX_CHAT_BYTES
    && Tidy(s, true)
    && (s != [] ==> s[|s| - 1] != SPACE)
  }

  lemma {:induction false} TidyMeans(s: seq<Byte>, previousSpace: bool)
    ensures Tidy(s, previousSpace) <==>
              && (forall i :: 0 <= i < |s| ==> s[i] >= 0x20 && s[i] != 0x7F)
              && (forall i :: 0 < i < |s| ==> !(s[i - 1] == SPACE && s[i] == SPACE))
              && (s != [] && previousSpace ==> s[0] != SPACE)
  {
    if s != [] {
      TidyMeans(s[1..], s[0] == SPACE);
      assert forall i :: 0 <= i < |s| - 1 ==> s[1..][i] == s[i + 1];
      assert forall i :: 1 <= i < |s| ==> s[i] == s[1..][i - 1];
    }
  }

  lemma {:induction false} CleanIsTidy(s: seq<Byte>, previousSpace: bool)
    ensures Tidy(Clean(s, previousSpace), previousSpace)
  {
    if s != [] {
      CleanIsTidy(s[1..], previousSpace);
      CleanIsTidy(s[1..], s[0] == SPACE);
    }
  }

  lemma {:induction false} TidyPrefix(s: seq<Byte>, p: seq<Byte>, previousSpace: bool)
    requires Tidy(s, previousSpace) && p <= s
    ensures Tidy(p, previousSpace)
  {
    if p != [] {
      TidyPrefix(s[1..], p[1..], p[0] == SPACE);
    }
  }

  lemma {:induction false} CleanOfTidy(s: seq<Byte>, previousSpace: bool)
    requires Tidy(s, previousSpace)
    ensures Clean(s, previousSpace) == s
  {
    if s != [] {
      CleanOfTidy(s[1..], s[0] == SPACE);
    }
  }

  /** Every result is canonical, and canonical text is left alone; so sanitising twice is sanitising once. */
  lemma SanitizeIsCanonical(text: seq<Byte>)
    ensures Canonical(Sanitize(text))
  {
    CleanIsTidy(text, true);
    TidyPrefix(Clean(text, true), TrimRight(Clip(Clean(text, true))), true);
  }

  lemma CanonicalIsFixed(text: seq<Byte>)
    ensures Canonical(text) <==> Sanitize(text) == text
  {
    hide WellFormed, Clean, Tidy;
    SanitizeIsCanonical(text);
    if Canonical(text) {
      CleanOfTidy(text, true);
    }
  }

  lemma SanitizeIdempotent(text: seq<Byte>)
    ensures Sanitize(Sanitize(text)) == Sanitize(text)
  {
    SanitizeIsCanonical(text);
    CanonicalIsFixed(Sanitize(text));
  }

  /** The bytes that are neither controls nor spaces. */
  function Visible(s: seq<Byte>): (r: seq<Byte>) {
    if s == [] then []
    else if IsControl(s[0]) || s[0] == SPACE then Visible(s[1..])
    else [s[0]] + Visible(s[1..])
  }

  lemma {:induction false} CleanKeepsVisible(s: seq<Byte>, previousSpace: bool)
    ensures Visible(Clean(s, previousSpace)) == Visible(s)
    ensures previousSpace ==> (Clean(s, previousSpace) == [] <==> Visible(s) == [])
  {
    if s != [] {
      CleanKeepsVisible(s[1..], previousSpace);
      CleanKeepsVisible(s[1..], s[0] == SPACE);
    }
  }

  lemma {:induction false} VisibleAppend(s: seq<Byte>, t: seq<Byte>)
    ensures Visible(s + t) == Visible(s) + Visible(t)
  {
    if s == [] {
      assert s + t == t && [] + Visible(t) == Visible(t);
    } else {
      VisibleAppend(s[1..], t);
      assert (s + t)[1..] == s[1..] + t;
      Associative([s[0]], Visible(s[1..]), Visible(t));
    }
  }

  lemma {:induction false} TrimRightKeepsVisible(s: seq<Byte>)
    ensures Visible(TrimRight(s)) == Visible(s)
  {
    if s != [] && s[|s| - 1] == SPACE {
      TrimRightKeepsVisible(s[..|s| - 1]);
      VisibleAppend(s[..|s| - 1], [SPACE]);
      assert s == s[..|s| - 1] + [SPACE];
      assert Visible([SPACE]) == [];
    }
  }

  /** A multi-byte unit passes the cleaning unchanged. */
  lemma {:induction false} CleanHighBytes(u: seq<Byte>, s: seq<Byte>, previousSpace: bool)
    requires u != [] && forall k :: 0 <= k < |u| ==> u[k] >= 0x80
    ensures Clean(u + s, previousSpace) == u + Clean(s, false)
  {
    assert (u + s)[1..] == u[1..] + s;
    if |u| == 1 {
      assert u[1..] + s == s;
    } else {
      CleanHighBytes(u[1..], s, false);
    }
    assert u == [u[0]] + u[1..];
  }

  /** Cleaning valid text gives valid text: only whole ASCII units are dropped. */
  lemma {:induction false} CleanWellFormed(s: seq<Byte>, previousSpace: bool)
    requires WellFormed(s)
    ensures WellFormed(Clean(s, previousSpace))
    decreases |s|
  {
    if s != [] {
      hide UnitLength, WellFormed;
      WellFormedStep(s);
      var n := UnitLength(s);
      var unit, rest := s[..n], s[n..];
      UnitBytes(s);
      assert s == unit + rest;
      UnitThen(s, []);
      assert unit + [] == unit;
      if n == 1 {
        CleanWellFormed(rest, previousSpace);
        CleanWellFormed(rest, s[0] == SPACE);
        UnitPrefixed(unit, Clean(rest, s[0] == SPACE));
      } else {
        CleanWellFormed(rest, false);
        CleanHighBytes(unit, rest, previousSpace);
        UnitPrefixed(unit, Clean(rest, false));
      }
    }
  }

  lemma {:induction false} TrimRightWellFormed(s: seq<Byte>)
    ensures WellFormed(TrimRight(s)) <==> WellFormed(s)
  {
    if s != [] && s[|s| - 1] == SPACE {
      TrimRightWellFormed(s[..|s| - 1]);
      assert s == s[..|s| - 1] + [SPACE];
      SpaceAtEnd(s[..|s| - 1]);
    }
  }

  lemma {:induction false} SpaceAtEnd(s: seq<Byte>)
    ensures WellFormed(s + [SPACE]) <==> WellFormed(s)
    decreases |s|
  {
    var t := s + [SPACE];
    if s != [] {
      var n := UnitLength(s);
      if n > 0 {
        UnitThen(s, s[n..] + [SPACE]);
        assert t == s[..n] + (s[n..] + [SPACE]);
        assert t[n..] == s[n..] + [SPACE];
        SpaceAtEnd(s[n..]);
      } else {
        assert UnitLength(t) == 0;
      }
    } else {
      assert t[1..] == [];
    }
  }

  /** Exactly when a message is lost: it is not valid text, it has nothing visible, or the cut at 240 bytes
      falls inside a character. Otherwise nothing visible is lost, except what is beyond the cut. */
  lemma SanitizedEmptyExactly(text: seq<Byte>)
    ensures Sanitize(text) == [] <==>
              || !WellFormed(text)
              || Visible(text) == []
              || (|Clean(text, true)| > MAX_CHAT_BYTES && !WellFormed(Clean(text, true)[..MAX_CHAT_BYTES]))
    ensures Sanitize(text) != [] ==>
              && Visible(Sanitize(text)) <= Visible(text)
              && (|Clean(text, true)| <= MAX_CHAT_BYTES ==> Visible(Sanitize(text)) == Visible(text))
  {
    if WellFormed(text) {
      hide UnitLength;
      var cleaned := Clean(text, true);
      var clipped := Clip(cleaned);
      CleanWellFormed(text, true);
      CleanKeepsVisible(text, true);
      CleanIsTidy(text, true);
      TrimRightWellFormed(clipped);
      TrimRightKeepsVisible(clipped);
      VisibleAppend(clipped, cleaned[|clipped|..]);
      assert cleaned == clipped + cleaned[|clipped|..];
      if cleaned != [] {
        assert Visible(clipped) != [];
      }
    }
  }

  // ---------------------------------------------------------------- words

  /** The words of a text, where `word` has been begun: spaces end words, control bytes are not there at all. */
  function Words(s: seq<Byte>, word: seq<Byte>): (words: seq<seq<Byte>>)
    decreases |s|
  {
    if s == [] then (if word == [] then [] else [word])
    else if IsControl(s[0]) then Words(s[1..], word)
    else if s[0] != SPACE then Words(s[1..], word + [s[0]])
    else if word == [] then Words(s[1..], [])
    else [word] + Words(s[1..], [])
  }

  /** Words with single spaces between them. */
  function Joined(words: seq<seq<Byte>>): (s: seq<Byte>) {
    if words == [] then []
    else if |words| == 1 then words[0]
    else words[0] + [SPACE] + Joined(words[1..])
  }

  lemma {:induction false} TrimRightAppend(s: seq<Byte>, t: seq<Byte>)
    ensures TrimRight(s + t) == if TrimRight(t) == [] then TrimRight(s) else s + TrimRight(t)
  {
    if t == [] {
      AppendNothing(s);
    } else {
      assert (s + t)[..|s + t| - 1] == s + t[..|t| - 1];
      if t[|t| - 1] == SPACE {
        TrimRightAppend(s, t[..|t| - 1]);
      }
    }
  }

  lemma {:induction false} WordsNotEmpty(s: seq<Byte>, word: seq<Byte>)
    ensures forall w :: w in Words(s, word) ==> w != []
    ensures word != [] ==> Words(s, word) != []
    decreases |s|
  {
    if s != [] {
      WordsNotEmpty(s[1..], word);
      WordsNotEmpty(s[1..], word + [s[0]]);
      WordsNotEmpty(s[1..], []);
    }
  }

  lemma JoinedNotEmpty(words: seq<seq<Byte>>)
    requires forall w :: w in words ==> w != []
    ensures Joined(words) == [] <==> words == []
  {
    if words != [] {
      assert words[0] in words;
    }
  }

  lemma JoinedFirst(word: seq<Byte>, rest: seq<seq<Byte>>)
    ensures Joined([word] + rest) == if rest == [] then word else word + [SPACE] + Joined(rest)
  {
    assert ([word] + rest)[1..] == rest;
  }

  /** Cleaning and trimming, behind a word that has been begun, gives the words with single spaces. */
  lemma {:induction false} CleanJoinsWords(s: seq<Byte>, word: seq<Byte>)
    requires word != [] ==> word[|word| - 1] != SPACE
    ensures TrimRight(word + Clean(s, word == [])) == Joined(Words(s, word))
    decreases |s|
  {
    if s == [] {
      AppendNothing(word);
    } else {
      var c, rest := s[0], s[1..];
      if IsControl(c) {
        CleanJoinsWords(rest, word);
      } else if c != SPACE {
        CleanJoinsWords(rest, word + [c]);
        Associative(word, [c], Clean(rest, false));
      } else {
        CleanJoinsWords(rest, []);
        AppendNothing(Clean(rest, true));
        if word != [] {
          SpaceEndsWord(word, Clean(rest, true));
          WordsNotEmpty(rest, []);
          JoinedNotEmpty(Words(rest, []));
          JoinedFirst(word, Words(rest, []));
        }
      }
    }
  }

  lemma SpaceEndsWord(word: seq<Byte>, rest: seq<Byte>)
    requires word != [] && word[|word| - 1] != SPACE
    ensures TrimRight(word + ([SPACE] + rest)) ==
            if TrimRight(rest) == [] then word else word + [SPACE] + TrimRight(rest)
  {
    Associative(word, [SPACE], rest);
    TrimRightAppend(word + [SPACE], rest);
    TrimRightAppend(word, [SPACE]);
    assert TrimRight([SPACE]) == TrimRight([]) == [];
  }

  lemma {:induction false} TrimRightBetween(s: seq<Byte>, p: seq<Byte>)
    requires TrimRight(s) <= p <= s
    ensures TrimRight(p) == TrimRight(s)
  {
    if p != s {
      assert s[|s| - 1] != SPACE ==> TrimRight(s) == s;
      TrimRightBetween(s[..|s| - 1], p);
    }
  }

  lemma TrimAroundClip(s: seq<Byte>)
    ensures TrimRight(Clip(s)) == TrimRight(Clip(TrimRight(s)))
  {
    var trimmed := TrimRight(s);
    hide TrimRight;
    if |trimmed| <= MAX_CHAT_BYTES {
      TrimRightBetween(s, Clip(s));
      TrimRightBetween(s, trimmed);
    } else {
      assert Clip(s) == Clip(trimmed);
    }
  }

  /** A message is sanitised to its words with single spaces between them, cut at 240 bytes. */
  lemma SanitizeJoinsWords(text: seq<Byte>)
    ensures var joined := TrimRight(Clip(Joined(Words(text, []))));
            Sanitize(text) == if WellFormed(text) && WellFormed(joined) then joined else []
  {
    hide WellFormed, Clean, Words, Joined, Clip, TrimRight;
    CleanJoinsWords(text, []);
    AppendNothing(Clean(text, true));
    TrimAroundClip(Clean(text, true));
  }

  lemma {:induction false} AsciiThen(n: nat, s: seq<Byte>, previousSpace: bool)
    ensures var text := seq(n, _ => 0x61 as Byte) + s;
            && (WellFormed(text) <==> WellFormed(s))
            && Clean(text, previousSpace) == seq(n, _ => 0x61 as Byte) + Clean(s, n == 0 && previousSpace)
    decreases n
  {
    var text := seq(n, _ => 0x61 as Byte) + s;
    if n == 0 {
      assert text == s;
      assert seq(0, _ => 0x61 as Byte) + Clean(s, previousSpace) == Clean(s, previousSpace);
    } else {
      AsciiThen(n - 1, s, false);
      assert text[1..] == seq(n - 1, _ => 0x61 as Byte) + s;
      assert [0x61 as Byte] + seq(n - 1, _ => 0x61 as Byte) == seq(n, _ => 0x61 as Byte);
      Associative([0x61 as Byte], seq(n - 1, _ => 0x61 as Byte), Clean(s, false));
    }
  }

  /** Valid visible text can be lost: 239 letters and a two-byte character, which needs 241 bytes. */
  lemma LongTextLost()
    ensures var text := seq(239, _ => 0x61 as Byte) + [0xC3, 0xA9];
            WellFormed(text) && Visible(text) != [] && Sanitize(text) == []
  {
    var letters: seq<Byte> := seq(239, _ => 0x61 as Byte);
    var text := letters + [0xC3, 0xA9];
    AsciiThen(239, [0xC3, 0xA9], true);
    AsciiThen(239, [0xC3], true);
    CleanHighBytes([0xC3, 0xA9], [], false);
    assert [0xC3 as Byte, 0xA9] + [] == [0xC3, 0xA9];
    assert [0xC3 as Byte, 0xA9][2..] == [];
    assert WellFormed([0xC3, 0xA9]);
    assert Clean(text, true) == text;
    assert text[..240] == letters + [0xC3];
    SanitizedEmptyExactly(text);
    CleanKeepsVisible(text, true);
  }

  // ---------------------------------------------------------------- packets

  datatype ClientText = ClientText(clientSeq: nat, message: seq<Byte>)

  datatype ServerText = ServerText(sender: int, serverSeq: nat, message: seq<Byte>)

  function EncodeClient(clientSeq: nat, text: seq<Byte>): (packet: seq<Byte>) {
    var clean := Sanitize(text);
    if clean == [] then [] else [TEXT_CHAT] + U16(clientSeq) + U16(|clean|) + clean
  }

  method EncodeClientText(clientSeq: nat, text: seq<Byte>) returns (out: seq<Byte>)
    requires clientSeq < U16_LIMIT
    ensures out == EncodeClient(clientSeq, text)
  {
    var clean := SanitizeUtf8(text);
    if clean == [] {
      return [];
    }
    out := [TEXT_CHAT];
    out := out + U16(clientSeq);
    out := out + U16(|clean|);
    out := out + clean;
  }

  function DecodeClientText(payload: seq<Byte>): (r: Option<ClientText>) {
    if |payload| < 5 || payload[0] != TEXT_CHAT then None
    else
      var len := ReadU16(payload, 3);
      if len > MAX_CHAT_BYTES || |payload| != 5 + len then None
      else
        var clean := Sanitize(payload[5..5 + len]);
        if clean == [] then None else Some(ClientText(ReadU16(payload, 1), clean))
  }

  /** A signed 32-bit integer as its two's complement, and back. */
  function Unsigned(i: int): (u: nat)
    requires -0x8000_0000 <= i < 0x8000_0000
    ensures u < U32_LIMIT
  {
    if i < 0 then i + U32_LIMIT else i
  }

  function Signed(u: nat): (i: int)
    requires u < U32_LIMIT
    ensures -0x8000_0000 <= i < 0x8000_0000
  {
    if u >= 0x8000_0000 then u - U32_LIMIT else u
  }

  function EncodeServer(sender: int, serverSeq: nat, text: seq<Byte>): (packet: seq<Byte>)
    requires -0x8000_0000 <= sender < 0x8000_0000
  {
    var clean := Sanitize(text);
    if clean == [] then [] else [TEXT_CHAT] + U32(Unsigned(sender)) + U32(serverSeq) + U16(|clean|) + clean
  }

  method EncodeServerText(sender: int, serverSeq: nat, text: seq<Byte>) returns (out: seq<Byte>)
    requires -0x8000_0000 <= sender < 0x8000_0000 && serverSeq < U32_LIMIT
    ensures out == EncodeServer(sender, serverSeq, text)
  {
    var clean := SanitizeUtf8(text);
    if clean == [] {
      return [];
    }
    out := [TEXT_CHAT];
    out := out + U32(Unsigned(sender));
    out := out + U32(serverSeq);
    out := out + U16(|clean|);
    out := out + clean;
  }

  function DecodeServerText(payload: seq<Byte>): (r: Option<ServerText>) {
    if |payload| < 11 || payload[0] != TEXT_CHAT then None
    else
      var len := ReadU16(payload, 9);
      if len > MAX_CHAT_BYTES || |payload| != 11 + len then None
      else
        var clean := Sanitize(payload[11..11 + len]);
        if clean == [] then None else Some(ServerText(Signed(ReadU32(payload, 1)), ReadU32(payload, 5), clean))
  }

  /** Where the fields of the two packets stand. */
  lemma PacketLayouts(clientSeq: nat, sender: int, serverSeq: nat, text: seq<Byte>)
    requires clientSeq < U16_LIMIT && -0x8000_0000 <= sender < 0x8000_0000 && serverSeq < U32_LIMIT
    requires Sanitize(text) != []
    ensures var p := EncodeClient(clientSeq, text);
            p[0] == 21 && p[1..3] == U16(clientSeq) && p[3..5] == U16(|Sanitize(text)|) && p[5..] == Sanitize(text)
    ensures var p := EncodeServer(sender, serverSeq, text);
            && p[0] == 21 && p[1..5] == U32(sender % U32_LIMIT) && p[5..9] == U32(serverSeq)
            && p[9..11] == U16(|Sanitize(text)|) && p[11..] == Sanitize(text)
  {
    hide Sanitize, U16, U32;
  }

  /** The other side reads the same sequence number and the sanitised text, or nothing when nothing was sent. */
  lemma ClientRoundTrip(clientSeq: nat, text: seq<Byte>)
    requires clientSeq < U16_LIMIT
    ensures DecodeClientText(EncodeClient(clientSeq, text)) ==
            if Sanitize(text) == [] then None else Some(ClientText(clientSeq, Sanitize(text)))
  {
    hide Sanitize, Canonical, U16, ReadU16;
    var clean := Sanitize(text);
    if clean != [] {
      SanitizedFits(text);
      SanitizeIdempotent(text);
      Associative([TEXT_CHAT] + U16(clientSeq), U16(|clean|), clean);
      ReadU16In(clientSeq, [TEXT_CHAT], U16(|clean|) + clean);
      ReadU16In(|clean|, [TEXT_CHAT] + U16(clientSeq), clean);
      Suffix([TEXT_CHAT] + U16(clientSeq) + U16(|clean|), clean);
    }
  }

  lemma ServerRoundTrip(sender: int, serverSeq: nat, text: seq<Byte>)
    requires -0x8000_0000 <= sender < 0x8000_0000 && serverSeq < U32_LIMIT
    ensures DecodeServerText(EncodeServer(sender, serverSeq, text)) ==
            if Sanitize(text) == [] then None else Some(ServerText(sender, serverSeq, Sanitize(text)))
  {
    hide Sanitize, Canonical, U16, ReadU16, U32, ReadU32;
    var clean := Sanitize(text);
    if clean != [] {
      var head := [TEXT_CHAT] + U32(Unsigned(sender));
      SanitizedFits(text);
      SanitizeIdempotent(text);
      var size := U16(|clean|);
      Associative(head + U32(serverSeq), size, clean);
      Associative(head, U32(serverSeq), size + clean);
      ReadU32In(Unsigned(sender), [TEXT_CHAT], U32(serverSeq) + (size + clean));
      ReadU32In(serverSeq, head, size + clean);
      ReadU16In(|clean|, head + U32(serverSeq), clean);
      Suffix(head + U32(serverSeq) + size, clean);
    }
  }

  lemma SanitizedFits(text: seq<Byte>)
    ensures |Sanitize(text)| <= MAX_CHAT_BYTES
  {
  }

  /** The same for what a client accepts. */
  lemma AcceptedServerTextIsCanonical(payload: seq<Byte>)
    requires DecodeServerText(payload).Some?
    ensures var received := DecodeServerText(payload).value;
            && received.message != [] && Canonical(received.message)
            && DecodeServerText(EncodeServer(received.sender, received.serverSeq, received.message)) == Some(received)
  {
    hide Sanitize, Canonical, ReadU16, ReadU32;
    var len := ReadU16(payload, 9);
    var sender, serverSeq := Signed(ReadU32(payload, 1)), ReadU32(payload, 5);
    SanitizeIsCanonical(payload[11..11 + len]);
    SanitizeIdempotent(payload[11..11 + len]);
    ServerRoundTrip(sender, serverSeq, Sanitize(payload[11..11 + len]));
  }

  /** What is accepted: a packet of the right layout and length whose text can be sanitised to something. */
  lemma AcceptedExactly(payload: seq<Byte>)
    ensures DecodeClientText(payload).Some? <==>
              && 5 <= |payload| <= 5 + MAX_CHAT_BYTES && payload[0] == 21
              && payload[3..5] == U16(|payload| - 5) && Sanitize(payload[5..]) != []
    ensures DecodeServerText(payload).Some? <==>
              && 11 <= |payload| <= 11 + MAX_CHAT_BYTES && payload[0] == 21
              && payload[9..11] == U16(|payload| - 11) && Sanitize(payload[11..]) != []
  {
    hide Sanitize, U16, ReadU16, ReadU32;
    if |payload| >= 5 {
      LengthField(payload, 3, |payload| - 5);
      assert payload[5..5 + (|payload| - 5)] == payload[5..];
    }
    if |payload| >= 11 {
      LengthField(payload, 9, |payload| - 11);
      assert payload[11..11 + (|payload| - 11)] == payload[11..];
    }
  }

  lemma LengthField(payload: seq<Byte>, at: nat, n: nat)
    requires at + 2 <= |payload|
    ensures n < U16_LIMIT ==> (payload[at..at + 2] == U16(n) <==> ReadU16(payload, at) == n)
  {
    hide U16, ReadU16;
    FieldRead(payload, at);
    if n < U16_LIMIT {
      ReadU16In(n, payload[..at], payload[at + 2..]);
      assert payload == payload[..at] + payload[at..at + 2] + payload[at + 2..];
    }
  }

  /** Whatever bytes arrive, an accepted message is canonical and non-empty, and sending it on changes nothing. */
  lemma AcceptedTextIsCanonical(payload: seq<Byte>)
    requires DecodeClientText(payload).Some?
    ensures var received := DecodeClientText(payload).value;
            && received.message != [] && Canonical(received.message)
            && DecodeClientText(EncodeClient(received.clientSeq, received.message)) == Some(received)
  {
    hide Sanitize, Canonical, ReadU16;
    var len := ReadU16(payload, 3);
    SanitizeIsCanonical(payload[5..5 + len]);
    SanitizeIdempotent(payload[5..5 + len]);
    ClientRoundTrip(ReadU16(payload, 1), Sanitize(payload[5..5 + len]));
  }
}
