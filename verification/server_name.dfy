/** Server names: at most 32 bytes, cut at a character boundary. */
module ServerName {
  import opened Bytes
  import opened Utf8

  const MAX_BYTES := 32
  const DEFAULT_NAME: seq<Byte> := [0x53, 0x65, 0x72, 0x76, 0x65, 0x72]  // "Server"

  /** Length of a unit judged only by its lead byte's high bits and by continuation bytes; 0 if there is none. */
  function LooseLength(s: seq<Byte>): (n: nat)
    ensures n <= 4 && n <= |s|
  {
    if s == [] then 0
    else if s[0] < 0x80 then 1
    else
      var n := Needed(s[0]) + 1;
      if n == 0 || n > |s| || (exists k :: 1 <= k < n && !IsContinuation(s[k])) then 0 else n
  }

  /** The loose units at the front of `s` that fit in `room` bytes. */
  function Clamp(s: seq<Byte>, room: nat): (r: seq<Byte>)
    ensures r <= s && |r| <= room
    decreases |s|
  {
    var n := LooseLength(s);
    if n == 0 || n > room then []
    else
      assert s == s[..n] + s[n..];
      s[..n] + Clamp(s[n..], room - n)
  }

  lemma ClampUnfolds(s: seq<Byte>, room: nat)
    ensures var n := LooseLength(s);
            Clamp(s, room) == if n == 0 || n > room then [] else s[..n] + Clamp(s[n..], room - n)
  {
    hide LooseLength;
  }

  function LooseAt(value: seq<Byte>, i: nat): (n: nat)
    requires i <= |value|
    ensures i + n <= |value|
  {
    LooseLength(value[i..])
  }

  /** What is taken from position `i` on. */
  function ClampFrom(value: seq<Byte>, i: nat): (r: seq<Byte>)
    requires i <= |value| && i <= MAX_BYTES
  {
    Clamp(value[i..], MAX_BYTES - i)
  }

  lemma ClampFromStep(value: seq<Byte>, i: nat)
    requires i <= |value| && i <= MAX_BYTES
    ensures var n := LooseAt(value, i);
            ClampFrom(value, i) ==
            if n == 0 || i + n > MAX_BYTES then [] else value[i..][..n] + ClampFrom(value, i + n)
  {
    hide LooseLength, Clamp;
    ClampUnfolds(value[i..], MAX_BYTES - i);
    DropDrop(value, i, LooseAt(value, i));
  }

  lemma ClampFromStart(value: seq<Byte>)
    ensures ClampFrom(value, 0) == Clamp(value, MAX_BYTES)
  {
    hide Clamp;
    assert value[0..] == value;
  }

  /** Everything before `i` is taken. */
  ghost predicate Reached(value: seq<Byte>, i: nat) {
    i <= |value| && i <= MAX_BYTES && ClampFrom(value, 0) == value[..i] + ClampFrom(value, i)
  }

  lemma ReachedStart(value: seq<Byte>)
    ensures Reached(value, 0)
  {
    hide ClampFrom;
    AppendNothing(ClampFrom(value, 0));
  }

  lemma ReachedStep(value: seq<Byte>, i: nat)
    requires i <= |value| && Reached(value, i)
    ensures var n := LooseAt(value, i);
            if n == 0 || i + n > MAX_BYTES then ClampFrom(value, 0) == value[..i] else Reached(value, i + n)
  {
    hide LooseAt, ClampFrom;
    var n := LooseAt(value, i);
    ClampFromStep(value, i);
    if n > 0 && i + n <= MAX_BYTES {
      TakeTake(value, i, n);
      Associative(value[..i], value[i..][..n], ClampFrom(value, i + n));
    } else {
      AppendNothing(value[..i]);
    }
  }

  /** What the code finds out about the unit at position `i`. */
  lemma NoLooseUnit(value: seq<Byte>, i: nat)
    requires i < |value| && value[i] >= 0x80 && Needed(value[i]) < 0
    ensures LooseAt(value, i) == 0
  {
  }

  lemma LooseCut(value: seq<Byte>, i: nat)
    requires i < |value| && value[i] >= 0x80 && Needed(value[i]) >= 0
    ensures LooseAt(value, i) == 0 || LooseAt(value, i) == Needed(value[i]) + 1
  {
  }

  lemma LooseBroken(value: seq<Byte>, i: nat, j: nat)
    requires i < |value| && value[i] >= 0x80 && 1 <= j <= Needed(value[i])
    requires i + Needed(value[i]) < |value| && !IsContinuation(value[i + j])
    ensures LooseAt(value, i) == 0
  {
    assert value[i..][j] == value[i + j];
  }

  lemma LooseComplete(value: seq<Byte>, i: nat)
    requires i < |value| && value[i] >= 0x80 && 1 <= Needed(value[i]) && i + Needed(value[i]) < |value|
    requires forall p :: i < p <= i + Needed(value[i]) ==> IsContinuation(value[p])
    ensures LooseAt(value, i) == Needed(value[i]) + 1
  {
    var s := value[i..];
    forall k | 1 <= k <= Needed(value[i]) ensures IsContinuation(s[k]) {
      assert s[k] == value[i + k];
    }
  }

  lemma LooseAscii(value: seq<Byte>, i: nat)
    requires i <= |value| && (i == |value| || value[i] < 0x80)
    ensures LooseAt(value, i) == if i == |value| then 0 else 1
  {
  }

  method ClampUtf8Bytes(value: seq<Byte>) returns (r: seq<Byte>)
    ensures r == Clamp(value, MAX_BYTES)
  {
    hide IsContinuation, Clamp, Needed, LooseAt, Reached, ClampFrom;
    var i, lastValid: nat := 0, 0;
    ReachedStart(value);
    ClampFromStart(value);
    while i < |value| && i < MAX_BYTES
      invariant i == lastValid <= |value| && i <= MAX_BYTES && Reached(value, i)
    {
      ReachedStep(value, i);
      var c := value[i];
      var len := 1;
      if c < 0x80 {
        len := 1;
        LooseAscii(value, i);
      } else {
        len := Needed(c) + 1;
        if len == 0 {
          NoLooseUnit(value, i);
          break;
        }
        LooseCut(value, i);
      }
      if i + len > |value| || i + len > MAX_BYTES {
        break;
      }
      var validContinuation := true;
      for j := 1 to len
        invariant validContinuation
        invariant forall p :: i < p < i + j ==> IsContinuation(value[p])
      {
        if !IsContinuation(value[i + j]) {
          LooseBroken(value, i, j);
          validContinuation := false;
          break;
        }
      }
      if !validContinuation {
        break;
      }
      if c >= 0x80 {
        LooseComplete(value, i);
      }
      i := i + len;
      lastValid := i;
    }
    if i == |value| {
      LooseAscii(value, i);
    }
    ReachedStep(value, i);
    r := value[..lastValid];
  }

  function SanitizeName(value: seq<Byte>, fallback: seq<Byte>): (name: seq<Byte>) {
    if Clamp(value, MAX_BYTES) != [] then Clamp(value, MAX_BYTES)
    else if Clamp(fallback, MAX_BYTES) != [] then Clamp(fallback, MAX_BYTES)
    else DEFAULT_NAME
  }

  method Sanitize(value: seq<Byte>, fallback: seq<Byte>) returns (result: seq<Byte>)
    ensures result == SanitizeName(value, fallback)
  {
    result := ClampUtf8Bytes(value);
    if result != [] {
      return;
    }
    result := ClampUtf8Bytes(fallback);
    if result != [] {
      return;
    }
    return DEFAULT_NAME;
  }

  /** On a well-formed unit the two readings agree. */
  lemma LooseOfUnit(s: seq<Byte>)
    requires UnitLength(s) > 0
    ensures LooseLength(s) == UnitLength(s)
  {
    if s[0] > 0x7F {
      UnitByCodePoint(s);
    }
  }

  lemma UnitOfPrefix(s: seq<Byte>, prefix: seq<Byte>)
    requires prefix <= s && UnitLength(prefix) > 0
    ensures UnitLength(s) == UnitLength(prefix)
  {
  }

  /** On valid text the result is the longest valid prefix of at most `room` bytes. */
  lemma {:induction false} ClampIsLongestValidPrefix(s: seq<Byte>, room: nat, prefix: seq<Byte>)
    requires WellFormed(s)
    ensures WellFormed(Clamp(s, room))
    ensures prefix <= s && WellFormed(prefix) && |prefix| <= room ==> prefix <= Clamp(s, room)
    decreases |s|
  {
    hide UnitLength, LooseLength;
    if s != [] {
      var n := UnitLength(s);
      LooseOfUnit(s);
      var unit, rest := s[..n], s[n..];
      UnitThen(s, []);
      assert unit + [] == unit;
      if n <= room {
        UnitPrefixed(unit, Clamp(rest, room - n));
        if prefix <= s && WellFormed(prefix) && |prefix| <= room && prefix != [] {
          UnitOfPrefix(s, prefix);
          ClampIsLongestValidPrefix(rest, room - n, prefix[n..]);
        } else {
          ClampIsLongestValidPrefix(rest, room - n, []);
        }
      } else if prefix <= s && WellFormed(prefix) && |prefix| <= room && prefix != [] {
        UnitOfPrefix(s, prefix);
      }
    }
  }

  lemma LooseThen(s: seq<Byte>, after: seq<Byte>)
    requires LooseLength(s) > 0
    ensures LooseLength(s[..LooseLength(s)] + after) == LooseLength(s)
  {
    var n := LooseLength(s);
    var t := s[..n] + after;
    assert forall k :: 0 <= k < n ==> t[k] == s[k];
  }

  /** Clamping a second time changes nothing, whatever the bytes. */
  lemma {:induction false} ClampIdempotent(s: seq<Byte>, room: nat)
    ensures Clamp(Clamp(s, room), room) == Clamp(s, room)
    decreases |s|
  {
    hide LooseLength, Clamp;
    var n := LooseLength(s);
    ClampUnfolds(s, room);
    if 0 < n <= room {
      var rest := Clamp(s[n..], room - n);
      ClampIdempotent(s[n..], room - n);
      LooseThen(s, rest);
      ClampUnfolds(s[..n] + rest, room);
      Front(s[..n], rest);
      Suffix(s[..n], rest);
    } else {
      assert LooseLength([]) == 0;
      ClampUnfolds([], room);
    }
  }

  lemma DefaultNameFits()
    ensures Clamp(DEFAULT_NAME, MAX_BYTES) == DEFAULT_NAME
  {
    ClampAscii(DEFAULT_NAME, MAX_BYTES);
  }

  lemma {:induction false} ClampAscii(s: seq<Byte>, room: nat)
    requires |s| <= room && forall k :: 0 <= k < |s| ==> s[k] < 0x80
    ensures Clamp(s, room) == s
    decreases |s|
  {
    if s != [] {
      ClampAscii(s[1..], room - 1);
      assert s == s[..1] + s[1..];
    }
  }

  /** A name is never empty, fits, and is left alone when sanitised again; valid input gives valid names. */
  lemma NamesAreStable(value: seq<Byte>, fallback: seq<Byte>, other: seq<Byte>)
    ensures var name := SanitizeName(value, fallback);
            && name != [] && |name| <= MAX_BYTES
            && SanitizeName(name, other) == name
            && (WellFormed(value) && WellFormed(fallback) ==> WellFormed(name))
  {
    ClampIdempotent(value, MAX_BYTES);
    ClampIdempotent(fallback, MAX_BYTES);
    DefaultNameFits();
    if WellFormed(value) && WellFormed(fallback) {
      ClampIsLongestValidPrefix(value, MAX_BYTES, []);
      ClampIsLongestValidPrefix(fallback, MAX_BYTES, []);
      DefaultWellFormed();
    }
  }

  lemma DefaultWellFormed()
    ensures WellFormed(DEFAULT_NAME)
  {
    hide WellFormed;
    AsciiWellFormed(DEFAULT_NAME);
  }

  lemma {:induction false} AsciiWellFormed(s: seq<Byte>)
    requires forall k :: 0 <= k < |s| ==> s[k] < 0x80
    ensures WellFormed(s)
  {
    if s != [] {
      AsciiWellFormed(s[1..]);
    }
  }

  // ---------------------------------------------------------------- invalid names

  /** The text stops cleanly: past the proper units at its front that fit, no loose unit is taken. */
  predicate StopsClean(s: seq<Byte>, room: nat)
    decreases |s|
  {
    var n := UnitLength(s);
    if 0 < n <= room then StopsClean(s[n..], room - n) else LooseLength(s) == 0 || LooseLength(s) > room
  }

  /** A loose unit that is no unit is none in another text either. */
  lemma LooseIsNoUnit(s: seq<Byte>, after: seq<Byte>)
    requires UnitLength(s) == 0 && LooseLength(s) > 0
    ensures UnitLength(s[..LooseLength(s)] + after) == 0
  {
    hide UnitLength, LooseLength;
    var n := LooseLength(s);
    var t := s[..n] + after;
    LooseThen(s, after);
    Front(s[..n], after);
    assert s[..n] + s[n..] == s;
    if UnitLength(t) > 0 {
      LooseOfUnit(t);
      UnitThen(t, s[n..]);
    }
  }

  /** Exactly when clamping gives valid text. */
  lemma {:induction false} ClampValidExactly(s: seq<Byte>, room: nat)
    ensures WellFormed(Clamp(s, room)) <==> StopsClean(s, room)
    decreases |s|
  {
    hide UnitLength, LooseLength, Clamp;
    var n, m := UnitLength(s), LooseLength(s);
    ClampUnfolds(s, room);
    if n > 0 {
      LooseOfUnit(s);
    }
    if 0 < n <= room {
      var rest := Clamp(s[n..], room - n);
      ClampValidExactly(s[n..], room - n);
      UnitThen(s, []);
      assert s[..n] + [] == s[..n];
      UnitPrefixed(s[..n], rest);
    } else if 0 < m <= room {
      LooseIsNoUnit(s, Clamp(s[m..], room - m));
    }
  }

  /** Exactly when a name is valid: the text it is taken from, the value or else the fallback, stops cleanly. */
  lemma ValidNamesExactly(value: seq<Byte>, fallback: seq<Byte>)
    ensures WellFormed(SanitizeName(value, fallback)) <==>
              if LooseLength(value) > 0 then StopsClean(value, MAX_BYTES)
              else LooseLength(fallback) > 0 ==> StopsClean(fallback, MAX_BYTES)
  {
    hide LooseLength, Clamp, WellFormed, StopsClean;
    ClampUnfolds(value, MAX_BYTES);
    ClampUnfolds(fallback, MAX_BYTES);
    ClampValidExactly(value, MAX_BYTES);
    ClampValidExactly(fallback, MAX_BYTES);
    DefaultWellFormed();
  }

  /** Invalid text can be taken as it is: an overlong sequence and a surrogate. */
  lemma InvalidNamesPass(fallback: seq<Byte>)
    ensures SanitizeName([0xC0, 0x80], fallback) == [0xC0, 0x80] && !WellFormed([0xC0, 0x80])
    ensures SanitizeName([0xED, 0xA0, 0x80], fallback) == [0xED, 0xA0, 0x80] && !WellFormed([0xED, 0xA0, 0x80])
  {
    OneLooseUnit([0xC0, 0x80]);
    OneLooseUnit([0xED, 0xA0, 0x80]);
  }

  lemma OneLooseUnit(s: seq<Byte>)
    requires LooseLength(s) == |s| > 0
    ensures Clamp(s, MAX_BYTES) == s
  {
    hide LooseLength;
    assert s[..|s|] == s && s[|s|..] == [];
    ClampUnfolds(s, MAX_BYTES);
  }
}
