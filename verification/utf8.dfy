/**
  UTF-8 validation. The reference is the syntax of section 4 of RFC 3629, with one deviation of the
  program: it also takes the lead byte C1, whose two-byte units are overlong encodings of ASCII.
 */
module Utf8 {
  import opened Bytes

  predicate Tail(b: Byte) {
    0x80 <= b <= 0xBF
  }

  /** Length of the UTF-8 unit at the front of `s` by the table of RFC 3629, and 0 if there is none; `c1` also
      allows the lead byte C1. */
  function UnitLengthBy(s: seq<Byte>, c1: bool): (n: nat)
    ensures n <= 4 && n <= |s|
  {
    if s == [] then 0
    else if s[0] <= 0x7F then 1
    else if |s| < 2 || !Tail(s[1]) then 0
    else if 0xC2 <= s[0] <= 0xDF || (c1 && s[0] == 0xC1) then 2
    else if |s| < 3 || !Tail(s[2]) then 0
    else if (s[0] == 0xE0 && 0xA0 <= s[1]) || 0xE1 <= s[0] <= 0xEC || (s[0] == 0xED && s[1] <= 0x9F)
            || 0xEE <= s[0] <= 0xEF then 3
    else if |s| < 4 || !Tail(s[3]) then 0
    else if (s[0] == 0xF0 && 0x90 <= s[1]) || 0xF1 <= s[0] <= 0xF3 || (s[0] == 0xF4 && s[1] <= 0x8F) then 4
    else 0
  }

  /** A sequence of units of RFC 3629. */
  predicate StrictlyWellFormed(s: seq<Byte>)
    decreases |s|
  {
    s == [] || (var n := UnitLengthBy(s, false); n > 0 && StrictlyWellFormed(s[n..]))
  }

  function UnitLength(s: seq<Byte>): (n: nat)
    ensures n <= 4 && n <= |s|
  {
    UnitLengthBy(s, true)
  }

  /** A sequence of units, C1 units included. */
  predicate WellFormed(s: seq<Byte>)
    decreases |s|
  {
    s == [] || (var n := UnitLength(s); n > 0 && WellFormed(s[n..]))
  }

  /** Exactly how the accepted texts differ from the RFC: they may contain the byte C1. */
  lemma {:induction false} WellFormedVersusRfc(s: seq<Byte>)
    ensures StrictlyWellFormed(s) <==> WellFormed(s) && 0xC1 !in s
    decreases |s|
  {
    if s != [] {
      var n := UnitLength(s);
      if n > 0 {
        WellFormedVersusRfc(s[n..]);
        assert s == s[..n] + s[n..];
        UnitBytes(s);
        if s[0] == 0xC1 {
          assert 0xC1 in s;
        } else {
          assert UnitLengthBy(s, false) == n;
        }
      }
    }
  }

  /** An overlong encoding the validator takes and the RFC does not. */
  lemma OverlongAccepted()
    ensures WellFormed([0xC1, 0x80]) && !StrictlyWellFormed([0xC1, 0x80])
  {
    var s: seq<Byte> := [0xC1, 0x80];
    assert UnitLength(s) == 2 && s[2..] == [];
  }

  /** After its lead byte a unit has only tail bytes, and an ASCII unit is alone. */
  lemma UnitBytes(s: seq<Byte>)
    ensures forall k :: 1 <= k < UnitLength(s) ==> Tail(s[k])
    ensures UnitLength(s) > 1 ==> s[0] >= 0xC1
    ensures UnitLength(s) == 1 <==> s != [] && s[0] <= 0x7F
    ensures s[..UnitLength(s)] != [] && s[0] != 0xC1 ==> 0xC1 !in s[..UnitLength(s)]
  {
  }

  /** A unit is recognised by its own bytes. */
  lemma UnitThen(s: seq<Byte>, after: seq<Byte>)
    ensures UnitLength(s) > 0 ==> UnitLength(s[..UnitLength(s)] + after) == UnitLength(s)
  {
  }

  lemma UnitPrefixed(unit: seq<Byte>, s: seq<Byte>)
    requires UnitLength(unit) == |unit| > 0
    ensures UnitLength(unit + s) == |unit| && (WellFormed(unit + s) <==> WellFormed(s))
  {
    UnitThen(unit, s);
    assert (unit + s)[|unit|..] == s;
  }

  lemma {:induction false} WellFormedAppend(s: seq<Byte>, t: seq<Byte>)
    requires WellFormed(s)
    ensures WellFormed(s + t) <==> WellFormed(t)
    decreases |s|
  {
    if s == [] {
      assert s + t == t;
    } else {
      var n := UnitLength(s);
      WellFormedAppend(s[n..], t);
      UnitThen(s, s[n..] + t);
      assert s + t == s[..n] + (s[n..] + t);
      assert (s + t)[n..] == s[n..] + t;
    }
  }

  // ---------------------------------------------------------------- the validator

  /** `(b & 0xc0) == 0x80` */
  predicate IsContinuation(b: Byte) {
    b / 64 == 2
  }

  /** Number of continuation bytes a lead byte above 7F asks for, by its high bits; None if it is not a lead
      byte. */
  function Needed(c: Byte): (n: int)
    ensures -1 <= n <= 3 && n != 0
  {
    if c / 32 == 6 then 1        // (c & 0xe0) == 0xc0
    else if c / 16 == 14 then 2  // (c & 0xf0) == 0xe0
    else if c / 8 == 30 then 3   // (c & 0xf8) == 0xf0
    else -1
  }

  /** The payload bits of a lead byte. */
  function LeadBits(c: Byte): (bits: nat) {
    (if Needed(c) == 1 then c % 32 else if Needed(c) == 2 then c % 16 else c % 8) as int
  }

  /** The payload bits of the lead byte and the first `count` continuation bytes. */
  function CodePoint(s: seq<Byte>, count: nat): (cp: nat)
    requires count < |s|
  {
    if count == 0 then LeadBits(s[0]) else CodePoint(s, count - 1) * 64 + (s[count] % 64) as int
  }

  predicate CodePointAllowed(needed: int, codepoint: nat) {
    && !(needed == 2 && codepoint < 0x800)
    && !(needed == 3 && codepoint < 0x10000)
    && codepoint <= 0x10FFFF
    && !(0xD800 <= codepoint <= 0xDFFF)
  }

  /** The validator's decision about one unit, in terms of code points, agrees with the byte ranges of the table. */
  lemma UnitByCodePoint(s: seq<Byte>)
    requires s != [] && s[0] > 0x7F
    ensures var needed := Needed(s[0]);
            UnitLength(s) ==
            if needed < 0 || (needed == 1 && LeadBits(s[0]) == 0) || needed >= |s| then 0
            else if (exists k :: 1 <= k <= needed && !IsContinuation(s[k])) then 0
            else if CodePointAllowed(needed, CodePoint(s, needed)) then needed + 1
            else 0
  {
    var needed := Needed(s[0]);
    if needed == 1 && needed < |s| {
      TwoBytes(s);
    } else if needed == 2 && needed < |s| {
      ThreeBytes(s);
    } else if needed == 3 && needed < |s| {
      FourBytes(s);
    }
  }

  lemma TwoBytes(s: seq<Byte>)
    requires |s| >= 2 && Needed(s[0]) == 1
    ensures UnitLength(s) == if IsContinuation(s[1]) && s[0] != 0xC0 then 2 else 0
    ensures CodePoint(s, 1) == s[0] as int % 32 * 64 + s[1] as int % 64
  {
    assert CodePoint(s, 0) == LeadBits(s[0]);
  }

  lemma ThreeBytes(s: seq<Byte>)
    requires |s| >= 3 && Needed(s[0]) == 2
    ensures UnitLength(s) ==
            if IsContinuation(s[1]) && IsContinuation(s[2]) && CodePointAllowed(2, CodePoint(s, 2)) then 3 else 0
  {
    assert CodePoint(s, 0) == s[0] as int % 16;
    assert CodePoint(s, 1) == s[0] as int % 16 * 64 + s[1] as int % 64;
  }

  lemma FourBytes(s: seq<Byte>)
    requires |s| >= 4 && Needed(s[0]) == 3
    ensures UnitLength(s) ==
            if IsContinuation(s[1]) && IsContinuation(s[2]) && IsContinuation(s[3])
               && CodePointAllowed(3, CodePoint(s, 3))
            then 4 else 0
  {
    assert CodePoint(s, 0) == s[0] as int % 8;
    assert CodePoint(s, 1) == s[0] as int % 8 * 64 + s[1] as int % 64;
    assert CodePoint(s, 2) == CodePoint(s, 1) * 64 + s[2] as int % 64;
  }

  lemma BadLead(s: seq<Byte>)
    requires s != [] && s[0] > 0x7F
    requires Needed(s[0]) < 0 || (Needed(s[0]) == 1 && LeadBits(s[0]) == 0) || Needed(s[0]) >= |s|
    ensures UnitLength(s) == 0
  {
    UnitByCodePoint(s);
  }

  lemma BadContinuation(s: seq<Byte>, j: nat)
    requires s != [] && s[0] > 0x7F && 1 <= j <= Needed(s[0]) < |s| && !IsContinuation(s[j])
    ensures UnitLength(s) == 0
  {
    UnitByCodePoint(s);
  }

  lemma GoodContinuations(s: seq<Byte>)
    requires s != [] && s[0] > 0x7F && 0 < Needed(s[0]) < |s| && !(Needed(s[0]) == 1 && LeadBits(s[0]) == 0)
    requires forall k :: 1 <= k < Needed(s[0]) + 1 ==> IsContinuation(s[k])
    ensures UnitLength(s) ==
            if CodePointAllowed(Needed(s[0]), CodePoint(s, Needed(s[0]))) then Needed(s[0]) + 1 else 0
  {
    UnitByCodePoint(s);
  }

  method IsValidUtf8(text: seq<Byte>) returns (valid: bool)
    ensures valid <==> WellFormed(text)
  {
    hide UnitLength, Needed, LeadBits, IsContinuation, WellFormed;
    var i := 0;
    assert text[0..] == text;
    while i < |text|
      invariant 0 <= i <= |text|
      invariant WellFormed(text) <==> WellFormed(text[i..])
    {
      var c := text[i];
      ghost var s := text[i..];
      WellFormedStep(s);
      if c <= 0x7F {
        UnitBytes(s);
        DropDrop(text, i, 1);
        i := i + 1;
        continue;
      }
      var needed := Needed(c);
      if needed < 0 {
        BadLead(s);
        return false;
      }
      var codepoint := LeadBits(c);
      if needed == 1 && codepoint == 0 {
        BadLead(s);
        return false;
      }
      if i + needed >= |text| {
        BadLead(s);
        return false;
      }
      for j := 1 to needed + 1
        invariant forall k :: 1 <= k < j ==> IsContinuation(s[k])
        invariant codepoint == CodePoint(s, j - 1)
      {
        var cc := text[i + j];
        if !IsContinuation(cc) {
          BadContinuation(s, j);
          return false;
        }
        codepoint := codepoint * 64 + (cc % 64) as int;
      }
      GoodContinuations(s);
      if (needed == 2 && codepoint < 0x800) || (needed == 3 && codepoint < 0x10000) {
        return false;
      }
      if codepoint > 0x10FFFF || 0xD800 <= codepoint <= 0xDFFF {
        return false;
      }
      DropDrop(text, i, needed + 1);
      i := i + (needed + 1);
    }
    assert text[i..] == [] && WellFormed([]) by { WellFormedStep([]); }
    return true;
  }

  lemma WellFormedStep(s: seq<Byte>)
    ensures WellFormed(s) <==> s == [] || (UnitLength(s) > 0 && WellFormed(s[UnitLength(s)..]))
  {
  }
}
