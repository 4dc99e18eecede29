/** Bytes and fixed-width little-endian integers, as every wire format of the program writes them. */
module Bytes {
  newtype Byte = x: int | 0 <= x < 256

  const U16_LIMIT := 0x1_0000
  const U32_LIMIT := 0x1_0000_0000
  const U64_LIMIT := 0x1_0000_0000_0000_0000

  /** A conversion to an unsigned 32-bit integer: higher bits are dropped. */
  function AsU32(n: nat): (r: nat)
    ensures r < U32_LIMIT
    ensures n < U32_LIMIT ==> r == n
  {
    n % 0x1_0000_0000
  }

  lemma Associative<T>(a: seq<T>, b: seq<T>, c: seq<T>)
    ensures (a + b) + c == a + (b + c)
  {
  }

  lemma AppendNothing<T>(s: seq<T>)
    ensures s + [] == [] + s == s
  {
  }

  lemma FirstAndRest<T>(s: seq<T>)
    requires s != []
    ensures s == [s[0]] + s[1..]
  {
  }

  lemma AppendPair<T>(s: seq<T>, a: seq<T>, b: seq<T>, rest: seq<T>)
    ensures s + (a + b + rest) == s + a + b + rest
  {
    Associative(s, a + b, rest);
    Associative(s, a, b);
  }

  lemma AppendFields<T>(s: seq<T>, a: seq<T>, b: seq<T>, c: seq<T>, rest: seq<T>)
    ensures s + (a + b + c + rest) == s + a + b + c + rest
  {
    Associative(s, a + b + c, rest);
    AppendPair(s, a, b, c);
  }

  lemma Front<T>(a: seq<T>, b: seq<T>)
    ensures (a + b)[..|a|] == a
  {
  }

  lemma Suffix<T>(a: seq<T>, b: seq<T>)
    ensures (a + b)[|a|..] == (a + b)[|a|..|a| + |b|] == b
  {
  }

  lemma DropDrop<T>(s: seq<T>, i: nat, n: nat)
    requires i + n <= |s|
    ensures s[i..][n..] == s[i + n..]
  {
  }

  lemma TakeTake<T>(s: seq<T>, i: nat, n: nat)
    requires i + n <= |s|
    ensures s[..i] + s[i..][..n] == s[..i + n]
  {
  }

  lemma FourParts<T>(a: seq<T>, b: seq<T>, c: seq<T>, d: seq<T>)
    ensures var all, n := a + b + c + d, |a| + |b|;
            all[..|a|] == a && all[|a|..n] == b && all[n..n + |c|] == c && all[n + |c|..] == d
  {
  }

  lemma Middle<T>(a: seq<T>, b: seq<T>, c: seq<T>)
    ensures (a + (b + c))[|a|..|a| + |b|] == b && (a + (b + c))[|a| + |b|..] == c
  {
  }

  function Pow256(w: nat): (p: nat)
    ensures p > 0
  {
    if w == 0 then 1 else 256 * Pow256(w - 1)
  }

  /** The low `w` bytes of `n`, least significant first; higher bytes are dropped. */
  function Le(n: nat, w: nat): (s: seq<Byte>)
    ensures |s| == w
  {
    if w == 0 then [] else [(n % 256) as Byte] + Le(n / 256, w - 1)
  }

  function Value(s: seq<Byte>): (n: nat)
    ensures n < Pow256(|s|)
  {
    if s == [] then 0 else s[0] as int + 256 * Value(s[1..])
  }

  function U16(n: nat): (s: seq<Byte>)
    ensures |s| == 2
  {
    Le(n, 2)
  }

  function U32(n: nat): (s: seq<Byte>)
    ensures |s| == 4
  {
    Le(n, 4)
  }

  function ReadU16(s: seq<Byte>, at: nat): (n: nat)
    requires at + 2 <= |s|
    ensures n < U16_LIMIT
  {
    PowersOf256();
    Value(s[at..at + 2])
  }

  function ReadU32(s: seq<Byte>, at: nat): (n: nat)
    requires at + 4 <= |s|
    ensures n < U32_LIMIT
  {
    PowersOf256();
    Value(s[at..at + 4])
  }

  lemma PowersOf256()
    ensures Pow256(1) == 256
    ensures Pow256(2) == U16_LIMIT
    ensures Pow256(4) == U32_LIMIT
    ensures Pow256(8) == U64_LIMIT
  {
    assert Pow256(2) == 256 * Pow256(1);
    assert Pow256(3) == 256 * Pow256(2);
    assert Pow256(4) == 256 * Pow256(3);
    assert Pow256(5) == 256 * Pow256(4);
    assert Pow256(6) == 256 * Pow256(5);
    assert Pow256(7) == 256 * Pow256(6);
  }

  /** Reading what was written gives the number back, as long as it fits. */
  lemma {:induction false} ValueOfLe(n: nat, w: nat)
    requires n < Pow256(w)
    ensures Value(Le(n, w)) == n
  {
    if w > 0 {
      ValueOfLe(n / 256, w - 1);
      assert Le(n, w)[1..] == Le(n / 256, w - 1);
    }
  }

  lemma LowByte(b: nat, n: nat)
    requires b < 256
    ensures (b + 256 * n) % 256 == b && (b + 256 * n) / 256 == n
  {
  }

  /** Writing what was read gives the same bytes back. */
  lemma {:induction false} LeOfValue(s: seq<Byte>)
    ensures Le(Value(s), |s|) == s
  {
    if s != [] {
      LeOfValue(s[1..]);
      LowByte(s[0] as nat, Value(s[1..]));
      FirstAndRest(s);
    }
  }

  /** The bytes of a 16-bit and of a 32-bit field, the least significant first. */
  lemma LittleEndian(n: nat)
    ensures U16(n) == [(n % 256) as Byte, (n / 256 % 256) as Byte]
    ensures U32(n) == [(n % 256) as Byte, (n / 256 % 256) as Byte,
                       (n / 0x1_0000 % 256) as Byte, (n / 0x100_0000 % 256) as Byte]
  {
    assert Le(n, 4) == [(n % 256) as Byte] + Le(n / 256, 3);
    assert Le(n / 256, 3) == [(n / 256 % 256) as Byte] + Le(n / 256 / 256, 2);
    assert Le(n / 256 / 256, 2) == [(n / 256 / 256 % 256) as Byte] + Le(n / 256 / 256 / 256, 1);
    assert Le(n, 2) == [(n % 256) as Byte] + Le(n / 256, 1);
  }

  /** A u32 field read out of the middle of a buffer. */
  lemma ReadU32In(n: nat, before: seq<Byte>, after: seq<Byte>)
    requires n < U32_LIMIT
    ensures ReadU32(before + U32(n) + after, |before|) == n
  {
    PowersOf256();
    ValueOfLe(n, 4);
    assert (before + U32(n) + after)[|before|..|before| + 4] == U32(n);
  }

  /** The bytes a field was read from. */
  lemma FieldRead(s: seq<Byte>, at: nat)
    ensures at + 2 <= |s| ==> U16(ReadU16(s, at)) == s[at..at + 2]
    ensures at + 4 <= |s| ==> U32(ReadU32(s, at)) == s[at..at + 4]
  {
    if at + 2 <= |s| {
      LeOfValue(s[at..at + 2]);
    }
    if at + 4 <= |s| {
      LeOfValue(s[at..at + 4]);
    }
  }

  lemma ReadU32Prefix(s: seq<Byte>, at: nat, after: seq<Byte>)
    requires at + 4 <= |s|
    ensures ReadU32(s + after, at) == ReadU32(s, at)
  {
    assert (s + after)[at..at + 4] == s[at..at + 4];
  }

  lemma ReadU32Suffix(s: seq<Byte>, at: nat)
    requires at + 4 <= |s|
    ensures ReadU32(s[at..], 0) == ReadU32(s, at)
  {
    assert s[at..][0..4] == s[at..at + 4];
  }

  lemma ReadU16In(n: nat, before: seq<Byte>, after: seq<Byte>)
    requires n < U16_LIMIT
    ensures ReadU16(before + U16(n) + after, |before|) == n
  {
    PowersOf256();
    ValueOfLe(n, 2);
    assert (before + U16(n) + after)[|before|..|before| + 2] == U16(n);
  }

  // ---------------------------------------------------------------- records of fields

  /** Total width of a record. */
  function Size(widths: seq<nat>): (n: nat) {
    if widths == [] then 0 else widths[0] + Size(widths[1..])
  }

  /** The fields of a record one after another, without padding. */
  function Pack(values: seq<nat>, widths: seq<nat>): (s: seq<Byte>)
    requires |values| == |widths|
    ensures |s| == Size(widths)
  {
    if widths == [] then [] else Le(values[0], widths[0]) + Pack(values[1..], widths[1..])
  }

  /** The fields at the front of `data`. */
  function Unpack(data: seq<Byte>, widths: seq<nat>): (values: seq<nat>)
    requires |data| >= Size(widths)
    ensures |values| == |widths|
  {
    if widths == [] then [] else [Value(data[..widths[0]])] + Unpack(data[widths[0]..], widths[1..])
  }

  lemma {:induction false} SizeThen(widths: seq<nat>, w: nat)
    ensures Size(widths + [w]) == Size(widths) + w
  {
    if widths != [] {
      SizeThen(widths[1..], w);
      assert (widths + [w])[1..] == widths[1..] + [w];
    } else {
      assert [] + [w] == [w] && [w][1..] == [];
    }
  }

  /** Where a field of a record stands. */
  lemma {:induction false} FieldAt(values: seq<nat>, widths: seq<nat>, i: nat)
    requires |values| == |widths| && i < |widths|
    ensures var at := Size(widths[..i]);
            at + widths[i] <= Size(widths) && Pack(values, widths)[at..at + widths[i]] == Le(values[i], widths[i])
  {
    hide Le;
    var first, rest := Le(values[0], widths[0]), Pack(values[1..], widths[1..]);
    if i == 0 {
      assert widths[..0] == [];
    } else {
      FieldAt(values[1..], widths[1..], i - 1);
      assert widths[..i][1..] == widths[1..][..i - 1];
      var at := Size(widths[1..][..i - 1]);
      assert (first + rest)[widths[0] + at..widths[0] + at + widths[i]] == rest[at..at + widths[i]];
    }
  }

  /** A record of two fields. */
  lemma TwoFields(a: nat, b: nat, widths: seq<nat>)
    requires |widths| == 2
    ensures Pack([a, b], widths) == Le(a, widths[0]) + Le(b, widths[1])
  {
    hide Le;
    assert [a, b][1..] == [b] && widths[1..] == [widths[1]];
    assert Pack([b], widths[1..]) == Le(b, widths[1]) + [];
    AppendNothing(Le(b, widths[1]));
  }

  /** A record of three fields. */
  lemma ThreeFields(a: nat, b: nat, c: nat, widths: seq<nat>)
    requires |widths| == 3
    ensures Pack([a, b, c], widths) == Le(a, widths[0]) + (Le(b, widths[1]) + Le(c, widths[2]))
  {
    hide Le;
    var two, one := widths[1..], widths[1..][1..];
    assert [a, b, c][1..] == [b, c] && [b, c][1..] == [c] && two == [widths[1], widths[2]] && one == [widths[2]];
    assert Pack([c], one) == Le(c, widths[2]) + [];
    AppendNothing(Le(c, widths[2]));
  }

  ghost predicate Fit(values: seq<nat>, widths: seq<nat>)
    requires |values| == |widths|
  {
    forall i :: 0 <= i < |values| ==> values[i] < Pow256(widths[i])
  }

  lemma {:induction false} PackThen(values: seq<nat>, widths: seq<nat>, v: nat, w: nat)
    requires |values| == |widths|
    ensures Pack(values + [v], widths + [w]) == Pack(values, widths) + Le(v, w)
  {
    hide Le;
    if widths == [] {
      assert values + [v] == [v] && widths + [w] == [w] && [v][1..] == [] && [w][1..] == [];
      AppendNothing(Le(v, w));
    } else {
      PackThen(values[1..], widths[1..], v, w);
      assert (values + [v])[1..] == values[1..] + [v] && (widths + [w])[1..] == widths[1..] + [w];
      Associative(Le(values[0], widths[0]), Pack(values[1..], widths[1..]), Le(v, w));
    }
  }

  /** Packing the unpacked fields gives the bytes back, and the fields fit. */
  lemma {:induction false} PackOfUnpack(data: seq<Byte>, widths: seq<nat>)
    requires |data| >= Size(widths)
    ensures Pack(Unpack(data, widths), widths) == data[..Size(widths)] && Fit(Unpack(data, widths), widths)
  {
    hide Le, Value;
    if widths == [] {
      assert data[..0] == [];
    } else {
      var rest := data[widths[0]..];
      PackOfUnpack(rest, widths[1..]);
      LeOfValue(data[..widths[0]]);
      var values := Unpack(data, widths);
      assert values[1..] == Unpack(rest, widths[1..]);
      assert forall i :: 1 <= i < |values| ==> values[i] == values[1..][i - 1];
      TakeTake(data, widths[0], Size(widths[1..]));
    }
  }

  /** Unpacking a packed record gives its fields back, whatever follows it. */
  lemma {:induction false} UnpackOfPack(values: seq<nat>, widths: seq<nat>, after: seq<Byte>)
    requires |values| == |widths| && Fit(values, widths)
    ensures Unpack(Pack(values, widths) + after, widths) == values
  {
    hide Le, Value;
    if widths != [] {
      var first, rest := Le(values[0], widths[0]), Pack(values[1..], widths[1..]);
      ValueOfLe(values[0], widths[0]);
      UnpackOfPack(values[1..], widths[1..], after);
      Associative(first, rest, after);
      Front(first, rest + after);
      Suffix(first, rest + after);
    }
  }
}
