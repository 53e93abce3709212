/** Base 128 varints: what a byte string means, the canonical encoder, and the in-place loops of the codec. */
module Varint {
  import opened GoMachine
  import opened Results

  // ----- meaning

  /** The sum of the 7-bit groups, least significant first. */
  function Value(s: seq<Byte>): nat {
    if s == [] then 0 else s[0] % 128 + 128 * Value(s[1..])
  }

  /** How many leading bytes have the high bit set. */
  function HighRun(d: seq<Byte>): (h: nat)
    ensures h <= |d|
    ensures forall k | 0 <= k < h :: d[k] >= 128
    ensures h < |d| ==> d[h] < 128
  {
    if d == [] || d[0] < 128 then 0 else 1 + HighRun(d[1..])
  }

  /** One accepted varint: up to ten bytes, all but the last with the high bit set. Overlong forms count. */
  predicate IsVarint(s: seq<Byte>) {
    1 <= |s| <= 10 && HighRun(s) == |s| - 1
  }

  /** The 64-bit value of a varint: what does not fit is dropped. */
  function Decoded(s: seq<Byte>): Uint64 {
    Value(s) % 0x1_0000_0000_0000_0000
  }

  datatype Read = Read(value: Uint64, size: nat)

  /** Reading the varint that `d` starts with. */
  function ReadVarint(d: seq<Byte>): (r: Result<Read>)
    ensures r.Ok? ==> 1 <= r.value.size <= |d| && r.value.size <= 10
  {
    var h := HighRun(d);
    if h >= 10 then Err(IntOverflow)
    else if h == |d| then Err(UnexpectedEOF)
    else Ok(Read(Decoded(d[..h + 1]), h + 1))
  }

  lemma HighRunUnique(d: seq<Byte>, h: nat)
    requires h <= |d|
    requires forall k | 0 <= k < h :: d[k] >= 128
    requires h < |d| ==> d[h] < 128
    ensures HighRun(d) == h
  {
  }

  /** A varint is read off any string that starts with it. */
  lemma ReadPrefix(v: seq<Byte>, x: seq<Byte>)
    requires IsVarint(v)
    ensures ReadVarint(v + x) == Ok(Read(Decoded(v), |v|))
  {
    HighRunUnique(v + x, |v| - 1);
    assert (v + x)[..|v|] == v;
  }

  /** The reading loop's outcome, exactly: a varint prefix, ten high bytes, or the input ran out. */
  lemma ReadVarintExact(d: seq<Byte>)
    ensures forall r :: ReadVarint(d) == Ok(r) <==>
              r.size <= |d| && IsVarint(d[..r.size]) && r.value == Value(d[..r.size]) % TWO_64
    ensures ReadVarint(d) == Err(IntOverflow) <==> |d| >= 10 && forall k | 0 <= k < 10 :: d[k] >= 128
    ensures ReadVarint(d) == Err(UnexpectedEOF) <==> |d| < 10 && forall k | 0 <= k < |d| :: d[k] >= 128
  {
    var h := HighRun(d);
    forall r: Read | r.size <= |d| && IsVarint(d[..r.size]) && r.value == Value(d[..r.size]) % TWO_64
      ensures ReadVarint(d) == Ok(r)
    {
      ReadPrefix(d[..r.size], d[r.size..]);
      assert d[..r.size] + d[r.size..] == d;
    }
    if h < |d| && h < 10 {
      HighRunUnique(d[..h + 1], h);
    }
  }

  /** Ten bytes with the high bit set. */
  predicate Overflows(d: seq<Byte>) {
    |d| >= 10 && forall k | 0 <= k < 10 :: d[k] >= 0x80
  }

  /** The input ends before a tenth byte, and all of it has the high bit set. */
  predicate RunsOut(d: seq<Byte>) {
    |d| < 10 && forall k | 0 <= k < |d| :: d[k] >= 0x80
  }

  /** No varint can be read off the front of `d`, and `e` says why. */
  predicate NoVarint(d: seq<Byte>, e: Error) {
    (Overflows(d) && e == IntOverflow) || (RunsOut(d) && e == UnexpectedEOF)
  }

  lemma NoVarintExact(d: seq<Byte>, e: Error)
    ensures NoVarint(d, e) <==> ReadVarint(d) == Err(e)
  {
    ReadVarintExact(d);
  }

  /** A varint at the front is the one that is read. */
  lemma VarintAtFront(d: seq<Byte>, v: seq<Byte>)
    requires IsVarint(v) && v <= d
    ensures ReadVarint(d) == Ok(Read(Decoded(v), |v|)) && v == d[..|v|]
  {
    ReadPrefix(v, d[|v|..]);
    hide ReadVarint, IsVarint, Decoded;
    assert d == v + d[|v|..];
  }

  /** Cutting the input: the same reading if the varint survives, otherwise the input ran out. */
  lemma ReadCut(d: seq<Byte>, k: nat)
    requires k <= |d| && ReadVarint(d).Ok?
    ensures ReadVarint(d[..k]) == if ReadVarint(d).value.size <= k then ReadVarint(d) else Err(UnexpectedEOF)
  {
    var n := ReadVarint(d).value.size;
    if n <= k {
      HighRunUnique(d[..k], n - 1);
      assert d[..k][..n] == d[..n];
    } else {
      HighRunUnique(d[..k], k);
    }
  }

  // ----- the value of a prefix, byte by byte

  lemma {:induction false} ValueAppend(s: seq<Byte>, b: Byte)
    ensures Value(s + [b]) == Value(s) + (b % 128) * Pow2(7 * |s|)
  {
    if s == [] {
      assert s + [b] == [b] && [b][1..] == [];
      assert Value([]) == 0;
    } else {
      ValueAppend(s[1..], b);
      assert (s + [b])[1..] == s[1..] + [b];
      var p := Pow2(7 * |s[1..]|);
      Pow2Add(7, 7 * |s[1..]|);
      Pow2Small();
      assert Pow2(7 * |s|) == 128 * p;
      var g := b % 128;
      assert 128 * (g * p) == g * (128 * p);
    }
  }

  lemma {:induction false} ValueBound(s: seq<Byte>)
    ensures Value(s) < Pow2(7 * |s|)
  {
    if s != [] {
      ValueBound(s[1..]);
      Pow2Add(7, 7 * |s[1..]|);
      Pow2Small();
    }
  }

  /** `b & 0x7F`. */
  function Group(b: Byte): (g: Byte)
    ensures g == b % 128
  {
    Masks(b);
    And(b, 0x7F)
  }

  lemma DecodedShort(s: seq<Byte>)
    requires |s| <= 9
    ensures Decoded(s) == Value(s) < Pow2(7 * |s|)
  {
    ValueBound(s);
    Pow2Mono(7 * |s|, 63);
    Pow2Word();
  }

  /** `wire |= uint64(b&0x7F) << shift`: the or never meets a set bit, so it adds the next group. */
  lemma Accumulate(s: seq<Byte>, b: Byte)
    requires |s| <= 9
    ensures Or(Decoded(s), Shl(Group(b), 7 * |s|)) == Decoded(s + [b])
  {
    DecodedShort(s);
    ValueAppend(s, b);
    OrShifted(Value(s), Group(b), 7 * |s|);
  }

  /** A varint whose value is negative as an `int`: bit 63 is set. */
  predicate IsNegative(v: seq<Byte>) {
    |v| == 10 && v[9] % 2 == 1
  }

  /** The `int`-typed accumulator goes negative exactly when the tenth byte is odd, that is when bit 63 is set. */
  lemma NegativeLengthExact(v: seq<Byte>)
    requires IsVarint(v)
    ensures ToInt(Decoded(v)) < 0 <==> IsNegative(v)
  {
    if |v| == 10 {
      var s, b := v[..9], v[9];
      assert v == s + [b];
      ValueBound(s);
      ValueAppend(s, b);
      Pow2Word();
      assert 7 * |s| == 63;
      var g := b % 128;
      assert Value(v) == Value(s) + g * TWO_63;
      ModUnique(Value(v), TWO_64, g / 2, Value(s) + (g % 2) * TWO_63);
    } else {
      ValueBound(v);
      Pow2Mono(7 * |v|, 63);
      Pow2Word();
    }
  }

  // ----- the canonical encoding

  /** The shortest varint of `v`. */
  function Encode(v: Uint64): (s: seq<Byte>)
    ensures |s| >= 1
  {
    if v < 128 then [v] else [v % 128 + 128] + Encode(v / 128)
  }

  /** `sov*`: the number of bytes `Encode` uses, in closed form. */
  function Sov(x: Uint64): nat {
    (Len64(Or(x, 1)) + 6) / 7
  }

  lemma {:induction false} EncodeMeaning(v: Uint64)
    ensures |Encode(v)| >= 1 && HighRun(Encode(v)) == |Encode(v)| - 1 && Value(Encode(v)) == v
  {
    if v < 128 {
      assert [v][1..] == [];
    } else {
      EncodeMeaning(v / 128);
      var s := Encode(v / 128);
      var b: Byte := v % 128 + 128;
      assert ([b] + s)[1..] == s;
      assert b % 128 == v % 128;
    }
  }

  lemma {:induction false} EncodeLength(v: Uint64, n: nat)
    requires n >= 1
    ensures |Encode(v)| <= n <==> v < Pow2(7 * n)
  {
    Pow2Mono(7, 7 * n);
    Pow2Small();
    if v >= 128 {
      if n > 1 {
        EncodeLength(v / 128, n - 1);
        Pow2Add(7, 7 * (n - 1));
      }
    }
  }

  /** The closed form is the exact length, between one and ten. */
  lemma {:induction false} SovIsLength(x: Uint64)
    ensures Sov(x) == |Encode(x)|
    ensures 1 <= Sov(x) <= 10
  {
    Len64Or1(x);
    Pow2Small();
    if x < 128 {
      Len64Bound(x, 7);
    } else {
      Len64Div128(x);
      Len64Or1(x / 128);
      SovIsLength(x / 128);
    }
    EncodeLength(x, 10);
    Pow2Mono(64, 70);
    Pow2Word();
  }

  /** What the encoder writes is read back whole, whatever follows it. */
  lemma EncodeRead(v: Uint64, x: seq<Byte>)
    ensures IsVarint(Encode(v)) && Decoded(Encode(v)) == v
    ensures ReadVarint(Encode(v) + x) == Ok(Read(v, Sov(v)))
  {
    hide ReadVarint, Encode, Sov;
    EncodeMeaning(v);
    SovIsLength(v);
    ReadPrefix(Encode(v), x);
  }

  /** No accepted varint of the same value is shorter. */
  lemma EncodeMinimal(v: seq<Byte>)
    requires IsVarint(v)
    ensures Sov(Decoded(v)) <= |v|
  {
    ValueBound(v);
    SovIsLength(Decoded(v));
    DecodedAtMost(v);
    EncodeLength(Decoded(v), |v|);
  }

  lemma DecodedAtMost(v: seq<Byte>)
    ensures Decoded(v) <= Value(v)
  {
  }

  // ----- the loops

  /** `encodeVarint*`: fills the bytes just before `offset` and returns where they start. */
  method EncodeVarint(dAtA: array<Byte>, offset: nat, v: Uint64) returns (base: nat)
    requires Sov(v) <= offset <= dAtA.Length
    modifies dAtA
    ensures base == offset - Sov(v)
    ensures dAtA[..] == old(dAtA[..])[..base] + Encode(v) + old(dAtA[..])[offset..]
  {
    SovIsLength(v);
    hide Encode, Sov, ContinuationByte, NextGroups;
    base := offset - Sov(v);
    var i, w := base, v;
    ghost var done: seq<Byte> := [];
    while w >= 0x80
      invariant base <= i && i + |Encode(w)| == offset
      invariant dAtA[..i] == old(dAtA[..base]) + done
      invariant dAtA[offset..] == old(dAtA[offset..])
      invariant Encode(v) == done + Encode(w)
      decreases w
    {
      var b := ContinuationByte(w);
      EncodeStep(w, b, done);
      dAtA[i] := b;
      w := NextGroups(w);
      i := i + 1;
      done := done + [b];
    }
    LastByte(w);
    dAtA[i] := w;
    assert dAtA[..offset] == old(dAtA[..base]) + Encode(v);
    assert dAtA[..] == dAtA[..offset] + dAtA[offset..];
  }

  lemma EncodeStep(w: Uint64, b: Byte, done: seq<Byte>)
    requires w >= 128 && b == w % 128 + 128
    ensures |Encode(w)| == 1 + |Encode(w / 128)|
    ensures done + Encode(w) == (done + [b]) + Encode(w / 128)
  {
    assert Encode(w) == [b] + Encode(w / 128);
    hide Encode;
  }

  lemma LastByte(w: Uint64)
    requires w < 128
    ensures Encode(w) == [w]
  {
  }

  /** `uint8(v&0x7f | 0x80)`. */
  function ContinuationByte(v: Uint64): (b: Byte)
    ensures b == v % 128 + 128
  {
    Masks(v);
    assert Or(v % 128, 0x80) == v % 128 + 128 by {
      Pow2Small();
      OrDisjoint(v % 128, 1, 7);
    }
    Or(And(v, 0x7F), 0x80)
  }

  /** `v >>= 7`. */
  function NextGroups(v: Uint64): (w: Uint64)
    ensures w == v / 128
  {
    Pow2Small();
    Shr(v, 7)
  }

  /** The loops' state: everything from `start` up to `i` has been read, and had its high bit set. */
  ghost predicate Reading(d: seq<Byte>, start: int, i: int) {
    0 <= start <= i <= |d| && i <= start + 10 && forall k | start <= k < i :: d[k] >= 0x80
  }

  /** The three ways out of a loop, and the step to the next byte. */
  lemma LoopExit(d: seq<Byte>, start: nat, i: nat)
    requires Reading(d, start, i)
    ensures i == start + 10 ==> ReadVarint(d[start..]) == Err(IntOverflow)
    ensures i < start + 10 && i == |d| ==> ReadVarint(d[start..]) == Err(UnexpectedEOF)
    ensures i < start + 10 && i < |d| && d[i] < 0x80 ==>
              ReadVarint(d[start..]) == Ok(Read(Decoded(d[start..i + 1]), i + 1 - start))
  {
    var r := d[start..];
    if i < |d| && d[i] < 0x80 {
      HighRunUnique(r, i - start);
      assert r[..i + 1 - start] == d[start..i + 1];
    } else if i == |d| {
      HighRunUnique(r, i - start);
    } else {
      assert i == start + 10 ==> forall k | 0 <= k < 10 :: r[k] >= 128;
      ReadVarintExact(r);
    }
  }

  lemma LoopStep(d: seq<Byte>, start: nat, i: nat)
    requires start <= i < |d| && i <= start + 9
    ensures Or(Decoded(d[start..i]), Shl(Group(d[i]), 7 * (i - start))) == Decoded(d[start..i + 1])
    ensures OrInt(ToInt(Decoded(d[start..i])), ShlInt(Group(d[i]), 7 * (i - start))) == ToInt(Decoded(d[start..i + 1]))
  {
    Accumulate(d[start..i], d[i]);
    assert d[start..i] + [d[i]] == d[start..i + 1];
  }

  /** The inlined loop that accumulates into a `uint64` (tags and string lengths). */
  method DecodeUint64(dAtA: seq<Byte>, start: Int) returns (wire: Uint64, iNdEx: Int, err: Option<Error>)
    requires 0 <= start <= |dAtA| <= MAX_INT
    ensures match ReadVarint(dAtA[start..])
            case Ok(r) => err == None && wire == r.value && iNdEx == start + r.size && iNdEx <= |dAtA|
            case Err(e) => err == Some(e)
  {
    wire, iNdEx, err := 0, start, None;
    var shift := 0;
    while true
      invariant Reading(dAtA, start, iNdEx) && shift == 7 * (iNdEx - start)
      invariant wire == Decoded(dAtA[start..iNdEx])
      decreases 70 - shift
    {
      LoopExit(dAtA, start, iNdEx);
      if shift >= 64 { return wire, iNdEx, Some(IntOverflow); }
      if iNdEx >= |dAtA| { return wire, iNdEx, Some(UnexpectedEOF); }
      var b := dAtA[iNdEx];
      LoopStep(dAtA, start, iNdEx);
      iNdEx := iNdEx + 1;
      wire := Or(wire, Shl(Group(b), shift));
      if b < 0x80 { return wire, iNdEx, None; }
      shift := shift + 7;
    }
  }

  /** The inlined loop that accumulates into an `int` (message lengths, and the skipper's lengths). */
  method DecodeInt(dAtA: seq<Byte>, start: Int) returns (length: Int, iNdEx: Int, err: Option<Error>)
    requires 0 <= start <= |dAtA| <= MAX_INT
    ensures match ReadVarint(dAtA[start..])
            case Ok(r) => err == None && length == ToInt(r.value) && iNdEx == start + r.size && iNdEx <= |dAtA|
            case Err(e) => err == Some(e)
  {
    length, iNdEx, err := 0, start, None;
    var shift := 0;
    while true
      invariant Reading(dAtA, start, iNdEx) && shift == 7 * (iNdEx - start)
      invariant length == ToInt(Decoded(dAtA[start..iNdEx]))
      decreases 70 - shift
    {
      LoopExit(dAtA, start, iNdEx);
      if shift >= 64 { return length, iNdEx, Some(IntOverflow); }
      if iNdEx >= |dAtA| { return length, iNdEx, Some(UnexpectedEOF); }
      var b := dAtA[iNdEx];
      LoopStep(dAtA, start, iNdEx);
      iNdEx := iNdEx + 1;
      length := OrInt(length, ShlInt(Group(b), shift));
      if b < 0x80 { return length, iNdEx, None; }
      shift := shift + 7;
    }
  }

  /** The skipper's loop over a varint whose value it does not need. */
  method SkipVarint(dAtA: seq<Byte>, start: Int) returns (iNdEx: Int, err: Option<Error>)
    requires 0 <= start <= |dAtA| <= MAX_INT
    ensures match ReadVarint(dAtA[start..])
            case Ok(r) => err == None && iNdEx == start + r.size && iNdEx <= |dAtA|
            case Err(e) => err == Some(e)
  {
    iNdEx, err := start, None;
    var shift := 0;
    while true
      invariant Reading(dAtA, start, iNdEx) && shift == 7 * (iNdEx - start)
      decreases 70 - shift
    {
      LoopExit(dAtA, start, iNdEx);
      if shift >= 64 { return iNdEx, Some(IntOverflow); }
      if iNdEx >= |dAtA| { return iNdEx, Some(UnexpectedEOF); }
      iNdEx := iNdEx + 1;
      if dAtA[iNdEx - 1] < 0x80 { return iNdEx, None; }
      shift := shift + 7;
    }
  }
}
