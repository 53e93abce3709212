/** The skipper against the grammar: its loop with a depth counter accepts exactly the well-formed fields. */
module SkipGrammar {
  import opened GoMachine
  import opened Results
  import opened Sequences
  import opened Varint
  import opened Grammar
  import opened Skipper

  // ----- one record

  lemma TagRead(t: seq<Byte>, wireType: nat, x: seq<Byte>)
    requires IsTag(t, wireType)
    ensures ReadVarint(t + x) == Ok(Read(Decoded(t), |t|)) && (t + x)[|t|..] == x
  {
    ReadPrefix(t, x);
  }

  lemma TwoVarints(t: seq<Byte>, v: seq<Byte>, wireType: nat, x: seq<Byte>)
    requires IsTag(t, wireType) && IsVarint(v)
    ensures ReadVarint(t + v + x) == Ok(Read(Decoded(t), |t|))
    ensures ReadVarint((t + v + x)[|t|..]) == Ok(Read(Decoded(v), |v|))
  {
    TagRead(t, wireType, v + x);
    ReadPrefix(v, x);
    hide ReadVarint, IsVarint, Decoded;
    assert t + v + x == t + (v + x);
  }

  /** A header tells the loop how far its record reaches. */
  lemma ItemOfHeader(f: Field, x: seq<Byte>)
    requires ValidField(f) && |FieldBytes(f)| <= MAX_INT
    ensures var size := if f.GroupField? then |f.tag| else |FieldBytes(f)|;
            ReadItem(Header(f) + x) == Ok(Item(WireType(f), size))
  {
    hide ReadVarint, IsVarint, Decoded, FieldsBytes, ValidFields;
    match f
    case VarintField(t, v) => TwoVarints(t, v, 0, x);
    case BytesField(t, n, _) => TwoVarints(t, n, 2, x);
    case Fixed64Field(t, _) => TagRead(t, 1, x);
    case GroupField(t, _, _) => TagRead(t, 3, x);
    case Fixed32Field(t, _) => TagRead(t, 5, x);
  }

  /** The same, with the whole field there. */
  lemma ItemOfField(f: Field, x: seq<Byte>)
    requires ValidField(f) && |FieldBytes(f)| <= MAX_INT && !f.GroupField?
    ensures ReadItem(FieldBytes(f) + x) == Ok(Item(WireType(f), |FieldBytes(f)|))
  {
    ItemOfHeader(f, Tail(f) + x);
    assert FieldBytes(f) == Header(f) + Tail(f);
    hide *;
    Assoc(Header(f), Tail(f), x);
  }

  lemma TagTaken(d: seq<Byte>)
    requires ReadVarint(d).Ok?
    ensures var r := ReadVarint(d).value;
            r.size <= |d| && IsVarint(d[..r.size]) && r.value == Decoded(d[..r.size])
  {
    ReadVarintExact(d);
  }

  /** The `n` bytes of `d` from `from`, padded where `d` is too short. */
  function Padded(d: seq<Byte>, from: nat, n: nat): (p: seq<Byte>)
    requires from <= |d|
    ensures |p| == n
    ensures forall k | 0 <= k < n && from + k < |d| :: p[k] == d[from + k]
  {
    seq(n, k requires 0 <= k < n => if from + k < |d| then d[from + k] else 0)
  }

  lemma PrefixOrCut(d: seq<Byte>, from: nat, n: nat)
    requires from <= |d|
    ensures d[..from] <= d
    ensures var s := d[..from] + Padded(d, from, n); s <= d || d <= s
  {
    var p := Padded(d, from, n);
    hide Padded;
    if from + n <= |d| {
      assert d[from..from + n] == p;
      assert d[..from + n] == d[..from] + p;
    } else {
      assert d[from..] == p[..|d| - from];
      assert d == (d[..from] + p)[..|d|];
    }
  }

  /** What a successful reading says about the tag, and about the varint after it. */
  lemma ItemFacts(d: seq<Byte>) returns (t: nat, n: nat)
    requires ReadItem(d).Ok?
    ensures var item := ReadItem(d).value;
            t + n <= |d| && IsTag(d[..t], item.wireType) && item.wireType <= 5
            && (item.wireType == 0 ==> IsVarint(d[t..][..n]) && item.size == t + n)
            && (item.wireType == 2 ==> IsVarint(d[t..][..n]) && item.size == t + n + Decoded(d[t..][..n]))
            && (item.wireType == 1 ==> item.size == t + 8)
            && (item.wireType == 5 ==> item.size == t + 4)
            && (item.wireType in {3, 4} ==> item.size == t)
  {
    hide ReadVarint, IsVarint, Decoded, ToInt;
    TagTaken(d);
    t, n := ReadVarint(d).value.size, 0;
    if ReadItem(d).value.wireType in {0, 2} {
      TagTaken(d[t..]);
      n := ReadVarint(d[t..]).value.size;
    }
  }

  /** What the loop reads is a field: all of it is there, or its header is and the rest is cut short. */
  lemma FieldOfItem(d: seq<Byte>) returns (f: Field)
    requires ReadItem(d).Ok?
    requires ReadItem(d).value.wireType !in {3, 4}
    ensures ValidField(f) && !f.GroupField? && WireType(f) == ReadItem(d).value.wireType
    ensures |FieldBytes(f)| == ReadItem(d).value.size
    ensures Header(f) <= d && (FieldBytes(f) <= d || d <= FieldBytes(f))
  {
    hide ReadItem, IsVarint, Decoded, IsTag, FieldsBytes, ValidFields, Padded, FieldBytes;
    var item := ReadItem(d).value;
    var t, n := ItemFacts(d);
    var tag := d[..t];
    if item.wireType == 0 {
      f := VarintField(tag, d[t..][..n]);
      LiesOn(d, f, t + n, 0);
    } else if item.wireType == 1 {
      f := Fixed64Field(tag, Padded(d, t, 8));
      LiesOn(d, f, t, 8);
    } else if item.wireType == 2 {
      f := BytesField(tag, d[t..][..n], Padded(d, t + n, item.size - t - n));
      LiesOn(d, f, t + n, item.size - t - n);
    } else {
      f := Fixed32Field(tag, Padded(d, t, 4));
      LiesOn(d, f, t, 4);
    }
  }

  lemma LiesOn(d: seq<Byte>, f: Field, h: nat, n: nat)
    requires h <= |d| && Tail(f) == Padded(d, h, n)
    requires |f.tag| <= h
    requires Header(f) == d[..|f.tag|] + d[|f.tag|..][..h - |f.tag|]
    ensures |FieldBytes(f)| == h + n
    ensures Header(f) <= d && (FieldBytes(f) <= d || d <= FieldBytes(f))
  {
    FieldParts(f);
    hide *;
    TakeSum(d, |f.tag|, h - |f.tag|);
    PrefixOrCut(d, h, n);
    PaddedLength(d, h, n);
  }

  lemma FieldParts(f: Field)
    ensures FieldBytes(f) == Header(f) + Tail(f)
  {
  }

  lemma PaddedLength(d: seq<Byte>, from: nat, n: nat)
    requires from <= |d|
    ensures |Padded(d, from, n)| == n
  {
  }

  // ----- completeness: fields are skipped whole

  /** One turn of the loop, given what it reads. */
  lemma Step(d: seq<Byte>, item: Item, base: nat, depth: nat)
    requires d != [] && ReadItem(d) == Ok(item) && base + item.size <= MAX_INT && item.size <= |d|
    requires item.wireType == 4 ==> depth > 0
    ensures SkipFrom(d, base, depth)
         == if item.wireType == 4 && depth == 1 then Ok(base + item.size)
            else if item.wireType == 4 then SkipFrom(d[item.size..], base + item.size, depth - 1)
            else if item.wireType == 3 then SkipFrom(d[item.size..], base + item.size, depth + 1)
            else if depth == 0 then Ok(base + item.size)
            else SkipFrom(d[item.size..], base + item.size, depth)
  {
    hide ReadItem;
  }

  lemma {:induction false} SkipField(f: Field, x: seq<Byte>, base: nat, depth: nat)
    requires ValidField(f) && base + |FieldBytes(f)| <= MAX_INT
    ensures SkipFrom(FieldBytes(f) + x, base, depth)
         == if depth == 0 then Ok(base + |FieldBytes(f)|) else SkipFrom(x, base + |FieldBytes(f)|, depth)
    decreases f, 1
  {
    hide *;
    if f.GroupField? {
      SkipGroup(f, x, base, depth);
    } else {
      ItemOfField(f, x);
      ValidNotEmpty(f);
      Step(FieldBytes(f) + x, Item(WireType(f), |FieldBytes(f)|), base, depth);
      Parts(FieldBytes(f), x);
    }
  }

  lemma {:induction false} SkipGroup(f: Field, x: seq<Byte>, base: nat, depth: nat)
    requires ValidField(f) && base + |FieldBytes(f)| <= MAX_INT && f.GroupField?
    ensures SkipFrom(FieldBytes(f) + x, base, depth)
         == if depth == 0 then Ok(base + |FieldBytes(f)|) else SkipFrom(x, base + |FieldBytes(f)|, depth)
    decreases f, 0
  {
    hide ReadItem, ReadVarint, IsVarint, Decoded, SkipFrom, FieldsBytes, ValidFields;
    var inner := FieldsBytes(f.body) + (f.end + x);
    var d := f.tag + inner;
    assert FieldBytes(f) + x == d;
    ItemOfHeader(f, inner);
    Step(d, Item(3, |f.tag|), base, depth);
    assert d[|f.tag|..] == inner;
    SkipFields(f.body, f.end + x, base + |f.tag|, depth + 1);
    EndGroup(f.end, x, base + |f.tag| + |FieldsBytes(f.body)|, depth);
  }

  lemma ItemOfEnd(end: seq<Byte>, x: seq<Byte>)
    requires IsTag(end, 4)
    ensures ReadItem(end + x) == Ok(Item(4, |end|)) && end != []
  {
    TagRead(end, 4, x);
    hide ReadVarint, Decoded;
  }

  lemma EndGroup(end: seq<Byte>, x: seq<Byte>, base: nat, depth: nat)
    requires IsTag(end, 4) && base + |end| <= MAX_INT
    ensures SkipFrom(end + x, base, depth + 1)
         == if depth == 0 then Ok(base + |end|) else SkipFrom(x, base + |end|, depth)
  {
    hide *;
    ItemOfEnd(end, x);
    Step(end + x, Item(4, |end|), base, depth + 1);
    Parts(end, x);
  }

  lemma {:induction false} SkipFields(fs: seq<Field>, x: seq<Byte>, base: nat, depth: nat)
    requires ValidFields(fs) && base + |FieldsBytes(fs)| <= MAX_INT && depth > 0
    ensures SkipFrom(FieldsBytes(fs) + x, base, depth) == SkipFrom(x, base + |FieldsBytes(fs)|, depth)
    decreases fs, 0
  {
    hide SkipFrom, FieldBytes, ValidField;
    if fs == [] {
      assert [] + x == x;
    } else {
      var rest := FieldsBytes(fs[1..]) + x;
      assert FieldsBytes(fs) + x == FieldBytes(fs[0]) + rest;
      SkipField(fs[0], rest, base, depth);
      SkipFields(fs[1..], x, base + |FieldBytes(fs[0])|, depth);
    }
  }

  // ----- soundness: what is skipped is a field

  /** With `depth + 1` groups open, success means: fields, an end tag, and success with `depth` open after it. */
  lemma {:induction false} OpenGroup(d: seq<Byte>, base: nat, depth: nat)
    returns (body: seq<Field>, end: seq<Byte>, size: nat)
    requires SkipFrom(d, base, depth + 1).Ok?
    ensures ValidFields(body) && IsTag(end, 4)
    ensures size <= |d| && d[..size] == FieldsBytes(body) + end
    ensures SkipFrom(d, base, depth + 1)
         == if depth == 0 then Ok(base + size) else SkipFrom(d[size..], base + size, depth)
    decreases |d|
  {
    hide *;
    StepOk(d, base, depth + 1);
    var item := ReadItem(d).value;
    var n := item.size;
    if item.wireType == 4 {
      TagOfItem(d);
      body, end, size := [], d[..n], n;
      NoFields(end);
    } else if item.wireType == 3 {
      TagOfItem(d);
      var body1, end1, size1 := OpenGroup(d[n..], base + n, depth + 1);
      var rest := d[n..][size1..];
      var body2, end2, size2 := OpenGroup(rest, base + n + size1, depth);
      body, end, size := [GroupField(d[..n], body1, end1)] + body2, end2, n + size1 + size2;
      GroupThenFields(d, n, body1, end1, size1, body2, end2, size2);
    } else {
      var f := FieldOfItem(d);
      var body1, end1, size1 := OpenGroup(d[n..], base + n, depth);
      body, end, size := [f] + body1, end1, n + size1;
      FieldThenFields(d, f, body1, end1, size1);
    }
  }

  /** One turn of the loop inside a group, when the whole loop succeeds. */
  lemma StepOk(d: seq<Byte>, base: nat, depth: nat)
    requires depth > 0 && SkipFrom(d, base, depth).Ok?
    ensures ReadItem(d).Ok?
    ensures var item := ReadItem(d).value;
            1 <= item.size <= |d| && base + item.size <= MAX_INT
            && SkipFrom(d, base, depth)
            == if item.wireType == 4 && depth == 1 then Ok(base + item.size)
               else if item.wireType == 4 then SkipFrom(d[item.size..], base + item.size, depth - 1)
               else if item.wireType == 3 then SkipFrom(d[item.size..], base + item.size, depth + 1)
               else SkipFrom(d[item.size..], base + item.size, depth)
  {
    if ReadItem(d).Ok? && ReadItem(d).value.wireType in {3, 4} { TagOfItem(d); }
    hide ReadItem;
  }

  lemma NoFields(end: seq<Byte>)
    ensures ValidFields([]) && FieldsBytes([]) + end == end
  {
  }

  lemma FieldThenFields(d: seq<Byte>, f: Field, body: seq<Field>, end: seq<Byte>, size: nat)
    requires ValidField(f) && ValidFields(body) && FieldBytes(f) <= d
    requires |FieldBytes(f)| + size <= |d| && d[|FieldBytes(f)|..][..size] == FieldsBytes(body) + end
    ensures ValidFields([f] + body)
    ensures d[..|FieldBytes(f)| + size] == FieldsBytes([f] + body) + end
    ensures d[|FieldBytes(f)|..][size..] == d[|FieldBytes(f)| + size..]
  {
    hide ValidField, FieldBytes;
    var n := |FieldBytes(f)|;
    assert ([f] + body)[1..] == body;
    assert d[..n + size] == d[..n] + d[n..][..size];
  }

  lemma GroupThenFields(d: seq<Byte>, n: nat, body1: seq<Field>, end1: seq<Byte>, size1: nat,
                        body2: seq<Field>, end2: seq<Byte>, size2: nat)
    requires n + size1 + size2 <= |d|
    requires IsTag(d[..n], 3) && ValidFields(body1) && IsTag(end1, 4) && ValidFields(body2)
    requires d[n..][..size1] == FieldsBytes(body1) + end1
    requires d[n..][size1..][..size2] == FieldsBytes(body2) + end2
    ensures var body := [GroupField(d[..n], body1, end1)] + body2;
            ValidFields(body) && d[..n + size1 + size2] == FieldsBytes(body) + end2
    ensures d[n..][size1..][size2..] == d[n + size1 + size2..]
  {
    hide IsTag;
    var group := GroupField(d[..n], body1, end1);
    assert FieldBytes(group) == d[..n] + d[n..][..size1] == d[..n + size1];
    assert ValidField(group);
    assert d[n..][size1..] == d[n + size1..];
    FieldThenFields(d, group, body2, end2, size2);
  }

  lemma TagOfItem(d: seq<Byte>)
    requires ReadItem(d).Ok?
    requires ReadItem(d).value.wireType in {3, 4}
    ensures ReadItem(d).value.size <= |d|
    ensures IsTag(d[..ReadItem(d).value.size], ReadItem(d).value.wireType)
  {
    var t, n := ItemFacts(d);
  }

  /** `d` holds the header of a fixed-size or length-delimited field of `n` bytes, and is cut short after it. */
  ghost predicate IsCutField(d: seq<Byte>, n: nat) {
    exists f :: ValidField(f) && !f.GroupField? && Header(f) <= d && d <= FieldBytes(f) && |FieldBytes(f)| == n
  }

  /**
   The skipper refines the grammar: it returns `n` within the input exactly when the first `n` bytes are one
   well-formed field, and `n` past the end exactly when a top-level field with a size of its own is cut short.
   */
  lemma SkipExact(d: seq<Byte>, n: nat)
    requires |d| <= MAX_INT
    ensures Skipped(d) == Ok(n) && n <= |d| <==> n <= |d| && IsField(d[..n])
    ensures Skipped(d) == Ok(n) && n > |d| <==> |d| < n <= MAX_INT && IsCutField(d, n)
  {
    if Skipped(d) == Ok(n) { SkipSound(d, n); }
    if n <= |d| && IsField(d[..n]) { SkipComplete(d, n); }
    if |d| < n <= MAX_INT && IsCutField(d, n) { SkipCut(d, n); }
    hide *;
  }

  lemma SkipComplete(d: seq<Byte>, n: nat)
    requires n <= |d| <= MAX_INT && IsField(d[..n])
    ensures Skipped(d) == Ok(n)
  {
    hide *;
    var f := FieldOf(d[..n]);
    SkipField(f, d[n..], 0, 0);
    SplitAt(d, n);
    SkippedIs(d);
  }

  lemma FieldOf(s: seq<Byte>) returns (f: Field)
    requires IsField(s)
    ensures ValidField(f) && FieldBytes(f) == s
  {
    hide ValidField, FieldBytes;
    f :| ValidField(f) && FieldBytes(f) == s;
  }

  lemma SkippedIs(d: seq<Byte>)
    ensures Skipped(d) == SkipFrom(d, 0, 0)
  {
  }

  lemma SkipCut(d: seq<Byte>, n: nat)
    requires |d| < n <= MAX_INT && IsCutField(d, n)
    ensures Skipped(d) == Ok(n)
  {
    hide ValidField, FieldBytes, Header, ReadItem, Skipped, WireType;
    var f :| ValidField(f) && !f.GroupField? && Header(f) <= d && d <= FieldBytes(f) && |FieldBytes(f)| == n;
    var rest := d[|Header(f)|..];
    ItemOfHeader(f, rest);
    assert d == Header(f) + rest;
    ValidNotEmpty(f);
    TopItem(d, Item(WireType(f), n));
  }

  lemma TopItem(d: seq<Byte>, item: Item)
    requires d != [] && ReadItem(d) == Ok(item) && item.wireType in {0, 1, 2, 5} && item.size <= MAX_INT
    ensures Skipped(d) == Ok(item.size)
  {
    hide ReadItem;
  }

  lemma ValidNotEmpty(f: Field)
    requires ValidField(f)
    ensures Header(f) != [] && FieldBytes(f) != []
    ensures f.GroupField? || WireType(f) in {0, 1, 2, 5}
  {
  }

  lemma SkipSound(d: seq<Byte>, n: nat)
    requires |d| <= MAX_INT && Skipped(d) == Ok(n)
    ensures if n <= |d| then IsField(d[..n]) else n <= MAX_INT && IsCutField(d, n)
  {
    hide *;
    StepTop(d);
    var item := ReadItem(d).value;
    var k := item.size;
    if item.wireType == 3 {
      TagOfItem(d);
      var body, end, size := OpenGroup(d[k..], k, 0);
      GroupIsField(d, k, body, end, size);
    } else {
      var f := FieldOfItem(d);
      FieldIsIt(d, f);
    }
  }

  lemma StepTop(d: seq<Byte>)
    requires |d| <= MAX_INT && Skipped(d).Ok?
    ensures ReadItem(d).Ok? && Skipped(d).value <= MAX_INT
    ensures var item := ReadItem(d).value;
            item.wireType != 4
            && (item.wireType == 3 ==> item.size <= |d| && Skipped(d) == SkipFrom(d[item.size..], item.size, 1))
            && (item.wireType != 3 ==> Skipped(d) == Ok(item.size))
  {
    if ReadItem(d).Ok? && ReadItem(d).value.wireType in {3, 4} { TagOfItem(d); }
    hide ReadItem;
  }

  lemma GroupIsField(d: seq<Byte>, k: nat, body: seq<Field>, end: seq<Byte>, size: nat)
    requires k + size <= |d| && IsTag(d[..k], 3) && ValidFields(body) && IsTag(end, 4)
    requires d[k..][..size] == FieldsBytes(body) + end
    ensures IsField(d[..k + size])
  {
    var group := GroupField(d[..k], body, end);
    assert ValidField(group);
    assert FieldBytes(group) == d[..k] + d[k..][..size];
    hide ValidField, FieldBytes;
    TakeSum(d, k, size);
  }

  lemma FieldIsIt(d: seq<Byte>, f: Field)
    requires ValidField(f) && !f.GroupField? && Header(f) <= d && (FieldBytes(f) <= d || d <= FieldBytes(f))
    ensures var n := |FieldBytes(f)|; if n <= |d| then IsField(d[..n]) else IsCutField(d, n)
  {
    hide ValidField, FieldBytes, Header;
    if |FieldBytes(f)| <= |d| { assert FieldBytes(f) == d[..|FieldBytes(f)|]; }
  }

  /** No field is a proper prefix of another: the `n` of `SkipExact` is the only one. */
  lemma FieldPrefixFree(d: seq<Byte>, m: nat, n: nat)
    requires m <= |d| && n <= |d| <= MAX_INT && IsField(d[..m]) && IsField(d[..n])
    ensures m == n
  {
    SkipExact(d, m);
    SkipExact(d, n);
  }
}
