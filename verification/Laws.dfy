/** Laws of `Unmarshal` over whole inputs: merging, unknown fields, truncation, and how message types compare. */
module Laws {
  import opened GoMachine
  import opened Results
  import opened Sequences
  import opened Varint
  import opened Grammar
  import opened Skipper
  import opened SkipGrammar
  import opened Parser
  import opened MessageGrammar

  // ----- what the starting index changes

  /**
   The index the records claim to reach, from the start of `d`: past `|d|` only if reading stops at a record
   that is cut short.
   */
  function Claimed(s: Schema, d: seq<Byte>): nat
    decreases |d|
  {
    if d == [] then 0
    else match FirstRecord(s, d)
      case Err(_) => 0
      case Ok(f) =>
        if f.end > |d| || (f.kind == Nested && Unmarshalled(ParamsSchema, [], d[f.start..f.end]).err.Some?) then f.end
        else f.end + Claimed(s, d[f.end..])
  }

  /** Reading the same bytes at two indices differs only where one addition wraps and the other does not. */
  lemma {:induction false} Position(s: Schema, authority: seq<Byte>, d: seq<Byte>, i: nat, j: nat)
    requires i + |d| <= MAX_INT && j + |d| <= MAX_INT
    ensures Parse(s, authority, d, i).authority == Parse(s, authority, d, j).authority
    ensures i + Claimed(s, d) <= MAX_INT && j + Claimed(s, d) <= MAX_INT ==>
              Parse(s, authority, d, i) == Parse(s, authority, d, j)
    ensures i + Claimed(s, d) > MAX_INT ==> Parse(s, authority, d, i).err == Some(InvalidLength)
    ensures i + Claimed(s, d) <= MAX_INT < j + Claimed(s, d) ==> Parse(s, authority, d, i).err == Some(UnexpectedEOF)
    decreases |d|
  {
    hide FirstRecord, Parse;
    if d == [] {
      ParseEmpty(s, authority, i);
      ParseEmpty(s, authority, j);
    } else {
      ParseUnfold(s, authority, d, i);
      ParseUnfold(s, authority, d, j);
      if FirstRecord(s, d).Ok? && FirstRecord(s, d).value.end <= |d| {
        var f := FirstRecord(s, d).value;
        var rest := d[f.end..];
        Position(s, authority, rest, i + f.end, j + f.end);
        Position(s, d[f.start..f.end], rest, i + f.end, j + f.end);
      }
    }
  }

  // ----- merging

  /**
   Reading `a + b` is reading `a` and then `b` into the same message: same message, and the same verdict. The
   error is the same one as well, except where the index a record of `b` claims to reach is an `int` counted
   from the start of `b` and no longer one counted from the start of `a`: then the input that ended too early
   is reported as an invalid length.
   */
  lemma Merge(s: Schema, authority: seq<Byte>, a: seq<Byte>, b: seq<Byte>)
    requires |a| + |b| <= MAX_INT && Accepts(s, authority, a)
    ensures var both := Unmarshalled(s, authority, a + b);
            var second := Unmarshalled(s, Unmarshalled(s, authority, a).authority, b);
            && both.authority == second.authority
            && (both.err == None <==> second.err == None)
            && (both.err == second.err <==> !(Claimed(s, b) <= MAX_INT < |a| + Claimed(s, b)))
            && (both.err != second.err ==> both.err == Some(InvalidLength) && second.err == Some(UnexpectedEOF))
  {
    hide FirstRecord, Parse, Claimed, FieldsBytes, LastText, Conforms;
    var middle := Unmarshalled(s, authority, a).authority;
    UnmarshalExact(s, authority, a, middle);
    var fs :| AllConform(s, fs) && FieldsBytes(fs) == a && LastText(s, fs, authority) == middle;
    ParseFields(s, authority, fs, b, 0);
    Position(s, middle, b, 0, |a|);
    Position(s, middle, b, |a|, 0);
  }

  /** A text record that claims to end at the last index there is. */
  function LongestClaim(): seq<Byte> {
    [0x0A] + Encode(MAX_INT - 10)
  }

  lemma LongestClaimRecord(s: Schema)
    requires 1 in TextNumbers(s)
    ensures |LongestClaim()| == 10 && FirstRecord(s, LongestClaim()) == Ok(Frame(Text, 10, MAX_INT))
  {
    KindOfExact(s, 1);
    var n: Uint64 := MAX_INT - 10;
    var tag: seq<Byte> := [0x0A];
    NineBytes(n);
    EncodeRead(n, []);
    assert Encode(n) + [] == Encode(n);
    LengthRead(Encode(n), []);
    SmallTag();
    ReadPrefix(tag, Encode(n));
    Parts(tag, Encode(n));
    hide Encode, ReadVarint, IsVarint, Decoded, ReadLength, Sov;
  }

  lemma SmallTag()
    ensures IsVarint([0x0A]) && Decoded([0x0A]) == 0x0A && FieldNumber(0x0A) == 1
  {
    var tag: seq<Byte> := [0x0A];
    assert tag[1..] == [];
    HighRunUnique(tag, 0);
  }

  lemma NineBytes(n: Uint64)
    requires n == MAX_INT - 10
    ensures |Encode(n)| == 9
  {
    EncodeLength(n, 9);
    EncodeLength(n, 8);
    Pow2Word();
    Pow2Add(7, 56);
    Pow2Small();
    hide Encode, Pow2;
  }

  /** The error kind does change: after any non-empty `a` there is an input for which it does. */
  lemma MergeErrorDiffers(s: Schema, authority: seq<Byte>, a: seq<Byte>)
    requires 1 in TextNumbers(s) && a != [] && |a| + 10 <= MAX_INT && Accepts(s, authority, a)
    ensures Unmarshalled(s, Unmarshalled(s, authority, a).authority, LongestClaim()).err == Some(UnexpectedEOF)
    ensures Unmarshalled(s, authority, a + LongestClaim()).err == Some(InvalidLength)
  {
    LongestClaimRecord(s);
    hide FirstRecord, Parse, Unmarshalled, LongestClaim;
    Merge(s, authority, a, LongestClaim());
  }

  // ----- unknown fields

  /** Well-formed fields with positive numbers that the message definition does not have. */
  ghost predicate AllUnknown(s: Schema, us: seq<Field>) {
    forall u | u in us :: WellNumbered(u) && Number(u) !in TextNumbers(s) + MessageNumbers(s)
  }

  lemma {:induction false} UnknownChangeNothing(s: Schema, us: seq<Field>, authority: seq<Byte>)
    requires AllUnknown(s, us)
    ensures AllConform(s, us) && LastText(s, us, authority) == authority
  {
    hide WellNumbered, KindOf, Number, TextNumbers, MessageNumbers;
    forall u | u in us ensures KindOf(s, Number(u)) == Unknown { KindOfExact(s, Number(u)); }
    if us != [] {
      assert us[0] in us && forall u | u in us[1..] :: u in us;
      UnknownChangeNothing(s, us[1..], authority);
    }
  }

  /**
   Forward compatibility: fields unknown to the message type, groups of any depth included, can be put in or
   taken out after any accepted prefix `a`, whatever follows. The message and the verdict do not change.
   */
  lemma ForwardCompatible(s: Schema, authority: seq<Byte>, a: seq<Byte>, us: seq<Field>, b: seq<Byte>)
    requires |a| + |FieldsBytes(us)| + |b| <= MAX_INT
    requires Accepts(s, authority, a) && AllUnknown(s, us)
    ensures var withUnknown := Unmarshalled(s, authority, a + FieldsBytes(us) + b);
            var without := Unmarshalled(s, authority, a + b);
            withUnknown.authority == without.authority && (withUnknown.err == None <==> without.err == None)
  {
    hide Unmarshalled, FieldsBytes, Claimed, AllUnknown;
    var u := FieldsBytes(us);
    var middle := Unmarshalled(s, authority, a).authority;
    UnknownChangeNothing(s, us, middle);
    UnmarshalExact(s, middle, u, middle);
    Merge(s, authority, a, u);
    Merge(s, authority, a + u, b);
    Merge(s, authority, a, b);
  }

  // ----- message types

  /** `t` knows no field that `s` does not treat the same way. */
  ghost predicate KnowsLess(t: Schema, s: Schema) {
    forall n: int :: KindOf(t, n) == Unknown || KindOf(t, n) == KindOf(s, n)
  }

  ghost predicate SameTexts(s: Schema, t: Schema) {
    forall n: int :: KindOf(s, n) == Text <==> KindOf(t, n) == Text
  }

  /** What a message type accepts, one that knows less accepts: skipping a field takes the bytes reading it does. */
  lemma KnowingLessAcceptsMore(s: Schema, t: Schema, authority: seq<Byte>, d: seq<Byte>)
    requires |d| <= MAX_INT && KnowsLess(t, s) && Accepts(s, authority, d)
    ensures Accepts(t, authority, d)
    ensures SameTexts(s, t) ==> Unmarshalled(t, authority, d) == Unmarshalled(s, authority, d)
  {
    hide KindOf, Unmarshalled, FieldsBytes, WellNumbered, Number, LastText;
    var after := Unmarshalled(s, authority, d).authority;
    UnmarshalExact(s, authority, d, after);
    var fs :| AllConform(s, fs) && FieldsBytes(fs) == d && LastText(s, fs, authority) == after;
    assert AllConform(t, fs);
    UnmarshalExact(t, authority, d, LastText(t, fs, authority));
    if SameTexts(s, t) { SameLastText(s, t, fs, authority); }
  }

  lemma {:induction false} SameLastText(s: Schema, t: Schema, fs: seq<Field>, authority: seq<Byte>)
    requires SameTexts(s, t)
    ensures LastText(s, fs, authority) == LastText(t, fs, authority)
  {
    hide KindOf, Number;
    if fs != [] { SameLastText(s, t, fs[1..], TextAfter(s, fs[0], authority)); }
  }

  /** Every `MsgUpdateParams` is a `Module` with the same authority, and every message is a `Params`. */
  lemma SchemaSubset(s: Schema, authority: seq<Byte>, d: seq<Byte>)
    requires |d| <= MAX_INT
    ensures Accepts(UpdateParamsSchema, authority, d) ==>
              Unmarshalled(ModuleSchema, authority, d) == Unmarshalled(UpdateParamsSchema, authority, d)
    ensures Accepts(s, authority, d) ==> Accepts(ParamsSchema, authority, d)
  {
    hide Unmarshalled;
    if Accepts(UpdateParamsSchema, authority, d) {
      KnowingLessAcceptsMore(UpdateParamsSchema, ModuleSchema, authority, d);
    }
    if Accepts(s, authority, d) { KnowingLessAcceptsMore(s, ParamsSchema, authority, d); }
  }

  // ----- errors that cannot happen

  lemma {:induction false} NoEndInsideGroup(d: seq<Byte>, base: nat, depth: nat)
    requires depth > 0
    ensures SkipFrom(d, base, depth) != Err(UnexpectedEndOfGroup)
    decreases |d|
  {
    ItemErrors(d);
    hide ReadItem;
    if d != [] && ReadItem(d).Ok? {
      var item := ReadItem(d).value;
      if item.size <= |d| && NewDepth(item.wireType, depth) > 0 {
        NoEndInsideGroup(d[item.size..], base + item.size, NewDepth(item.wireType, depth));
      }
    }
  }

  lemma ItemErrors(d: seq<Byte>)
    ensures ReadItem(d) != Err(UnexpectedEndOfGroup)
    ensures ReadItem(d).Ok? ==> ReadVarint(d).Ok? && ReadItem(d).value.wireType == ReadVarint(d).value.value % 8
  {
    hide ReadVarint, ToInt;
    VarintErrors(d);
    if ReadVarint(d).Ok? { VarintErrors(d[ReadVarint(d).value.size..]); }
  }

  lemma VarintErrors(d: seq<Byte>)
    ensures ReadVarint(d).Ok? || ReadVarint(d).error in {IntOverflow, UnexpectedEOF}
  {
  }

  /** The skipper's own end-of-group error needs an end tag at the front. */
  lemma EndOfGroupAtFront(d: seq<Byte>)
    requires Skipped(d) == Err(UnexpectedEndOfGroup)
    ensures ReadVarint(d).Ok? && ReadVarint(d).value.value % 8 == 4
  {
    hide ReadItem, ReadVarint;
    ItemErrors(d);
    if d != [] && ReadItem(d).Ok? {
      var item := ReadItem(d).value;
      if item.wireType == 3 && item.size <= |d| { NoEndInsideGroup(d[item.size..], item.size, 1); }
    }
  }

  /** `Unmarshal` never returns it: its own tag check has already turned such a record away. */
  lemma {:induction false} NoUnexpectedEndOfGroup(s: Schema, authority: seq<Byte>, d: seq<Byte>, base: nat)
    ensures Parse(s, authority, d, base).err != Some(UnexpectedEndOfGroup)
    decreases |d|
  {
    hide FirstRecord, Parse;
    if d == [] {
      ParseEmpty(s, authority, base);
    } else {
      ParseUnfold(s, authority, d, base);
      FirstRecordErrors(s, d);
      if FirstRecord(s, d).Ok? && FirstRecord(s, d).value.end <= |d| {
        var f := FirstRecord(s, d).value;
        NoUnexpectedEndOfGroup(s, authority, d[f.end..], base + f.end);
        NoUnexpectedEndOfGroup(s, d[f.start..f.end], d[f.end..], base + f.end);
        if f.kind == Nested { NoUnexpectedEndOfGroup(ParamsSchema, [], d[f.start..f.end], 0); }
      }
    }
  }

  lemma FirstRecordErrors(s: Schema, d: seq<Byte>)
    ensures FirstRecord(s, d) != Err(UnexpectedEndOfGroup)
  {
    hide ReadVarint, Skipped, FieldNumber, KindOf, ToInt;
    VarintErrors(d);
    if ReadVarint(d).Ok? { VarintErrors(d[ReadVarint(d).value.size..]); }
    if Skipped(d) == Err(UnexpectedEndOfGroup) { EndOfGroupAtFront(d); }
  }
}
