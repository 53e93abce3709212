/**
 When and how `Unmarshal` fails: after fields that fit, at a record that cannot be read, with the error that
 record's bytes call for and the authority those fields left behind.
 */
module MessageFailures {
  import opened GoMachine
  import opened Results
  import opened Sequences
  import opened Varint
  import opened Grammar
  import opened Skipper
  import opened SkipGrammar
  import opened SkipFailures
  import opened Parser
  import opened MessageGrammar

  // ----- what makes a record unreadable

  /** The payload of a field the message definition has is no length-delimited one, or a `Params` that is refused. */
  ghost predicate BadKnown(embedded: bool, rest: seq<Byte>, at: nat, e: Error) {
    || BadDelimited(rest, at, true, e)
    || (embedded && exists n :: IsVarint(n) && n <= rest && BadEmbedded(n, rest[|n|..], e))
  }

  /** An embedded `Params` is all there and fails: its own error is returned. */
  predicate BadEmbedded(n: seq<Byte>, rest: seq<Byte>, e: Error) {
    !IsNegative(n) && Decoded(n) <= |rest| && Unmarshalled(ParamsSchema, [], rest[..Decoded(n)]).err == Some(e)
  }

  /** An unknown record cannot be skipped, or is cut short. */
  ghost predicate BadUnknown(x: seq<Byte>, at: nat, e: Error) {
    || CannotSkip(x, e)
    || exists n :: IsCutField(x, n) && CutClaim(x, n, at, e)
  }

  predicate CutClaim(x: seq<Byte>, n: nat, at: nat, e: Error) {
    |x| < n <= MAX_INT && e == if at + n > MAX_INT then InvalidLength else UnexpectedEOF
  }

  /** The tag `wire` has been read at the front of `x`, up to `rest`, which is at index `next`. */
  ghost predicate BadAfterTag(s: Schema, wire: Uint64, x: seq<Byte>, rest: seq<Byte>, at: nat, next: nat, e: Error) {
    var number := FieldNumber(wire);
    if wire % 8 == 4 then e == EndGroupForNonGroup
    else if number <= 0 then e == IllegalTag
    else if number !in TextNumbers(s) + MessageNumbers(s) then BadUnknown(x, at, e)
    else if wire % 8 != 2 then e == WrongWireType
    else BadKnown(number in MessageNumbers(s), rest, next, e)
  }

  /** No record of `s` can be read at `x`, which is at index `at`, and `e` says why. */
  ghost predicate BadRecord(s: Schema, x: seq<Byte>, at: nat, e: Error) {
    || NoVarint(x, e)
    || exists t :: IsVarint(t) && t <= x && BadAfterTag(s, Decoded(t), x, x[|t|..], at, at + |t|, e)
  }

  /** `d` is fields that fit and turn `before` into `after`, and then a record that is unreadable for `e`. */
  ghost predicate Fails(s: Schema, d: seq<Byte>, at: nat, before: seq<Byte>, after: seq<Byte>, e: Error) {
    exists fs, x :: FailsAfter(s, d, at, before, after, e, fs, x)
  }

  ghost predicate FailsAfter(s: Schema, d: seq<Byte>, at: nat, before: seq<Byte>, after: seq<Byte>, e: Error,
                             fs: seq<Field>, x: seq<Byte>)
  {
    && AllConform(s, fs) && x != [] && FieldsBytes(fs) + x == d && LastText(s, fs, before) == after
    && BadRecord(s, x, at + |FieldsBytes(fs)|, e)
  }

  // ----- one record

  /** Reading the first record ends the call with an error. */
  predicate FirstFails(s: Schema, x: seq<Byte>, at: nat, e: Error) {
    match FirstRecord(s, x)
    case Err(e') => e == e'
    case Ok(f) =>
      if at + f.end > MAX_INT then e == InvalidLength
      else if f.end > |x| then e == UnexpectedEOF
      else f.kind == Nested && Unmarshalled(ParamsSchema, [], x[f.start..f.end]).err == Some(e)
  }

  lemma FirstFailsParse(s: Schema, authority: seq<Byte>, x: seq<Byte>, at: nat, e: Error)
    requires x != [] && FirstFails(s, x, at, e)
    ensures Parse(s, authority, x, at) == Outcome(authority, Some(e))
  {
    hide FirstRecord, Parse;
    ParseUnfold(s, authority, x, at);
  }

  lemma UnknownFails(x: seq<Byte>, at: nat, e: Error)
    requires at + |x| <= MAX_INT
    ensures BadUnknown(x, at, e)
       <==> match Skipped(x)
            case Err(e') => e == e'
            case Ok(n) => if at + n > MAX_INT then e == InvalidLength else n > |x| && e == UnexpectedEOF
  {
    hide Skipped, CannotSkip, IsCutField, IsField;
    SkipFailsExact(x, e);
    forall n: nat
      ensures Skipped(x) == Ok(n) && n > |x| <==> |x| < n <= MAX_INT && IsCutField(x, n)
    {
      SkipExact(x, n);
    }
  }

  lemma KnownFails(embedded: bool, rest: seq<Byte>, at: nat, e: Error)
    requires at + |rest| <= MAX_INT
    ensures BadKnown(embedded, rest, at, e)
       <==> match ReadLength(rest)
            case Err(e') => e == e'
            case Ok(n) =>
              if at + n.size + n.value > MAX_INT then e == InvalidLength
              else if n.size + n.value > |rest| then e == UnexpectedEOF
              else embedded && Unmarshalled(ParamsSchema, [], rest[n.size..n.size + n.value]).err == Some(e)
  {
    hide Unmarshalled, ReadVarint, IsVarint, Decoded, IsNegative, BadDelimited, ToInt;
    DelimitedTurn(rest, at, true, e);
    forall n | IsVarint(n) && n <= rest
      ensures ReadVarint(rest) == Ok(Read(Decoded(n), |n|)) && (ToInt(Decoded(n)) < 0 <==> IsNegative(n))
    {
      VarintAtFront(rest, n);
      NegativeLengthExact(n);
    }
    if ReadVarint(rest).Ok? {
      TagTaken(rest);
      var r := ReadVarint(rest).value;
      var n := rest[..r.size];
      assert IsVarint(n) && n <= rest;
      if r.size + r.value <= |rest| { SliceOfRest(rest, r.size, 0, r.value); }
    }
  }

  lemma RecordNoTag(s: Schema, x: seq<Byte>, at: nat, e: Error)
    requires ReadVarint(x).Err?
    ensures BadRecord(s, x, at, e) <==> FirstFails(s, x, at, e)
  {
    hide ReadVarint, IsVarint, Decoded, BadAfterTag;
    NoVarintExact(x, e);
    if t :| IsVarint(t) && t <= x { VarintAtFront(x, t); }
  }

  lemma RecordTag(s: Schema, x: seq<Byte>, at: nat, e: Error)
    requires ReadVarint(x).Ok? && at + |x| <= MAX_INT
    ensures BadRecord(s, x, at, e) <==> FirstFails(s, x, at, e)
  {
    hide ReadVarint, IsVarint, Decoded, BadAfterTag, FirstFails, NoVarint;
    var tag := ReadVarint(x).value;
    NoVarintExact(x, e);
    TagTaken(x);
    forall t | IsVarint(t) && t <= x ensures t == x[..tag.size] { VarintAtFront(x, t); }
    assert x[..tag.size] <= x;
    AfterTagFails(s, x, at, e);
  }

  lemma AfterTagFails(s: Schema, x: seq<Byte>, at: nat, e: Error)
    requires ReadVarint(x).Ok? && at + |x| <= MAX_INT
    ensures var tag := ReadVarint(x).value;
            BadAfterTag(s, tag.value, x, x[tag.size..], at, at + tag.size, e) <==> FirstFails(s, x, at, e)
  {
    hide ReadVarint, BadUnknown, BadKnown, ReadLength, Skipped, FieldNumber, Unmarshalled, KindOf;
    hide TextNumbers, MessageNumbers;
    var tag := ReadVarint(x).value;
    var number, rest := FieldNumber(tag.value), x[tag.size..];
    KindOfExact(s, number);
    if tag.value % 8 == 4 || number <= 0 {
    } else if number !in TextNumbers(s) + MessageNumbers(s) {
      UnknownFails(x, at, e);
    } else if tag.value % 8 == 2 {
      KnownFails(number in MessageNumbers(s), rest, at + tag.size, e);
      if ReadLength(rest).Ok? && ReadLength(rest).value.size + ReadLength(rest).value.value <= |rest| {
        var n := ReadLength(rest).value;
        SliceOfRest(x, tag.size, n.size, n.size + n.value);
      }
    }
  }

  /** A record is unreadable exactly when reading it ends the call. */
  lemma RecordFails(s: Schema, x: seq<Byte>, at: nat, e: Error)
    requires at + |x| <= MAX_INT
    ensures BadRecord(s, x, at, e) <==> FirstFails(s, x, at, e)
  {
    hide BadRecord, FirstFails, ReadVarint;
    if ReadVarint(x).Err? {
      RecordNoTag(s, x, at, e);
    } else {
      RecordTag(s, x, at, e);
    }
  }

  // ----- whole inputs

  /** A call that fails has read fields that fit, and then met an unreadable record. */
  lemma {:induction false} FailureFound(s: Schema, before: seq<Byte>, d: seq<Byte>, at: nat, e: Error)
    requires at + |d| <= MAX_INT && Parse(s, before, d, at).err == Some(e)
    ensures Fails(s, d, at, before, Parse(s, before, d, at).authority, e)
    decreases |d|
  {
    hide FirstRecord, FirstFails, BadRecord, Parse, FieldBytes, FieldsBytes, WellNumbered, Number, KindOf;
    hide IsParams, LastText;
    if d == [] { ParseEmpty(s, before, at); }
    RecordFails(s, d, at, e);
    if FirstFails(s, d, at, e) {
      FirstFailsParse(s, before, d, at, e);
      FailsHere(s, d, at, before, e);
    } else {
      RecordPasses(s, before, d, at, e);
      var r := FirstRecord(s, d).value;
      var f := FieldOfRecord(s, d);
      if r.kind == Nested {
        ParseSound(ParamsSchema, [], d[r.start..r.end], 0);
        ReadsParams(d[r.start..r.end]);
      }
      FailureFound(s, TextAfter(s, f, before), d[r.end..], at + r.end, e);
      FailsLater(s, f, d, r.end, at, before, Parse(s, before, d, at).authority, e);
    }
  }

  lemma RecordPasses(s: Schema, before: seq<Byte>, d: seq<Byte>, at: nat, e: Error)
    requires d != [] && Parse(s, before, d, at).err == Some(e) && !FirstFails(s, d, at, e)
    ensures FirstRecord(s, d).Ok?
    ensures var r := FirstRecord(s, d).value;
            && r.end <= |d|
            && (r.kind == Nested ==> Parse(ParamsSchema, [], d[r.start..r.end], 0).err == None)
            && Parse(s, before, d, at)
            == Parse(s, if r.kind == Text then d[r.start..r.end] else before, d[r.end..], at + r.end)
  {
    hide FirstRecord, Parse;
    ParseUnfold(s, before, d, at);
  }

  lemma FailsHere(s: Schema, d: seq<Byte>, at: nat, before: seq<Byte>, e: Error)
    requires d != [] && BadRecord(s, d, at, e)
    ensures Fails(s, d, at, before, before, e)
  {
    hide BadRecord;
    assert [] + d == d;
    assert FailsAfter(s, d, at, before, before, e, [], d);
  }

  lemma FailsLater(s: Schema, f: Field, d: seq<Byte>, n: nat, at: nat, before: seq<Byte>, after: seq<Byte>, e: Error)
    requires n <= |d| && Conforms(s, f) && FieldBytes(f) == d[..n]
    requires Fails(s, d[n..], at + n, TextAfter(s, f, before), after, e)
    ensures Fails(s, d, at, before, after, e)
  {
    hide BadRecord, FieldsBytes, FieldBytes, Conforms, TextAfter;
    var rest, x :| FailsAfter(s, d[n..], at + n, TextAfter(s, f, before), after, e, rest, x);
    var fs := [f] + rest;
    FieldsBytesSplit(fs);
    assert fs[1..] == rest;
    SplitAt(d, n);
    Assoc(FieldBytes(f), FieldsBytes(rest), x);
    assert FailsAfter(s, d, at, before, after, e, fs, x);
  }

  /** After fields that fit, an unreadable record ends the call with its error. */
  lemma FieldsThenBad(s: Schema, before: seq<Byte>, fs: seq<Field>, x: seq<Byte>, e: Error)
    requires AllConform(s, fs) && x != [] && |FieldsBytes(fs)| + |x| <= MAX_INT
    requires BadRecord(s, x, |FieldsBytes(fs)|, e)
    ensures Unmarshalled(s, before, FieldsBytes(fs) + x) == Outcome(LastText(s, fs, before), Some(e))
  {
    hide FirstFails, BadRecord, Parse, FieldsBytes, LastText, Conforms;
    ParseFields(s, before, fs, x, 0);
    RecordFails(s, x, |FieldsBytes(fs)|, e);
    FirstFailsParse(s, LastText(s, fs, before), x, |FieldsBytes(fs)|, e);
  }

  /**
   `Unmarshal` fails with `e`, leaving `after` behind, exactly when the input is fields that fit and leave
   `after`, followed by a record that is unreadable for `e`.
   */
  lemma UnmarshalFailsExact(s: Schema, before: seq<Byte>, d: seq<Byte>, after: seq<Byte>, e: Error)
    requires |d| <= MAX_INT
    ensures Unmarshalled(s, before, d) == Outcome(after, Some(e)) <==> Fails(s, d, 0, before, after, e)
  {
    hide BadRecord, Parse, FieldsBytes, LastText, Conforms;
    if Unmarshalled(s, before, d) == Outcome(after, Some(e)) {
      FailureFound(s, before, d, 0, e);
    }
    if Fails(s, d, 0, before, after, e) {
      var fs, x :| FailsAfter(s, d, 0, before, after, e, fs, x);
      FieldsThenBad(s, before, fs, x, e);
    }
  }

  // ----- the errors one by one

  /** An unreadable record after any accepted input: its error, and the message that input left. */
  lemma AcceptedThenBad(s: Schema, before: seq<Byte>, a: seq<Byte>, x: seq<Byte>, e: Error)
    requires |a| + |x| <= MAX_INT && Accepts(s, before, a) && x != [] && BadRecord(s, x, |a|, e)
    ensures Unmarshalled(s, before, a + x) == Outcome(Unmarshalled(s, before, a).authority, Some(e))
  {
    hide BadRecord, Unmarshalled, FieldsBytes, LastText, Conforms;
    var middle := Unmarshalled(s, before, a).authority;
    UnmarshalExact(s, before, a, middle);
    var fs :| AllConform(s, fs) && FieldsBytes(fs) == a && LastText(s, fs, before) == middle;
    FieldsThenBad(s, before, fs, x, e);
  }

  /** A tag `t` after any accepted input, whatever follows: what is wrong with it decides the error, in this order. */
  lemma BadTag(s: Schema, before: seq<Byte>, a: seq<Byte>, t: seq<Byte>, x: seq<Byte>)
    requires |a| + |t| + |x| <= MAX_INT && Accepts(s, before, a) && IsVarint(t)
    ensures var wire, after := Decoded(t), Unmarshalled(s, before, a).authority;
            var outcome := Unmarshalled(s, before, a + (t + x));
            && (wire % 8 == 4 ==> outcome == Outcome(after, Some(EndGroupForNonGroup)))
            && (wire % 8 != 4 && FieldNumber(wire) <= 0 ==> outcome == Outcome(after, Some(IllegalTag)))
            && (wire % 8 !in {2, 4} && FieldNumber(wire) > 0
                && FieldNumber(wire) in TextNumbers(s) + MessageNumbers(s)
                ==> outcome == Outcome(after, Some(WrongWireType)))
  {
    hide Unmarshalled, Accepts, IsVarint, Decoded, FieldNumber, TextNumbers, MessageNumbers;
    hide BadKnown, BadUnknown, NoVarint;
    VarintNotEmpty(t);
    var r, wire := t + x, Decoded(t);
    Parts(t, x);
    assert t <= r;
    var e := if wire % 8 == 4 then EndGroupForNonGroup
             else if FieldNumber(wire) <= 0 then IllegalTag else WrongWireType;
    if wire % 8 == 4 || FieldNumber(wire) <= 0
       || (wire % 8 != 2 && FieldNumber(wire) in TextNumbers(s) + MessageNumbers(s)) {
      assert BadAfterTag(s, wire, r, r[|t|..], |a|, |a| + |t|, e);
      AcceptedThenBad(s, before, a, r, e);
    }
  }

  lemma VarintNotEmpty(t: seq<Byte>)
    requires IsVarint(t)
    ensures t != []
  {
  }

  /** The tag of a field the message definition has, with the wire type that goes with it. */
  predicate KnownTag(s: Schema, t: seq<Byte>) {
    var number := FieldNumber(Decoded(t));
    IsTag(t, 2) && number > 0 && number in TextNumbers(s) + MessageNumbers(s)
  }

  /** A length with bit 63 set after the tag of a known field: an invalid length, not an overflow. */
  lemma NegativeLength(s: Schema, before: seq<Byte>, a: seq<Byte>, t: seq<Byte>, n: seq<Byte>, x: seq<Byte>)
    requires |a| + |t| + |n| + |x| <= MAX_INT && Accepts(s, before, a)
    requires KnownTag(s, t) && IsVarint(n) && |n| == 10 && n[9] % 2 == 1
    ensures Unmarshalled(s, before, a + (t + (n + x)))
         == Outcome(Unmarshalled(s, before, a).authority, Some(InvalidLength))
  {
    hide Unmarshalled, Accepts, IsVarint, Decoded, FieldNumber, TextNumbers, MessageNumbers;
    hide BadEmbedded, NoVarint, BadClaim;
    VarintNotEmpty(t);
    var rest := n + x;
    var r := t + rest;
    Parts(t, rest);
    assert t <= r && n <= rest;
    assert BadLength(n, rest, |a| + |t|, true, InvalidLength);
    assert BadAfterTag(s, Decoded(t), r, rest, |a|, |a| + |t|, InvalidLength);
    AcceptedThenBad(s, before, a, r, InvalidLength);
  }

  /** An embedded `Params` that fails ends the call with its own error, and the message stays as it was. */
  lemma EmbeddedFails(s: Schema, before: seq<Byte>, a: seq<Byte>, t: seq<Byte>, n: seq<Byte>, p: seq<Byte>,
                      x: seq<Byte>)
    requires |a| + |t| + |n| + |p| + |x| <= MAX_INT && Accepts(s, before, a)
    requires KnownTag(s, t) && FieldNumber(Decoded(t)) in MessageNumbers(s)
    requires IsVarint(n) && Decoded(n) == |p| && !Accepts(ParamsSchema, [], p)
    ensures Unmarshalled(s, before, a + (t + (n + (p + x))))
         == Outcome(Unmarshalled(s, before, a).authority, Unmarshalled(ParamsSchema, [], p).err)
  {
    hide Unmarshalled, IsVarint, Decoded, FieldNumber, TextNumbers, MessageNumbers, NoVarint;
    hide IsNegative, BadDelimited;
    VarintNotEmpty(t);
    NegativeLengthExact(n);
    var e := Unmarshalled(ParamsSchema, [], p).err.value;
    var rest := n + (p + x);
    var r := t + rest;
    Parts(t, rest);
    Parts(n, p + x);
    Parts(p, x);
    assert t <= r && n <= rest;
    assert BadEmbedded(n, rest[|n|..], e);
    assert BadAfterTag(s, Decoded(t), r, rest, |a|, |a| + |t|, e);
    AcceptedThenBad(s, before, a, r, e);
  }
}
