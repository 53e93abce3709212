/**
 `Unmarshal` against the grammar: it accepts exactly the concatenations of well-formed fields that fit the
 message type, and keeps the last text field's payload.
 */
module MessageGrammar {
  import opened GoMachine
  import opened Results
  import opened Sequences
  import opened Varint
  import opened Grammar
  import opened Skipper
  import opened SkipGrammar
  import opened Parser

  /** The field number as the codec sees it, 32 bits of it. */
  function Number(f: Field): Int32 {
    FieldNumber(Decoded(f.tag))
  }

  predicate WellNumbered(f: Field) {
    ValidField(f) && Number(f) > 0
  }

  ghost predicate AllWellNumbered(fs: seq<Field>) {
    forall f | f in fs :: WellNumbered(f)
  }

  /** A payload `Params` is made of: any well-formed fields with positive numbers. */
  ghost predicate IsParams(payload: seq<Byte>) {
    exists gs :: AllWellNumbered(gs) && FieldsBytes(gs) == payload
  }

  /** A field that fits the message type: known numbers are length-delimited, and a nested payload is a `Params`. */
  ghost predicate Conforms(s: Schema, f: Field) {
    && WellNumbered(f)
    && (KindOf(s, Number(f)) != Unknown ==> f.BytesField?)
    && (KindOf(s, Number(f)) == Nested ==> IsParams(f.payload))
  }

  ghost predicate AllConform(s: Schema, fs: seq<Field>) {
    forall f | f in fs :: Conforms(s, f)
  }

  /** The authority once `f` has been read. */
  function TextAfter(s: Schema, f: Field, authority: seq<Byte>): seq<Byte> {
    if KindOf(s, Number(f)) == Text && f.BytesField? then f.payload else authority
  }

  /** The authority once all of `fs` have been read. */
  function LastText(s: Schema, fs: seq<Field>, authority: seq<Byte>): seq<Byte> {
    if fs == [] then authority else LastText(s, fs[1..], TextAfter(s, fs[0], authority))
  }

  /** `d` is the bytes of fields that fit `s`, and they turn `before` into `after`. */
  ghost predicate Reads(s: Schema, d: seq<Byte>, before: seq<Byte>, after: seq<Byte>) {
    exists fs :: AllConform(s, fs) && FieldsBytes(fs) == d && LastText(s, fs, before) == after
  }

  // ----- completeness

  lemma FieldTagRead(f: Field, x: seq<Byte>)
    requires ValidField(f)
    ensures ReadVarint(FieldBytes(f) + x) == Ok(Read(Decoded(f.tag), |f.tag|))
    ensures Decoded(f.tag) % 8 == WireType(f) != 4
    ensures f.BytesField? ==> IsVarint(f.length) && Decoded(f.length) == |f.payload|
    ensures f.BytesField? ==> |f.payload| <= |FieldBytes(f)|
    ensures f.BytesField? ==> (FieldBytes(f) + x)[|f.tag|..] == f.length + (f.payload + x)
  {
    hide ReadVarint, IsVarint, Decoded, ValidFields, FieldsBytes;
    assert IsVarint(f.tag);
    var rest := FieldBytes(f)[|f.tag|..];
    assert FieldBytes(f) == f.tag + rest;
    if f.BytesField? { assert rest == f.length + f.payload; }
    hide ValidField, FieldBytes;
    ReadPrefix(f.tag, rest + x);
    Assoc(f.tag, rest, x);
    Parts(f.tag, rest + x);
    if f.BytesField? { Assoc(f.length, f.payload, x); }
  }

  lemma LengthRead(n: seq<Byte>, x: seq<Byte>)
    requires IsVarint(n) && Decoded(n) <= MAX_INT
    ensures ReadLength(n + x) == Ok(Read(Decoded(n), |n|))
  {
    ReadPrefix(n, x);
    hide ReadVarint, IsVarint, Decoded;
  }

  /** A field that fits is the first record of any string that starts with it. */
  lemma RecordOfField(s: Schema, f: Field, x: seq<Byte>)
    requires WellNumbered(f) && |FieldBytes(f)| <= MAX_INT
    requires KindOf(s, Number(f)) != Unknown ==> f.BytesField?
    ensures var kind := KindOf(s, Number(f));
            FirstRecord(s, FieldBytes(f) + x)
            == Ok(Frame(kind, if kind == Unknown then 0 else |Header(f)|, |FieldBytes(f)|))
  {
    hide ReadVarint, IsVarint, Decoded, ValidField, FieldBytes, Header, FieldNumber, KindOf, ReadLength, SkipFrom;
    FieldTagRead(f, x);
    SkipField(f, x, 0, 0);
    if f.BytesField? {
      BytesSize(f);
      LengthRead(f.length, f.payload + x);
    }
  }

  lemma BytesSize(f: Field)
    requires f.BytesField?
    ensures |FieldBytes(f)| == |Header(f)| + |f.payload| && |Header(f)| == |f.tag| + |f.length|
  {
  }

  /** The payload of a length-delimited field, and what follows the field. */
  lemma FieldSlices(f: Field, x: seq<Byte>)
    requires ValidField(f)
    ensures FieldBytes(f) != []
    ensures (FieldBytes(f) + x)[|FieldBytes(f)|..] == x
    ensures f.BytesField? ==> |f.payload| <= |FieldBytes(f)|
    ensures f.BytesField? ==> (FieldBytes(f) + x)[|FieldBytes(f)| - |f.payload|..|FieldBytes(f)|] == f.payload
  {
    ValidNotEmpty(f);
    FieldParts(f);
    if f.BytesField? {
      assert Tail(f) == f.payload;
      hide *;
    }
    hide *;
  }

  /** Reading one field that fits, wherever the index is. */
  lemma {:induction false} ParseField(s: Schema, authority: seq<Byte>, f: Field, x: seq<Byte>, base: nat)
    requires Conforms(s, f) && base + |FieldBytes(f)| <= MAX_INT
    ensures Parse(s, authority, FieldBytes(f) + x, base)
         == Parse(s, TextAfter(s, f, authority), x, base + |FieldBytes(f)|)
    decreases |FieldBytes(f)|, 0, 0
  {
    hide FirstRecord, Parse, FieldBytes, Header, ValidField, Number, KindOf, IsParams;
    RecordOfField(s, f, x);
    FieldSlices(f, x);
    ParseUnfold(s, authority, FieldBytes(f) + x, base);
    if f.BytesField? {
      BytesSize(f);
      if KindOf(s, Number(f)) == Nested {
        ParamsAccepted(f.payload, |FieldBytes(f)|);
      }
    }
  }

  lemma {:induction false} ParamsAccepted(payload: seq<Byte>, size: nat)
    requires IsParams(payload) && |payload| < size && |payload| <= MAX_INT
    ensures Parse(ParamsSchema, [], payload, 0) == Outcome([], None)
    decreases |payload|, 2, 0
  {
    hide FieldsBytes, Parse, WellNumbered;
    var gs :| AllWellNumbered(gs) && FieldsBytes(gs) == payload;
    assert AllConform(ParamsSchema, gs);
    ParseFields(ParamsSchema, [], gs, [], 0);
    assert payload + [] == payload;
    NoText(gs);
    ParseEmpty(ParamsSchema, [], |payload|);
  }

  lemma {:induction false} NoText(gs: seq<Field>)
    ensures LastText(ParamsSchema, gs, []) == []
  {
    if gs != [] { NoText(gs[1..]); }
  }

  lemma ParseEmpty(s: Schema, authority: seq<Byte>, base: nat)
    ensures Parse(s, authority, [], base) == Outcome(authority, None)
  {
  }

  lemma FieldsBytesSplit(fs: seq<Field>)
    ensures FieldsBytes(fs) == if fs == [] then [] else FieldBytes(fs[0]) + FieldsBytes(fs[1..])
  {
    hide FieldBytes;
  }

  /** Reading a list of fields that fit leaves the rest to be read into the message they leave behind. */
  lemma {:induction false} ParseFields(s: Schema, authority: seq<Byte>, fs: seq<Field>, x: seq<Byte>, base: nat)
    requires AllConform(s, fs) && base + |FieldsBytes(fs)| <= MAX_INT
    ensures Parse(s, authority, FieldsBytes(fs) + x, base)
         == Parse(s, LastText(s, fs, authority), x, base + |FieldsBytes(fs)|)
    decreases |FieldsBytes(fs)|, 1, |fs|
  {
    hide Parse, FieldsBytes, FieldBytes, Conforms, TextAfter;
    FieldsBytesSplit(fs);
    if fs == [] {
      assert [] + x == x;
    } else {
      var f, rest := fs[0], fs[1..];
      Assoc(FieldBytes(f), FieldsBytes(rest), x);
      ParseField(s, authority, f, FieldsBytes(rest) + x, base);
      ParseFields(s, TextAfter(s, f, authority), rest, x, base + |FieldBytes(f)|);
    }
  }

  // ----- soundness

  /** An accepted first record is a field; a known one is length-delimited. */
  lemma FieldOfRecord(s: Schema, d: seq<Byte>) returns (f: Field)
    requires FirstRecord(s, d).Ok?
    requires FirstRecord(s, d).value.end <= |d| <= MAX_INT
    ensures var r := FirstRecord(s, d).value;
            FieldBytes(f) == d[..r.end] && WellNumbered(f) && KindOf(s, Number(f)) == r.kind
            && (r.kind != Unknown ==> f.BytesField? && f.payload == d[r.start..r.end])
  {
    hide FieldBytes, ValidField, KindOf, IsField, FieldNumber, Decoded, IsVarint, ReadLength, ReadVarint, Skipped;
    var r := FirstRecord(s, d).value;
    var tag := ReadVarint(d).value;
    if r.kind == Unknown {
      f := SkippedField(d, r.end);
    } else {
      f := DelimitedField(d, tag.size);
    }
  }

  /** What is skipped is a field with the tag that was read. */
  lemma SkippedField(d: seq<Byte>, n: nat) returns (f: Field)
    requires Skipped(d) == Ok(n) && n <= |d| <= MAX_INT
    ensures ValidField(f) && FieldBytes(f) == d[..n]
    ensures ReadVarint(d) == Ok(Read(Decoded(f.tag), |f.tag|))
  {
    hide Skipped, ValidField, FieldBytes, ReadVarint, Decoded;
    SkipExact(d, n);
    f :| ValidField(f) && FieldBytes(f) == d[..n];
    FieldTagRead(f, d[n..]);
    SplitAt(d, n);
  }

  lemma DelimitedField(d: seq<Byte>, t: nat) returns (f: Field)
    requires ReadVarint(d).Ok? && t == ReadVarint(d).value.size && ReadVarint(d).value.value % 8 == 2
    requires ReadLength(d[t..]).Ok?
    requires var n := ReadLength(d[t..]).value; t + n.size + n.value <= |d|
    ensures var n := ReadLength(d[t..]).value;
            f.BytesField? && ValidField(f) && FieldBytes(f) == d[..t + n.size + n.value]
            && f.payload == d[t + n.size..t + n.size + n.value] && Decoded(f.tag) == ReadVarint(d).value.value
  {
    hide ReadVarint, Decoded, IsVarint;
    TagTaken(d);
    TagTaken(d[t..]);
    var n := ReadLength(d[t..]).value;
    var h, end := t + n.size, t + n.size + n.value;
    f := BytesField(d[..t], d[t..][..n.size], d[h..end]);
    assert ValidField(f);
    FieldParts(f);
    hide *;
    TakeSum(d, t, n.size);
    TakeSum(d, h, n.value);
    SliceOfRest(d, h, 0, n.value);
  }

  /** What is accepted is a list of fields that fit, and the message is what they leave behind. */
  lemma {:induction false} ParseSound(s: Schema, authority: seq<Byte>, d: seq<Byte>, base: nat)
    requires |d| <= MAX_INT && Parse(s, authority, d, base).err == None
    ensures Reads(s, d, authority, Parse(s, authority, d, base).authority)
    decreases |d|
  {
    hide FirstRecord, FieldBytes, FieldsBytes, Number, ValidField, KindOf, WellNumbered, IsParams, Parse;
    if d == [] {
      ParseEmpty(s, authority, base);
      NoFieldsRead(s, authority);
    } else {
      ParseUnfold(s, authority, d, base);
      var r := FirstRecord(s, d).value;
      var f := FieldOfRecord(s, d);
      if r.kind == Nested {
        ParseSound(ParamsSchema, [], d[r.start..r.end], 0);
        ReadsParams(d[r.start..r.end]);
      }
      ParseSound(s, TextAfter(s, f, authority), d[r.end..], base + r.end);
      ReadsCons(s, f, d, r.end, authority, Parse(s, authority, d, base).authority);
    }
  }

  lemma NoFieldsRead(s: Schema, authority: seq<Byte>)
    ensures Reads(s, [], authority, authority)
  {
    assert AllConform(s, []) && FieldsBytes([]) == [] && LastText(s, [], authority) == authority;
  }

  lemma ReadsParams(payload: seq<Byte>)
    requires exists after :: Reads(ParamsSchema, payload, [], after)
    ensures IsParams(payload)
  {
    hide FieldsBytes, LastText, WellNumbered;
    var after :| Reads(ParamsSchema, payload, [], after);
    var fs :| AllConform(ParamsSchema, fs) && FieldsBytes(fs) == payload && LastText(ParamsSchema, fs, []) == after;
    assert AllWellNumbered(fs);
  }

  lemma ReadsCons(s: Schema, f: Field, d: seq<Byte>, n: nat, before: seq<Byte>, after: seq<Byte>)
    requires n <= |d| && Conforms(s, f) && FieldBytes(f) == d[..n]
    requires Reads(s, d[n..], TextAfter(s, f, before), after)
    ensures Reads(s, d, before, after)
  {
    hide FieldsBytes, FieldBytes, Conforms, TextAfter;
    var middle := TextAfter(s, f, before);
    var rest :| AllConform(s, rest) && FieldsBytes(rest) == d[n..] && LastText(s, rest, middle) == after;
    var fs := [f] + rest;
    FieldsBytesSplit(fs);
    assert fs[1..] == rest;
    SplitAt(d, n);
  }

  // ----- the main theorem

  /**
   `Unmarshal` succeeds and leaves `after` in the message exactly when the input is well-formed fields that fit
   the message type, the last text among them (or, with none, what was there before) being `after`.
   */
  lemma UnmarshalExact(s: Schema, before: seq<Byte>, d: seq<Byte>, after: seq<Byte>)
    requires |d| <= MAX_INT
    ensures Unmarshalled(s, before, d) == Outcome(after, None) <==> Reads(s, d, before, after)
  {
    hide FieldsBytes, LastText, Conforms, Parse;
    if Unmarshalled(s, before, d) == Outcome(after, None) {
      ParseSound(s, before, d, 0);
    }
    if Reads(s, d, before, after) {
      var fs :| AllConform(s, fs) && FieldsBytes(fs) == d && LastText(s, fs, before) == after;
      ParseFields(s, before, fs, [], 0);
      assert d + [] == d;
      ParseEmpty(s, after, |d|);
    }
  }

  /** The last text field wins: later ones replace earlier ones, and other fields leave it alone. */
  lemma {:induction false} LastOneWins(s: Schema, fs: seq<Field>, authority: seq<Byte>, i: nat)
    requires i < |fs| && fs[i].BytesField? && KindOf(s, Number(fs[i])) == Text
    requires forall j | i < j < |fs| :: KindOf(s, Number(fs[j])) != Text
    ensures LastText(s, fs, authority) == fs[i].payload
  {
    hide Number, KindOf;
    if i == 0 {
      NoLaterText(s, fs[1..], fs[0].payload);
    } else {
      LastOneWins(s, fs[1..], TextAfter(s, fs[0], authority), i - 1);
    }
  }

  lemma {:induction false} NoLaterText(s: Schema, fs: seq<Field>, authority: seq<Byte>)
    requires forall j | 0 <= j < |fs| :: KindOf(s, Number(fs[j])) != Text
    ensures LastText(s, fs, authority) == authority
  {
    hide Number, KindOf;
    if fs != [] { NoLaterText(s, fs[1..], authority); }
  }
}
