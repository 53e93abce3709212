/** What `Marshal` writes, `Unmarshal` reads back; and re-encoding an accepted input does not make it longer. */
module RoundTrip {
  import opened GoMachine
  import opened Results
  import opened Sequences
  import opened Varint
  import opened Grammar
  import opened Parser
  import opened MessageGrammar
  import opened Canonical
  import opened Laws

  lemma OneByteTag(b: Byte, number: nat)
    requires b == 8 * number + 2 < 128
    ensures IsTag([b], 2) && FieldNumber(Decoded([b])) == number
  {
    assert [b][1..] == [] && Value([b]) == b;
    HighRunUnique([b], 0);
  }

  lemma TextFieldFits(s: Schema, text: Bytes)
    requires KindOf(s, 1) == Text
    ensures Conforms(s, TextField(text)) && TextAfter(s, TextField(text), []) == text
    ensures KindOf(s, Number(TextField(text))) == Text
  {
    OneByteTag(TEXT_TAG, 1);
    EncodeRead(|text|, []);
    hide IsTag, IsVarint, Decoded, FieldNumber, Encode, KindOf;
  }

  lemma NestedFieldFits(s: Schema, tag: Byte, number: nat)
    requires tag == 8 * number + 2 < 128 && number > 0 && KindOf(s, number) == Nested
    ensures Conforms(s, NestedField(tag)) && KindOf(s, Number(NestedField(tag))) == Nested
  {
    OneByteTag(tag, number);
    EncodeRead(0, []);
    EmptyParams();
    hide IsTag, IsVarint, Decoded, FieldNumber, Encode, KindOf, IsParams;
  }

  lemma EmptyParams()
    ensures IsParams([])
  {
    assert AllWellNumbered([]) && FieldsBytes([]) == [];
  }

  predicate HasText(s: Schema) {
    s == UpdateParamsSchema || s == ModuleSchema
  }

  lemma LastTextOne(s: Schema, f: Field, before: seq<Byte>)
    ensures LastText(s, [f], before) == TextAfter(s, f, before)
  {
    hide TextAfter;
    assert [f][1..] == [];
  }

  lemma {:induction false} LastTextAppend(s: Schema, a: seq<Field>, b: seq<Field>, before: seq<Byte>)
    ensures LastText(s, a + b, before) == LastText(s, b, LastText(s, a, before))
  {
    hide TextAfter;
    if a == [] {
      assert a + b == b;
    } else {
      LastTextAppend(s, a[1..], b, TextAfter(s, a[0], before));
      assert (a + b)[1..] == a[1..] + b;
    }
  }

  lemma TextPartFits(s: Schema, text: Bytes, before: seq<Byte>)
    requires KindOf(s, 1) == Text
    ensures AllConform(s, TextPart(text))
    ensures LastText(s, TextPart(text), before) == if text == [] then before else text
  {
    hide Conforms, TextField, LastText, KindOf, Number;
    if text == [] {
      EmptyLastText(s, before);
    } else {
      TextFieldFits(s, text);
      LastTextOne(s, TextField(text), before);
      TextFieldText(text);
    }
  }

  lemma TextFieldText(text: Bytes)
    ensures TextField(text).BytesField? && TextField(text).payload == text
  {
  }

  lemma EmptyLastText(s: Schema, before: seq<Byte>)
    ensures LastText(s, [], before) == before
  {
  }

  lemma NestedPartFits(s: Schema, tag: Byte, number: nat, before: seq<Byte>)
    requires tag == 8 * number + 2 < 128 && number > 0 && KindOf(s, number) == Nested
    ensures AllConform(s, [NestedField(tag)])
    ensures LastText(s, [NestedField(tag)], before) == before
  {
    hide Conforms, NestedField, LastText, KindOf, Number;
    NestedFieldFits(s, tag, number);
    LastTextOne(s, NestedField(tag), before);
  }

  /** The canonical fields fit, and leave their text behind if there is one. */
  lemma CanonicalFits(s: Schema, text: Bytes, before: seq<Byte>)
    ensures AllConform(s, CanonicalFields(s, text))
    ensures LastText(s, CanonicalFields(s, text), before) == if HasText(s) && text != [] then text else before
  {
    hide Conforms, NestedField, LastText, Number, TextPart;
    match s
    case UpdateParamsSchema =>
      TextPartFits(s, text, before);
      NestedPartFits(s, NESTED_SECOND_TAG, 2, LastText(s, TextPart(text), before));
      LastTextAppend(s, TextPart(text), [NestedField(NESTED_SECOND_TAG)], before);
    case ModuleSchema => TextPartFits(s, text, before);
    case GenesisSchema => NestedPartFits(s, NESTED_FIRST_TAG, 1, before);
    case ParamsSchema => EmptyLastText(s, before);
  }

  /**
   Round trip, into any message: the written text replaces the one there, an empty one is not written and
   leaves it. Into a fresh message this is the message that was written.
   */
  lemma DecodeEncoding(s: Schema, text: Bytes, before: seq<Byte>)
    requires |Encoding(s, text)| <= MAX_INT
    ensures Unmarshalled(s, before, Encoding(s, text))
         == Outcome(if HasText(s) && text != [] then text else before, None)
  {
    CanonicalFits(s, text, before);
    hide Unmarshalled, CanonicalFields, LastText, Conforms, FieldsBytes, HasText;
    UnmarshalExact(s, before, Encoding(s, text), LastText(s, CanonicalFields(s, text), before));
  }

  /** Different authorities are written differently. */
  lemma EncodingInjective(s: Schema, x: Bytes, y: Bytes)
    requires HasText(s) && |Encoding(s, x)| <= MAX_INT && Encoding(s, x) == Encoding(s, y)
    ensures x == y
  {
    hide Encoding, Unmarshalled;
    DecodeEncoding(s, x, []);
    DecodeEncoding(s, y, []);
  }

  // ----- re-encoding

  /** A text field takes at least the bytes the canonical one takes. */
  lemma TextFieldSize(s: Schema, f: Field)
    requires Conforms(s, f) && KindOf(s, Number(f)) == Text
    ensures |FieldBytes(f)| >= 1 + Sov(|f.payload|) + |f.payload|
  {
    hide IsVarint, Decoded, Number, KindOf, FieldBytes, Header, Sov, IsParams;
    BytesSize(f);
    TagNotEmpty(f.tag);
    EncodeMinimal(f.length);
  }

  lemma TagNotEmpty(t: seq<Byte>)
    requires IsVarint(t)
    ensures |t| >= 1
  {
  }

  /** The last text of some fields takes no more room, written canonically, than the fields do. */
  lemma {:induction false} LastTextSize(s: Schema, fs: seq<Field>, before: seq<Byte>)
    requires AllConform(s, fs) && |FieldsBytes(fs)| <= MAX_INT
    ensures var text := LastText(s, fs, before);
            text == before || (|text| <= MAX_INT && 1 + Sov(|text|) + |text| <= |FieldsBytes(fs)|)
  {
    hide FieldsBytes, FieldBytes, Conforms, Number, KindOf, Sov;
    FieldsBytesSplit(fs);
    if fs != [] {
      LastTextSize(s, fs[1..], TextAfter(s, fs[0], before));
      FitsBytes(s, fs[0]);
      if TextAfter(s, fs[0], before) != before { TextFieldSize(s, fs[0]); }
    }
  }

  lemma FitsBytes(s: Schema, f: Field)
    requires Conforms(s, f)
    ensures KindOf(s, Number(f)) == Text ==> f.BytesField?
  {
  }

  /**
   Re-encoding: what a fresh message decodes from `d` is written in at most `|d|` bytes, plus two for an embedded
   `Params`, and decodes to itself again. Without an embedded message the canonical form is the shortest there is.
   */
  lemma Reencode(s: Schema, d: seq<Byte>)
    requires |d| <= MAX_INT - 2 && Accepts(s, [], d)
    ensures var text := Unmarshalled(s, [], d).authority;
            && |text| <= MAX_INT
            && |Encoding(s, text)| <= |d| + (if s == UpdateParamsSchema || s == GenesisSchema then 2 else 0)
            && Unmarshalled(s, [], Encoding(s, text)) == Outcome(text, None)
  {
    hide Unmarshalled, FieldsBytes, LastText, Conforms, Encoding, Sov, KindOf, Number;
    var text := Unmarshalled(s, [], d).authority;
    UnmarshalExact(s, [], d, text);
    var fs :| AllConform(s, fs) && FieldsBytes(fs) == d && LastText(s, fs, []) == text;
    LastTextSize(s, fs, []);
    EncodingSize(text);
    if !HasText(s) { NoTextKept(s, fs); }
    DecodeEncoding(s, text, []);
  }

  lemma {:induction false} NoTextKept(s: Schema, fs: seq<Field>)
    requires !HasText(s)
    ensures LastText(s, fs, []) == []
  {
    hide Number;
    if fs != [] { NoTextKept(s, fs[1..]); }
  }

  /** The bound is met for every authority: an input that holds the text field alone. */
  lemma ReencodeTight(text: Bytes)
    requires |Encoding(UpdateParamsSchema, text)| <= MAX_INT
    ensures var d := Encoding(ModuleSchema, text);
            && Unmarshalled(UpdateParamsSchema, [], d) == Outcome(text, None)
            && |Encoding(UpdateParamsSchema, text)| == |d| + 2
  {
    hide Unmarshalled, LastText, Conforms, FieldsBytes, TextPart, Sov;
    EncodingSize(text);
    TextPartFits(UpdateParamsSchema, text, []);
    UnmarshalExact(UpdateParamsSchema, [], Encoding(ModuleSchema, text), text);
  }

  // ----- writing into a buffer larger than the message

  /**
   `b[:n]` is the encoding, whatever the buffer held, exactly when its capacity is the message's size or there is
   nothing to write.
   */
  lemma CapacityExact(encoding: seq<Byte>, capacity: nat)
    requires |encoding| <= capacity
    ensures encoding == [] || capacity == |encoding| <==>
            forall b: seq<Byte> | |b| == capacity :: Returned(b, encoding) == encoding
  {
    if encoding != [] && capacity > |encoding| {
      var other: Byte := if encoding[0] == 0 then 1 else 0;
      var b: seq<Byte> := seq(capacity, _ => other);
      assert Returned(b, encoding)[0] == other;
    }
  }
}
