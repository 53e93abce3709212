/** What the generated serializers write: known fields in order, shortest varints, empty text omitted. */
module Canonical {
  import opened GoMachine
  import opened Varint
  import opened Grammar
  import opened Parser

  const TEXT_TAG: Byte := 0x0A
  const NESTED_FIRST_TAG: Byte := 0x0A
  const NESTED_SECOND_TAG: Byte := 0x12

  function TextField(text: Bytes): Field {
    BytesField([TEXT_TAG], Encode(|text|), text)
  }

  /** An embedded `Params`, which has nothing to write, so its length is zero. */
  function NestedField(tag: Byte): Field {
    BytesField([tag], Encode(0), [])
  }

  function TextPart(text: Bytes): seq<Field> {
    if text == [] then [] else [TextField(text)]
  }

  /** The fields a message with this authority is written as. */
  function CanonicalFields(s: Schema, authority: Bytes): seq<Field> {
    match s
    case UpdateParamsSchema => TextPart(authority) + [NestedField(NESTED_SECOND_TAG)]
    case ModuleSchema => TextPart(authority)
    case GenesisSchema => [NestedField(NESTED_FIRST_TAG)]
    case ParamsSchema => []
  }

  function Encoding(s: Schema, authority: Bytes): seq<Byte> {
    FieldsBytes(CanonicalFields(s, authority))
  }

  lemma NestedBytes(tag: Byte)
    ensures FieldBytes(NestedField(tag)) == [tag, 0]
  {
    assert Encode(0) == [0];
  }

  lemma TextBytes(text: Bytes)
    ensures FieldBytes(TextField(text)) == [0x0A] + Encode(|text|) + text
  {
    hide Encode;
  }

  lemma OneField(f: Field)
    ensures FieldsBytes([f]) == FieldBytes(f)
  {
    hide FieldBytes;
    assert [f][1..] == [] && FieldsBytes([]) == [];
  }

  lemma NoFields()
    ensures FieldsBytes([]) == []
  {
  }

  /** The encoding, byte by byte. */
  lemma EncodingBytes(authority: Bytes)
    ensures Encoding(ParamsSchema, authority) == []
    ensures Encoding(GenesisSchema, authority) == [0x0A, 0]
    ensures Encoding(ModuleSchema, authority)
         == if authority == [] then [] else [0x0A] + Encode(|authority|) + authority
    ensures Encoding(UpdateParamsSchema, authority) == Encoding(ModuleSchema, authority) + [0x12, 0]
  {
    NestedBytes(NESTED_FIRST_TAG);
    NestedBytes(NESTED_SECOND_TAG);
    OneField(NestedField(NESTED_FIRST_TAG));
    OneField(NestedField(NESTED_SECOND_TAG));
    FieldsBytesAppend(TextPart(authority), [NestedField(NESTED_SECOND_TAG)]);
    if authority != [] {
      TextBytes(authority);
      OneField(TextField(authority));
    }
    NoFields();
    hide Encode, FieldsBytes, FieldBytes, NestedField, TextField;
  }

  /** The size the generated `Size` adds up. */
  lemma EncodingSize(authority: Bytes)
    ensures |Encoding(ParamsSchema, authority)| == 0
    ensures |Encoding(GenesisSchema, authority)| == 2
    ensures |Encoding(ModuleSchema, authority)|
         == if authority == [] then 0 else 1 + |authority| + Sov(|authority|)
    ensures |Encoding(UpdateParamsSchema, authority)| == |Encoding(ModuleSchema, authority)| + 2
    ensures 1 <= Sov(|authority|) <= 10 && Sov(0) == 1
  {
    EncodingBytes(authority);
    SovIsLength(|authority|);
    SovIsLength(0);
    assert |Encode(0)| == 1;
    hide *;
  }

  /** `b[:n]` of a buffer that held `held` and then had the encoding written at its end. */
  function Returned(held: seq<Byte>, encoding: seq<Byte>): seq<Byte>
    requires |encoding| <= |held|
  {
    (held[..|held| - |encoding|] + encoding)[..|encoding|]
  }
}
