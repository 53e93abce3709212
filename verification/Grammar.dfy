/**
 The wire format as a grammar: a field is a tag and a payload, a group holds any list of fields.
 A tree keeps the very bytes of its varints, so overlong forms are trees of their own.
 As in the codec, a group's end tag need not carry the group's field number, and the field numbers
 inside a group are free.
 */
module Grammar {
  import opened GoMachine
  import opened Varint

  datatype Field =
    | VarintField(tag: seq<Byte>, value: seq<Byte>)
    | Fixed64Field(tag: seq<Byte>, value: seq<Byte>)
    | BytesField(tag: seq<Byte>, length: seq<Byte>, payload: seq<Byte>)
    | GroupField(tag: seq<Byte>, body: seq<Field>, end: seq<Byte>)
    | Fixed32Field(tag: seq<Byte>, value: seq<Byte>)

  /** A tag varint whose low three bits are the wire type. */
  predicate IsTag(t: seq<Byte>, wireType: nat) {
    IsVarint(t) && Decoded(t) % 8 == wireType
  }

  predicate ValidField(f: Field)
    decreases f, 1
  {
    match f
    case VarintField(t, v) => IsTag(t, 0) && IsVarint(v)
    case Fixed64Field(t, v) => IsTag(t, 1) && |v| == 8
    case BytesField(t, n, p) => IsTag(t, 2) && IsVarint(n) && Decoded(n) == |p|
    case GroupField(t, body, end) => IsTag(t, 3) && ValidFields(body) && IsTag(end, 4)
    case Fixed32Field(t, v) => IsTag(t, 5) && |v| == 4
  }

  predicate ValidFields(fs: seq<Field>)
    decreases fs, 0
  {
    fs == [] || (ValidField(fs[0]) && ValidFields(fs[1..]))
  }

  /** The part of a field that must be present before the codec knows where the field, or a group's body, starts. */
  function Header(f: Field): seq<Byte> {
    match f
    case VarintField(t, v) => t + v
    case BytesField(t, n, _) => t + n
    case _ => f.tag
  }

  function Tail(f: Field): seq<Byte>
    decreases f, 1
  {
    match f
    case VarintField(_, _) => []
    case Fixed64Field(_, v) => v
    case BytesField(_, _, p) => p
    case GroupField(_, body, end) => FieldsBytes(body) + end
    case Fixed32Field(_, v) => v
  }

  /** The bytes a field is written as. */
  function FieldBytes(f: Field): seq<Byte>
    decreases f, 2
  {
    Header(f) + Tail(f)
  }

  function FieldsBytes(fs: seq<Field>): seq<Byte>
    decreases fs, 0
  {
    if fs == [] then [] else FieldBytes(fs[0]) + FieldsBytes(fs[1..])
  }

  function WireType(f: Field): nat {
    match f
    case VarintField(_, _) => 0
    case Fixed64Field(_, _) => 1
    case BytesField(_, _, _) => 2
    case GroupField(_, _, _) => 3
    case Fixed32Field(_, _) => 5
  }

  /** Some well-formed field is written exactly as `s`. */
  ghost predicate IsField(s: seq<Byte>) {
    exists f :: ValidField(f) && FieldBytes(f) == s
  }

  lemma {:induction false} FieldsBytesAppend(a: seq<Field>, b: seq<Field>)
    ensures FieldsBytes(a + b) == FieldsBytes(a) + FieldsBytes(b)
    ensures ValidFields(a + b) <==> ValidFields(a) && ValidFields(b)
  {
    hide ValidField, FieldBytes;
    if a == [] {
      assert a + b == b;
    } else {
      FieldsBytesAppend(a[1..], b);
      assert (a + b)[1..] == a[1..] + b;
    }
  }
}
