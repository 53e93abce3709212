/** The grammar is unambiguous: a byte string is the fields of at most one tree. */
module Unambiguity {
  import opened GoMachine
  import opened Results
  import opened Sequences
  import opened Varint
  import opened Grammar

  lemma SameLengthPrefix<T>(a: seq<T>, x: seq<T>, b: seq<T>, y: seq<T>)
    requires a + x == b + y && |a| == |b|
    ensures a == b && x == y
  {
    Parts(a, x);
    Parts(b, y);
  }

  lemma SameVarint(v: seq<Byte>, x: seq<Byte>, w: seq<Byte>, y: seq<Byte>)
    requires IsVarint(v) && IsVarint(w) && v + x == w + y
    ensures v == w && x == y
  {
    ReadPrefix(v, x);
    ReadPrefix(w, y);
    hide *;
    SameLengthPrefix(v, x, w, y);
  }

  /** All of a field but its tag. */
  function AfterTag(f: Field): seq<Byte> {
    match f
    case BytesField(_, n, p) => n + p
    case GroupField(_, body, end) => FieldsBytes(body) + end
    case _ => f.value
  }

  lemma TagFirst(f: Field)
    requires ValidField(f)
    ensures FieldBytes(f) == f.tag + AfterTag(f) && IsTag(f.tag, WireType(f)) && IsVarint(f.tag)
  {
    hide FieldsBytes, ValidFields, IsVarint, Decoded;
  }

  lemma SameTag(f: Field, x: seq<Byte>, g: Field, y: seq<Byte>)
    requires ValidField(f) && ValidField(g) && FieldBytes(f) + x == FieldBytes(g) + y
    ensures f.tag == g.tag && WireType(f) == WireType(g) && AfterTag(f) + x == AfterTag(g) + y
  {
    hide FieldBytes, AfterTag, ValidField, IsVarint, Decoded;
    TagFirst(f);
    TagFirst(g);
    Assoc(f.tag, AfterTag(f), x);
    Assoc(g.tag, AfterTag(g), y);
    SameVarint(f.tag, AfterTag(f) + x, g.tag, AfterTag(g) + y);
  }

  /** A field read off the front of a string is the only one. */
  lemma {:induction false} FieldUnique(f: Field, x: seq<Byte>, g: Field, y: seq<Byte>)
    requires ValidField(f) && ValidField(g) && FieldBytes(f) + x == FieldBytes(g) + y
    ensures f == g && x == y
    decreases f, 1
  {
    SameTag(f, x, g, y);
    hide FieldBytes, FieldsBytes, ValidFields, IsVarint, Decoded, IsTag;
    match f {
      case VarintField(_, v) => SameVarint(v, x, g.value, y);
      case Fixed64Field(_, v) => SameLengthPrefix(v, x, g.value, y);
      case Fixed32Field(_, v) => SameLengthPrefix(v, x, g.value, y);
      case BytesField(_, n, p) =>
        Assoc(n, p, x);
        Assoc(g.length, g.payload, y);
        SameVarint(n, p + x, g.length, g.payload + y);
        SameLengthPrefix(p, x, g.payload, y);
      case GroupField(_, body, end) =>
        Assoc(FieldsBytes(body), end, x);
        Assoc(FieldsBytes(g.body), g.end, y);
        BodyUnique(body, end, x, g.body, g.end, y);
    }
  }

  /** An end tag is not the start of a field, so a group's body ends in one place. */
  lemma EndIsNoField(end: seq<Byte>, x: seq<Byte>, f: Field, y: seq<Byte>)
    requires IsTag(end, 4) && ValidField(f)
    ensures end + x != FieldBytes(f) + y
  {
    hide FieldBytes, AfterTag, ValidField, Decoded;
    TagFirst(f);
    if end + x == FieldBytes(f) + y {
      Assoc(f.tag, AfterTag(f), y);
      SameVarint(end, x, f.tag, AfterTag(f) + y);
    }
  }

  lemma {:induction false} BodyUnique(fs: seq<Field>, e: seq<Byte>, x: seq<Byte>,
                                      gs: seq<Field>, e': seq<Byte>, y: seq<Byte>)
    requires ValidFields(fs) && ValidFields(gs) && IsTag(e, 4) && IsTag(e', 4)
    requires FieldsBytes(fs) + (e + x) == FieldsBytes(gs) + (e' + y)
    ensures fs == gs && e == e' && x == y
    decreases fs, 0
  {
    hide FieldBytes, ValidField, IsVarint, Decoded;
    assert [] + (e + x) == e + x && [] + (e' + y) == e' + y;
    if fs == [] && gs == [] {
      SameVarint(e, x, e', y);
    } else if fs == [] {
      Assoc(FieldBytes(gs[0]), FieldsBytes(gs[1..]), e' + y);
      EndIsNoField(e, x, gs[0], FieldsBytes(gs[1..]) + (e' + y));
    } else if gs == [] {
      Assoc(FieldBytes(fs[0]), FieldsBytes(fs[1..]), e + x);
      EndIsNoField(e', y, fs[0], FieldsBytes(fs[1..]) + (e + x));
    } else {
      Assoc(FieldBytes(fs[0]), FieldsBytes(fs[1..]), e + x);
      Assoc(FieldBytes(gs[0]), FieldsBytes(gs[1..]), e' + y);
      FieldUnique(fs[0], FieldsBytes(fs[1..]) + (e + x), gs[0], FieldsBytes(gs[1..]) + (e' + y));
      BodyUnique(fs[1..], e, x, gs[1..], e', y);
    }
  }

  lemma FieldNotEmpty(f: Field)
    requires ValidField(f)
    ensures FieldBytes(f) != []
  {
    TagFirst(f);
  }

  /** The records of a whole input are determined by its bytes. */
  lemma {:induction false} FieldsUnique(fs: seq<Field>, gs: seq<Field>)
    requires ValidFields(fs) && ValidFields(gs) && FieldsBytes(fs) == FieldsBytes(gs)
    ensures fs == gs
  {
    hide FieldBytes, ValidField;
    if fs != [] { FieldNotEmpty(fs[0]); }
    if gs != [] { FieldNotEmpty(gs[0]); }
    if fs != [] && gs != [] {
      FieldUnique(fs[0], FieldsBytes(fs[1..]), gs[0], FieldsBytes(gs[1..]));
      FieldsUnique(fs[1..], gs[1..]);
    }
  }
}
