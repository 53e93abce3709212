/**
 What `Unmarshal` computes, for any of the message types: the generated bodies differ only in which field
 numbers they know and what they do with those.
 */
module Parser {
  import opened GoMachine
  import opened Results
  import opened Varint
  import opened Skipper

  /** What a message type does with a field number: skip it, take its text, or hand it to `Params.Unmarshal`. */
  datatype Kind = Unknown | Text | Nested

  datatype Schema = UpdateParamsSchema | ModuleSchema | GenesisSchema | ParamsSchema

  /** The numbers of the string fields, as the message definitions give them. */
  function TextNumbers(s: Schema): set<int> {
    match s
    case UpdateParamsSchema => {1}
    case ModuleSchema => {1}
    case GenesisSchema => {}
    case ParamsSchema => {}
  }

  /** The numbers of the embedded `Params` fields. */
  function MessageNumbers(s: Schema): set<int> {
    match s
    case UpdateParamsSchema => {2}
    case ModuleSchema => {}
    case GenesisSchema => {1}
    case ParamsSchema => {}
  }

  /** The branch the generated `switch` takes. */
  function KindOf(s: Schema, number: int): Kind {
    match s
    case UpdateParamsSchema => if number == 1 then Text else if number == 2 then Nested else Unknown
    case ModuleSchema => if number == 1 then Text else Unknown
    case GenesisSchema => if number == 1 then Nested else Unknown
    case ParamsSchema => Unknown
  }

  /** `int32(wire >> 3)`: only 32 bits of the number survive. */
  function FieldNumber(wire: Uint64): Int32 {
    ToInt32(wire / 8)
  }

  /** The branches follow the definitions, and every other number is unknown. */
  lemma KindOfExact(s: Schema, number: int)
    ensures KindOf(s, number) == Text <==> number in TextNumbers(s)
    ensures KindOf(s, number) == Nested <==> number in MessageNumbers(s)
    ensures KindOf(s, number) == Unknown <==> number !in TextNumbers(s) + MessageNumbers(s)
  {
  }

  /** The number is congruent to the whole one modulo 2^32. One below 2^31 is itself; bit 34 of the tag makes it negative; it is zero with all 32 bits clear. */
  lemma FieldNumberExact(wire: Uint64)
    ensures (wire / 8 - FieldNumber(wire)) % 0x1_0000_0000 == 0
    ensures wire / 8 < TWO_31 ==> FieldNumber(wire) == wire / 8
    ensures FieldNumber(wire) < 0 <==> wire / 0x4_0000_0000 % 2 == 1
    ensures FieldNumber(wire) == 0 <==> wire / 8 % 0x1_0000_0000 == 0
  {
    var n := wire / 8;
    assert wire / 0x4_0000_0000 == n / 0x8000_0000;
    assert n % 0x1_0000_0000 == n % 0x8000_0000 + n / 0x8000_0000 % 2 * 0x8000_0000;
  }

  /** The first record of a string: its kind, and where its payload starts and claims to end. */
  datatype Frame = Frame(kind: Kind, start: nat, end: nat)

  /** A length prefix, which must not be negative as an `int`. */
  function ReadLength(d: seq<Byte>): (r: Result<Read>)
    ensures r.Ok? ==> 1 <= r.value.size <= |d| && r.value.value <= MAX_INT
  {
    match ReadVarint(d)
    case Err(e) => Err(e)
    case Ok(n) => if ToInt(n.value) < 0 then Err(InvalidLength) else Ok(n)
  }

  function FirstRecord(s: Schema, d: seq<Byte>): (r: Result<Frame>)
    ensures r.Ok? ==> r.value.start <= r.value.end && r.value.end >= 1
    ensures r.Ok? && r.value.kind != Unknown ==> 1 <= r.value.start <= |d|
  {
    match ReadVarint(d)
    case Err(e) => Err(e)
    case Ok(tag) =>
      var wireType, number := tag.value % 8, FieldNumber(tag.value);
      if wireType == 4 then Err(EndGroupForNonGroup)
      else if number <= 0 then Err(IllegalTag)
      else if KindOf(s, number) == Unknown then
        match Skipped(d)
        case Err(e) => Err(e)
        case Ok(n) => Ok(Frame(Unknown, 0, n))
      else if wireType != 2 then Err(WrongWireType)
      else
        match ReadLength(d[tag.size..])
        case Err(e) => Err(e)
        case Ok(n) => Ok(Frame(KindOf(s, number), tag.size + n.size, tag.size + n.size + n.value))
  }

  /** What a call leaves in the message, whether it fails or not. */
  datatype Outcome = Outcome(authority: seq<Byte>, err: Option<Error>)

  /** `Unmarshal` from index `base` on, `d` being the rest of the input: the index matters only where it may wrap. */
  function Parse(s: Schema, authority: seq<Byte>, d: seq<Byte>, base: nat): Outcome
    decreases |d|
  {
    if d == [] then Outcome(authority, None)
    else match FirstRecord(s, d)
      case Err(e) => Outcome(authority, Some(e))
      case Ok(f) =>
        if base + f.end > MAX_INT then Outcome(authority, Some(InvalidLength))
        else if f.end > |d| then Outcome(authority, Some(UnexpectedEOF))
        else match f.kind
          case Unknown => Parse(s, authority, d[f.end..], base + f.end)
          case Text => Parse(s, d[f.start..f.end], d[f.end..], base + f.end)
          case Nested =>
            var inner := Parse(ParamsSchema, [], d[f.start..f.end], 0);
            if inner.err.Some? then Outcome(authority, inner.err)
            else Parse(s, authority, d[f.end..], base + f.end)
  }

  /** `m.Unmarshal(d)` on a message whose authority is `authority`. */
  function Unmarshalled(s: Schema, authority: seq<Byte>, d: seq<Byte>): Outcome {
    Parse(s, authority, d, 0)
  }

  predicate Accepts(s: Schema, authority: seq<Byte>, d: seq<Byte>) {
    Unmarshalled(s, authority, d).err == None
  }

  /** One record off the front. */
  lemma ParseUnfold(s: Schema, authority: seq<Byte>, d: seq<Byte>, base: nat)
    requires d != []
    ensures Parse(s, authority, d, base)
         == match FirstRecord(s, d)
            case Err(e) => Outcome(authority, Some(e))
            case Ok(f) =>
              if base + f.end > MAX_INT then Outcome(authority, Some(InvalidLength))
              else if f.end > |d| then Outcome(authority, Some(UnexpectedEOF))
              else if f.kind == Unknown then Parse(s, authority, d[f.end..], base + f.end)
              else if f.kind == Text then Parse(s, d[f.start..f.end], d[f.end..], base + f.end)
              else
                var inner := Parse(ParamsSchema, [], d[f.start..f.end], 0);
                if inner.err.Some? then Outcome(authority, inner.err)
                else Parse(s, authority, d[f.end..], base + f.end)
  {
    hide FirstRecord;
  }
}
