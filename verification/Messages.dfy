/**
 The generated message types. Every `Unmarshal` is proved to compute `Parser.Unmarshalled`, and every writer to
 produce `Canonical.Encoding`. Blocks that the generator repeats word for word are methods of their own here:
 reading a length and checking the payload's bounds, skipping an unknown field, writing one field. A Go slice
 handed to a writer is the first `length` bytes of an array.
 */
module Messages {
  import opened GoMachine
  import opened Results
  import opened Sequences
  import opened Varint
  import opened Skipper
  import opened Parser
  import opened Canonical

  /** `int32(wire >> 3)`. */
  function FieldNum(wire: Uint64): (number: Int32)
    ensures number == FieldNumber(wire)
  {
    assert Shr(wire, 3) == wire / 8 by { Pow2Small(); }
    ToInt32(Shr(wire, 3))
  }

  /** The `default` branch, shared by every message: skip the record at `iNdEx`, minding the wraps. */
  method SkipUnknown(dAtA: seq<Byte>, preIndex: Int) returns (iNdEx: Int, err: Option<Error>)
    requires 0 <= preIndex <= |dAtA| <= MAX_INT
    ensures match Skipped(dAtA[preIndex..])
            case Err(e) => err == Some(e)
            case Ok(n) =>
              if preIndex + n > MAX_INT then err == Some(InvalidLength)
              else if preIndex + n > |dAtA| then err == Some(UnexpectedEOF)
              else err == None && iNdEx == preIndex + n
  {
    iNdEx := preIndex;
    var skippy;
    skippy, err := Skip(dAtA[iNdEx..]);
    if err.Some? { return iNdEx, err; }
    assert skippy > 0;  // so only the sum can be negative below
    if skippy < 0 || AddInt(iNdEx, skippy) < 0 { return iNdEx, Some(InvalidLength); }
    if AddInt(iNdEx, skippy) > |dAtA| { return iNdEx, Some(UnexpectedEOF); }
    iNdEx := AddInt(iNdEx, skippy);
  }

  datatype Span = Span(start: Int, end: Int)

  /** Where the payload after the length prefix at `start` is, as the code checks it against the input's length. */
  function PayloadAt(dAtA: seq<Byte>, start: Int): (r: Result<Span>)
    requires 0 <= start <= |dAtA| <= MAX_INT
    ensures r.Ok? ==> start <= r.value.start <= r.value.end <= |dAtA|
  {
    match ReadLength(dAtA[start..])
    case Err(e) => Err(e)
    case Ok(n) =>
      if start + n.size + n.value > MAX_INT then Err(InvalidLength)
      else if start + n.size + n.value > |dAtA| then Err(UnexpectedEOF)
      else Ok(Span(start + n.size, start + n.size + n.value))
  }

  /** The record at index `i`, in the indices of the whole input and with every check the code makes on them. */
  function RecordAt(s: Schema, dAtA: seq<Byte>, i: nat): (r: Result<Frame>)
    requires i < |dAtA| <= MAX_INT
    ensures r.Ok? ==> i <= r.value.start <= r.value.end <= |dAtA|
  {
    match ReadVarint(dAtA[i..])
    case Err(e) => Err(e)
    case Ok(tag) =>
      var wireType, number, next := tag.value % 8, FieldNumber(tag.value), i + tag.size;
      if wireType == 4 then Err(EndGroupForNonGroup)
      else if number <= 0 then Err(IllegalTag)
      else if KindOf(s, number) == Unknown then
        match Skipped(dAtA[i..])
        case Err(e) => Err(e)
        case Ok(n) =>
          if i + n > MAX_INT then Err(InvalidLength)
          else if i + n > |dAtA| then Err(UnexpectedEOF)
          else Ok(Frame(Unknown, i, i + n))
      else if wireType != 2 then Err(WrongWireType)
      else
        match PayloadAt(dAtA, next)
        case Err(e) => Err(e)
        case Ok(p) => Ok(Frame(KindOf(s, number), p.start, p.end))
  }

  /** A record of the rest of the input, moved to where it is: this is where the index may wrap. */
  function Placed(r: Result<Frame>, i: nat, length: nat): Result<Frame> {
    if r.Err? then r
    else if i + r.value.end > MAX_INT then Err(InvalidLength)
    else if i + r.value.end > length then Err(UnexpectedEOF)
    else Ok(Frame(r.value.kind, i + r.value.start, i + r.value.end))
  }

  lemma RecordAtIsFirst(s: Schema, dAtA: seq<Byte>, i: nat)
    requires i < |dAtA| <= MAX_INT
    ensures RecordAt(s, dAtA, i) == Placed(FirstRecord(s, dAtA[i..]), i, |dAtA|)
  {
    hide ReadVarint, ReadLength, Skipped, FieldNumber, KindOf;
    var d := dAtA[i..];
    if ReadVarint(d).Ok? {
      var tag := ReadVarint(d).value;
      SliceOfRest(dAtA, i, tag.size, tag.size);
      if tag.value % 8 == 2 && KindOf(s, FieldNumber(tag.value)) != Unknown && ReadLength(d[tag.size..]).Ok? {
        var n := ReadLength(d[tag.size..]).value;
        var end := i + (tag.size + n.size + n.value);
        if end > MAX_INT {
        } else if end > |dAtA| {
        }
      }
    }
  }

  /** One turn of the `Unmarshal` loop. */
  lemma TurnIsParse(s: Schema, authority: seq<Byte>, dAtA: seq<Byte>, i: nat)
    requires i < |dAtA| <= MAX_INT
    ensures Parse(s, authority, dAtA[i..], i)
         == var r := RecordAt(s, dAtA, i);
            if r.Err? then Outcome(authority, Some(r.error))
            else if r.value.kind == Unknown then Parse(s, authority, dAtA[r.value.end..], r.value.end)
            else if r.value.kind == Text then
              Parse(s, dAtA[r.value.start..r.value.end], dAtA[r.value.end..], r.value.end)
            else
              var inner := Unmarshalled(ParamsSchema, [], dAtA[r.value.start..r.value.end]);
              if inner.err.Some? then Outcome(authority, inner.err)
              else Parse(s, authority, dAtA[r.value.end..], r.value.end)
  {
    hide RecordAt, FirstRecord, Parse;
    var d := dAtA[i..];
    RecordAtIsFirst(s, dAtA, i);
    ParseUnfold(s, authority, d, i);
    if RecordAt(s, dAtA, i).Ok? {
      var f := FirstRecord(s, d).value;
      SliceOfRest(dAtA, i, f.start, f.end);
    }
  }

  lemma ParseEnd(s: Schema, authority: seq<Byte>, dAtA: seq<Byte>)
    ensures Unmarshalled(s, authority, dAtA) == Parse(s, authority, dAtA[0..], 0)
    ensures forall a :: Parse(s, a, dAtA[|dAtA|..], |dAtA|) == Outcome(a, None)
  {
    assert dAtA[0..] == dAtA;
  }

  /** The length of a text field, accumulated as a `uint64`, and the payload's bounds. */
  method TextBounds(dAtA: seq<Byte>, start: Int) returns (iNdEx: Int, postIndex: Int, err: Option<Error>)
    requires 0 <= start <= |dAtA| <= MAX_INT
    ensures match PayloadAt(dAtA, start)
            case Err(e) => err == Some(e)
            case Ok(p) => err == None && iNdEx == p.start && postIndex == p.end
  {
    hide ReadVarint, ToInt, AddInt;
    postIndex := 0;
    var stringLen;
    stringLen, iNdEx, err := DecodeUint64(dAtA, start);
    if err.Some? { return; }
    var intStringLen := ToInt(stringLen);
    if intStringLen < 0 { return iNdEx, postIndex, Some(InvalidLength); }
    postIndex := AddInt(iNdEx, intStringLen);
    if postIndex < 0 { return iNdEx, postIndex, Some(InvalidLength); }
    if postIndex > |dAtA| { return iNdEx, postIndex, Some(UnexpectedEOF); }
  }

  /** The length of an embedded message, accumulated as an `int`, and the payload's bounds. */
  method MessageBounds(dAtA: seq<Byte>, start: Int) returns (iNdEx: Int, postIndex: Int, err: Option<Error>)
    requires 0 <= start <= |dAtA| <= MAX_INT
    ensures match PayloadAt(dAtA, start)
            case Err(e) => err == Some(e)
            case Ok(p) => err == None && iNdEx == p.start && postIndex == p.end
  {
    hide ReadVarint, ToInt, AddInt;
    postIndex := 0;
    var msglen;
    msglen, iNdEx, err := DecodeInt(dAtA, start);
    if err.Some? { return; }
    if msglen < 0 { return iNdEx, postIndex, Some(InvalidLength); }
    postIndex := AddInt(iNdEx, msglen);
    if postIndex < 0 { return iNdEx, postIndex, Some(InvalidLength); }
    if postIndex > |dAtA| { return iNdEx, postIndex, Some(UnexpectedEOF); }
  }

  /** `copy(dAtA[i:], src)`. */
  method Copy(dAtA: array<Byte>, i: nat, src: seq<Byte>)
    requires i + |src| <= dAtA.Length
    modifies dAtA
    ensures dAtA[..] == old(dAtA[..])[..i] + src + old(dAtA[..])[i + |src|..]
  {
    forall k | 0 <= k < |src| { dAtA[i + k] := src[k]; }
  }

  /** The block that writes a text field before index `i`, back to front. */
  method WriteText(dAtA: array<Byte>, offset: nat, text: Bytes) returns (i: nat)
    requires 1 + Sov(|text|) + |text| <= offset <= dAtA.Length
    modifies dAtA
    ensures i == offset - |text| - Sov(|text|) - 1
    ensures dAtA[..] == old(dAtA[..])[..i] + ([0x0A] + Encode(|text|) + text) + old(dAtA[..])[offset..]
  {
    hide *;
    ghost var before, rest := dAtA[..], dAtA[offset..];
    SplitAt(before, offset);
    i := offset - |text|;
    Copy(dAtA, i, text);
    Spliced(before, before, i, offset, text, rest);
    ghost var prev, written := dAtA[..], text + rest;
    var base := EncodeVarint(dAtA, i, |text|);
    Spliced(before, prev, base, i, Encode(|text|), written);
    prev, written := dAtA[..], Encode(|text|) + written;
    i := base - 1;
    dAtA[i] := 0x0A;
    Stored(prev, i, 0x0A, dAtA[..]);
    Spliced(before, prev, i, base, [0x0A], written);
    assert [0x0A] + (Encode(|text|) + (text + rest)) == [0x0A] + Encode(|text|) + text + rest;
    Assoc(before[..i], [0x0A] + Encode(|text|) + text, rest);
  }

  /** The block that writes an embedded message before index `i`, back to front. */
  method WriteNested(dAtA: array<Byte>, offset: nat, params: Params, tag: Byte) returns (i: nat)
    requires 2 <= offset <= dAtA.Length && offset <= MAX_INT
    modifies dAtA
    ensures i == offset - 2
    ensures dAtA[..] == old(dAtA[..])[..i] + [tag, 0] + old(dAtA[..])[offset..]
  {
    EncodingSize([]);
    EncodeZero();
    hide *;
    ghost var before, rest := dAtA[..], dAtA[offset..];
    SplitAt(before, offset);
    i := offset;
    var size := params.MarshalToSizedBuffer(dAtA, i);
    Untouched(before, i, dAtA[..], Encoding(ParamsSchema, []));
    i := i - size;
    var base := EncodeVarint(dAtA, i, size);
    Spliced(before, before, base, i, [0], rest);
    ghost var prev, written := dAtA[..], [0] + rest;
    i := base - 1;
    dAtA[i] := tag;
    Stored(prev, i, tag, dAtA[..]);
    Spliced(before, prev, i, base, [tag], written);
    assert [tag] + ([0] + rest) == [tag, 0] + rest;
    Assoc(before[..i], [tag, 0], rest);
  }

  lemma EncodeZero()
    ensures Encode(0) == [0] && Sov(0) == 1
  {
    SovIsLength(0);
  }

  /** No fields, so every record is unknown. */
  class Params {
    constructor () {}

    /** The error, if any, and what was read into the message before it. */
    method Unmarshal(dAtA: seq<Byte>) returns (err: Option<Error>)
      requires |dAtA| <= MAX_INT
      ensures Outcome([], err) == Unmarshalled(ParamsSchema, [], dAtA)
    {
      ParseEnd(ParamsSchema, [], dAtA);
      hide ReadVarint, Skipped, FieldNumber, FieldNum, LowThreeBits, Parse, Unmarshalled, PayloadAt;
      var l := |dAtA|;
      var iNdEx: Int := 0;
      while iNdEx < l
        invariant 0 <= iNdEx <= l
        invariant Unmarshalled(ParamsSchema, [], dAtA) == Parse(ParamsSchema, [], dAtA[iNdEx..], iNdEx)
        decreases l - iNdEx
      {
        var preIndex := iNdEx;
        TurnIsParse(ParamsSchema, [], dAtA, iNdEx);
        var wire;
        wire, iNdEx, err := DecodeUint64(dAtA, iNdEx);
        if err.Some? { return err; }
        var fieldNum, wireType := FieldNum(wire), LowThreeBits(wire);
        if wireType == 4 { return Some(EndGroupForNonGroup); }
        if fieldNum <= 0 { return Some(IllegalTag); }
        iNdEx, err := SkipUnknown(dAtA, preIndex);
        if err.Some? { return err; }
      }
      assert iNdEx == l;  // so the last check never fires
      err := if iNdEx > l then Some(UnexpectedEOF) else None;
    }

    method Size() returns (n: Int)
      ensures var size := |Encoding(ParamsSchema, [])|; if size <= MAX_INT then n == size else n < 0
    {
      EncodingSize([]);
      hide Encoding, Sov, WrapInt;
      n := 0;
    }

    /** The slice is the first `length` bytes of the array; the buffer is filled from its end. */
    method MarshalToSizedBuffer(dAtA: array<Byte>, length: nat) returns (n: nat)
      requires |Encoding(ParamsSchema, [])| <= length <= dAtA.Length && length <= MAX_INT
      modifies dAtA
      ensures n == |Encoding(ParamsSchema, [])|
      ensures dAtA[..] == old(dAtA[..])[..length - n] + Encoding(ParamsSchema, []) + old(dAtA[..])[length..]
    {
      hide *;
      EncodingBytes([]);
      EncodingSize([]);
      ghost var before := dAtA[..];
      SplitAt(before, length);
      var i := length;
      n := length - i;
    }

    method Marshal() returns (dAtA: array<Byte>, n: nat)
      requires |Encoding(ParamsSchema, [])| <= MAX_INT
      ensures fresh(dAtA) && n <= dAtA.Length && dAtA[..n] == Encoding(ParamsSchema, [])
    {
      hide Encoding;
      var size := Size();
      dAtA := new Byte[size](_ => 0);
      n := MarshalToSizedBuffer(dAtA, size);
      assert dAtA[..n] == Encoding(ParamsSchema, []);
    }

    method MarshalTo(dAtA: array<Byte>) returns (n: nat)
      requires |Encoding(ParamsSchema, [])| <= dAtA.Length <= MAX_INT
      modifies dAtA
      ensures n == |Encoding(ParamsSchema, [])|
      ensures dAtA[..] == Encoding(ParamsSchema, []) + old(dAtA[..])[n..]
    {
      hide Encoding;
      var size := Size();
      n := MarshalToSizedBuffer(dAtA, size);
    }

    /** The non-deterministic branch: the slice is extended to its capacity first; the result is `b[:n]`. */
    method XXXMarshal(b: array<Byte>) returns (n: nat)
      requires |Encoding(ParamsSchema, [])| <= b.Length <= MAX_INT
      modifies b
      ensures n == |Encoding(ParamsSchema, [])|
      ensures b[..] == old(b[..])[..b.Length - n] + Encoding(ParamsSchema, [])
      ensures b[..n] == Returned(old(b[..]), Encoding(ParamsSchema, []))
    {
      hide Encoding;
      n := MarshalToSizedBuffer(b, b.Length);
    }
  }

  /** One text field, left out when empty. */
  class Module {
    var Authority: Bytes

    constructor ()
      ensures Authority == []
    {
      Authority := [];
    }

    /** The error, if any, and what was read into the message before it. */
    method Unmarshal(dAtA: seq<Byte>) returns (err: Option<Error>)
      requires |dAtA| <= MAX_INT
      modifies this`Authority
      ensures Outcome(Authority, err) == Unmarshalled(ModuleSchema, old(Authority), dAtA)
    {
      ParseEnd(ModuleSchema, Authority, dAtA);
      hide ReadVarint, Skipped, FieldNumber, FieldNum, LowThreeBits, Parse, Unmarshalled, PayloadAt;
      var l := |dAtA|;
      var iNdEx: Int := 0;
      while iNdEx < l
        invariant 0 <= iNdEx <= l
        invariant Unmarshalled(ModuleSchema, old(Authority), dAtA)
               == Parse(ModuleSchema, Authority, dAtA[iNdEx..], iNdEx)
        decreases l - iNdEx
      {
        var preIndex := iNdEx;
        TurnIsParse(ModuleSchema, Authority, dAtA, iNdEx);
        var wire;
        wire, iNdEx, err := DecodeUint64(dAtA, iNdEx);
        if err.Some? { return err; }
        var fieldNum, wireType := FieldNum(wire), LowThreeBits(wire);
        if wireType == 4 { return Some(EndGroupForNonGroup); }
        if fieldNum <= 0 { return Some(IllegalTag); }
        if fieldNum == 1 {
          if wireType != 2 { return Some(WrongWireType); }
          var postIndex;
          iNdEx, postIndex, err := TextBounds(dAtA, iNdEx);
          if err.Some? { return err; }
          Authority := dAtA[iNdEx..postIndex];
          iNdEx := postIndex;
        } else {
          iNdEx, err := SkipUnknown(dAtA, preIndex);
          if err.Some? { return err; }
        }
      }
      assert iNdEx == l;  // so the last check never fires
      err := if iNdEx > l then Some(UnexpectedEOF) else None;
    }

    method Size() returns (n: Int)
      ensures var size := |Encoding(ModuleSchema, Authority)|; if size <= MAX_INT then n == size else n < 0
    {
      EncodingSize(Authority);
      hide Encoding, Sov, WrapInt;
      n := 0;
      var l := |Authority|;
      WrapSum(1 + l + Sov(l), 2);
      if l > 0 { n := WrapInt(n + 1 + l + Sov(l)); }
    }

    /** The slice is the first `length` bytes of the array; the buffer is filled from its end. */
    method MarshalToSizedBuffer(dAtA: array<Byte>, length: nat) returns (n: nat)
      requires |Encoding(ModuleSchema, Authority)| <= length <= dAtA.Length && length <= MAX_INT
      modifies dAtA
      ensures n == |Encoding(ModuleSchema, Authority)|
      ensures dAtA[..] == old(dAtA[..])[..length - n] + Encoding(ModuleSchema, Authority) + old(dAtA[..])[length..]
    {
      hide *;
      EncodingBytes(Authority);
      EncodingSize(Authority);
      ghost var before := dAtA[..];
      SplitAt(before, length);
      var i := length;
      if |Authority| > 0 {
        i := WriteText(dAtA, i, Authority);
      }
      n := length - i;
    }

    method Marshal() returns (dAtA: array<Byte>, n: nat)
      requires |Encoding(ModuleSchema, Authority)| <= MAX_INT
      ensures fresh(dAtA) && n <= dAtA.Length && dAtA[..n] == Encoding(ModuleSchema, Authority)
    {
      hide Encoding;
      var size := Size();
      dAtA := new Byte[size](_ => 0);
      n := MarshalToSizedBuffer(dAtA, size);
      assert dAtA[..n] == Encoding(ModuleSchema, Authority);
    }

    method MarshalTo(dAtA: array<Byte>) returns (n: nat)
      requires |Encoding(ModuleSchema, Authority)| <= dAtA.Length <= MAX_INT
      modifies dAtA
      ensures n == |Encoding(ModuleSchema, Authority)|
      ensures dAtA[..] == Encoding(ModuleSchema, Authority) + old(dAtA[..])[n..]
    {
      hide Encoding;
      var size := Size();
      n := MarshalToSizedBuffer(dAtA, size);
    }

    /** The non-deterministic branch: the slice is extended to its capacity first; the result is `b[:n]`. */
    method XXXMarshal(b: array<Byte>) returns (n: nat)
      requires |Encoding(ModuleSchema, Authority)| <= b.Length <= MAX_INT
      modifies b
      ensures n == |Encoding(ModuleSchema, Authority)|
      ensures b[..] == old(b[..])[..b.Length - n] + Encoding(ModuleSchema, Authority)
      ensures b[..n] == Returned(old(b[..]), Encoding(ModuleSchema, Authority))
    {
      hide Encoding;
      n := MarshalToSizedBuffer(b, b.Length);
    }
  }

  /** One embedded `Params`, always written. */
  class GenesisState {
    const params: Params

    constructor () {
      params := new Params();
    }

    /** The error, if any, and what was read into the message before it. */
    method Unmarshal(dAtA: seq<Byte>) returns (err: Option<Error>)
      requires |dAtA| <= MAX_INT
      ensures Outcome([], err) == Unmarshalled(GenesisSchema, [], dAtA)
    {
      ParseEnd(GenesisSchema, [], dAtA);
      hide ReadVarint, Skipped, FieldNumber, FieldNum, LowThreeBits, Parse, Unmarshalled, PayloadAt;
      var l := |dAtA|;
      var iNdEx: Int := 0;
      while iNdEx < l
        invariant 0 <= iNdEx <= l
        invariant Unmarshalled(GenesisSchema, [], dAtA) == Parse(GenesisSchema, [], dAtA[iNdEx..], iNdEx)
        decreases l - iNdEx
      {
        var preIndex := iNdEx;
        TurnIsParse(GenesisSchema, [], dAtA, iNdEx);
        var wire;
        wire, iNdEx, err := DecodeUint64(dAtA, iNdEx);
        if err.Some? { return err; }
        var fieldNum, wireType := FieldNum(wire), LowThreeBits(wire);
        if wireType == 4 { return Some(EndGroupForNonGroup); }
        if fieldNum <= 0 { return Some(IllegalTag); }
        if fieldNum == 1 {
          if wireType != 2 { return Some(WrongWireType); }
          var postIndex;
          iNdEx, postIndex, err := MessageBounds(dAtA, iNdEx);
          if err.Some? { return err; }
          err := params.Unmarshal(dAtA[iNdEx..postIndex]);
          if err.Some? { return err; }
          iNdEx := postIndex;
        } else {
          iNdEx, err := SkipUnknown(dAtA, preIndex);
          if err.Some? { return err; }
        }
      }
      assert iNdEx == l;  // so the last check never fires
      err := if iNdEx > l then Some(UnexpectedEOF) else None;
    }

    method Size() returns (n: Int)
      ensures var size := |Encoding(GenesisSchema, [])|; if size <= MAX_INT then n == size else n < 0
    {
      EncodingSize([]);
      hide Encoding, Sov, WrapInt;
      n := 0;
      var p := params.Size();
      n := WrapInt(n + 1 + p + Sov(p));
    }

    /** The slice is the first `length` bytes of the array; the buffer is filled from its end. */
    method MarshalToSizedBuffer(dAtA: array<Byte>, length: nat) returns (n: nat)
      requires |Encoding(GenesisSchema, [])| <= length <= dAtA.Length && length <= MAX_INT
      modifies dAtA
      ensures n == |Encoding(GenesisSchema, [])|
      ensures dAtA[..] == old(dAtA[..])[..length - n] + Encoding(GenesisSchema, []) + old(dAtA[..])[length..]
    {
      hide *;
      EncodingBytes([]);
      EncodingSize([]);
      var i := length;
      i := WriteNested(dAtA, i, params, 0x0A);
      n := length - i;
    }

    method Marshal() returns (dAtA: array<Byte>, n: nat)
      requires |Encoding(GenesisSchema, [])| <= MAX_INT
      ensures fresh(dAtA) && n <= dAtA.Length && dAtA[..n] == Encoding(GenesisSchema, [])
    {
      hide Encoding;
      var size := Size();
      dAtA := new Byte[size](_ => 0);
      n := MarshalToSizedBuffer(dAtA, size);
      assert dAtA[..n] == Encoding(GenesisSchema, []);
    }

    method MarshalTo(dAtA: array<Byte>) returns (n: nat)
      requires |Encoding(GenesisSchema, [])| <= dAtA.Length <= MAX_INT
      modifies dAtA
      ensures n == |Encoding(GenesisSchema, [])|
      ensures dAtA[..] == Encoding(GenesisSchema, []) + old(dAtA[..])[n..]
    {
      hide Encoding;
      var size := Size();
      n := MarshalToSizedBuffer(dAtA, size);
    }

    /** The non-deterministic branch: the slice is extended to its capacity first; the result is `b[:n]`. */
    method XXXMarshal(b: array<Byte>) returns (n: nat)
      requires |Encoding(GenesisSchema, [])| <= b.Length <= MAX_INT
      modifies b
      ensures n == |Encoding(GenesisSchema, [])|
      ensures b[..] == old(b[..])[..b.Length - n] + Encoding(GenesisSchema, [])
      ensures b[..n] == Returned(old(b[..]), Encoding(GenesisSchema, []))
    {
      hide Encoding;
      n := MarshalToSizedBuffer(b, b.Length);
    }
  }

  /** A text field and an embedded `Params`. */
  class MsgUpdateParams {
    var Authority: Bytes
    const params: Params

    constructor ()
      ensures Authority == []
    {
      Authority := [];
      params := new Params();
    }

    /** The error, if any, and what was read into the message before it. */
    method Unmarshal(dAtA: seq<Byte>) returns (err: Option<Error>)
      requires |dAtA| <= MAX_INT
      modifies this`Authority
      ensures Outcome(Authority, err) == Unmarshalled(UpdateParamsSchema, old(Authority), dAtA)
    {
      ParseEnd(UpdateParamsSchema, Authority, dAtA);
      hide ReadVarint, Skipped, FieldNumber, FieldNum, LowThreeBits, Parse, Unmarshalled, PayloadAt;
      var l := |dAtA|;
      var iNdEx: Int := 0;
      while iNdEx < l
        invariant 0 <= iNdEx <= l
        invariant Unmarshalled(UpdateParamsSchema, old(Authority), dAtA)
               == Parse(UpdateParamsSchema, Authority, dAtA[iNdEx..], iNdEx)
        decreases l - iNdEx
      {
        var preIndex := iNdEx;
        TurnIsParse(UpdateParamsSchema, Authority, dAtA, iNdEx);
        var wire;
        wire, iNdEx, err := DecodeUint64(dAtA, iNdEx);
        if err.Some? { return err; }
        var fieldNum, wireType := FieldNum(wire), LowThreeBits(wire);
        if wireType == 4 { return Some(EndGroupForNonGroup); }
        if fieldNum <= 0 { return Some(IllegalTag); }
        if fieldNum == 1 {
          if wireType != 2 { return Some(WrongWireType); }
          var postIndex;
          iNdEx, postIndex, err := TextBounds(dAtA, iNdEx);
          if err.Some? { return err; }
          Authority := dAtA[iNdEx..postIndex];
          iNdEx := postIndex;
        } else if fieldNum == 2 {
          if wireType != 2 { return Some(WrongWireType); }
          var postIndex;
          iNdEx, postIndex, err := MessageBounds(dAtA, iNdEx);
          if err.Some? { return err; }
          err := params.Unmarshal(dAtA[iNdEx..postIndex]);
          if err.Some? { return err; }
          iNdEx := postIndex;
        } else {
          iNdEx, err := SkipUnknown(dAtA, preIndex);
          if err.Some? { return err; }
        }
      }
      assert iNdEx == l;  // so the last check never fires
      err := if iNdEx > l then Some(UnexpectedEOF) else None;
    }

    method Size() returns (n: Int)
      ensures var size := |Encoding(UpdateParamsSchema, Authority)|; if size <= MAX_INT then n == size else n < 0
    {
      EncodingSize(Authority);
      EncodingSize([]);
      hide Encoding, Sov, WrapInt;
      n := 0;
      var l := |Authority|;
      WrapSum(1 + l + Sov(l), 2);
      if l > 0 { n := WrapInt(n + 1 + l + Sov(l)); }
      var p := params.Size();
      n := WrapInt(n + 1 + p + Sov(p));
    }

    /** The slice is the first `length` bytes of the array; the buffer is filled from its end. */
    method MarshalToSizedBuffer(dAtA: array<Byte>, length: nat) returns (n: nat)
      requires |Encoding(UpdateParamsSchema, Authority)| <= length <= dAtA.Length && length <= MAX_INT
      modifies dAtA
      ensures n == |Encoding(UpdateParamsSchema, Authority)|
      ensures dAtA[..]
           == old(dAtA[..])[..length - n] + Encoding(UpdateParamsSchema, Authority) + old(dAtA[..])[length..]
    {
      hide *;
      EncodingBytes(Authority);
      EncodingSize(Authority);
      ghost var before, rest := dAtA[..], dAtA[length..];
      SplitAt(before, length);
      ghost var written: seq<Byte> := [0x12, 0];
      var i := WriteNested(dAtA, length, params, 0x12);
      Spliced(before, before, i, length, written, rest);
      if |Authority| > 0 {
        ghost var prev, offset, text := dAtA[..], i, [0x0A] + Encode(|Authority|) + Authority;
        i := WriteText(dAtA, i, Authority);
        Spliced(before, prev, i, offset, text, written + rest);
        Assoc(text, written, rest);
        written := text + written;
      }
      n := length - i;
      Assoc(before[..i], written, rest);
    }

    method Marshal() returns (dAtA: array<Byte>, n: nat)
      requires |Encoding(UpdateParamsSchema, Authority)| <= MAX_INT
      ensures fresh(dAtA) && n <= dAtA.Length && dAtA[..n] == Encoding(UpdateParamsSchema, Authority)
    {
      hide Encoding;
      var size := Size();
      dAtA := new Byte[size](_ => 0);
      n := MarshalToSizedBuffer(dAtA, size);
      assert dAtA[..n] == Encoding(UpdateParamsSchema, Authority);
    }

    method MarshalTo(dAtA: array<Byte>) returns (n: nat)
      requires |Encoding(UpdateParamsSchema, Authority)| <= dAtA.Length <= MAX_INT
      modifies dAtA
      ensures n == |Encoding(UpdateParamsSchema, Authority)|
      ensures dAtA[..] == Encoding(UpdateParamsSchema, Authority) + old(dAtA[..])[n..]
    {
      hide Encoding;
      var size := Size();
      n := MarshalToSizedBuffer(dAtA, size);
    }

    /** The non-deterministic branch: the slice is extended to its capacity first; the result is `b[:n]`. */
    method XXXMarshal(b: array<Byte>) returns (n: nat)
      requires |Encoding(UpdateParamsSchema, Authority)| <= b.Length <= MAX_INT
      modifies b
      ensures n == |Encoding(UpdateParamsSchema, Authority)|
      ensures b[..] == old(b[..])[..b.Length - n] + Encoding(UpdateParamsSchema, Authority)
      ensures b[..n] == Returned(old(b[..]), Encoding(UpdateParamsSchema, Authority))
    {
      hide Encoding;
      n := MarshalToSizedBuffer(b, b.Length);
    }
  }
}
