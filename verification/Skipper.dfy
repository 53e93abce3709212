/**
 The unknown-field skipper `skip*` and its meaning. The loop keeps a depth counter in place of
 recursion; `SkipExact` says that it accepts the grammar's fields all the same.
 */
module Skipper {
  import opened GoMachine
  import opened Results
  import opened Varint
  import opened Grammar

  // ----- the loop, one record at a time

  datatype Item = Item(wireType: nat, size: nat)

  /** What one turn of the loop reads: a wire type, and how far the record claims to reach. */
  function ReadItem(d: seq<Byte>): (r: Result<Item>)
    ensures r.Ok? ==> r.value.size >= 1
  {
    match ReadVarint(d)
    case Err(e) => Err(e)
    case Ok(tag) =>
      var wireType := tag.value % 8;
      var rest := d[tag.size..];
      if wireType == 0 then
        match ReadVarint(rest)
        case Err(e) => Err(e)
        case Ok(v) => Ok(Item(0, tag.size + v.size))
      else if wireType == 1 then Ok(Item(1, tag.size + 8))
      else if wireType == 2 then
        match ReadVarint(rest)
        case Err(e) => Err(e)
        case Ok(n) =>
          if ToInt(n.value) < 0 then Err(InvalidLength) else Ok(Item(2, tag.size + n.size + n.value))
      else if wireType == 5 then Ok(Item(5, tag.size + 4))
      else if wireType == 3 || wireType == 4 then Ok(Item(wireType, tag.size))
      else Err(IllegalWireType)
  }

  function NewDepth(wireType: nat, depth: nat): nat
    requires wireType == 4 ==> depth > 0
  {
    if wireType == 3 then depth + 1 else if wireType == 4 then depth - 1 else depth
  }

  /** The loop from offset `base` with `depth` groups open, `d` being what is left of the input. */
  function SkipFrom(d: seq<Byte>, base: nat, depth: nat): (r: Result<nat>)
    ensures r.Ok? ==> base < r.value <= MAX_INT
    ensures r.Ok? && depth > 0 ==> r.value <= base + |d|
    decreases |d|
  {
    if d == [] then Err(UnexpectedEOF)
    else match ReadItem(d)
      case Err(e) => Err(e)
      case Ok(item) =>
        if item.wireType == 4 && depth == 0 then Err(UnexpectedEndOfGroup)
        else if base + item.size > MAX_INT then Err(InvalidLength)
        else if NewDepth(item.wireType, depth) == 0 then Ok(base + item.size)
        else if item.size > |d| then Err(UnexpectedEOF)
        else SkipFrom(d[item.size..], base + item.size, NewDepth(item.wireType, depth))
  }

  /** The skipper's result on `d`. */
  function Skipped(d: seq<Byte>): (r: Result<nat>)
    ensures r.Ok? ==> 1 <= r.value <= MAX_INT
  {
    SkipFrom(d, 0, 0)
  }

  /** The tag and payload of one turn of the loop, with Go's wrapping index; groups only move past their tag. */
  method NextItem(dAtA: seq<Byte>, start: Int) returns (wireType: nat, iNdEx: Int, err: Option<Error>)
    requires 0 <= start <= |dAtA| <= MAX_INT
    ensures match ReadItem(dAtA[start..])
            case Ok(item) =>
              err == None && wireType == item.wireType
              && (if start + item.size <= MAX_INT then iNdEx == start + item.size else iNdEx < 0)
            case Err(e) => err == Some(e)
  {
    hide ReadVarint;
    var wire;
    wireType := 0;
    wire, iNdEx, err := DecodeUint64(dAtA, start);
    if err.Some? { return; }
    assert dAtA[start..][iNdEx - start..] == dAtA[iNdEx..];
    wireType := LowThreeBits(wire);
    match wireType
    case 0 =>
      iNdEx, err := SkipVarint(dAtA, iNdEx);
    case 1 =>
      iNdEx := AddInt(iNdEx, 8);
    case 2 =>
      var length;
      length, iNdEx, err := DecodeInt(dAtA, iNdEx);
      if err.Some? { return; }
      if length < 0 {
        err := Some(InvalidLength);
        return;
      }
      iNdEx := AddInt(iNdEx, length);
    case 3 =>
    case 4 =>
    case 5 =>
      iNdEx := AddInt(iNdEx, 4);
    case _ =>
      err := Some(IllegalWireType);
  }

  /** `int(wire & 0x7)`. */
  function LowThreeBits(wire: Uint64): (wireType: nat)
    ensures wireType == wire % 8
  {
    Masks(wire);
    And(wire, 0x7)
  }

  /** `skip*`: the number of bytes of the record `dAtA` starts with, groups included. */
  method Skip(dAtA: seq<Byte>) returns (n: Int, err: Option<Error>)
    requires |dAtA| <= MAX_INT
    ensures match Skipped(dAtA)
            case Ok(k) => err == None && n == k
            case Err(e) => err == Some(e) && n == 0
  {
    hide ReadItem;
    var l := |dAtA|;
    var iNdEx: Int, depth: Int := 0, 0;
    while iNdEx < l
      invariant 0 <= depth <= iNdEx
      invariant Skipped(dAtA) == if iNdEx <= l then SkipFrom(dAtA[iNdEx..], iNdEx, depth) else Err(UnexpectedEOF)
      decreases l - iNdEx
    {
      ghost var d, base := dAtA[iNdEx..], iNdEx;
      var wireType;
      wireType, iNdEx, err := NextItem(dAtA, iNdEx);
      if err.Some? { return 0, err; }
      if wireType == 3 {
        depth := depth + 1;
      } else if wireType == 4 {
        if depth == 0 { return 0, Some(UnexpectedEndOfGroup); }
        depth := depth - 1;
      }
      if iNdEx < 0 { return 0, Some(InvalidLength); }
      if depth == 0 { return iNdEx, None; }
      assert iNdEx <= l ==> d[iNdEx - base..] == dAtA[iNdEx..];
    }
    return 0, Some(UnexpectedEOF);
  }
}
