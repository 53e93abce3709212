/**
 When and how the skipper fails. Its depth counter stands for a stack: the groups that are open, each with its
 tag and the fields read in it so far. The skipper fails exactly where, below some such stack, the bytes that
 come next are no record, and the error is the one those bytes call for.
 */
module SkipFailures {
  import opened GoMachine
  import opened Results
  import opened Sequences
  import opened Varint
  import opened Grammar
  import opened Skipper
  import opened SkipGrammar

  // ----- open groups

  /** A group whose end has not been reached. */
  datatype Opened = Opened(tag: seq<Byte>, fields: seq<Field>)

  predicate ValidOpened(o: Opened) {
    IsTag(o.tag, 3) && ValidFields(o.fields)
  }

  ghost predicate AllOpened(os: seq<Opened>) {
    forall o | o in os :: ValidOpened(o)
  }

  /** The bytes read so far when the groups `os` are open, the innermost last. */
  function OpenedBytes(os: seq<Opened>): seq<Byte> {
    if os == [] then []
    else OpenedBytes(os[..|os| - 1]) + (os[|os| - 1].tag + FieldsBytes(os[|os| - 1].fields))
  }

  // ----- what makes a record unreadable

  /**
   `size` bytes are claimed at `rest`, which is at index `at`, and end past the ints or, where that matters, past
   the input. It does not matter to the skipper outside groups, which leaves that check to its caller.
   */
  predicate BadClaim(rest: seq<Byte>, size: nat, at: nat, pastInput: bool, e: Error) {
    if at + size > MAX_INT then e == InvalidLength else pastInput && size > |rest| && e == UnexpectedEOF
  }

  /** The payload of wire type 2 at `rest`, which is at index `at`. */
  ghost predicate BadDelimited(rest: seq<Byte>, at: nat, pastInput: bool, e: Error) {
    || NoVarint(rest, e)
    || exists n :: IsVarint(n) && n <= rest && BadLength(n, rest, at, pastInput, e)
  }

  predicate BadLength(n: seq<Byte>, rest: seq<Byte>, at: nat, pastInput: bool, e: Error)
    requires n <= rest
  {
    if IsNegative(n) then e == InvalidLength else BadClaim(rest[|n|..], Decoded(n), at + |n|, pastInput, e)
  }

  ghost predicate BadPayload(wireType: nat, rest: seq<Byte>, at: nat, depth: nat, e: Error) {
    match wireType
    case 0 => NoVarint(rest, e)
    case 1 => BadClaim(rest, 8, at, depth > 0, e)
    case 2 => BadDelimited(rest, at, depth > 0, e)
    case 3 => false
    case 4 => depth == 0 && e == UnexpectedEndOfGroup
    case 5 => BadClaim(rest, 4, at, depth > 0, e)
    case _ => e == IllegalWireType
  }

  /** With `depth` groups open, no record can be read at `x`, which is at index `at`, and `e` says why. */
  ghost predicate Stuck(x: seq<Byte>, at: nat, depth: nat, e: Error) {
    || NoVarint(x, e)
    || exists t :: IsVarint(t) && t <= x && BadPayload(Decoded(t) % 8, x[|t|..], at + |t|, depth, e)
  }

  ghost predicate StuckAfter(d: seq<Byte>, os: seq<Opened>, x: seq<Byte>, e: Error) {
    AllOpened(os) && OpenedBytes(os) + x == d && Stuck(x, |OpenedBytes(os)|, |os|, e)
  }

  ghost predicate CannotSkip(d: seq<Byte>, e: Error) {
    exists os, x :: StuckAfter(d, os, x, e)
  }

  // ----- one turn of the loop

  /** The turn at `x` ends the loop with an error. */
  predicate TurnFails(x: seq<Byte>, at: nat, depth: nat, e: Error) {
    if x == [] then e == UnexpectedEOF
    else match ReadItem(x)
      case Err(e') => e == e'
      case Ok(item) =>
        if item.wireType == 4 && depth == 0 then e == UnexpectedEndOfGroup
        else if at + item.size > MAX_INT then e == InvalidLength
        else NewDepth(item.wireType, depth) > 0 && item.size > |x| && e == UnexpectedEOF
  }

  lemma TurnFailsSkip(x: seq<Byte>, at: nat, depth: nat, e: Error)
    requires TurnFails(x, at, depth, e)
    ensures SkipFrom(x, at, depth) == Err(e)
  {
    hide ReadItem;
  }

  lemma DelimitedTurn(rest: seq<Byte>, at: nat, pastInput: bool, e: Error)
    ensures BadDelimited(rest, at, pastInput, e)
       <==> match ReadVarint(rest)
            case Err(e') => e == e'
            case Ok(n) => if ToInt(n.value) < 0 then e == InvalidLength
                          else BadClaim(rest[n.size..], n.value, at + n.size, pastInput, e)
  {
    hide ReadVarint, IsVarint, Decoded, ToInt, IsNegative, NoVarint, BadClaim;
    NoVarintExact(rest, e);
    forall n | IsVarint(n) && n <= rest
      ensures ReadVarint(rest) == Ok(Read(Decoded(n), |n|)) && (ToInt(Decoded(n)) < 0 <==> IsNegative(n))
    {
      VarintAtFront(rest, n);
      NegativeLengthExact(n);
    }
    if ReadVarint(rest).Ok? {
      TagTaken(rest);
      var n := rest[..ReadVarint(rest).value.size];
      assert IsVarint(n) && n <= rest;
    }
  }

  lemma StuckNoTag(x: seq<Byte>, at: nat, depth: nat, e: Error)
    requires ReadVarint(x).Err?
    ensures Stuck(x, at, depth, e) <==> TurnFails(x, at, depth, e)
  {
    hide ReadVarint, IsVarint, Decoded, BadPayload;
    NoVarintExact(x, e);
    NoVarintExact(x, UnexpectedEOF);
    if t :| IsVarint(t) && t <= x { VarintAtFront(x, t); }
  }

  lemma StuckTag(x: seq<Byte>, at: nat, depth: nat, e: Error)
    requires ReadVarint(x).Ok? && at + |x| <= MAX_INT
    ensures Stuck(x, at, depth, e) <==> TurnFails(x, at, depth, e)
  {
    hide ReadVarint, IsVarint, Decoded, BadPayload, TurnFails, NoVarint;
    var tag := ReadVarint(x).value;
    NoVarintExact(x, e);
    TagTaken(x);
    forall t | IsVarint(t) && t <= x ensures t == x[..tag.size] { VarintAtFront(x, t); }
    assert x[..tag.size] <= x;
    PayloadTurn(x, at, depth, e);
  }

  lemma PayloadTurn(x: seq<Byte>, at: nat, depth: nat, e: Error)
    requires ReadVarint(x).Ok? && at + |x| <= MAX_INT
    ensures var tag := ReadVarint(x).value;
            BadPayload(tag.value % 8, x[tag.size..], at + tag.size, depth, e) <==> TurnFails(x, at, depth, e)
  {
    hide ReadVarint, BadDelimited, NoVarint, ToInt;
    var tag := ReadVarint(x).value;
    var rest := x[tag.size..];
    NoVarintExact(rest, e);
    if tag.value % 8 == 2 { DelimitedTurn(rest, at + tag.size, depth > 0, e); }
  }

  /** The bytes are unreadable exactly when the turn fails. */
  lemma StuckTurn(x: seq<Byte>, at: nat, depth: nat, e: Error)
    requires at + |x| <= MAX_INT
    ensures Stuck(x, at, depth, e) <==> TurnFails(x, at, depth, e)
  {
    if ReadVarint(x).Err? {
      StuckNoTag(x, at, depth, e);
    } else {
      StuckTag(x, at, depth, e);
    }
  }

  // ----- the loop

  lemma OpenedBytesSnoc(os: seq<Opened>, o: Opened)
    ensures OpenedBytes(os + [o]) == OpenedBytes(os) + (o.tag + FieldsBytes(o.fields))
    ensures AllOpened(os + [o]) <==> AllOpened(os) && ValidOpened(o)
  {
    hide FieldsBytes, ValidOpened;
    assert (os + [o])[..|os|] == os;
  }

  /** Reading the open groups leaves the loop as many levels deep. */
  lemma {:induction false} SkipOpened(os: seq<Opened>, x: seq<Byte>)
    requires AllOpened(os) && |OpenedBytes(os)| <= MAX_INT
    ensures SkipFrom(OpenedBytes(os) + x, 0, 0) == SkipFrom(x, |OpenedBytes(os)|, |os|)
    decreases |os|
  {
    hide SkipFrom, FieldsBytes, ValidOpened, OpenedBytes;
    if os == [] {
      NothingOpened(x);
    } else {
      var init, o := os[..|os| - 1], os[|os| - 1];
      assert os == init + [o];
      OpenedBytesSnoc(init, o);
      var before, body := OpenedBytes(init), FieldsBytes(o.fields);
      SkipOpened(init, o.tag + (body + x));
      Assoc(before, o.tag + body, x);
      Assoc(o.tag, body, x);
      EnterGroup(o, x, |before|, |init|);
    }
  }

  lemma NothingOpened(x: seq<Byte>)
    ensures OpenedBytes([]) == [] && [] + x == x
  {
  }

  lemma EnterGroup(o: Opened, x: seq<Byte>, base: nat, depth: nat)
    requires ValidOpened(o) && base + |o.tag| + |FieldsBytes(o.fields)| <= MAX_INT
    ensures SkipFrom(o.tag + (FieldsBytes(o.fields) + x), base, depth)
         == SkipFrom(x, base + |o.tag| + |FieldsBytes(o.fields)|, depth + 1)
  {
    hide SkipFrom, FieldsBytes, ValidFields, IsTag;
    var rest := FieldsBytes(o.fields) + x;
    ItemOfStart(o.tag, rest);
    Step(o.tag + rest, Item(3, |o.tag|), base, depth);
    Parts(o.tag, rest);
    SkipFields(o.fields, x, base + |o.tag|, depth + 1);
  }

  lemma ItemOfStart(t: seq<Byte>, x: seq<Byte>)
    requires IsTag(t, 3)
    ensures ReadItem(t + x) == Ok(Item(3, |t|)) && t != []
  {
    TagRead(t, 3, x);
    hide ReadVarint, Decoded;
  }

  /** What a turn that does not fail does to the stack: it opens a group, closes one, or adds a field. */
  lemma NextStack(os: seq<Opened>, x: seq<Byte>) returns (os': seq<Opened>)
    requires AllOpened(os) && ReadItem(x).Ok? && ReadItem(x).value.size <= |x|
    requires var item := ReadItem(x).value;
             item.wireType == 3 || (item.wireType == 4 && |os| > 1) || (item.wireType !in {3, 4} && |os| > 0)
    ensures var item := ReadItem(x).value;
            AllOpened(os') && |os'| == NewDepth(item.wireType, |os|)
            && OpenedBytes(os') == OpenedBytes(os) + x[..item.size]
  {
    hide ReadItem, FieldsBytes, ValidFields, IsTag, OpenedBytes, FieldBytes, ValidField;
    var item := ReadItem(x).value;
    var n := item.size;
    if item.wireType == 3 {
      TagOfItem(x);
      var o := Opened(x[..n], []);
      os' := os + [o];
      OpenedBytesSnoc(os, o);
      NoFieldsYet(o);
    } else if item.wireType == 4 {
      TagOfItem(x);
      var o := os[|os| - 1];
      assert ValidOpened(o);
      GroupBytes(o.tag, o.fields, x[..n]);
      os' := AddField(os[..|os| - 1], GroupField(o.tag, o.fields, x[..n]));
      OpenedBytesInit(os);
      Assoc(OpenedBytes(os[..|os| - 1]), o.tag + FieldsBytes(o.fields), x[..n]);
    } else {
      var f := FieldOfItem(x);
      os' := AddField(os, f);
      assert FieldBytes(f) == x[..n];
    }
  }

  lemma NoFieldsYet(o: Opened)
    requires o.fields == []
    ensures o.tag + FieldsBytes(o.fields) == o.tag && ValidFields(o.fields)
  {
  }

  lemma GroupBytes(tag: seq<Byte>, fields: seq<Field>, end: seq<Byte>)
    requires IsTag(tag, 3) && ValidFields(fields) && IsTag(end, 4)
    ensures ValidField(GroupField(tag, fields, end))
    ensures FieldBytes(GroupField(tag, fields, end)) == (tag + FieldsBytes(fields)) + end
  {
    hide IsTag, FieldsBytes, ValidFields;
    Assoc(tag, FieldsBytes(fields), end);
  }

  lemma OpenedBytesInit(os: seq<Opened>)
    requires |os| > 0
    ensures var o := os[|os| - 1];
            OpenedBytes(os) == OpenedBytes(os[..|os| - 1]) + (o.tag + FieldsBytes(o.fields))
  {
  }

  /** A field read in the innermost group. */
  lemma AddField(os: seq<Opened>, f: Field) returns (os': seq<Opened>)
    requires |os| > 0 && AllOpened(os) && ValidField(f)
    ensures AllOpened(os') && |os'| == |os| && OpenedBytes(os') == OpenedBytes(os) + FieldBytes(f)
  {
    hide FieldsBytes, ValidFields, IsTag, OpenedBytes, FieldBytes, ValidField;
    var init, o := os[..|os| - 1], os[|os| - 1];
    assert ValidOpened(o);
    var o' := Opened(o.tag, o.fields + [f]);
    os' := init + [o'];
    FieldsSnoc(o.fields, f);
    OpenedBytesSnoc(init, o');
    OpenedBytesInit(os);
    Assoc(o.tag, FieldsBytes(o.fields), FieldBytes(f));
    Assoc(OpenedBytes(init), o.tag + FieldsBytes(o.fields), FieldBytes(f));
  }

  lemma FieldsSnoc(fs: seq<Field>, f: Field)
    requires ValidFields(fs) && ValidField(f)
    ensures ValidFields(fs + [f]) && FieldsBytes(fs + [f]) == FieldsBytes(fs) + FieldBytes(f)
  {
    FieldsBytesAppend(fs, [f]);
    hide FieldBytes, ValidField;
    assert [f][1..] == [] && FieldsBytes([]) == [];
  }

  /** A loop that fails gets stuck below some stack. */
  lemma {:induction false} FailureIsStuck(os: seq<Opened>, x: seq<Byte>, e: Error)
    requires AllOpened(os) && |OpenedBytes(os)| + |x| <= MAX_INT
    requires SkipFrom(x, |OpenedBytes(os)|, |os|) == Err(e)
    ensures CannotSkip(OpenedBytes(os) + x, e)
    decreases |x|
  {
    hide SkipFrom, OpenedBytes, Stuck, TurnFails, AllOpened;
    var at, depth := |OpenedBytes(os)|, |os|;
    StuckTurn(x, at, depth, e);
    if TurnFails(x, at, depth, e) {
      assert StuckAfter(OpenedBytes(os) + x, os, x, e);
    } else {
      TurnPasses(x, at, depth, e);
      var n := ReadItem(x).value.size;
      var os' := NextStack(os, x);
      SplitAt(x, n);
      Assoc(OpenedBytes(os), x[..n], x[n..]);
      FailureIsStuck(os', x[n..], e);
    }
  }

  lemma TurnPasses(x: seq<Byte>, at: nat, depth: nat, e: Error)
    requires at + |x| <= MAX_INT && SkipFrom(x, at, depth) == Err(e) && !TurnFails(x, at, depth, e)
    ensures ReadItem(x).Ok?
    ensures var item := ReadItem(x).value;
            && 1 <= item.size <= |x|
            && (item.wireType == 3 || (item.wireType == 4 && depth > 1) || (item.wireType !in {3, 4} && depth > 0))
            && SkipFrom(x[item.size..], at + item.size, NewDepth(item.wireType, depth)) == Err(e)
  {
    hide ReadItem;
  }

  /** The skipper fails with `e` exactly when, below some stack of open groups, the next record is unreadable for it. */
  lemma SkipFailsExact(d: seq<Byte>, e: Error)
    requires |d| <= MAX_INT
    ensures Skipped(d) == Err(e) <==> CannotSkip(d, e)
  {
    hide SkipFrom, Stuck, TurnFails, OpenedBytes, AllOpened;
    SkippedIs(d);
    if Skipped(d) == Err(e) {
      NothingOpened(d);
      NoStack();
      FailureIsStuck([], d, e);
    }
    if CannotSkip(d, e) {
      var os, x :| StuckAfter(d, os, x, e);
      SkipOpened(os, x);
      StuckTurn(x, |OpenedBytes(os)|, |os|, e);
      TurnFailsSkip(x, |OpenedBytes(os)|, |os|, e);
    }
  }

  lemma NoStack()
    ensures AllOpened([])
  {
  }
}
