/** Cutting an accepted input short: on a record boundary it is still accepted, anywhere else it ended unexpectedly. */
module Truncation {
  import opened GoMachine
  import opened Results
  import opened Sequences
  import opened Varint
  import opened Grammar
  import opened Skipper
  import opened SkipGrammar
  import opened Parser
  import opened MessageGrammar
  import opened Laws

  lemma CutRest(w: seq<Byte>, t: nat, c: nat)
    requires t <= c <= |w|
    ensures w[..c][t..] == w[t..][..c - t]
  {
  }

  lemma ItemCut(w: seq<Byte>, c: nat)
    requires c <= |w| && ReadItem(w).Ok?
    ensures ReadItem(w[..c]) == Err(UnexpectedEOF)
         || (ReadItem(w[..c]) == ReadItem(w)
             && (ReadItem(w).value.wireType in {3, 4} ==> ReadItem(w).value.size <= c))
  {
    hide ReadVarint, ToInt;
    ReadCut(w, c);
    var t := ReadVarint(w).value.size;
    if t <= c {
      CutRest(w, t, c);
      if ReadItem(w).value.wireType in {0, 2} { ReadCut(w[t..], c - t); }
    }
  }

  /** Skipping an incomplete record: the end comes first, or the caller is told of an end past the input. */
  lemma {:induction false} SkipCutShort(w: seq<Byte>, base: nat, depth: nat, c: nat)
    requires SkipFrom(w, base, depth).Ok?
    requires base + c < SkipFrom(w, base, depth).value <= base + |w|
    ensures SkipFrom(w[..c], base, depth) == Err(UnexpectedEOF)
         || (depth == 0 && SkipFrom(w[..c], base, depth) == SkipFrom(w, base, depth))
    decreases |w|
  {
    hide ReadItem;
    var p := w[..c];
    if p != [] {
      ItemCut(w, c);
      var item := ReadItem(w).value;
      if item.size <= c && NewDepth(item.wireType, depth) > 0 {
        CutRest(w, item.size, c);
        SkipCutShort(w[item.size..], base + item.size, NewDepth(item.wireType, depth), c - item.size);
      }
    }
  }

  lemma RecordCut(s: Schema, w: seq<Byte>, c: nat)
    requires FirstRecord(s, w).Ok? && c < FirstRecord(s, w).value.end <= |w|
    ensures var r := FirstRecord(s, w[..c]);
            r == Err(UnexpectedEOF) || (r.Ok? && r.value.end == FirstRecord(s, w).value.end)
  {
    hide ReadVarint, ToInt, Skipped, FieldNumber, KindOf;
    ReadCut(w, c);
    var t := ReadVarint(w).value.size;
    if t <= c {
      CutRest(w, t, c);
      if FirstRecord(s, w).value.kind == Unknown {
        SkippedCut(w, c);
      } else {
        ReadCut(w[t..], c - t);
      }
    }
  }

  lemma SkippedCut(w: seq<Byte>, c: nat)
    requires Skipped(w).Ok? && c < Skipped(w).value <= |w|
    ensures Skipped(w[..c]) == Err(UnexpectedEOF) || Skipped(w[..c]) == Skipped(w)
  {
    hide SkipFrom;
    SkipCutShort(w, 0, 0, c);
  }

  /** Reading a record that fits, cut short after `c` bytes. */
  lemma ParseCut(s: Schema, authority: seq<Byte>, f: Field, c: nat, base: nat)
    requires Conforms(s, f) && 0 < c < |FieldBytes(f)| && base + |FieldBytes(f)| <= MAX_INT
    ensures Parse(s, authority, FieldBytes(f)[..c], base) == Outcome(authority, Some(UnexpectedEOF))
  {
    hide FirstRecord, FieldBytes, Header, ValidField, Number, KindOf, Parse, IsParams;
    var w := FieldBytes(f);
    RecordOfField(s, f, []);
    assert w + [] == w;
    RecordCut(s, w, c);
    ParseUnfold(s, authority, w[..c], base);
  }

  /** Cut inside field `j`: the fields before it have been read, and the end was not expected. */
  lemma CutInsideField(s: Schema, authority: seq<Byte>, fs: seq<Field>, j: nat, c: nat)
    requires AllConform(s, fs) && |FieldsBytes(fs)| <= MAX_INT
    requires j < |fs| && 0 < c < |FieldBytes(fs[j])|
    ensures Unmarshalled(s, authority, FieldsBytes(fs[..j]) + FieldBytes(fs[j])[..c])
         == Outcome(LastText(s, fs[..j], authority), Some(UnexpectedEOF))
  {
    hide FieldBytes, FieldsBytes, Parse, LastText, Conforms;
    FieldsBytesAround(fs, j);
    assert AllConform(s, fs[..j]) && Conforms(s, fs[j]);
    var x := FieldBytes(fs[j])[..c];
    ParseFields(s, authority, fs[..j], x, 0);
    ParseCut(s, LastText(s, fs[..j], authority), fs[j], c, |FieldsBytes(fs[..j])|);
  }

  lemma FieldsBytesAround(fs: seq<Field>, j: nat)
    requires j < |fs|
    ensures FieldsBytes(fs) == FieldsBytes(fs[..j]) + FieldBytes(fs[j]) + FieldsBytes(fs[j + 1..])
  {
    hide *;
    FieldsBytesAppend(fs[..j], fs[j..]);
    FieldsBytesSplit(fs[j..]);
    assert fs == fs[..j] + fs[j..] && fs[j..][0] == fs[j] && fs[j..][1..] == fs[j + 1..];
    Assoc(FieldsBytes(fs[..j]), FieldBytes(fs[j]), FieldsBytes(fs[j + 1..]));
  }

  /** Where a cut at `k` falls. */
  lemma {:induction false} Locate(fs: seq<Field>, k: nat) returns (j: nat, c: nat)
    requires k <= |FieldsBytes(fs)|
    ensures j <= |fs| && k == |FieldsBytes(fs[..j])| + c
    ensures c > 0 ==> j < |fs| && c < |FieldBytes(fs[j])|
  {
    FieldsBytesSplit(fs);
    FieldsBytesSplit([]);
    hide FieldBytes, FieldsBytes;
    if k == 0 {
      j, c := 0, 0;
      assert fs[..0] == [];
    } else if k < |FieldBytes(fs[0])| {
      j, c := 0, k;
      assert fs[..0] == [];
    } else {
      j, c := Locate(fs[1..], k - |FieldBytes(fs[0])|);
      FieldsBytesSplit(fs[..j + 1]);
      assert fs[..j + 1][1..] == fs[1..][..j] && fs[..j + 1][0] == fs[0];
      j := j + 1;
    }
  }

  /** `k` is where one of the records of `d` begins, or where the last one ends. */
  ghost predicate IsBoundary(s: Schema, d: seq<Byte>, k: nat) {
    exists fs, j :: BoundaryAt(s, d, k, fs, j)
  }

  ghost predicate BoundaryAt(s: Schema, d: seq<Byte>, k: nat, fs: seq<Field>, j: nat) {
    AllConform(s, fs) && FieldsBytes(fs) == d && j <= |fs| && |FieldsBytes(fs[..j])| == k
  }

  lemma BoundaryAccepted(s: Schema, authority: seq<Byte>, d: seq<Byte>, k: nat, fs: seq<Field>, j: nat)
    requires |d| <= MAX_INT && k <= |d| && BoundaryAt(s, d, k, fs, j)
    ensures Unmarshalled(s, authority, d[..k]) == Outcome(LastText(s, fs[..j], authority), None)
  {
    hide Unmarshalled, FieldsBytes, LastText, Conforms;
    FieldsBytesAppend(fs[..j], fs[j..]);
    assert fs == fs[..j] + fs[j..];
    assert d[..k] == FieldsBytes(fs[..j]);
    assert AllConform(s, fs[..j]);
    UnmarshalExact(s, authority, d[..k], LastText(s, fs[..j], authority));
  }

  /** Every prefix of an accepted input is accepted, exactly on a record boundary, or ended unexpectedly. */
  lemma PrefixOfAccepted(s: Schema, authority: seq<Byte>, d: seq<Byte>, k: nat)
    requires |d| <= MAX_INT && k <= |d| && Accepts(s, authority, d)
    ensures Accepts(s, authority, d[..k]) <==> IsBoundary(s, d, k)
    ensures Accepts(s, authority, d[..k]) || Unmarshalled(s, authority, d[..k]).err == Some(UnexpectedEOF)
  {
    hide Unmarshalled, FieldsBytes, FieldBytes, LastText, Conforms;
    UnmarshalExact(s, authority, d, Unmarshalled(s, authority, d).authority);
    var fs :| AllConform(s, fs) && FieldsBytes(fs) == d
              && LastText(s, fs, authority) == Unmarshalled(s, authority, d).authority;
    var j, c := Locate(fs, k);
    if c == 0 {
      assert BoundaryAt(s, d, k, fs, j);
      BoundaryAccepted(s, authority, d, k, fs, j);
    } else {
      FieldsBytesAround(fs, j);
      assert d[..k] == FieldsBytes(fs[..j]) + FieldBytes(fs[j])[..c];
      CutInsideField(s, authority, fs, j, c);
      if IsBoundary(s, d, k) {
        var fs', j' :| BoundaryAt(s, d, k, fs', j');
        BoundaryAccepted(s, authority, d, k, fs', j');
      }
    }
  }
}
