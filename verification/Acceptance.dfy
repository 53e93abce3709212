/** What each message type accepts and decodes, spelled out with its own field numbers. */
module Acceptance {
  import opened GoMachine
  import opened Results
  import opened Grammar
  import opened Parser
  import opened MessageGrammar

  /** `Params` accepts exactly the lists of well-formed fields with positive numbers. */
  lemma ParamsExact(d: seq<Byte>)
    requires |d| <= MAX_INT
    ensures Accepts(ParamsSchema, [], d) <==> IsParams(d)
  {
    hide Parse, FieldsBytes, WellNumbered;
    if Accepts(ParamsSchema, [], d) {
      UnmarshalExact(ParamsSchema, [], d, Unmarshalled(ParamsSchema, [], d).authority);
      ReadsParams(d);
    }
    if IsParams(d) { ParamsAccepted(d, |d| + 1); }
  }

  ghost predicate GenesisField(f: Field) {
    WellNumbered(f) && (Number(f) == 1 ==> f.BytesField? && Accepts(ParamsSchema, [], f.payload))
  }

  /** `GenesisState` accepts exactly those in which each field 1 is length-delimited, its payload a `Params`. */
  lemma GenesisExact(d: seq<Byte>)
    requires |d| <= MAX_INT
    ensures Accepts(GenesisSchema, [], d) <==>
            exists fs :: FieldsBytes(fs) == d && forall f | f in fs :: GenesisField(f)
  {
    hide Unmarshalled, FieldsBytes, WellNumbered, IsParams, LastText, Number, Accepts;
    if Accepts(GenesisSchema, [], d) {
      NoError(GenesisSchema, [], d);
      UnmarshalExact(GenesisSchema, [], d, Unmarshalled(GenesisSchema, [], d).authority);
      var fs :| AllConform(GenesisSchema, fs) && FieldsBytes(fs) == d
                && LastText(GenesisSchema, fs, []) == Unmarshalled(GenesisSchema, [], d).authority;
      forall f | f in fs ensures GenesisField(f) {
        InsideBytes(fs, f);
        if Number(f) == 1 { ParamsExact(f.payload); }
      }
    }
    if fs :| FieldsBytes(fs) == d && forall f | f in fs :: GenesisField(f) {
      forall f | f in fs ensures Conforms(GenesisSchema, f) {
        InsideBytes(fs, f);
        if Number(f) == 1 { ParamsExact(f.payload); }
      }
      UnmarshalExact(GenesisSchema, [], d, LastText(GenesisSchema, fs, []));
      NoError(GenesisSchema, [], d);
    }
  }

  lemma NoError(s: Schema, authority: seq<Byte>, d: seq<Byte>)
    ensures Accepts(s, authority, d) <==> Unmarshalled(s, authority, d).err == None
  {
  }

  lemma {:induction false} InsideBytes(fs: seq<Field>, f: Field)
    requires f in fs
    ensures |FieldBytes(f)| <= |FieldsBytes(fs)|
    ensures f.BytesField? ==> |f.payload| <= |FieldsBytes(fs)|
  {
    FieldsBytesSplit(fs);
    if f.BytesField? { BytesSize(f); }
    hide FieldBytes, FieldsBytes;
    if f != fs[0] { InsideBytes(fs[1..], f); }
  }

  /** A field of `Module`: number 1 is text, any other positive number is anything. */
  ghost predicate ModuleField(f: Field) {
    WellNumbered(f) && (Number(f) == 1 ==> f.BytesField?)
  }

  /** A field of `MsgUpdateParams`: number 1 is text, number 2 a `Params`, any other positive number is anything. */
  ghost predicate UpdateParamsField(f: Field) {
    && WellNumbered(f)
    && (Number(f) == 1 ==> f.BytesField?)
    && (Number(f) == 2 ==> f.BytesField? && Accepts(ParamsSchema, [], f.payload))
  }

  /** `after` is the payload of the last field with number 1, or `before` if there is none. */
  ghost predicate LastNumberOne(fs: seq<Field>, before: seq<Byte>, after: seq<Byte>) {
    || (after == before && forall j | 0 <= j < |fs| :: Number(fs[j]) != 1)
    || exists i | 0 <= i < |fs| :: LastOneAt(fs, i) && fs[i].payload == after
  }

  ghost predicate LastOneAt(fs: seq<Field>, i: nat)
    requires i < |fs|
  {
    fs[i].BytesField? && Number(fs[i]) == 1 && forall j | i < j < |fs| :: Number(fs[j]) != 1
  }

  /** Where fields with number 1, and no others, are text, the last of them is what is left behind. */
  lemma LastTextIsNumberOne(s: Schema, fs: seq<Field>, before: seq<Byte>)
    requires TextNumbers(s) == {1} && forall f | f in fs :: Number(f) == 1 ==> f.BytesField?
    ensures LastNumberOne(fs, before, LastText(s, fs, before))
    ensures forall after :: LastNumberOne(fs, before, after) ==> after == LastText(s, fs, before)
  {
    hide Number, KindOf, LastText;
    forall f | f in fs ensures KindOf(s, Number(f)) == Text <==> Number(f) == 1 { KindOfExact(s, Number(f)); }
    if i :| 0 <= i < |fs| && LastOneAt(fs, i) {
      LastOneWins(s, fs, before, i);
      forall j | 0 <= j < |fs| && LastOneAt(fs, j) ensures j == i {
      }
    } else {
      NoNumberOne(fs, |fs|);
      NoLaterText(s, fs, before);
    }
  }

  lemma {:induction false} NoNumberOne(fs: seq<Field>, n: nat)
    requires n <= |fs| && forall f | f in fs :: Number(f) == 1 ==> f.BytesField?
    requires forall i | 0 <= i < |fs| :: !LastOneAt(fs, i)
    requires forall j | n <= j < |fs| :: Number(fs[j]) != 1
    ensures forall j | 0 <= j < |fs| :: Number(fs[j]) != 1
  {
    hide Number;
    if n > 0 {
      assert fs[n - 1] in fs && !LastOneAt(fs, n - 1);
      NoNumberOne(fs, n - 1);
    }
  }

  /** `Module`, number by number: what it accepts, and the authority it decodes. */
  lemma ModuleExact(before: seq<Byte>, d: seq<Byte>, after: seq<Byte>)
    requires |d| <= MAX_INT
    ensures Unmarshalled(ModuleSchema, before, d) == Outcome(after, None) <==>
            exists fs :: FieldsBytes(fs) == d && LastNumberOne(fs, before, after)
                         && forall f | f in fs :: ModuleField(f)
  {
    hide Unmarshalled, FieldsBytes, WellNumbered, IsParams, LastText, Number, LastNumberOne, KindOf;
    UnmarshalExact(ModuleSchema, before, d, after);
    forall f ensures Conforms(ModuleSchema, f) <==> ModuleField(f) { KindOfExact(ModuleSchema, Number(f)); }
    forall fs | forall f | f in fs :: ModuleField(f)
      ensures LastNumberOne(fs, before, after) <==> LastText(ModuleSchema, fs, before) == after
    {
      LastTextIsNumberOne(ModuleSchema, fs, before);
    }
    if fs :| AllConform(ModuleSchema, fs) && FieldsBytes(fs) == d && LastText(ModuleSchema, fs, before) == after {
      assert forall f | f in fs :: ModuleField(f);
    }
    if fs :| FieldsBytes(fs) == d && LastNumberOne(fs, before, after) && forall f | f in fs :: ModuleField(f) {
      assert AllConform(ModuleSchema, fs);
    }
  }

  /** `MsgUpdateParams`, number by number. */
  lemma UpdateParamsExact(before: seq<Byte>, d: seq<Byte>, after: seq<Byte>)
    requires |d| <= MAX_INT
    ensures Unmarshalled(UpdateParamsSchema, before, d) == Outcome(after, None) <==>
            exists fs :: FieldsBytes(fs) == d && LastNumberOne(fs, before, after)
                         && forall f | f in fs :: UpdateParamsField(f)
  {
    hide Unmarshalled, FieldsBytes, WellNumbered, IsParams, LastText, Number, LastNumberOne, KindOf, Accepts;
    UnmarshalExact(UpdateParamsSchema, before, d, after);
    forall f | |FieldBytes(f)| <= MAX_INT
      ensures Conforms(UpdateParamsSchema, f) <==> UpdateParamsField(f)
    {
      KindOfExact(UpdateParamsSchema, Number(f));
      if f.BytesField? {
        BytesSize(f);
        ParamsExact(f.payload);
      }
    }
    forall fs, f: Field | FieldsBytes(fs) == d && f in fs ensures |FieldBytes(f)| <= MAX_INT { InsideBytes(fs, f); }
    hide FieldBytes, Conforms, UpdateParamsField;
    if fs :| AllConform(UpdateParamsSchema, fs) && FieldsBytes(fs) == d
             && LastText(UpdateParamsSchema, fs, before) == after {
      assert forall f | f in fs :: UpdateParamsField(f);
      UpdateParamsText(fs, before);
    }
    if fs :| FieldsBytes(fs) == d && LastNumberOne(fs, before, after) && forall f | f in fs :: UpdateParamsField(f) {
      assert AllConform(UpdateParamsSchema, fs);
      UpdateParamsText(fs, before);
    }
  }

  lemma UpdateParamsText(fs: seq<Field>, before: seq<Byte>)
    requires forall f | f in fs :: UpdateParamsField(f)
    ensures LastNumberOne(fs, before, LastText(UpdateParamsSchema, fs, before))
    ensures forall after :: LastNumberOne(fs, before, after) ==> after == LastText(UpdateParamsSchema, fs, before)
  {
    hide WellNumbered, Number, LastNumberOne, LastText, Accepts;
    LastTextIsNumberOne(UpdateParamsSchema, fs, before);
  }
}
