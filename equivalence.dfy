/** The derived and the hand-written deserializer of the demo record
    `RootWorking` (`field1: Vec<String>`, `field2: Vec<String>`,
    `#[serde(flatten)] unknown: HashMap<String, Value>`), compared: the keyed
    visitors agree on every input, the positional ones do not. */
module Equivalence {
  import opened Wrappers
  import opened Serde
  import opened Types
  import opened Syntax
  import opened BestEffort
  import opened Generated
  import ManualImpl

  /** The struct as the derive macro sees it. */
  function RootWorkingFields(): seq<Field> {
    [ Field("field1", TyVec(TyString), []),
      Field("field2", TyVec(TyString), []),
      Field("unknown", TyHashMap, [Attribute(["serde"], MetaList([MetaOther]))]) ]
  }

  function RootWorkingInput(): DeriveInput {
    DeriveInput("RootWorking", DataStruct(FieldsNamed(RootWorkingFields())))
  }

  /** The generated code for the demo record compiles. */
  lemma RootWorkingCompilable()
    ensures NamedFields(RootWorkingInput()) == RootWorkingFields()
    ensures Compilable(RootWorkingFields())
  {
    var fields := RootWorkingFields();
    assert IndexOfName(fields[..2], "unknown").None?;
    assert WellFormed(fields[2].attrs[0]);
  }

  /** `#[serde(flatten)]` declares no alias, so every field answers only to
      its own name. */
  lemma RootWorkingNoAliases(i: nat)
    requires i < 3
    ensures Aliases(RootWorkingFields()[i].attrs) == []
  {
    var attrs := RootWorkingFields()[i].attrs;
    if i == 2 {
      Seqs.FlatMapSnoc([], attrs[0], AttrAliases);
      assert [attrs[0]] == attrs;
      assert AliasLits([MetaOther][..0]) == [];
    }
  }

  /** The generated resolver routes `field1` and `field2` to their fields and
      every other key, `unknown` included, to the bucket under the key itself,
      as the hand-written `visit_str` and `visit_map` do. */
  lemma RootWorkingRoute(key: string)
    ensures Compilable(RootWorkingFields())
    ensures Route(RootWorkingFields(), key) ==
      if key == "field1" then (0, "field1")
      else if key == "field2" then (1, "field2")
      else (2, key)
  {
    RootWorkingCompilable();
    var fields := RootWorkingFields();
    RootWorkingNoAliases(0);
    RootWorkingNoAliases(1);
    RootWorkingNoAliases(2);
    assert forall i :: 0 <= i < 3 ==> (Matches(fields[i], key) <==> key == fields[i].name);
    if key == "field1" {
      FirstMatchAt(fields, key, 0);
    } else if key == "field2" {
      FirstMatchAt(fields, key, 1);
    } else if key == "unknown" {
      FirstMatchAt(fields, key, 2);
    }
  }

  /** `next_value::<String>()` of the manual visitor, read off the decoder of
      the derived one. */
  function StrOf<R(!new)>(dec: (Ty, R) -> Result<Val, Error>): R -> Result<string, Error> {
    (raw: R) =>
      match dec(TyString, raw)
      case Success(v) => if v.StringVal? then Success(v.s) else Failure(Custom("not a string"))
      case Failure(e) => Failure(e)
  }

  /** `next_value::<Value>()`, likewise. */
  function JsonOf<R(!new)>(dec: (Ty, R) -> Result<Val, Error>): R -> Result<Value, Error> {
    (raw: R) =>
      match dec(TyValue, raw)
      case Success(v) => if v.ValueVal? then Success(v.v) else Failure(Custom("not a value"))
      case Failure(e) => Failure(e)
  }

  /** `next_element::<Vec<String>>()`, likewise. */
  function StringsOf<R(!new)>(dec: (Ty, R) -> Result<Val, Error>): R -> Result<seq<string>, Error> {
    (raw: R) =>
      match dec(TyVec(TyString), raw)
      case Success(v) =>
        if v.VecVal? && forall k :: 0 <= k < |v.items| ==> v.items[k].StringVal?
        then Success(seq(|v.items|, k requires 0 <= k < |v.items| && v.items[k].StringVal? => v.items[k].s))
        else Failure(Custom("not a list of strings"))
      case Failure(e) => Failure(e)
  }

  function StringVals(ss: seq<string>): (vs: seq<Val>)
    ensures |vs| == |ss| && forall k :: 0 <= k < |ss| ==> vs[k] == StringVal(ss[k])
  {
    seq(|ss|, k requires 0 <= k < |ss| => StringVal(ss[k]))
  }

  /** The manual record as the derived model's field values. */
  function Embed(r: ManualImpl.RootWorkingManualImpl): (vals: seq<Val>)
    ensures WellTyped(RootWorkingFields(), vals)
  {
    [VecVal(StringVals(r.field1)), VecVal(StringVals(r.field2)), MapVal(r.unknown)]
  }

  /** A string or value the manual visitor defaults is the one the derived
      visitor defaults. */
  lemma DecodersAgree<R(!new)>(dec: (Ty, R) -> Result<Val, Error>, raw: R)
    requires TypedDecoder(dec)
    ensures DecodeOrDefault(dec, TyString, raw) == StringVal(StrOf(dec)(raw).GetOr(""))
    ensures DecodeOrDefault(dec, TyValue, raw) == ValueVal(JsonOf(dec)(raw).GetOr(Null))
  {
  }

  /** One pair, handed to the derived fold and to the hand-written loop body,
      has the same effect. */
  lemma PairStepAgrees<R(!new)>(input: seq<Entry<R>>, key: string, raw: R, dec: (Ty, R) -> Result<Val, Error>)
    requires TypedDecoder(dec)
    ensures Compilable(RootWorkingFields())
    ensures MapStep(RootWorkingFields(), Manual(input, dec), key, raw, dec) == Manual(input + [Pair(key, raw)], dec)
  {
    ManualPairSnoc(input, key, raw, dec);
    RecordStep(ManualImpl.RootWorkingManualImpl(
      ManualImpl.KeyedValues(input, ManualImpl.Field1, StrOf(dec)),
      ManualImpl.KeyedValues(input, ManualImpl.Field2, StrOf(dec)),
      ManualImpl.UnknownEntries(input, JsonOf(dec))), key, raw, dec);
  }

  /** The derived loop body on the demo record: the decoded string is appended
      to `field1` or `field2`, any other key's decoded value is inserted into
      the bucket under that key. */
  lemma RecordStep<R(!new)>(r: ManualImpl.RootWorkingManualImpl, key: string, raw: R, dec: (Ty, R) -> Result<Val, Error>)
    requires TypedDecoder(dec)
    ensures Compilable(RootWorkingFields())
    ensures MapStep(RootWorkingFields(), Embed(r), key, raw, dec) == Embed(
      if key == "field1" then r.(field1 := r.field1 + [StrOf(dec)(raw).GetOr("")])
      else if key == "field2" then r.(field2 := r.field2 + [StrOf(dec)(raw).GetOr("")])
      else r.(unknown := r.unknown[key := JsonOf(dec)(raw).GetOr(Null)]))
  {
    RootWorkingCompilable();
    var x := StrOf(dec)(raw).GetOr("");
    if key == "field1" {
      FieldStep(r, 0, key, raw, dec);
      assert Embed(r.(field1 := r.field1 + [x])) == Embed(r)[0 := VecVal(StringVals(r.field1 + [x]))];
    } else if key == "field2" {
      FieldStep(r, 1, key, raw, dec);
      assert Embed(r.(field2 := r.field2 + [x])) == Embed(r)[1 := VecVal(StringVals(r.field2 + [x]))];
    } else {
      BucketStep(r, key, raw, dec);
      var y := JsonOf(dec)(raw).GetOr(Null);
      assert Embed(r.(unknown := r.unknown[key := y])) == Embed(r)[2 := MapVal(r.unknown[key := y])];
    }
  }

  /** A key naming one of the two `Vec<String>` fields appends to it. */
  lemma FieldStep<R(!new)>(r: ManualImpl.RootWorkingManualImpl, i: nat, key: string, raw: R,
                           dec: (Ty, R) -> Result<Val, Error>)
    requires TypedDecoder(dec) && i < 2 && key == RootWorkingFields()[i].name
    ensures Compilable(RootWorkingFields())
    ensures MapStep(RootWorkingFields(), Embed(r), key, raw, dec) ==
      Embed(r)[i := VecVal(StringVals((if i == 0 then r.field1 else r.field2) + [StrOf(dec)(raw).GetOr("")]))]
  {
    RootWorkingRoute(key);
    DecodersAgree(dec, raw);
    VecStep(Embed(r), i, if i == 0 then r.field1 else r.field2, key, StrOf(dec)(raw).GetOr(""));
  }

  /** Any other key inserts into the bucket under itself. */
  lemma BucketStep<R(!new)>(r: ManualImpl.RootWorkingManualImpl, key: string, raw: R,
                            dec: (Ty, R) -> Result<Val, Error>)
    requires TypedDecoder(dec) && key != "field1" && key != "field2"
    ensures Compilable(RootWorkingFields())
    ensures MapStep(RootWorkingFields(), Embed(r), key, raw, dec) ==
      Embed(r)[2 := MapVal(r.unknown[key := JsonOf(dec)(raw).GetOr(Null)])]
  {
    RootWorkingRoute(key);
    DecodersAgree(dec, raw);
  }

  /** Appending a string to a `Vec<String>` field is appending its value. */
  lemma VecStep(vals: seq<Val>, i: nat, ss: seq<string>, key: string, x: string)
    requires i < |vals| && vals[i] == VecVal(StringVals(ss))
    ensures vals[i := Merge(TyVec(TyString), vals[i], key, StringVal(x))] == vals[i := VecVal(StringVals(ss + [x]))]
  {
    assert StringVals(ss + [x]) == StringVals(ss) + [StringVal(x)];
  }

  /** The hand-written loop body for one pair: the value goes to `field1`,
      to `field2`, or into the bucket under its key. */
  lemma ManualPairSnoc<R(!new)>(input: seq<Entry<R>>, key: string, raw: R, dec: (Ty, R) -> Result<Val, Error>)
    ensures ManualImpl.KeyedValues(input + [Pair(key, raw)], ManualImpl.Field1, StrOf(dec)) ==
      if key == "field1"
      then ManualImpl.KeyedValues(input, ManualImpl.Field1, StrOf(dec)) + [StrOf(dec)(raw).GetOr("")]
      else ManualImpl.KeyedValues(input, ManualImpl.Field1, StrOf(dec))
    ensures ManualImpl.KeyedValues(input + [Pair(key, raw)], ManualImpl.Field2, StrOf(dec)) ==
      if key == "field2"
      then ManualImpl.KeyedValues(input, ManualImpl.Field2, StrOf(dec)) + [StrOf(dec)(raw).GetOr("")]
      else ManualImpl.KeyedValues(input, ManualImpl.Field2, StrOf(dec))
    ensures ManualImpl.UnknownEntries(input + [Pair(key, raw)], JsonOf(dec)) ==
      if key == "field1" || key == "field2" then ManualImpl.UnknownEntries(input, JsonOf(dec))
      else ManualImpl.UnknownEntries(input, JsonOf(dec))[key := JsonOf(dec)(raw).GetOr(Null)]
  {
    var input' := input + [Pair(key, raw)];
    assert input'[..|input'| - 1] == input;
    assert ManualImpl.KeyedValues(input, ManualImpl.Field1, StrOf(dec)) + [] ==
      ManualImpl.KeyedValues(input, ManualImpl.Field1, StrOf(dec));
    assert ManualImpl.KeyedValues(input, ManualImpl.Field2, StrOf(dec)) + [] ==
      ManualImpl.KeyedValues(input, ManualImpl.Field2, StrOf(dec));
  }

  /** A key that cannot be read changes none of the manual accumulators. */
  lemma KeyErrorStepAgrees<R(!new)>(input: seq<Entry<R>>, e: Error, dec: (Ty, R) -> Result<Val, Error>)
    ensures Manual(input + [KeyError(e)], dec) == Manual(input, dec)
  {
    var input' := input + [KeyError(e)];
    assert input'[..|input'| - 1] == input;
    assert ManualImpl.KeyedValues(input', ManualImpl.Field1, StrOf(dec)) ==
      ManualImpl.KeyedValues(input, ManualImpl.Field1, StrOf(dec));
    assert ManualImpl.KeyedValues(input', ManualImpl.Field2, StrOf(dec)) ==
      ManualImpl.KeyedValues(input, ManualImpl.Field2, StrOf(dec));
  }

  /** The hand-written visitor's accumulators after `input`, as field values. */
  function Manual<R(!new)>(input: seq<Entry<R>>, dec: (Ty, R) -> Result<Val, Error>): (vals: seq<Val>)
    ensures WellTyped(RootWorkingFields(), vals)
  {
    Embed(ManualImpl.RootWorkingManualImpl(
      ManualImpl.KeyedValues(input, ManualImpl.Field1, StrOf(dec)),
      ManualImpl.KeyedValues(input, ManualImpl.Field2, StrOf(dec)),
      ManualImpl.UnknownEntries(input, JsonOf(dec))))
  }

  /** On every key stream, the derived fold ends where the hand-written loop
      does: the values of `field1`, those of `field2`, and the bucket. */
  lemma {:induction false} DerivedMatchesManual<R(!new)>(input: seq<Entry<R>>, dec: (Ty, R) -> Result<Val, Error>)
    requires TypedDecoder(dec)
    ensures Compilable(RootWorkingFields())
    ensures Accumulate(RootWorkingFields(), input, dec) == Manual(input, dec)
    decreases |input|
  {
    RootWorkingCompilable();
    if |input| > 0 {
      var init := input[..|input| - 1];
      var last := input[|input| - 1];
      assert input == init + [last];
      DerivedMatchesManual(init, dec);
      if last.Pair? {
        PairStepAgrees(init, last.key, last.raw, dec);
      } else {
        KeyErrorStepAgrees(init, last.error, dec);
      }
    }
  }

  /** Both keyed visitors, run on the same stream: they fail together, with
      the same error, and otherwise build the same record. */
  method BothVisitMaps<R(!new)>(input: seq<Entry<R>>, dec: (Ty, R) -> Result<Val, Error>)
    returns (derived: Result<seq<Val>, Error>, manual: Result<ManualImpl.RootWorkingManualImpl, Error>)
    requires TypedDecoder(dec)
    ensures derived.Failure? <==> manual.Failure?
    ensures manual.Failure? ==> derived.error == manual.error
    ensures manual.Success? ==> derived.value == Embed(manual.value)
  {
    RootWorkingCompilable();
    DerivedMatchesManual(input, dec);
    derived := DerivedVisitMap(RootWorkingInput(), input, dec);
    manual := ManualImpl.VisitMap(input, StrOf(dec), JsonOf(dec));
  }

  /** The derived positional visitor reads one element per field, `unknown`
      included: two decodable elements are too few for it. */
  lemma DerivedSeqNeedsThree<R(!new)>(items: seq<R>, dec: (Ty, R) -> Result<Val, Error>)
    requires |items| == 2
    requires dec(TyVec(TyString), items[0]).Success? && dec(TyVec(TyString), items[1]).Success?
    ensures SeqSpec(RootWorkingFields(), items, dec) == Failure(InvalidLength(2))
  {
    SeqSpecTooShort(RootWorkingFields(), items, dec);
  }

  /** Both positional visitors on two decodable elements: the hand-written one
      succeeds, the derived one reports `invalid_length(2)`. */
  method BothVisitSeqs<R(!new)>(items: seq<R>, dec: (Ty, R) -> Result<Val, Error>)
    returns (derived: Result<seq<Val>, Error>, manual: Result<ManualImpl.RootWorkingManualImpl, Error>)
    requires TypedDecoder(dec) && |items| == 2
    requires StringsOf(dec)(items[0]).Success? && StringsOf(dec)(items[1]).Success?
    ensures manual.Success? && manual.value.unknown == map[]
    ensures derived == Failure(InvalidLength(2))
  {
    RootWorkingCompilable();
    DerivedSeqNeedsThree(items, dec);
    derived := DerivedVisitSeq(RootWorkingInput(), items, dec);
    manual := ManualImpl.VisitSeq(items, StringsOf(dec));
  }
}
