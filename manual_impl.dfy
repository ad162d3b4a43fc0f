/** The hand-written `Deserialize` impl of `RootWorkingManualImpl`
    (`field1: Vec<String>`, `field2: Vec<String>`, `unknown: HashMap<String, Value>`):
    its key resolver, its keyed visitor and its positional visitor.

    The raw values of the input have the format's own type `R`; decoding one into
    a `String` or a `Value` (serde's `next_value`) is the caller-supplied `str` or
    `json`, and may fail. */
module ManualImpl {
  import opened Wrappers
  import opened Serde
  import opened BestEffort

  datatype RootWorkingManualImpl =
    RootWorkingManualImpl(field1: seq<string>, field2: seq<string>, unknown: map<string, Value>)

  /** The per-record key identifier. */
  datatype Field = Field1 | Field2 | Unknown(name: string)

  /** `FieldVisitor::visit_str`: exact, case-sensitive match on the two field
      names; every other key becomes `Unknown` carrying the key. Never an error. */
  function VisitStr(value: string): (f: Field)
    ensures f == Field1 <==> value == "field1"
    ensures f == Field2 <==> value == "field2"
    ensures f.Unknown? <==> value != "field1" && value != "field2"
    ensures f.Unknown? ==> f.name == value
  {
    match value
    case "field1" => Field1
    case "field2" => Field2
    case _ => Unknown(value)
  }

  /** The values a field accumulates from `input`: one per pair whose key
      resolves to it, in arrival order, a value that fails to decode counting as
      `""`. */
  function KeyedValues<R>(input: seq<Entry<R>>, which: Field, str: R -> Result<string, Error>): seq<string>
    decreases |input|
  {
    if |input| == 0 then []
    else
      var last := input[|input| - 1];
      KeyedValues(input[..|input| - 1], which, str)
        + if last.Pair? && VisitStr(last.key) == which then [str(last.raw).GetOr("")] else []
  }

  /** The unknown-key bucket built from `input`: each pair whose key is neither
      field name inserted under its own key, a later pair replacing an earlier
      one, a value that fails to decode counting as `Null`. */
  function UnknownEntries<R>(input: seq<Entry<R>>, json: R -> Result<Value, Error>): map<string, Value>
    decreases |input|
  {
    if |input| == 0 then map[]
    else
      var last := input[|input| - 1];
      var m := UnknownEntries(input[..|input| - 1], json);
      if last.Pair? && VisitStr(last.key).Unknown? then m[last.key := json(last.raw).GetOr(Null)] else m
  }

  /** `RootWorkingManualImplVisitor::visit_map`. All three accumulators start
      empty; each key is resolved and its value, decoded or defaulted, handed to
      that accumulator's add_data. A key that cannot be read aborts the loop and
      its error is the result. */
  method VisitMap<R>(input: seq<Entry<R>>, str: R -> Result<string, Error>, json: R -> Result<Value, Error>)
    returns (result: Result<RootWorkingManualImpl, Error>)
    ensures result.Failure? <==> FirstKeyError(input).Some?
    ensures result.Failure? ==> result.error == input[FirstKeyError(input).value].error
    ensures result.Success? ==> result.value == RootWorkingManualImpl(
      KeyedValues(input, Field1, str), KeyedValues(input, Field2, str), UnknownEntries(input, json))
    ensures |input| == 0 ==> result == Success(RootWorkingManualImpl([], [], map[]))
  {
    var field1: seq<string> := [];
    var field2: seq<string> := [];
    var unknown: map<string, Value> := map[];
    var j := 0;
    while j < |input|
      invariant 0 <= j <= |input|
      invariant forall k :: 0 <= k < j ==> input[k].Pair?
      invariant field1 == KeyedValues(input[..j], Field1, str)
      invariant field2 == KeyedValues(input[..j], Field2, str)
      invariant unknown == UnknownEntries(input[..j], json)
    {
      assert input[..j + 1][..j] == input[..j];
      match input[j] {
        case KeyError(e) =>
          result := Failure(e);
          return;
        case Pair(key, raw) =>
          match VisitStr(key) {
            case Field1 =>
              var next := str(raw).GetOr("");
              field1 := AddDataVec(field1, "field1", next);
            case Field2 =>
              var next := str(raw).GetOr("");
              field2 := AddDataVec(field2, "field2", next);
            case Unknown(keyName) =>
              var next := json(raw).GetOr(Null);
              unknown := AddDataHashMap(unknown, keyName, next);
          }
      }
      j := j + 1;
    }
    assert input[..j] == input;
    result := Success(RootWorkingManualImpl(field1, field2, unknown));
  }

  /** `RootWorkingManualImplVisitor::visit_seq`: the first two elements are
      decoded as `field1` and `field2` (a decode error propagates); a missing
      element `i` gives `invalid_length(i)`; `unknown` is left empty. */
  method VisitSeq<R>(items: seq<R>, strings: R -> Result<seq<string>, Error>)
    returns (result: Result<RootWorkingManualImpl, Error>)
    ensures |items| == 0 ==> result == Failure(InvalidLength(0))
    ensures |items| >= 1 && strings(items[0]).Failure? ==> result == Failure(strings(items[0]).error)
    ensures |items| == 1 && strings(items[0]).Success? ==> result == Failure(InvalidLength(1))
    ensures |items| >= 2 && strings(items[0]).Success? && strings(items[1]).Failure?
            ==> result == Failure(strings(items[1]).error)
    ensures result.Success? <==> |items| >= 2 && strings(items[0]).Success? && strings(items[1]).Success?
    ensures result.Success? ==>
      result.value == RootWorkingManualImpl(strings(items[0]).value, strings(items[1]).value, map[])
  {
    if |items| < 1 {
      return Failure(InvalidLength(0));
    }
    var first := strings(items[0]);
    if first.Failure? {
      return Failure(first.error);
    }
    if |items| < 2 {
      return Failure(InvalidLength(1));
    }
    var second := strings(items[1]);
    if second.Failure? {
      return Failure(second.error);
    }
    result := Success(RootWorkingManualImpl(first.value, second.value, map[]));
  }

  /** The number of pairs of `input` whose key resolves to `which`. */
  function CountKeys<R>(input: seq<Entry<R>>, which: Field): nat {
    if |input| == 0 then 0
    else (if input[0].Pair? && VisitStr(input[0].key) == which then 1 else 0) + CountKeys(input[1..], which)
  }

  /** Arrival order: the values of a concatenated input are those of the first
      part followed by those of the second. */
  lemma {:induction false} KeyedValuesAppend<R>(a: seq<Entry<R>>, b: seq<Entry<R>>, which: Field,
                                               str: R -> Result<string, Error>)
    ensures KeyedValues(a + b, which, str) == KeyedValues(a, which, str) + KeyedValues(b, which, str)
    decreases |b|
  {
    if |b| == 0 {
      assert a + b == a;
    } else {
      var b' := b[..|b| - 1];
      assert (a + b)[..|a + b| - 1] == a + b';
      KeyedValuesAppend(a, b', which, str);
    }
  }

  /** A value is kept for every occurrence of the key, decodable or not: the
      field has exactly as many values as the input has pairs for it. */
  lemma {:induction false} KeyedValuesCount<R>(input: seq<Entry<R>>, which: Field, str: R -> Result<string, Error>)
    ensures |KeyedValues(input, which, str)| == CountKeys(input, which)
    decreases |input|
  {
    if |input| > 0 {
      KeyedValuesCount(input[1..], which, str);
      KeyedValuesAppend([input[0]], input[1..], which, str);
      assert [input[0]] + input[1..] == input;
      assert [input[0]][..0] == [];
    }
  }

  /** A pair whose key resolves to `Unknown` leaves both fields as they were. */
  lemma UnknownKeyLeavesFields<R>(input: seq<Entry<R>>, key: string, raw: R, str: R -> Result<string, Error>)
    requires VisitStr(key).Unknown?
    ensures KeyedValues(input + [Pair(key, raw)], Field1, str) == KeyedValues(input, Field1, str)
    ensures KeyedValues(input + [Pair(key, raw)], Field2, str) == KeyedValues(input, Field2, str)
  {
    assert (input + [Pair(key, raw)])[..|input|] == input;
  }

  /** A key lands in the bucket exactly when some pair carries it and it is not
      a field name. */
  lemma {:induction false} UnknownEntriesKeys<R>(input: seq<Entry<R>>, json: R -> Result<Value, Error>, k: string)
    ensures k in UnknownEntries(input, json) <==>
      VisitStr(k).Unknown? && exists j :: 0 <= j < |input| && input[j].Pair? && input[j].key == k
    decreases |input|
  {
    if |input| > 0 {
      var init := input[..|input| - 1];
      UnknownEntriesKeys(init, json, k);
      if k in UnknownEntries(init, json) {
        var j :| 0 <= j < |init| && init[j].Pair? && init[j].key == k;
        assert input[j] == init[j];
      }
      if exists j :: 0 <= j < |input| && input[j].Pair? && input[j].key == k {
        var j :| 0 <= j < |input| && input[j].Pair? && input[j].key == k;
        if j < |init| {
          assert init[j] == input[j];
        }
      }
    }
  }

  /** For a key in the bucket, the last pair carrying it decides its value. */
  lemma {:induction false} UnknownEntriesLastWins<R>(input: seq<Entry<R>>, json: R -> Result<Value, Error>, j: nat)
    requires j < |input| && input[j].Pair? && VisitStr(input[j].key).Unknown?
    requires forall j' :: j < j' < |input| ==> !(input[j'].Pair? && input[j'].key == input[j].key)
    ensures input[j].key in UnknownEntries(input, json)
    ensures UnknownEntries(input, json)[input[j].key] == json(input[j].raw).GetOr(Null)
    decreases |input|
  {
    if j < |input| - 1 {
      var init := input[..|input| - 1];
      UnknownEntriesLastWins(init, json, j);
    }
  }
}
