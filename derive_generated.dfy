/** The behaviour of the code the derive macro generates: the key resolver
    (`visit_str` over the generated match table), the keyed visitor
    (`visit_map`) and the positional visitor (`visit_seq`). Each is stated first
    on the field descriptors alone, then run as an interpreter over the
    generators' output, which is proved to behave as stated. */
module Generated {
  import opened Wrappers
  import opened Serde
  import opened Types
  import opened BestEffort
  import opened Syntax
  import opened Seqs
  import opened Codegen

  // ---------------------------------------------------------------------------
  // Key resolution

  /** What the generated `visit_str` makes of a key: one of the field
      variants, or `Unknown` carrying the key. */
  datatype FieldKey = Known(variant: string) | UnknownKey(name: string)

  /** Running the generated `match value { .. }`: the first arm whose pattern
      is the key wins; past the last arm, the key is `Unknown`. */
  function Resolve(arms: seq<MatchArm>, value: string): (r: FieldKey)
    ensures r.UnknownKey? <==> forall k :: 0 <= k < |arms| ==> arms[k].pattern != value
    ensures r.UnknownKey? ==> r.name == value
    ensures r.Known? ==> exists k :: 0 <= k < |arms| && arms[k].pattern == value && r.variant == arms[k].variant
                                  && forall j :: 0 <= j < k ==> arms[j].pattern != value
    decreases |arms|
  {
    if |arms| == 0 then UnknownKey(value)
    else if arms[0].pattern == value then Known(arms[0].variant)
    else
      var r := Resolve(arms[1..], value);
      assert forall k :: 1 <= k < |arms| ==> arms[k] == arms[1..][k - 1];
      assert r.Known? ==> exists k :: 1 <= k < |arms| && arms[k].pattern == value && r.variant == arms[k].variant
                                   && forall j :: 0 <= j < k ==> arms[j].pattern != value;
      r
  }

  /** A key a field answers to: its own name or one of its aliases. */
  predicate Matches(f: Field, key: string) {
    key == f.name || key in Aliases(f.attrs)
  }

  /** The first field, in declaration order, that answers to `key`. */
  function FirstMatch(fields: seq<Field>, key: string): (r: Option<nat>)
    ensures r.Some? ==> r.value < |fields| && Matches(fields[r.value], key)
    ensures r.Some? ==> forall j :: 0 <= j < r.value ==> !Matches(fields[j], key)
    ensures r.None? <==> forall j :: 0 <= j < |fields| ==> !Matches(fields[j], key)
    decreases |fields|
  {
    if |fields| == 0 then None
    else
      var n := |fields| - 1;
      match FirstMatch(fields[..n], key)
      case Some(i) => Some(i)
      case None => if Matches(fields[n], key) then Some(n) else None
  }

  /** The arm list of two tables in a row: the first table decides every key
      it knows. */
  lemma {:induction false} ResolveAppend(a: seq<MatchArm>, b: seq<MatchArm>, key: string)
    ensures Resolve(a + b, key) == if Resolve(a, key).Known? then Resolve(a, key) else Resolve(b, key)
    decreases |a|
  {
    if |a| == 0 {
      assert a + b == b;
    } else {
      assert (a + b)[0] == a[0];
      assert (a + b)[1..] == a[1..] + b;
      ResolveAppend(a[1..], b, key);
    }
  }

  /** The alias arms of one field send exactly its aliases to its variant. */
  lemma {:induction false} ResolveAliasArms(aliases: seq<string>, variant: string, key: string)
    ensures Resolve(AliasArms(aliases, variant), key) ==
      if key in aliases then Known(variant) else UnknownKey(key)
    decreases |aliases|
  {
    var arms := AliasArms(aliases, variant);
    if |aliases| > 0 && aliases[0] != key {
      assert arms[1..] == AliasArms(aliases[1..], variant);
      ResolveAliasArms(aliases[1..], variant, key);
      assert key in aliases <==> key in aliases[1..] by {
        assert aliases == [aliases[0]] + aliases[1..];
      }
    }
  }

  /** The arms of field `i` send its name and its aliases to `Enum{i}`. */
  lemma ResolveOwnArms(i: nat, f: Field, key: string)
    ensures Resolve(OwnArms(i, f), key) ==
      if Matches(f, key) then Known(GetEnumIdent(f.name, i)) else UnknownKey(key)
  {
    var arms := OwnArms(i, f);
    if key != f.name {
      assert arms[1..] == AliasArms(Aliases(f.attrs), GetEnumIdent(f.name, i));
      ResolveAliasArms(Aliases(f.attrs), GetEnumIdent(f.name, i), key);
    }
  }

  /** The table ends with the arms of the last field. */
  lemma MatchTableSnoc(fields: seq<Field>)
    requires |fields| > 0
    ensures MatchTable(fields) == MatchTable(fields[..|fields| - 1]) + OwnArms(|fields| - 1, fields[|fields| - 1])
  {
    var n := |fields| - 1;
    IndexedFlatMapStep(fields, OwnArms, n);
    assert fields[..n + 1] == fields;
  }

  /** The generated resolver agrees with the descriptors: a key resolves to
      `Enum{i}` for the first field `i` that answers to it, and to
      `Unknown(key)` when no field does. On a name or alias shared by several
      fields, the earliest field wins. */
  lemma {:induction false} ResolveMatchTable(fields: seq<Field>, key: string)
    ensures Resolve(MatchTable(fields), key) ==
      match FirstMatch(fields, key)
      case Some(i) => Known(GetEnumIdent(fields[i].name, i))
      case None => UnknownKey(key)
    decreases |fields|
  {
    if |fields| == 0 {
    } else {
      var n := |fields| - 1;
      MatchTableSnoc(fields);
      ResolveAppend(MatchTable(fields[..n]), OwnArms(n, fields[n]), key);
      ResolveMatchTable(fields[..n], key);
      ResolveOwnArms(n, fields[n], key);
    }
  }

  // ---------------------------------------------------------------------------
  // The record the generated code compiles for

  /** The position of the field called `name`. */
  function IndexOfName(fields: seq<Field>, name: string): (r: Option<nat>)
    ensures r.Some? ==> r.value < |fields| && fields[r.value].name == name
    ensures r.None? <==> forall j :: 0 <= j < |fields| ==> fields[j].name != name
    decreases |fields|
  {
    if |fields| == 0 then None
    else
      var n := |fields| - 1;
      match IndexOfName(fields[..n], name)
      case Some(i) => Some(i)
      case None => if fields[n].name == name then Some(n) else None
  }

  predicate DistinctNames(fields: seq<Field>) {
    forall i, j :: 0 <= i < j < |fields| ==> fields[i].name != fields[j].name
  }

  /** A field name the generated `visit_map` cannot use for its local: the
      local would hide the `map` parameter, be hidden inside the loop by the
      `key` binding, clash with an arm's `let next_value`, or try to rebind a
      variant of the prelude. */
  predicate ClashesInVisitMap(name: string) {
    name == "map" || name == "key" || name == "next_value"
    || name == "Some" || name == "None" || name == "Ok" || name == "Err"
  }

  /** The generated code binds its field locals beside its own identifiers:
      no field clashes with those of `visit_map`, and only the last field may
      be called `seq` (an earlier one would hide the `seq` parameter from the
      `let` that follows it). */
  predicate NoLocalClashes(fields: seq<Field>) {
    && (forall i :: 0 <= i < |fields| ==> !ClashesInVisitMap(fields[i].name))
    && (forall i :: 0 <= i < |fields| - 1 ==> fields[i].name != "seq")
  }

  /** What the generated code needs in order to compile: distinct field names
      (a struct cannot have two fields of one name), an add_data impl for every
      field type, no malformed `serde` attribute (the macro would panic), a
      field called `unknown` (the fallback arm of the generated `match key`
      names that variable), and no field local clashing with an identifier
      of the generated bodies. */
  predicate Compilable(fields: seq<Field>) {
    && DistinctNames(fields)
    && (forall i :: 0 <= i < |fields| ==> Supported(fields[i].ty))
    && AllWellFormed(fields)
    && IndexOfName(fields, "unknown").Some?
    && NoLocalClashes(fields)
  }

  /** The position of the `unknown` field, which receives every key no field
      answers to. */
  function UnknownSlot(fields: seq<Field>): (u: nat)
    requires Compilable(fields)
    ensures u < |fields| && fields[u].name == "unknown"
    ensures forall j :: 0 <= j < |fields| && fields[j].name == "unknown" ==> j == u
  {
    IndexOfName(fields, "unknown").value
  }

  /** `next_value` / `next_element` only ever produce a value of the type asked for. */
  ghost predicate TypedDecoder<R(!new)>(dec: (Ty, R) -> Result<Val, Error>) {
    forall t: Ty, raw: R :: dec(t, raw).Success? ==> HasType(dec(t, raw).value, t)
  }

  /** `map.next_value().unwrap_or_default()` asked for a `t`. */
  function DecodeOrDefault<R(!new)>(dec: (Ty, R) -> Result<Val, Error>, t: Ty, raw: R): (v: Val)
    ensures TypedDecoder(dec) ==> HasType(v, t)
    ensures dec(t, raw).Failure? ==> v == Default(t)
  {
    match dec(t, raw)
    case Success(v) => v
    case Failure(_) => Default(t)
  }

  /** Field `i` holds a value of field `i`'s type. */
  predicate WellTyped(fields: seq<Field>, vals: seq<Val>) {
    |vals| == |fields| && forall i :: 0 <= i < |fields| ==> HasType(vals[i], fields[i].ty)
  }

  /** Every field at its type's `Default::default()`. */
  function Defaults(fields: seq<Field>): (vals: seq<Val>)
    ensures WellTyped(fields, vals)
    ensures forall i :: 0 <= i < |fields| ==> vals[i] == Default(fields[i].ty)
  {
    seq(|fields|, i requires 0 <= i < |fields| => Default(fields[i].ty))
  }

  // ---------------------------------------------------------------------------
  // The generated `visit_map`, stated on the descriptors

  /** The field a key is handed to, and the key argument its add_data gets:
      the first field answering to the key, with that field's own name; or
      the `unknown` field, with the incoming key. */
  function Route(fields: seq<Field>, key: string): (r: (nat, string))
    requires Compilable(fields)
    ensures r.0 < |fields|
  {
    match FirstMatch(fields, key)
    case Some(i) => (i, fields[i].name)
    case None => (UnknownSlot(fields), key)
  }

  /** One pass of the loop body: the value, decoded as the type the routed
      field's add_data takes (or defaulted), is merged into that field. */
  function MapStep<R(!new)>(fields: seq<Field>, vals: seq<Val>, key: string, raw: R,
                      dec: (Ty, R) -> Result<Val, Error>): (r: seq<Val>)
    requires Compilable(fields) && TypedDecoder(dec) && WellTyped(fields, vals)
    ensures WellTyped(fields, r)
    ensures forall j :: 0 <= j < |fields| && j != Route(fields, key).0 ==> r[j] == vals[j]
  {
    var (slot, keyArg) := Route(fields, key);
    var t := fields[slot].ty;
    vals[slot := Merge(t, vals[slot], keyArg, DecodeOrDefault(dec, ElemTy(t), raw))]
  }

  /** The fields once the loop has handed every pair of `input`, in order, to
      `MapStep`, starting from their defaults. */
  function Accumulate<R(!new)>(fields: seq<Field>, input: seq<Entry<R>>, dec: (Ty, R) -> Result<Val, Error>)
    : (vals: seq<Val>)
    requires Compilable(fields) && TypedDecoder(dec)
    ensures WellTyped(fields, vals)
    decreases |input|
  {
    if |input| == 0 then Defaults(fields)
    else
      var last := input[|input| - 1];
      var vals := Accumulate(fields, input[..|input| - 1], dec);
      if last.Pair? then MapStep(fields, vals, last.key, last.raw, dec) else vals
  }

  /** The whole generated `visit_map`: the first key that cannot be read
      aborts the loop with its error; otherwise the record is the fields after
      every pair has been folded in. */
  function MapSpec<R(!new)>(fields: seq<Field>, input: seq<Entry<R>>, dec: (Ty, R) -> Result<Val, Error>)
    : (r: Result<seq<Val>, Error>)
    requires Compilable(fields) && TypedDecoder(dec)
  {
    match FirstKeyError(input)
    case Some(k) => Failure(input[k].error)
    case None => Success(Accumulate(fields, input, dec))
  }

  /** One more entry read by the loop: a key that cannot be read decides the
      outcome, a pair extends the fold by one `MapStep`. */
  lemma MapSpecStep<R(!new)>(fields: seq<Field>, input: seq<Entry<R>>, j: nat, dec: (Ty, R) -> Result<Val, Error>)
    requires Compilable(fields) && TypedDecoder(dec) && j < |input|
    requires FirstKeyError(input[..j]).None?
    ensures input[j].KeyError? ==> MapSpec(fields, input, dec) == Failure(input[j].error)
    ensures input[j].Pair? ==> FirstKeyError(input[..j + 1]).None?
    ensures input[j].Pair? ==>
      Accumulate(fields, input[..j + 1], dec) ==
        MapStep(fields, Accumulate(fields, input[..j], dec), input[j].key, input[j].raw, dec)
  {
    assert input[..j + 1][..j] == input[..j];
    FirstKeyErrorSnoc(input[..j], input[j]);
    assert input[..j] + [input[j]] == input[..j + 1];
    if input[j].KeyError? {
      assert forall k :: 0 <= k < j ==> input[k] == input[..j][k];
      FirstKeyErrorAt(input, j);
    }
  }

  /** The values routed to field `i`, decoded as the type its add_data takes,
      in arrival order. */
  function RoutedValues<R(!new)>(fields: seq<Field>, input: seq<Entry<R>>, i: nat,
                           dec: (Ty, R) -> Result<Val, Error>): seq<Val>
    requires Compilable(fields) && i < |fields|
    decreases |input|
  {
    if |input| == 0 then []
    else
      var last := input[|input| - 1];
      RoutedValues(fields, input[..|input| - 1], i, dec)
        + if last.Pair? && Route(fields, last.key).0 == i
          then [DecodeOrDefault(dec, ElemTy(fields[i].ty), last.raw)] else []
  }

  /** A `Vec` field ends up with its default (empty) followed by every value
      routed to it, in arrival order: repeated keys append, none is lost. */
  lemma {:induction false} VecFieldCollects<R(!new)>(fields: seq<Field>, input: seq<Entry<R>>, i: nat,
                                              dec: (Ty, R) -> Result<Val, Error>)
    requires Compilable(fields) && TypedDecoder(dec) && i < |fields| && fields[i].ty.TyVec?
    ensures Accumulate(fields, input, dec)[i] == VecVal(RoutedValues(fields, input, i, dec))
    decreases |input|
  {
    if |input| > 0 {
      VecFieldCollects(fields, input[..|input| - 1], i, dec);
    }
  }

  /** A field no key is routed to keeps its default. */
  lemma {:induction false} UnroutedFieldKeepsDefault<R(!new)>(fields: seq<Field>, input: seq<Entry<R>>, i: nat,
                                                       dec: (Ty, R) -> Result<Val, Error>)
    requires Compilable(fields) && TypedDecoder(dec) && i < |fields|
    requires forall j :: 0 <= j < |input| && input[j].Pair? ==> Route(fields, input[j].key).0 != i
    ensures Accumulate(fields, input, dec)[i] == Default(fields[i].ty)
    decreases |input|
  {
    if |input| > 0 {
      var init := input[..|input| - 1];
      assert forall j :: 0 <= j < |init| ==> init[j] == input[j];
      UnroutedFieldKeepsDefault(fields, init, i, dec);
    }
  }

  /** Alias equivalence: when field `i` is the first to answer both to its name
      and to one of its aliases, a pair under the alias has exactly the effect
      of the same pair under the name. */
  lemma AliasEquivalence<R(!new)>(fields: seq<Field>, vals: seq<Val>, i: nat, alias: string, raw: R,
                            dec: (Ty, R) -> Result<Val, Error>)
    requires Compilable(fields) && TypedDecoder(dec) && WellTyped(fields, vals)
    requires i < |fields| && alias in Aliases(fields[i].attrs)
    requires forall j :: 0 <= j < i ==> !Matches(fields[j], alias) && !Matches(fields[j], fields[i].name)
    ensures MapStep(fields, vals, alias, raw, dec) == MapStep(fields, vals, fields[i].name, raw, dec)
  {
    FirstMatchAt(fields, alias, i);
    FirstMatchAt(fields, fields[i].name, i);
  }

  /** A field answering to a key that no earlier field answers to is the
      first match. */
  lemma FirstMatchAt(fields: seq<Field>, key: string, i: nat)
    requires i < |fields| && Matches(fields[i], key)
    requires forall j :: 0 <= j < i ==> !Matches(fields[j], key)
    ensures FirstMatch(fields, key) == Some(i)
  {
    assert !(forall j :: 0 <= j < |fields| ==> !Matches(fields[j], key));
  }

  // ---------------------------------------------------------------------------
  // The generated `visit_seq`, stated on the descriptors

  /** The generated `visit_seq` for the first `|fields|` fields: field `i` is
      element `i`, decoded as its declared type; a decode error propagates and a
      missing element `i` gives `invalid_length(i)`. Elements past the last
      field are not read. */
  function SeqSpec<R(!new)>(fields: seq<Field>, items: seq<R>, dec: (Ty, R) -> Result<Val, Error>)
    : (r: Result<seq<Val>, Error>)
    ensures r.Success? ==> |r.value| == |fields|
    decreases |fields|
  {
    if |fields| == 0 then Success([])
    else
      var n := |fields| - 1;
      match SeqSpec(fields[..n], items, dec)
      case Failure(e) => Failure(e)
      case Success(vals) =>
        if n >= |items| then Failure(InvalidLength(n))
        else match dec(fields[n].ty, items[n])
          case Failure(e) => Failure(e)
          case Success(v) => Success(vals + [v])
  }

  /** The positional visitor succeeds exactly when there is an element for
      every field and each decodes; field `i` is then element `i`. */
  lemma {:induction false} SeqSpecSuccess<R(!new)>(fields: seq<Field>, items: seq<R>, dec: (Ty, R) -> Result<Val, Error>)
    ensures SeqSpec(fields, items, dec).Success? <==>
      |items| >= |fields| && forall i :: 0 <= i < |fields| ==> dec(fields[i].ty, items[i]).Success?
    ensures SeqSpec(fields, items, dec).Success? ==>
      forall i :: 0 <= i < |fields| ==> SeqSpec(fields, items, dec).value[i] == dec(fields[i].ty, items[i]).value
    decreases |fields|
  {
    if |fields| > 0 {
      var n := |fields| - 1;
      SeqSpecSuccess(fields[..n], items, dec);
    }
  }

  /** Too few elements, all decodable: the error is `invalid_length` at the
      first missing position. */
  lemma {:induction false} SeqSpecTooShort<R(!new)>(fields: seq<Field>, items: seq<R>, dec: (Ty, R) -> Result<Val, Error>)
    requires |items| < |fields|
    requires forall i :: 0 <= i < |items| ==> dec(fields[i].ty, items[i]).Success?
    ensures SeqSpec(fields, items, dec) == Failure(InvalidLength(|items|))
    decreases |fields|
  {
    var n := |fields| - 1;
    if n == |items| {
      SeqSpecSuccess(fields[..n], items, dec);
    } else {
      SeqSpecTooShort(fields[..n], items, dec);
    }
  }

  /** One more field read by the loop: a missing or undecodable element
      decides the outcome, a decoded one extends the values. */
  lemma SeqSpecStep<R(!new)>(fields: seq<Field>, items: seq<R>, i: nat, dec: (Ty, R) -> Result<Val, Error>)
    requires i < |fields| && SeqSpec(fields[..i], items, dec).Success?
    ensures i >= |items| ==> SeqSpec(fields, items, dec) == Failure(InvalidLength(i))
    ensures i < |items| && dec(fields[i].ty, items[i]).Failure? ==>
      SeqSpec(fields, items, dec) == Failure(dec(fields[i].ty, items[i]).error)
    ensures i < |items| && dec(fields[i].ty, items[i]).Success? ==>
      SeqSpec(fields[..i + 1], items, dec) ==
        Success(SeqSpec(fields[..i], items, dec).value + [dec(fields[i].ty, items[i]).value])
  {
    assert fields[..i + 1][..i] == fields[..i];
    if i >= |items| || dec(fields[i].ty, items[i]).Failure? {
      SeqSpecFailureSticks(fields, items, i + 1, dec);
    }
  }

  // ---------------------------------------------------------------------------
  // Running the generated code

  /** The generated locals hold the values of `vals`, each under its field's name. */
  ghost predicate EnvHolds(fields: seq<Field>, locals: map<string, Val>, vals: seq<Val>) {
    |vals| == |fields| &&
    forall j :: 0 <= j < |fields| ==> fields[j].name in locals && locals[fields[j].name] == vals[j]
  }

  /** The declared type of every local. */
  ghost predicate TypesHold(fields: seq<Field>, types: map<string, Ty>) {
    forall j :: 0 <= j < |fields| ==> fields[j].name in types && types[fields[j].name] == fields[j].ty
  }

  /** The arms `set_struct_visit_map_enum_match` produced for `fields`. */
  ghost predicate KeyArmsFor(fields: seq<Field>, arms: seq<KeyArm>) {
    |arms| == |fields| &&
    forall i :: 0 <= i < |fields| ==> arms[i] == KeyArm(GetEnumIdent(fields[i].name, i), fields[i].name, fields[i].name)
  }

  /** Rust's `match key { Field::Enum{i} => .. }`: the arm for a variant. */
  function FindArm(arms: seq<KeyArm>, variant: string): (r: Option<nat>)
    ensures r.Some? ==> r.value < |arms| && arms[r.value].variant == variant
    ensures r.None? <==> forall k :: 0 <= k < |arms| ==> arms[k].variant != variant
    decreases |arms|
  {
    if |arms| == 0 then None
    else
      var n := |arms| - 1;
      match FindArm(arms[..n], variant)
      case Some(k) => Some(k)
      case None => if arms[n].variant == variant then Some(n) else None
  }

  /** Each generated arm is the only one for its variant. */
  lemma FindArmAt(fields: seq<Field>, arms: seq<KeyArm>, i: nat)
    requires KeyArmsFor(fields, arms) && i < |fields|
    ensures FindArm(arms, GetEnumIdent(fields[i].name, i)) == Some(i)
  {
    var r := FindArm(arms, GetEnumIdent(fields[i].name, i));
    assert arms[i].variant == GetEnumIdent(fields[i].name, i);
    EnumIdentByPosition(fields[r.value].name, r.value, fields[i].name, i);
  }

  /** `let mut #field: #type_ = Default::default();` for every declaration:
      the locals and their declared types. */
  method DeclareDefaults(decls: seq<LetDefault>) returns (locals: map<string, Val>, types: map<string, Ty>)
    requires forall i, j :: 0 <= i < j < |decls| ==> decls[i].name != decls[j].name
    ensures forall i :: 0 <= i < |decls| ==> decls[i].name in locals && locals[decls[i].name] == Default(decls[i].ty)
    ensures forall i :: 0 <= i < |decls| ==> decls[i].name in types && types[decls[i].name] == decls[i].ty
  {
    locals, types := map[], map[];
    for i := 0 to |decls|
      invariant forall k :: 0 <= k < i ==> decls[k].name in locals && locals[decls[k].name] == Default(decls[k].ty)
      invariant forall k :: 0 <= k < i ==> decls[k].name in types && types[decls[k].name] == decls[k].ty
    {
      locals := locals[decls[i].name := Default(decls[i].ty)];
      types := types[decls[i].name := decls[i].ty];
    }
  }

  /** The record literal `#name { #field, .. }`: the value of each named local,
      in order. */
  method CreateObject(names: seq<string>, locals: map<string, Val>) returns (vals: seq<Val>)
    requires forall i :: 0 <= i < |names| ==> names[i] in locals
    ensures |vals| == |names| && forall i :: 0 <= i < |names| ==> vals[i] == locals[names[i]]
  {
    vals := [];
    for i := 0 to |names|
      invariant |vals| == i && forall k :: 0 <= k < i ==> vals[k] == locals[names[k]]
    {
      vals := vals + [locals[names[i]]];
    }
  }

  /** After the generated declarations every local holds its field's default. */
  lemma DefaultsHold(fields: seq<Field>, data: seq<(string, Ty)>, decls: seq<LetDefault>,
                     locals: map<string, Val>, types: map<string, Ty>)
    requires |data| == |fields| && forall i :: 0 <= i < |fields| ==> data[i] == (fields[i].name, fields[i].ty)
    requires |decls| == |data| && forall i :: 0 <= i < |data| ==> decls[i] == LetDefault(data[i].0, data[i].1)
    requires forall i :: 0 <= i < |decls| ==> decls[i].name in locals && locals[decls[i].name] == Default(decls[i].ty)
    requires forall i :: 0 <= i < |decls| ==> decls[i].name in types && types[decls[i].name] == decls[i].ty
    ensures EnvHolds(fields, locals, Defaults(fields)) && TypesHold(fields, types)
  {
    assert forall i :: 0 <= i < |fields| ==> decls[i].name == fields[i].name && decls[i].ty == fields[i].ty;
  }

  /** The record literal over locals that hold `spec` is `spec`. */
  lemma ObjectFromLocals(fields: seq<Field>, names: seq<string>, locals: map<string, Val>,
                         vals: seq<Val>, spec: seq<Val>)
    requires EnvHolds(fields, locals, spec) && NamesFor(fields, names)
    requires |vals| == |names| && forall i :: 0 <= i < |names| ==> vals[i] == locals[names[i]]
    ensures vals == spec
  {
  }

  /** `let #field = <element i>;` extends the locals by field `i`. */
  lemma SeqLetHolds(fields: seq<Field>, i: nat, locals: map<string, Val>, vals: seq<Val>, v: Val)
    requires DistinctNames(fields) && i < |fields|
    requires EnvHolds(fields[..i], locals, vals)
    ensures EnvHolds(fields[..i + 1], locals[fields[i].name := v], vals + [v])
  {
    assert forall k :: 0 <= k < i ==> fields[..i + 1][k] == fields[..i][k] == fields[k];
  }

  /** Assigning field `slot`'s local updates exactly that field's value. */
  lemma EnvUpdate(fields: seq<Field>, locals: map<string, Val>, vals: seq<Val>, slot: nat, v: Val)
    requires DistinctNames(fields) && slot < |fields| && EnvHolds(fields, locals, vals)
    ensures EnvHolds(fields, locals[fields[slot].name := v], vals[slot := v])
  {
  }

  /** One pass of the generated loop body for the pair `(key, raw)`: resolve the
      key with the generated `visit_str`, pick the generated arm for it, decode
      the value (or default it) and call add_data on the arm's local. */
  method RunKeyArm<R(!new)>(ghost fields: seq<Field>, table: seq<MatchArm>, keyArms: seq<KeyArm>,
                      types: map<string, Ty>, locals: map<string, Val>, key: string, raw: R,
                      dec: (Ty, R) -> Result<Val, Error>, ghost vals: seq<Val>)
    returns (updated: map<string, Val>)
    requires Compilable(fields) && TypedDecoder(dec) && WellTyped(fields, vals)
    requires table == MatchTable(fields) && KeyArmsFor(fields, keyArms)
    requires TypesHold(fields, types) && EnvHolds(fields, locals, vals)
    ensures EnvHolds(fields, updated, MapStep(fields, vals, key, raw, dec))
  {
    ghost var (slot, keyArg') := Route(fields, key);
    ResolveMatchTable(fields, key);
    var target: string, keyArg: string;
    match Resolve(table, key) {
      case Known(variant) =>
        FindArmAt(fields, keyArms, FirstMatch(fields, key).value);
        var a := FindArm(keyArms, variant).value;
        target, keyArg := keyArms[a].target, keyArms[a].keyLit;
      case UnknownKey(name) =>
        target, keyArg := "unknown", name;
    }
    assert target == fields[slot].name && keyArg == keyArg';
    var t := types[target];
    var next := DecodeOrDefault(dec, ElemTy(t), raw);
    var merged := AddData(t, locals[target], keyArg, next);
    EnvUpdate(fields, locals, vals, slot, merged);
    updated := locals[target := merged];
  }

  /** The fields' names, in declaration order. */
  ghost predicate NamesFor(fields: seq<Field>, names: seq<string>) {
    |names| == |fields| && forall i :: 0 <= i < |fields| ==> names[i] == fields[i].name
  }

  /** The generated code of the derived `visit_map` up to its loop: the
      resolver table, the arms of `match key`, the record literal's field
      names, and the declared locals at their defaults. */
  method ExpandVisitMap(ast: DeriveInput)
    returns (table: seq<MatchArm>, keyArms: seq<KeyArm>, names: seq<string>,
             locals: map<string, Val>, types: map<string, Ty>)
    requires Compilable(NamedFields(ast))
    ensures table == MatchTable(NamedFields(ast)) && KeyArmsFor(NamedFields(ast), keyArms)
    ensures NamesFor(NamedFields(ast), names)
    ensures EnvHolds(NamedFields(ast), locals, Defaults(NamedFields(ast)))
    ensures TypesHold(NamedFields(ast), types)
  {
    var structFields := GetStructFields(ast);
    var data := GetStructData(ast);
    table := GetFieldEnumMatch(structFields);
    var decls := SetStructVisitMapVariable(data);
    keyArms := SetStructVisitMapEnumMatch(data);
    names := SetStructCreateObject(data);
    locals, types := DeclareDefaults(decls);
    DefaultsHold(NamedFields(ast), data, decls, locals, types);
  }

  /** The derived `visit_map` for the struct `ast`, run from the generators'
      output: the generated locals start at their defaults, every key goes
      through the generated resolver and the generated arm, and the record is
      built from the locals. It behaves as `MapSpec` states. */
  method DerivedVisitMap<R(!new)>(ast: DeriveInput, input: seq<Entry<R>>, dec: (Ty, R) -> Result<Val, Error>)
    returns (result: Result<seq<Val>, Error>)
    requires Compilable(NamedFields(ast)) && TypedDecoder(dec)
    ensures result == MapSpec(NamedFields(ast), input, dec)
    ensures |input| == 0 ==> result == Success(Defaults(NamedFields(ast)))
  {
    ghost var fields := NamedFields(ast);
    var table, keyArms, names, locals, types := ExpandVisitMap(ast);
    var j := 0;
    while j < |input|
      invariant j <= |input|
      invariant FirstKeyError(input[..j]).None?
      invariant EnvHolds(fields, locals, Accumulate(fields, input[..j], dec))
    {
      ghost var vals := Accumulate(fields, input[..j], dec);
      MapSpecStep(fields, input, j, dec);
      match input[j] {
        case KeyError(e) =>
          return Failure(e);
        case Pair(key, raw) =>
          locals := RunKeyArm(fields, table, keyArms, types, locals, key, raw, dec, vals);
      }
      j := j + 1;
    }
    assert input[..j] == input;
    var vals := CreateObject(names, locals);
    ObjectFromLocals(fields, names, locals, vals, Accumulate(fields, input, dec));
    result := Success(vals);
  }

  /** The derived `visit_seq` for the struct `ast`, run from the generators'
      output: one `let` per field, each reading the next element, then the
      record built from the locals. It behaves as `SeqSpec` states. */
  method DerivedVisitSeq<R(!new)>(ast: DeriveInput, items: seq<R>, dec: (Ty, R) -> Result<Val, Error>)
    returns (result: Result<seq<Val>, Error>)
    requires DistinctNames(NamedFields(ast))
    ensures result == SeqSpec(NamedFields(ast), items, dec)
  {
    ghost var fields := NamedFields(ast);
    var data := GetStructData(ast);
    var lets := SetStructVisitSeqVariable(data);
    var names := SetStructCreateObject(data);
    var locals: map<string, Val> := map[];
    var pos := 0;
    for i := 0 to |lets|
      invariant pos == i
      invariant SeqSpec(fields[..i], items, dec).Success?
      invariant EnvHolds(fields[..i], locals, SeqSpec(fields[..i], items, dec).value)
    {
      SeqSpecStep(fields, items, i, dec);
      if pos >= |items| {
        return Failure(InvalidLength(lets[i].index));
      }
      var element := dec(lets[i].ty, items[pos]);
      if element.Failure? {
        return Failure(element.error);
      }
      SeqLetHolds(fields, i, locals, SeqSpec(fields[..i], items, dec).value, element.value);
      locals := locals[lets[i].name := element.value];
      pos := pos + 1;
    }
    assert fields[..|lets|] == fields;
    var vals := CreateObject(names, locals);
    ObjectFromLocals(fields, names, locals, vals, SeqSpec(fields, items, dec).value);
    result := Success(vals);
  }

  /** Once an element is missing or fails, the later fields change nothing. */
  lemma {:induction false} SeqSpecFailureSticks<R(!new)>(fields: seq<Field>, items: seq<R>, n: nat,
                                                 dec: (Ty, R) -> Result<Val, Error>)
    requires n <= |fields| && SeqSpec(fields[..n], items, dec).Failure?
    ensures SeqSpec(fields, items, dec) == SeqSpec(fields[..n], items, dec)
    decreases |fields| - n
  {
    if n < |fields| {
      assert fields[..n + 1][..n] == fields[..n];
      SeqSpecFailureSticks(fields, items, n + 1, dec);
    } else {
      assert fields[..n] == fields;
    }
  }
}
