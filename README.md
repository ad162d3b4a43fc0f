# Best-effort struct deserialization, modelled in Dafny

The modelled system is a small Rust library. It decodes a struct from a keyed input of the serde kind, for example XML with repeated tags. It differs from a plain `#[derive(Deserialize)]` in two ways:

- **A key that occurs more than once.** A plain derive rejects it with a "duplicate field" error (src/main.rs:32-34). Here each occurrence is folded into the field by that field type's `add_data` rule. A scalar is overwritten, a `Vec` appends, a `HashMap` inserts, an `Option` is set, and an `Option<Vec<T>>` is created and then appended to.
- **A key that names no field.** A plain derive drops it silently, unless `deny_unknown_fields` is set. Here it is kept in the struct's `unknown: HashMap<String, Value>` bucket. The hand-written resolver carries a commented-out alternative that would reject such a key (src/impl_trait_manualy.rs:49).

The model covers three parts:

- **`BestEffort`**: the merge rules, one method per Rust impl, and the same dispatch as a function `Merge` over a small dynamic universe of field types and values (`Types`).
- **`ManualImpl`**: the hand-written `Deserialize` impl for `RootWorkingManualImpl`. It consists of the key resolver `visit_str`, the keyed loop `visit_map` and the positional path `visit_seq`.
- **The derive macro**:
  - `Syntax`: the struct and its `#[serde(alias = "...")]` attributes, as abstract syntax.
  - `Codegen`: the generator functions, each modelled as a loop building the generated code as an abstract syntax tree. The trees cover the field enum, the `FIELDS` list, the resolver match table, the `let` declarations, the match arms and the record literal.
  - `Generated`: the behaviour of the generated code. First it is stated on the field descriptors (`Resolve`/`FirstMatch`, `Accumulate`/`MapSpec`, `SeqSpec`). Then it is run as an interpreter over the generators' output, which is proved to behave as stated (`DerivedVisitMap`, `DerivedVisitSeq`).

`Equivalence` applies the derived model to the demo struct `RootWorking`. On every key stream, the derived keyed visitor builds the record the hand-written one builds, and both fail with the same error. The positional visitors differ: the derived one reads one element per field, `unknown` included, so two elements are too few for it.

External parts become parameters:

- The input is a sequence of entries. Each entry is either a pair (key, raw value) or the error `next_key` returned.
- Decoding a raw value (`next_value` / `next_element`) is a caller-supplied function that may fail. For the derived visitor it must return a value of the type asked for (`TypedDecoder`).

The macro does not reject a name or alias shared by two fields. The generated resolver is an ordered `match`, so the earliest field wins (`Generated.ResolveMatchTable`).

The generated map visitor refers to a local called `unknown`, so it compiles only for a struct that has a field of that name. The model states this as the precondition `Compilable`, together with distinct field names, an `add_data` impl for every field type, and no malformed `#[serde]` attribute. `Compilable` also excludes field names whose locals would clash with the generated bodies' own identifiers: `map`, `key`, `next_value`, the prelude variants `Some`, `None`, `Ok` and `Err`, and `seq` on any field but the last.

## Model

| member | source | states |
|---|---|---|
| BestEffort.AddDataI32 | src/deserialize_best_effort.rs:13-17 | the field becomes the new value; the key argument plays no part |
| BestEffort.AddDataU32 | src/deserialize_best_effort.rs:19-23 | the field becomes the new value |
| BestEffort.AddDataString | src/deserialize_best_effort.rs:25-29 | the field becomes the new value |
| BestEffort.AddDataValue | src/deserialize_best_effort.rs:31-35 | the field becomes the new value |
| BestEffort.AddDataHashMap | src/deserialize_best_effort.rs:37-41 | the key maps to the new value; the key set gains exactly that key; every other key keeps its value |
| BestEffort.AddDataRecord | src/deserialize_best_effort.rs:43-48 | a nested record is replaced outright, not merged |
| BestEffort.AddDataVec | src/deserialize_best_effort.rs:50-55 | the length grows by one, the old prefix is kept, and the new value is last |
| BestEffort.AddDataOption | src/deserialize_best_effort.rs:57-62 | the result is `Some(v)`, whatever the prior state |
| BestEffort.AddDataOptionUnit | src/deserialize_best_effort.rs:64-68 | the result is `Some(())` for any string |
| BestEffort.AddDataOptionVec | src/deserialize_best_effort.rs:70-80 | `None` becomes `Some([v])` and `Some(l)` becomes `Some(l + [v])`; the result is always `Some` |
| BestEffort.Merge | src/deserialize_best_effort.rs:13-80 | the rule trait resolution selects for a field type keeps the field a value of that type |
| BestEffort.AddData | src/deserialize_best_effort.rs:13-80 | dispatching to the per-type impl computes `Merge` for the declared type |
| BestEffort.MergeAll | src/deserialize_best_effort.rs:13-80 | any number of add_data calls keep the field a value of its type |
| BestEffort.MergeIgnoresKey | src/deserialize_best_effort.rs:13-35 | for every type but the map, the result does not depend on the key |
| BestEffort.RepeatedVecAppends | src/deserialize_best_effort.rs:50-55 | n calls leave the n values after the old ones, in arrival order |
| BestEffort.RepeatedOverwriteKeepsLast | src/deserialize_best_effort.rs:43-48 | for overwriting types, repeated calls leave the last value |
| BestEffort.RepeatedMapKeyReplaces | src/deserialize_best_effort.rs:37-41 | a repeated key keeps only its last value, and other keys keep theirs |
| BestEffort.RepeatedOptionVecCreatesThenAppends | src/deserialize_best_effort.rs:70-80 | from `None`, n >= 1 calls give `Some` of the n values in order |
| BestEffort.RepeatedOptionVecAppends | src/deserialize_best_effort.rs:70-80 | from `Some(l)`, n calls give `Some(l + nexts)`, the new values after the old, in order |
| BestEffort.OptionUnitIdempotent | src/deserialize_best_effort.rs:64-68 | the flag is set by one call, and a second call leaves it as it is |
| Types.Default | custom_derive/src/lib.rs:322-333 | `Default::default()` of each field type is a value of that type (an empty list, map or `None`, zero, `""`, `Null`) |
| Types.SelfMerging | src/deserialize_best_effort.rs:7-48 | the types `T` with `T: DeserializeBestEffortTypes<T>` (the scalar impls and the blanket impl for records); `ElemTy` and `RepeatedOverwriteKeepsLast` prove that add_data on them takes a value of the same type and keeps the last one |
| Types.Supported | src/deserialize_best_effort.rs:13-80 | the field types some impl applies to: `i32`, `u32`, `String`, `Value`, `HashMap<String, Value>`, records, `Vec<T>`, `Option<T>` and `Option<Vec<T>>` over a self-merging `T`, and `Option<()>`; `ElemTy`, `Merge` and `AddData` are defined on exactly these types |
| Types.ElemTy | src/deserialize_best_effort.rs:43-80 | the value add_data receives for a field type is of a type that overwrites itself |
| Serde.FirstKeyError | src/impl_trait_manualy.rs:91 | the first entry at which `next_key` fails, if there is one; every earlier entry is a pair |
| Serde.FirstKeyErrorAt | src/impl_trait_manualy.rs:91 | a failed key after only pairs is the first failure |
| Serde.FirstKeyErrorSnoc | src/impl_trait_manualy.rs:91 | reading one more entry keeps an earlier failure, and otherwise fails exactly at a failed key |
| ManualImpl.VisitStr | src/impl_trait_manualy.rs:42-51 | total exact-match resolution: `field1`, `field2`, or `Unknown` carrying the key unchanged |
| ManualImpl.VisitMap | src/impl_trait_manualy.rs:84-113 | fails exactly when a key cannot be read, with that error; otherwise `field1`/`field2` hold their keys' values in arrival order and `unknown` the bucket; an empty stream gives all three empty |
| ManualImpl.VisitSeq | src/impl_trait_manualy.rs:68-82 | zero elements give `invalid_length(0)` and one gives `invalid_length(1)`; a decode error propagates; otherwise the first two elements with an empty bucket |
| ManualImpl.KeyedValuesAppend | src/impl_trait_manualy.rs:91-100 | a field's values over a concatenated stream are those of the first part followed by those of the second |
| ManualImpl.KeyedValuesCount | src/impl_trait_manualy.rs:93-100 | a value is kept for every occurrence of the key, decodable or not |
| ManualImpl.UnknownKeyLeavesFields | src/impl_trait_manualy.rs:101-104 | an unknown key leaves `field1` and `field2` untouched |
| ManualImpl.UnknownEntriesKeys | src/impl_trait_manualy.rs:101-104 | a key is in the bucket exactly when some pair carries it and it is not a field name |
| ManualImpl.UnknownEntriesLastWins | src/impl_trait_manualy.rs:101-104 | a bucket key holds the value of the last pair that carried it |
| Syntax.GetSerdeMetaItems | custom_derive/src/lib.rs:83-99 | a non-`serde` attribute has no items; a `serde` list gives its items; a `serde` attribute that is not a list is an error |
| Syntax.SerdeItems | custom_derive/src/lib.rs:67-69 | on a well-formed attribute, the items the alias extraction reads are those of `get_serde_meta_items` |
| Syntax.GetAliasAttrsVariables | custom_derive/src/lib.rs:67-80 | the literals of the `alias = lit` items, in order |
| Syntax.PushNonEmptyStrings | custom_derive/src/lib.rs:52-63 | the non-empty string literals are pushed in order; other literals and empty strings are skipped |
| Syntax.GetAliasAttrs | custom_derive/src/lib.rs:49-65 | a field's aliases, attribute by attribute, in declaration order |
| Syntax.AliasLitsMembership | custom_derive/src/lib.rs:72-75 | a literal is collected exactly when an `alias = it` item is present |
| Syntax.NonEmptyStringsMembership | custom_derive/src/lib.rs:55-61 | the strings kept are exactly the non-empty string literals |
| Syntax.AttrAliasesMembership | custom_derive/src/lib.rs:49-99 | one attribute contributes exactly the non-empty `alias = "..."` strings of a `#[serde(...)]` list |
| Syntax.AliasesAppend | custom_derive/src/lib.rs:49-65 | declaration order is kept across attributes |
| Syntax.AliasesMembership | custom_derive/src/lib.rs:49-65 | a string is an alias of a field exactly when one of its attributes declares it |
| Syntax.NonSerdeAttributeAddsNothing | custom_derive/src/lib.rs:84-86 | an attribute other than `#[serde(...)]` adds no alias |
| Syntax.GetStructFields | custom_derive/src/lib.rs:402-421 | the named fields of a struct, in order; none for a tuple struct, a unit struct, an enum or a union |
| Syntax.GetStructData | custom_derive/src/lib.rs:381-400 | the (name, type) of every named field, in order; empty otherwise |
| Codegen.Decimal | custom_derive/src/lib.rs:364-366 | the decimal digits of a number: at least one digit, and a single digit exactly below ten |
| Codegen.DecimalInjective | custom_derive/src/lib.rs:364-366 | distinct numbers have distinct decimal forms |
| Codegen.GetEnumIdent | custom_derive/src/lib.rs:364-366 | the variant identifier is `Enum` followed by decimal digits, and the field's own identifier plays no part; `EnumIdentByPosition` proves it is determined by, and determines, the position |
| Codegen.EnumIdentByPosition | custom_derive/src/lib.rs:364-366 | `Enum{i}` depends on the position alone: two identifiers are equal exactly when the positions are |
| Codegen.GetVisitorName | custom_derive/src/lib.rs:368-370 | the visitor's name is the struct's name between `Struct` and `Visitor`; `VisitorNameInjective` proves distinct structs get distinct names |
| Codegen.VisitorNameInjective | custom_derive/src/lib.rs:368-370 | `Struct{name}Visitor` names differ for different struct names |
| Codegen.AliasEntries | custom_derive/src/lib.rs:114-118 | one `FIELDS` entry per alias, in order |
| Codegen.PushAliasEntries | custom_derive/src/lib.rs:114-118 | the inner loop appends the alias entries after the accumulated list |
| Codegen.GetFieldsArray | custom_derive/src/lib.rs:101-124 | the generated `FIELDS` list is, field by field, the ordinal identifier then the aliases |
| Codegen.FieldsListLength | custom_derive/src/lib.rs:101-124 | `FIELDS` has one entry per field plus one per alias |
| Codegen.FieldsListLayout | custom_derive/src/lib.rs:101-124 | field i's block starts after the blocks of the earlier fields, with `Enum{i}` first and then its aliases in order |
| Codegen.AliasArms | custom_derive/src/lib.rs:158-164 | one arm per alias, each mapping to the field's variant |
| Codegen.PushAliasArms | custom_derive/src/lib.rs:158-164 | the inner loop appends the alias arms after the accumulated table |
| Codegen.GetFieldEnumMatch | custom_derive/src/lib.rs:144-174 | the generated match table is, field by field, the name and then each alias, all mapping to `Enum{i}` |
| Codegen.GetFieldEnum | custom_derive/src/lib.rs:126-143 | the generated enum has `Enum{i}` per field in order, then `Unknown`, all distinct |
| Codegen.SetStructVisitMapVariable | custom_derive/src/lib.rs:322-333 | one `let mut field: type = Default::default()` per field, in order |
| Codegen.SetStructVisitMapEnumMatch | custom_derive/src/lib.rs:335-362 | the arm for `Enum{i}` calls add_data on field i, passing the field's own name as the key |
| Codegen.SetStructVisitSeqVariable | custom_derive/src/lib.rs:261-274 | field i reads element i, decoded as its declared type, with `invalid_length(i)` when it is missing |
| Codegen.SetStructCreateObject | custom_derive/src/lib.rs:302-320 | the record literal names every field once, in declaration order |
| Generated.Resolve | custom_derive/src/lib.rs:166-171 | a known result is the variant of some arm whose pattern is the key, with no earlier arm matching it; a key no arm matches is `Unknown` carrying the key |
| Generated.FirstMatch | custom_derive/src/lib.rs:144-174 | the earliest field whose name or alias is the key, or none when no field answers to it |
| Generated.ResolveAppend | custom_derive/src/lib.rs:166-171 | in two tables in a row, the first decides every key it knows |
| Generated.ResolveAliasArms | custom_derive/src/lib.rs:158-164 | a field's alias arms send exactly its aliases to its variant |
| Generated.ResolveOwnArms | custom_derive/src/lib.rs:150-164 | a field's arms send its name and its aliases to `Enum{i}` |
| Generated.MatchTableSnoc | custom_derive/src/lib.rs:144-174 | the table ends with the arms of the last field |
| Generated.ResolveMatchTable | custom_derive/src/lib.rs:144-174 | the generated resolver maps a key to `Enum{i}` for the first field i answering to it, and to `Unknown(key)` when no field does |
| Generated.IndexOfName | custom_derive/src/lib.rs:355-358 | the position of the field called `name`, or none when no field has that name |
| Generated.UnknownSlot | custom_derive/src/lib.rs:355-358 | the single field called `unknown`, which receives every key no field answers to |
| Generated.DecodeOrDefault | custom_derive/src/lib.rs:347-356 | `next_value().unwrap_or_default()` is a value of the type asked for, and the default when decoding fails |
| Generated.Defaults | custom_derive/src/lib.rs:322-333 | every field at its type's default |
| Generated.Route | custom_derive/src/lib.rs:335-362 | a pair goes to a field of the record |
| Generated.MapStep | custom_derive/src/lib.rs:288-293 | one loop pass changes only the routed field, and keeps every field a value of its type |
| Generated.Accumulate | custom_derive/src/lib.rs:288-293 | the fold of all pairs over the defaults keeps every field a value of its type |
| Generated.MapSpecStep | custom_derive/src/lib.rs:288-293 | a failed key decides the outcome; a pair extends the fold by one step |
| Generated.VecFieldCollects | custom_derive/src/lib.rs:288-293 | a `Vec` field ends with every value routed to it, in arrival order |
| Generated.UnroutedFieldKeepsDefault | custom_derive/src/lib.rs:322-333 | a field no key is routed to keeps its default |
| Generated.AliasEquivalence | custom_derive/src/lib.rs:150-164 | a pair under an alias has exactly the effect of the same pair under the field's name, when no earlier field answers to the alias or the name |
| Generated.FirstMatchAt | custom_derive/src/lib.rs:144-174 | a field answering to a key that no earlier field answers to is the first match |
| Generated.SeqSpec | custom_derive/src/lib.rs:261-274 | on success, one value per field |
| Generated.SeqSpecSuccess | custom_derive/src/lib.rs:261-274 | succeeds exactly when every field has an element that decodes, and then field i is element i |
| Generated.SeqSpecTooShort | custom_derive/src/lib.rs:261-274 | too few decodable elements give `invalid_length` at the first missing position |
| Generated.SeqSpecStep | custom_derive/src/lib.rs:261-274 | a missing or failing element decides the outcome, and a decoded one extends the values |
| Generated.SeqSpecFailureSticks | custom_derive/src/lib.rs:261-274 | after a failure, the later fields change nothing |
| Generated.FindArm | custom_derive/src/lib.rs:335-362 | the arm of `match key` for a variant, or none when no arm has it |
| Generated.FindArmAt | custom_derive/src/lib.rs:335-362 | each generated arm is the only one for its variant |
| Generated.DeclareDefaults | custom_derive/src/lib.rs:322-333 | after the declarations, every local holds its type's default |
| Generated.CreateObject | custom_derive/src/lib.rs:302-320 | the record literal takes, in order, the value of each named local |
| Generated.DefaultsHold | custom_derive/src/lib.rs:322-333 | the declared locals hold the defaults of their fields, at the declared types |
| Generated.ObjectFromLocals | custom_derive/src/lib.rs:302-320 | the record literal over locals holding some values is those values |
| Generated.SeqLetHolds | custom_derive/src/lib.rs:261-274 | each `let` extends the locals by its field |
| Generated.EnvUpdate | custom_derive/src/lib.rs:335-362 | an add_data on a field's local updates exactly that field |
| Generated.RunKeyArm | custom_derive/src/lib.rs:288-293 | one pass of the loop body (resolve, pick the arm, decode or default, add_data) is `MapStep` |
| Generated.ExpandVisitMap | custom_derive/src/lib.rs:276-300 | the generated code up to the loop: the resolver table, the arms, the record's names, and the locals at their defaults |
| Generated.DerivedVisitMap | custom_derive/src/lib.rs:276-300 | the generated `visit_map` fails at the first key that cannot be read, with its error, and otherwise returns the fold of all pairs over the defaults; an empty stream gives the defaults |
| Generated.DerivedVisitSeq | custom_derive/src/lib.rs:240-274 | the generated `visit_seq` is `SeqSpec`: one element per field in order, with `invalid_length(i)` for a missing element i and a decode error propagated |
| Equivalence.RootWorkingCompilable | src/main.rs:58-67 | the generated code for `RootWorking` compiles |
| Equivalence.RootWorkingNoAliases | src/main.rs:65 | `#[serde(flatten)]` declares no alias |
| Equivalence.RootWorkingRoute | custom_derive/src/lib.rs:144-174 | on `RootWorking`, `field1` and `field2` go to their fields and every other key, `unknown` included, goes into the bucket under itself |
| Equivalence.StringVals | src/impl_trait_manualy.rs:88-89 | string lists as values of the dynamic universe, element by element |
| Equivalence.Embed | src/impl_trait_manualy.rs:107-112 | the hand-written record, as field values of `RootWorking`, is well typed |
| Equivalence.Manual | src/impl_trait_manualy.rs:88-106 | the hand-written accumulators after a stream are well-typed field values |
| Equivalence.DecodersAgree | src/impl_trait_manualy.rs:93-103 | the manual `unwrap_or_default` gives the same `""` or `Null` as the derived one |
| Equivalence.VecStep | src/deserialize_best_effort.rs:50-55 | appending a string to a `Vec<String>` field appends its value |
| Equivalence.FieldStep | custom_derive/src/lib.rs:335-362 | the derived arm for `field1` or `field2` appends to that field |
| Equivalence.BucketStep | custom_derive/src/lib.rs:335-362 | any other key inserts into the bucket under itself |
| Equivalence.RecordStep | src/impl_trait_manualy.rs:91-105 | the derived loop body on `RootWorking` does what the hand-written `match key` does |
| Equivalence.ManualPairSnoc | src/impl_trait_manualy.rs:91-105 | one pair goes to `field1`, to `field2`, or into the bucket under its key |
| Equivalence.KeyErrorStepAgrees | src/impl_trait_manualy.rs:91 | a key that cannot be read changes none of the accumulators |
| Equivalence.PairStepAgrees | src/impl_trait_manualy.rs:91-105 | one pair has the same effect in both visitors |
| Equivalence.DerivedMatchesManual | src/impl_trait_manualy.rs:84-113 | on every stream, the derived fold for `RootWorking` equals the hand-written accumulators |
| Equivalence.BothVisitMaps | src/impl_trait_manualy.rs:84-113 | both keyed visitors fail together, with the same error, and otherwise build the same record |
| Equivalence.DerivedSeqNeedsThree | custom_derive/src/lib.rs:261-274 | two decodable elements are too few for the derived positional visitor: `invalid_length(2)` |
| Equivalence.BothVisitSeqs | src/impl_trait_manualy.rs:68-82 | on two decodable elements, the hand-written positional visitor succeeds with an empty bucket while the derived one gives `invalid_length(2)` |

## Left out

- `src/main.rs` (file opening, `BufReader`, `serde_xml_rs::from_reader`, the demo selector, `println!`): I/O and demo plumbing. Only the `RootWorking` declaration is used, as the record of `Equivalence`.
- `syn` parsing, `quote!`/`TokenStream` construction and the `proc_macro` entry points: attributes, fields and the generated code are abstract datatypes, and the generated code is modelled by its behaviour.
- The textual form of the `FIELDS` entries (`stringify!` of an identifier or a literal). Only the entries' kind, order and count are modelled. The list carries `Enum{i}`, not the field's name, as the code has it.
- The `unwrap()` panic on a malformed `#[serde]` attribute: the generators require well-formed attributes. `Syntax.AttrAliases` is total and gives no alias for such an attribute, where the macro would panic.
- The serde `Deserializer`, `MapAccess` and `SeqAccess` traits, and `serde_json::Value` internals. The input is a sequence of entries. Decoding is a caller-supplied function. `Value` is an opaque datatype whose default is `Null`.
- Errors other than `invalid_length` and custom ones: `Serde.Error` has only those two kinds.
- The `expecting` message strings of the visitors.
- How `get_visitor_name`'s result is used: only its injectivity is stated.
- Code the macro generates that would not compile is excluded by `Compilable`: no field called `unknown`, a field type without an add_data impl, duplicate field names, or a field local that clashes with an identifier of the generated bodies. `Compilable` lists the clashes found in the generated text. Other rustc rejections (lints denied by the crate, or type inference failing on an unusual field type) are not modelled, so `Compilable` is a necessary condition, not a full account of what compiles.
- Record fields' defaults: `Types.Default` gives a nested record the record of its fields' defaults, as `#[derive(Default)]` does. The blanket impl at src/deserialize_best_effort.rs:43-44 accepts any `T: Default`, including a hand-written default, which the model does not represent.
- `Generated.SeqSpec` decodes every element with the field's declared type via the same decoder as the map path. Which types `next_element` can produce from a given format is not modelled.
- Integer widths: `i32` and `u32` are bounded newtypes. No arithmetic is performed on them, so there is no wrap-around to model.
