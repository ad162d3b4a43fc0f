/** The code the derive macro generates, as small abstract syntax instead of
    tokens, and the generator functions that build it from the field list. Each
    generator accumulates its output in a loop over the fields, as the macro
    does with `parse_gen`. */
module Codegen {
  import opened Types
  import opened Syntax
  import opened Seqs

  /** An entry of the generated `FIELDS` list: the `stringify!` of a field's
      enum identifier, or of one of its aliases. */
  datatype FieldsEntry = IdentEntry(ident: string) | AliasEntry(alias: string)

  /** A variant of the generated `enum Field`. */
  datatype Variant = EnumVariant(ident: string) | UnknownVariant

  /** An arm `pattern => Ok(Field::variant)` of the generated `visit_str`. */
  datatype MatchArm = MatchArm(pattern: string, variant: string)

  /** `let mut name: ty = Default::default();` */
  datatype LetDefault = LetDefault(name: string, ty: Ty)

  /** An arm `Field::variant => { let next_value = ..; target.add_data(keyLit, next_value); }`. */
  datatype KeyArm = KeyArm(variant: string, target: string, keyLit: string)

  /** `let name: ty = seq.next_element()?.ok_or_else(|| invalid_length(index, ..))?;` */
  datatype SeqLet = SeqLet(name: string, ty: Ty, index: nat)

  function Digit(d: nat): char
    requires d < 10
  {
    (48 + d) as char
  }

  /** The decimal spelling of `n`, as `format!("{}", n)` writes it. */
  function Decimal(n: nat): (s: string)
    ensures |s| >= 1
    ensures |s| == 1 <==> n < 10
    ensures forall c :: c in s ==> '0' <= c <= '9'
    decreases n
  {
    if n < 10 then [Digit(n)] else Decimal(n / 10) + [Digit(n % 10)]
  }

  /** Different numbers are spelled differently. */
  lemma {:induction false} DecimalInjective(a: nat, b: nat)
    requires Decimal(a) == Decimal(b)
    ensures a == b
    decreases a
  {
    var sa, sb := Decimal(a), Decimal(b);
    if a >= 10 && b >= 10 {
      assert sa[..|sa| - 1] == Decimal(a / 10) && sb[..|sb| - 1] == Decimal(b / 10);
      assert Digit(a % 10) == sa[|sa| - 1] == sb[|sb| - 1] == Digit(b % 10);
      DecimalInjective(a / 10, b / 10);
    } else {
      assert sa[0] == sb[0];
    }
  }

  /** `get_enum_ident`: the variant identifier `Enum{nummer}`; the field's own
      identifier is not used. */
  function GetEnumIdent(ident: string, nummer: nat): (r: string)
    ensures |r| >= 5 && r[..4] == "Enum"
    ensures forall k :: 4 <= k < |r| ==> '0' <= r[k] <= '9'
  {
    var d := Decimal(nummer);
    assert forall k :: 0 <= k < |d| ==> d[k] in d;
    "Enum" + d
  }

  /** The identifier of a field's variant depends on its position alone: two
      fields get the same identifier exactly when they are at the same position,
      whatever their names. */
  lemma EnumIdentByPosition(a: string, i: nat, b: string, j: nat)
    ensures GetEnumIdent(a, i) == GetEnumIdent(b, j) <==> i == j
  {
    if GetEnumIdent(a, i) == GetEnumIdent(b, j) {
      assert GetEnumIdent(a, i)[4..] == Decimal(i);
      assert GetEnumIdent(b, j)[4..] == Decimal(j);
      DecimalInjective(i, j);
    }
  }

  /** `get_visitor_name`: `Struct{ident}Visitor`. */
  function GetVisitorName(ident: string): (r: string)
    ensures |r| == |ident| + 13
    ensures r[..6] == "Struct" && r[6..|r| - 7] == ident && r[|r| - 7..] == "Visitor"
  {
    "Struct" + ident + "Visitor"
  }

  /** Distinct structs get distinct visitor names. */
  lemma VisitorNameInjective(a: string, b: string)
    ensures GetVisitorName(a) == GetVisitorName(b) <==> a == b
  {
    if GetVisitorName(a) == GetVisitorName(b) {
      assert GetVisitorName(a)[6..|GetVisitorName(a)| - 7] == a;
      assert GetVisitorName(b)[6..|GetVisitorName(b)| - 7] == b;
    }
  }

  function AliasEntries(aliases: seq<string>): (r: seq<FieldsEntry>)
    ensures |r| == |aliases| && forall k :: 0 <= k < |r| ==> r[k] == AliasEntry(aliases[k])
  {
    seq(|aliases|, k requires 0 <= k < |aliases| => AliasEntry(aliases[k]))
  }

  /** The entries field `i` contributes to `FIELDS`: its enum identifier,
      then its aliases. */
  function OwnEntries(i: nat, field: Field): seq<FieldsEntry> {
    [IdentEntry(GetEnumIdent(field.name, i))] + AliasEntries(Aliases(field.attrs))
  }

  /** The `FIELDS` list: the entries of every field, in declaration order. */
  function FieldsList(fields: seq<Field>): seq<FieldsEntry> {
    IndexedFlatMap(fields, OwnEntries)
  }

  /** The number of aliases all the fields declare together. */
  function TotalAliases(fields: seq<Field>): nat
    decreases |fields|
  {
    if |fields| == 0 then 0
    else TotalAliases(fields[..|fields| - 1]) + |Aliases(fields[|fields| - 1].attrs)|
  }

  /** The inner loop of `get_fields_array`: one entry per alias, in order. */
  method PushAliasEntries(entries: seq<FieldsEntry>, aliases: seq<string>) returns (r: seq<FieldsEntry>)
    ensures r == entries + AliasEntries(aliases)
  {
    r := entries;
    for k := 0 to |aliases|
      invariant |r| == |entries| + k
      invariant r[..|entries|] == entries
      invariant forall m :: 0 <= m < k ==> r[|entries| + m] == AliasEntry(aliases[m])
    {
      r := r + [AliasEntry(aliases[k])];
    }
  }

  /** `get_fields_array`. */
  method GetFieldsArray(fields: seq<Field>) returns (entries: seq<FieldsEntry>)
    requires AllWellFormed(fields)
    ensures entries == FieldsList(fields)
  {
    entries := [];
    for i := 0 to |fields|
      invariant entries == FieldsList(fields[..i])
    {
      var field := fields[i];
      var fieldIdent := GetEnumIdent(field.name, i);
      entries := entries + [IdentEntry(fieldIdent)];
      var aliasIdent := GetAliasAttrs(field);
      entries := PushAliasEntries(entries, aliasIdent);
      IndexedFlatMapStep(fields, OwnEntries, i);
    }
    assert fields[..|fields|] == fields;
  }

  /** `FIELDS` has one entry per field plus one per alias. */
  lemma {:induction false} FieldsListLength(fields: seq<Field>)
    ensures |FieldsList(fields)| == |fields| + TotalAliases(fields)
    decreases |fields|
  {
    if |fields| > 0 {
      var n := |fields| - 1;
      FieldsListLength(fields[..n]);
      IndexedFlatMapStep(fields, OwnEntries, n);
      assert fields[..n + 1] == fields;
    }
  }

  /** Where each field's entries sit: field `i`'s identifier comes right after
      the entries of the fields before it (`i` identifiers and their aliases,
      by `FieldsListLength`), followed by its aliases in order. */
  lemma FieldsListLayout(fields: seq<Field>, i: nat, k: nat)
    requires i < |fields| && k <= |Aliases(fields[i].attrs)|
    ensures |FieldsList(fields[..i])| + k < |FieldsList(fields)|
    ensures FieldsList(fields)[|FieldsList(fields[..i])| + k] ==
      if k == 0 then IdentEntry(GetEnumIdent(fields[i].name, i))
      else AliasEntry(Aliases(fields[i].attrs)[k - 1])
  {
    OwnEntriesAt(i, fields[i], k);
    IndexedFlatMapAt(fields, OwnEntries, i, k);
  }

  lemma OwnEntriesAt(i: nat, field: Field, k: nat)
    requires k <= |Aliases(field.attrs)|
    ensures k < |OwnEntries(i, field)|
    ensures OwnEntries(i, field)[k] ==
      if k == 0 then IdentEntry(GetEnumIdent(field.name, i)) else AliasEntry(Aliases(field.attrs)[k - 1])
  {
  }

  function AliasArms(aliases: seq<string>, variant: string): (r: seq<MatchArm>)
    ensures |r| == |aliases| && forall k :: 0 <= k < |r| ==> r[k] == MatchArm(aliases[k], variant)
  {
    seq(|aliases|, k requires 0 <= k < |aliases| => MatchArm(aliases[k], variant))
  }

  /** The arms field `i` contributes to the generated `visit_str`: its name,
      then each of its aliases, all mapped to its variant. */
  function OwnArms(i: nat, field: Field): seq<MatchArm> {
    [MatchArm(field.name, GetEnumIdent(field.name, i))]
      + AliasArms(Aliases(field.attrs), GetEnumIdent(field.name, i))
  }

  /** The arms of the generated `visit_str`: those of every field, in
      declaration order. */
  function MatchTable(fields: seq<Field>): seq<MatchArm> {
    IndexedFlatMap(fields, OwnArms)
  }

  /** The inner loop of `get_field_enum_match`: one arm per alias, in
      order, all mapped to `variant`. */
  method PushAliasArms(arms: seq<MatchArm>, aliases: seq<string>, variant: string) returns (r: seq<MatchArm>)
    ensures r == arms + AliasArms(aliases, variant)
  {
    r := arms;
    for k := 0 to |aliases|
      invariant |r| == |arms| + k
      invariant r[..|arms|] == arms
      invariant forall m :: 0 <= m < k ==> r[|arms| + m] == MatchArm(aliases[m], variant)
    {
      r := r + [MatchArm(aliases[k], variant)];
    }
  }

  /** `get_field_enum_match` (without the fallback arm
      `_ => Ok(Field::Unknown(value.to_string()))`, which is always last). */
  method GetFieldEnumMatch(fields: seq<Field>) returns (arms: seq<MatchArm>)
    requires AllWellFormed(fields)
    ensures arms == MatchTable(fields)
  {
    arms := [];
    for i := 0 to |fields|
      invariant arms == MatchTable(fields[..i])
    {
      var field := fields[i];
      var fieldEnumIdent := GetEnumIdent(field.name, i);
      arms := arms + [MatchArm(field.name, fieldEnumIdent)];
      var aliasIdent := GetAliasAttrs(field);
      arms := PushAliasArms(arms, aliasIdent, fieldEnumIdent);
      IndexedFlatMapStep(fields, OwnArms, i);
    }
    assert fields[..|fields|] == fields;
  }

  /** `get_field_enum`: one variant per field, in declaration order, each
      distinct from the others, then `Unknown(String)`. */
  method GetFieldEnum(fields: seq<Field>) returns (variants: seq<Variant>)
    ensures |variants| == |fields| + 1
    ensures forall i :: 0 <= i < |fields| ==> variants[i] == EnumVariant(GetEnumIdent(fields[i].name, i))
    ensures variants[|fields|] == UnknownVariant
    ensures forall i, j :: 0 <= i < j <= |fields| ==> variants[i] != variants[j]
  {
    variants := [];
    for i := 0 to |fields|
      invariant |variants| == i
      invariant forall j :: 0 <= j < i ==> variants[j] == EnumVariant(GetEnumIdent(fields[j].name, j))
    {
      var fieldIdent := GetEnumIdent(fields[i].name, i);
      variants := variants + [EnumVariant(fieldIdent)];
    }
    variants := variants + [UnknownVariant];
    forall i, j | 0 <= i < j < |fields| ensures variants[i] != variants[j] {
      EnumIdentByPosition(fields[i].name, i, fields[j].name, j);
    }
  }

  /** `set_struct_visit_map_variable`: every field declared and set to its
      type's default, in declaration order. */
  method SetStructVisitMapVariable(data: seq<(string, Ty)>) returns (decls: seq<LetDefault>)
    ensures |decls| == |data|
    ensures forall i :: 0 <= i < |data| ==> decls[i] == LetDefault(data[i].0, data[i].1)
  {
    decls := [];
    for i := 0 to |data|
      invariant |decls| == i
      invariant forall j :: 0 <= j < i ==> decls[j] == LetDefault(data[j].0, data[j].1)
    {
      var (field, type_) := data[i];
      decls := decls + [LetDefault(field, type_)];
    }
  }

  /** `set_struct_visit_map_enum_match` (without the fixed final arm
      `Field::Unknown(key_name) => unknown.add_data(&key_name, ..)`): field `i`'s
      arm matches its variant, targets the field itself and passes the field's
      own name as the key. */
  method SetStructVisitMapEnumMatch(data: seq<(string, Ty)>) returns (arms: seq<KeyArm>)
    ensures |arms| == |data|
    ensures forall i :: 0 <= i < |data| ==> arms[i] == KeyArm(GetEnumIdent(data[i].0, i), data[i].0, data[i].0)
  {
    arms := [];
    for i := 0 to |data|
      invariant |arms| == i
      invariant forall j :: 0 <= j < i ==> arms[j] == KeyArm(GetEnumIdent(data[j].0, j), data[j].0, data[j].0)
    {
      var field := data[i].0;
      var fieldIdent := GetEnumIdent(field, i);
      arms := arms + [KeyArm(fieldIdent, field, field)];
    }
  }

  /** `set_struct_visit_seq_variable`: one element read per field, in
      declaration order, field `i` reporting `invalid_length(i)` when missing. */
  method SetStructVisitSeqVariable(data: seq<(string, Ty)>) returns (lets: seq<SeqLet>)
    ensures |lets| == |data|
    ensures forall i :: 0 <= i < |data| ==> lets[i] == SeqLet(data[i].0, data[i].1, i)
  {
    lets := [];
    for i := 0 to |data|
      invariant |lets| == i
      invariant forall j :: 0 <= j < i ==> lets[j] == SeqLet(data[j].0, data[j].1, j)
    {
      var (field, type_) := data[i];
      lets := lets + [SeqLet(field, type_, i)];
    }
  }

  /** `set_struct_create_object`: the record literal names every field once,
      in declaration order. */
  method SetStructCreateObject(data: seq<(string, Ty)>) returns (names: seq<string>)
    ensures |names| == |data|
    ensures forall i :: 0 <= i < |data| ==> names[i] == data[i].0
  {
    names := [];
    for i := 0 to |data|
      invariant |names| == i
      invariant forall j :: 0 <= j < i ==> names[j] == data[j].0
    {
      var (field, _) := data[i];
      names := names + [field];
    }
  }
}
