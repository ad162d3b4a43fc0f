/** What the derive macro reads from the struct it is applied to, as abstract
    syntax: the struct's shape, its named fields, and each field's attributes,
    from which the `#[serde(alias = "...")]` names are extracted. */
module Syntax {
  import opened Wrappers
  import opened Types
  import opened Seqs

  /** A literal: a string literal, or any other kind (integer, bool, bytes, ...). */
  datatype Lit = LitStr(value: string) | LitOther

  /** One item inside `#[serde(...)]`: `path = lit`, or anything else (a bare
      path such as `flatten`, a nested list, a literal). */
  datatype NestedMeta = MetaNameValue(path: seq<string>, lit: Lit) | MetaOther

  /** What `parse_meta` makes of an attribute's contents: a parenthesised list,
      or something that is not one (a bare path, `= lit`, or a parse failure). */
  datatype ParsedMeta = MetaList(nested: seq<NestedMeta>) | NotAList

  datatype Attribute = Attribute(path: seq<string>, meta: ParsedMeta)

  /** A named field: its identifier, declared type and attributes. */
  datatype Field = Field(name: string, ty: Ty, attrs: seq<Attribute>)

  datatype Fields = FieldsNamed(named: seq<Field>) | FieldsUnnamed(types: seq<Ty>) | FieldsUnit

  datatype Data = DataStruct(fields: Fields) | DataEnum | DataUnion

  datatype DeriveInput = DeriveInput(ident: string, data: Data)

  /** `Path::is_ident`: the path is the single identifier `name`. */
  predicate IsIdent(path: seq<string>, name: string) {
    path == [name]
  }

  /** `get_serde_meta_items`: the items of a `#[serde(...)]` attribute; any
      other attribute has none; a `serde` attribute that is not a list is an
      error. */
  function GetSerdeMetaItems(attr: Attribute): (r: Result<seq<NestedMeta>, ()>)
    ensures r.Failure? <==> IsIdent(attr.path, "serde") && !attr.meta.MetaList?
    ensures r.Success? && !IsIdent(attr.path, "serde") ==> r.value == []
    ensures r.Success? && IsIdent(attr.path, "serde") ==> r.value == attr.meta.nested
  {
    if !IsIdent(attr.path, "serde") then Success([])
    else match attr.meta
      case MetaList(nested) => Success(nested)
      case NotAList => Failure(())
  }

  /** `get_alias_attrs_variables` unwraps the items, so the macro requires of
      every attribute that it is not a malformed `serde` one. */
  predicate WellFormed(attr: Attribute) {
    GetSerdeMetaItems(attr).Success?
  }

  predicate FieldWellFormed(f: Field) {
    forall k :: 0 <= k < |f.attrs| ==> WellFormed(f.attrs[k])
  }

  predicate AllWellFormed(fields: seq<Field>) {
    forall i :: 0 <= i < |fields| ==> FieldWellFormed(fields[i])
  }

  /** The literals of the `alias = lit` items, in order. */
  function AliasLits(items: seq<NestedMeta>): seq<Lit>
    decreases |items|
  {
    if |items| == 0 then []
    else
      var last := items[|items| - 1];
      AliasLits(items[..|items| - 1])
        + if last.MetaNameValue? && IsIdent(last.path, "alias") then [last.lit] else []
  }

  /** The non-empty string literals among `lits`, in order. */
  function NonEmptyStrings(lits: seq<Lit>): seq<string>
    decreases |lits|
  {
    if |lits| == 0 then []
    else
      var last := lits[|lits| - 1];
      NonEmptyStrings(lits[..|lits| - 1])
        + if last.LitStr? && last.value != "" then [last.value] else []
  }

  /** The items the alias extraction looks at: those of a `#[serde(...)]`
      list, and none otherwise (a malformed `serde` attribute, on which the
      macro panics instead, included). */
  function SerdeItems(attr: Attribute): (items: seq<NestedMeta>)
    ensures WellFormed(attr) ==> items == GetSerdeMetaItems(attr).value
  {
    if IsIdent(attr.path, "serde") && attr.meta.MetaList? then attr.meta.nested else []
  }

  /** The aliases one attribute declares. */
  function AttrAliases(attr: Attribute): seq<string> {
    NonEmptyStrings(AliasLits(SerdeItems(attr)))
  }

  /** The aliases a list of attributes declares, attribute by attribute. */
  function Aliases(attrs: seq<Attribute>): seq<string> {
    FlatMap(attrs, AttrAliases)
  }

  /** `get_alias_attrs_variables`: the literal of every `alias = lit` item of a
      `#[serde(...)]` attribute, in order. */
  method GetAliasAttrsVariables(attr: Attribute) returns (lits: seq<Lit>)
    requires WellFormed(attr)
    ensures lits == AliasLits(SerdeItems(attr))
  {
    var metaItems := GetSerdeMetaItems(attr).value;
    lits := [];
    for k := 0 to |metaItems|
      invariant lits == AliasLits(metaItems[..k])
    {
      assert metaItems[..k + 1][..k] == metaItems[..k];
      match metaItems[k] {
        case MetaNameValue(path, lit) =>
          if IsIdent(path, "alias") {
            lits := lits + [lit];
          }
        case MetaOther =>
      }
    }
    assert metaItems[..|metaItems|] == metaItems;
  }

  /** The inner loop of `get_alias_attrs`: the value of every string literal
      among `tokens` is pushed onto `list`, unless it is empty. */
  method PushNonEmptyStrings(list: seq<string>, tokens: seq<Lit>) returns (r: seq<string>)
    ensures r == list + NonEmptyStrings(tokens)
  {
    r := list;
    for k := 0 to |tokens|
      invariant r == list + NonEmptyStrings(tokens[..k])
    {
      assert tokens[..k + 1][..k] == tokens[..k];
      var stringQuote := "";
      if tokens[k].LitStr? {
        stringQuote := tokens[k].value;
      }
      if stringQuote == "" {
        continue;
      }
      r := r + [stringQuote];
    }
    assert tokens[..|tokens|] == tokens;
  }

  /** `get_alias_attrs`: every alias of a field, attribute by attribute; a
      literal that is not a string, or is an empty string, is skipped. */
  method GetAliasAttrs(field: Field) returns (aliases: seq<string>)
    requires FieldWellFormed(field)
    ensures aliases == Aliases(field.attrs)
  {
    aliases := [];
    for i := 0 to |field.attrs|
      invariant aliases == Aliases(field.attrs[..i])
    {
      var attr := field.attrs[i];
      var tokens := GetAliasAttrsVariables(attr);
      FlatMapSnoc(field.attrs[..i], attr, AttrAliases);
      assert field.attrs[..i + 1] == field.attrs[..i] + [attr];
      aliases := PushNonEmptyStrings(aliases, tokens);
    }
    assert field.attrs[..|field.attrs|] == field.attrs;
  }

  /** A literal is an alias literal exactly when some item is `alias = it`. */
  lemma {:induction false} AliasLitsMembership(items: seq<NestedMeta>, l: Lit)
    ensures l in AliasLits(items) <==> MetaNameValue(["alias"], l) in items
    decreases |items|
  {
    if |items| > 0 {
      var init := items[..|items| - 1];
      AliasLitsMembership(init, l);
      assert items == init + [items[|items| - 1]];
    }
  }

  /** The strings kept are exactly the non-empty string literals. */
  lemma {:induction false} NonEmptyStringsMembership(lits: seq<Lit>, s: string)
    ensures s in NonEmptyStrings(lits) <==> s != "" && LitStr(s) in lits
    decreases |lits|
  {
    if |lits| > 0 {
      var init := lits[..|lits| - 1];
      NonEmptyStringsMembership(init, s);
      assert lits == init + [lits[|lits| - 1]];
    }
  }

  /** What one attribute contributes: the non-empty `alias = "..."` strings of
      a `#[serde(...)]` list, and nothing from any other attribute. */
  lemma AttrAliasesMembership(attr: Attribute, s: string)
    requires WellFormed(attr)
    ensures s in AttrAliases(attr) <==>
      s != "" && IsIdent(attr.path, "serde") && MetaNameValue(["alias"], LitStr(s)) in attr.meta.nested
  {
    AliasLitsMembership(GetSerdeMetaItems(attr).value, LitStr(s));
    NonEmptyStringsMembership(AliasLits(GetSerdeMetaItems(attr).value), s);
  }

  /** Declaration order is kept: the aliases of two attribute lists in a row
      are those of the first followed by those of the second. */
  lemma AliasesAppend(a: seq<Attribute>, b: seq<Attribute>)
    ensures Aliases(a + b) == Aliases(a) + Aliases(b)
  {
    FlatMapAppend(a, b, AttrAliases);
  }

  /** A string is an alias of the list exactly when one of its attributes
      declares it. */
  lemma AliasesMembership(attrs: seq<Attribute>, s: string)
    ensures s in Aliases(attrs) <==> exists k :: 0 <= k < |attrs| && s in AttrAliases(attrs[k])
  {
    FlatMapMembership(attrs, AttrAliases, s);
  }

  /** An attribute other than `#[serde(...)]` adds no alias. */
  lemma NonSerdeAttributeAddsNothing(attrs: seq<Attribute>, attr: Attribute)
    requires !IsIdent(attr.path, "serde")
    ensures Aliases(attrs + [attr]) == Aliases(attrs)
  {
    FlatMapSnoc(attrs, attr, AttrAliases);
  }

  /** The named fields of the input: those of a struct with named fields, and
      none for a tuple struct, a unit struct, an enum or a union. */
  function NamedFields(ast: DeriveInput): seq<Field> {
    if ast.data.DataStruct? && ast.data.fields.FieldsNamed? then ast.data.fields.named else []
  }

  /** `get_struct_fields`. */
  method GetStructFields(ast: DeriveInput) returns (list: seq<Field>)
    ensures ast.data.DataStruct? && ast.data.fields.FieldsNamed? ==> list == ast.data.fields.named
    ensures !(ast.data.DataStruct? && ast.data.fields.FieldsNamed?) ==> list == []
  {
    list := [];
    match ast.data {
      case DataStruct(fields) =>
        match fields {
          case FieldsNamed(named) =>
            for k := 0 to |named|
              invariant list == named[..k]
            {
              list := list + [named[k]];
            }
            assert named[..|named|] == named;
          case FieldsUnnamed(_) =>
          case FieldsUnit =>
        }
      case DataEnum =>
      case DataUnion =>
    }
  }

  /** `get_struct_data`: the (identifier, type) pair of every named field, in
      declaration order; empty unless the input is a struct with named fields. */
  method GetStructData(ast: DeriveInput) returns (list: seq<(string, Ty)>)
    ensures |list| == |NamedFields(ast)|
    ensures forall k :: 0 <= k < |list| ==> list[k] == (NamedFields(ast)[k].name, NamedFields(ast)[k].ty)
  {
    list := [];
    match ast.data {
      case DataStruct(fields) =>
        match fields {
          case FieldsNamed(named) =>
            for k := 0 to |named|
              invariant |list| == k
              invariant forall j :: 0 <= j < k ==> list[j] == (named[j].name, named[j].ty)
            {
              list := list + [(named[k].name, named[k].ty)];
            }
          case FieldsUnnamed(_) =>
          case FieldsUnit =>
        }
      case DataEnum =>
      case DataUnion =>
    }
  }
}
