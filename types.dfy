/** The Rust types a best-effort field may be declared with, and a dynamic
    universe of their values, so that a record with fields of different types can
    be described by a list of field descriptors. */
module Types {
  import opened Wrappers
  import opened Serde

  newtype i32 = x: int | -0x8000_0000 <= x < 0x8000_0000
  newtype u32 = x: int | 0 <= x < 0x1_0000_0000

  /** Field types: `i32`, `u32`, `String`, `serde_json::Value`,
      `HashMap<String, Value>`, `()`, `Vec<T>`, `Option<T>` and a nested record
      that itself derives `DeserializeBestEffort` and `Default`. */
  datatype Ty =
    | TyI32
    | TyU32
    | TyString
    | TyValue
    | TyHashMap
    | TyUnit
    | TyVec(elem: Ty)
    | TyOption(inner: Ty)
    | TyRecord(name: string, fieldTypes: seq<Ty>)

  datatype Val =
    | I32Val(i: i32)
    | U32Val(u: u32)
    | StringVal(s: string)
    | ValueVal(v: Value)
    | MapVal(m: map<string, Value>)
    | UnitVal
    | VecVal(items: seq<Val>)
    | OptionVal(opt: Option<Val>)
    | RecordVal(fields: seq<Val>)

  /** `v` is a value of the Rust type `t`. */
  predicate HasType(v: Val, t: Ty)
    decreases t
  {
    match t
    case TyI32 => v.I32Val?
    case TyU32 => v.U32Val?
    case TyString => v.StringVal?
    case TyValue => v.ValueVal?
    case TyHashMap => v.MapVal?
    case TyUnit => v.UnitVal?
    case TyVec(e) => v.VecVal? && forall k :: 0 <= k < |v.items| ==> HasType(v.items[k], e)
    case TyOption(inner) => v.OptionVal? && (v.opt.Some? ==> HasType(v.opt.value, inner))
    case TyRecord(_, fts) =>
      v.RecordVal? && |v.fields| == |fts| &&
      forall k :: 0 <= k < |fts| ==> HasType(v.fields[k], fts[k])
  }

  /** `Default::default()` of each type; a nested record's default is the record
      of its fields' defaults (`#[derive(Default)]`). */
  function Default(t: Ty): (r: Val)
    ensures HasType(r, t)
    decreases t
  {
    match t
    case TyI32 => I32Val(0)
    case TyU32 => U32Val(0)
    case TyString => StringVal("")
    case TyValue => ValueVal(Null)
    case TyHashMap => MapVal(map[])
    case TyUnit => UnitVal
    case TyVec(_) => VecVal([])
    case TyOption(_) => OptionVal(None)
    case TyRecord(_, fts) => RecordVal(seq(|fts|, k requires 0 <= k < |fts| => Default(fts[k])))
  }

  /** The types `T` with `T: DeserializeBestEffortTypes<T>`: the ones whose
      add_data receives a value of their own type. */
  predicate SelfMerging(t: Ty) {
    t.TyI32? || t.TyU32? || t.TyString? || t.TyValue? || t.TyRecord?
  }

  /** Some impl of `DeserializeBestEffortTypes` applies to a field of type `t`:
      `Vec<T>`, `Option<T>` and `Option<Vec<T>>` need a self-merging `T`,
      `Option<()>` has its own impl, and `()` alone has none. */
  predicate Supported(t: Ty) {
    match t
    case TyUnit => false
    case TyVec(e) => SelfMerging(e)
    case TyOption(inner) =>
      inner.TyUnit? || (inner.TyVec? && SelfMerging(inner.elem)) || SelfMerging(inner)
    case _ => true
  }

  /** The type of the value add_data receives for a field of type `t` (the
      trait's parameter in the impl that applies), which is also the type
      `map.next_value()` is asked to decode. */
  function ElemTy(t: Ty): (e: Ty)
    requires Supported(t)
    ensures SelfMerging(e)
  {
    match t
    case TyHashMap => TyValue
    case TyVec(e) => e
    case TyOption(inner) =>
      if inner.TyUnit? then TyString
      else if inner.TyVec? then inner.elem
      else inner
    case _ => t
  }
}
