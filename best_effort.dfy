/** The merge rules of `DeserializeBestEffortTypes::add_data`: how a field folds
    in a value that arrives for it, once per occurrence of its key.

    Each Rust impl takes `&mut self`; here it is a method that receives the
    field's current value and returns the updated one. `Merge` is the same
    dispatch as a function over the dynamic universe of `Types`, selected by the
    field's declared type as trait resolution selects the impl. */
module BestEffort {
  import opened Wrappers
  import opened Serde
  import opened Types

  /** `impl DeserializeBestEffortTypes<i32> for i32`: overwrite. */
  method AddDataI32(current: i32, key: string, next: i32) returns (updated: i32)
    ensures updated == next
  {
    updated := next;
  }

  /** `impl DeserializeBestEffortTypes<u32> for u32`: overwrite. */
  method AddDataU32(current: u32, key: string, next: u32) returns (updated: u32)
    ensures updated == next
  {
    updated := next;
  }

  /** `impl DeserializeBestEffortTypes<String> for String`: overwrite. */
  method AddDataString(current: string, key: string, next: string) returns (updated: string)
    ensures updated == next
  {
    updated := next;
  }

  /** `impl DeserializeBestEffortTypes<Value> for Value`: overwrite. */
  method AddDataValue(current: Value, key: string, next: Value) returns (updated: Value)
    ensures updated == next
  {
    updated := next;
  }

  /** `impl DeserializeBestEffortTypes<Value> for HashMap<String, Value>`:
      `insert(key, next)`; the only rule that uses the key. */
  method AddDataHashMap(current: map<string, Value>, key: string, next: Value)
    returns (updated: map<string, Value>)
    ensures key in updated && updated[key] == next
    ensures updated.Keys == current.Keys + {key}
    ensures forall k :: k in current && k != key ==> updated[k] == current[k]
  {
    updated := current[key := next];
  }

  /** The blanket impl for a nested record (`T: DeserializeBestEffort + Default`):
      the record is replaced outright, never merged field by field. */
  method AddDataRecord<T>(current: T, key: string, next: T) returns (updated: T)
    ensures updated == next
  {
    updated := next;
  }

  /** `impl DeserializeBestEffortTypes<T> for Vec<T>`: `push(next)`. */
  method AddDataVec<T>(current: seq<T>, key: string, next: T) returns (updated: seq<T>)
    ensures |updated| == |current| + 1
    ensures updated[..|current|] == current
    ensures updated[|current|] == next
  {
    updated := current + [next];
  }

  /** `impl DeserializeBestEffortTypes<T> for Option<T>`: `Some(next)`, whatever
      was there before. */
  method AddDataOption<T>(current: Option<T>, key: string, next: T) returns (updated: Option<T>)
    ensures updated == Some(next)
  {
    updated := Some(next);
  }

  /** `impl DeserializeBestEffortTypes<String> for Option<()>`: a presence flag;
      the string itself is dropped. */
  method AddDataOptionUnit(current: Option<()>, key: string, next: string)
    returns (updated: Option<()>)
    ensures updated == Some(())
  {
    updated := Some(());
  }

  /** `impl DeserializeBestEffortTypes<T> for Option<Vec<T>>`: create the list
      on first use, then push. */
  method AddDataOptionVec<T>(current: Option<seq<T>>, key: string, next: T)
    returns (updated: Option<seq<T>>)
    ensures updated.Some?
    ensures current.None? ==> updated.value == [next]
    ensures current.Some? ==> updated.value == current.value + [next]
  {
    updated := current;
    if updated.None? {
      updated := Some([]);
    }
    if updated.Some? {
      updated := Some(updated.value + [next]);
    }
  }

  /** The rule trait resolution selects for a field of declared type `t`; it
      keeps the field a value of its type. */
  function Merge(t: Ty, current: Val, key: string, next: Val): (r: Val)
    requires Supported(t) && HasType(current, t) && HasType(next, ElemTy(t))
    ensures HasType(r, t)
  {
    match t
    case TyHashMap => MapVal(current.m[key := next.v])
    case TyVec(_) => VecVal(current.items + [next])
    case TyOption(inner) =>
      if inner.TyUnit? then OptionVal(Some(UnitVal))
      else if inner.TyVec? then
        (match current.opt
         case None => OptionVal(Some(VecVal([next])))
         case Some(list) =>
           assert HasType(list, inner);
           OptionVal(Some(VecVal(list.items + [next]))))
      else OptionVal(Some(next))
    case _ => next
  }

  /** `field.add_data(key, next)` on a field of declared type `t`: the call
      dispatches to the impl for `t`. */
  method AddData(t: Ty, current: Val, key: string, next: Val) returns (updated: Val)
    requires Supported(t) && HasType(current, t) && HasType(next, ElemTy(t))
    ensures updated == Merge(t, current, key, next)
  {
    match t {
      case TyI32 =>
        var x := AddDataI32(current.i, key, next.i);
        updated := I32Val(x);
      case TyU32 =>
        var x := AddDataU32(current.u, key, next.u);
        updated := U32Val(x);
      case TyString =>
        var x := AddDataString(current.s, key, next.s);
        updated := StringVal(x);
      case TyValue =>
        var x := AddDataValue(current.v, key, next.v);
        updated := ValueVal(x);
      case TyHashMap =>
        var x := AddDataHashMap(current.m, key, next.v);
        assert x == current.m[key := next.v];
        updated := MapVal(x);
      case TyRecord(_, _) =>
        updated := AddDataRecord(current, key, next);
      case TyVec(_) =>
        var x := AddDataVec(current.items, key, next);
        updated := VecVal(x);
      case TyOption(inner) =>
        if inner.TyUnit? {
          var x := AddDataOptionUnit(if current.opt.Some? then Some(()) else None, key, next.s);
          updated := OptionVal(if x.Some? then Some(UnitVal) else None);
        } else if inner.TyVec? {
          var list := None;
          if current.opt.Some? {
            assert HasType(current.opt.value, inner);
            list := Some(current.opt.value.items);
          }
          var x := AddDataOptionVec(list, key, next);
          updated := OptionVal(Some(VecVal(x.value)));
        } else {
          var x := AddDataOption(current.opt, key, next);
          updated := OptionVal(x);
        }
    }
  }

  /** Every value in `nexts` is one `t`'s add_data accepts. */
  ghost predicate AllOfType(nexts: seq<Val>, t: Ty) {
    forall k :: 0 <= k < |nexts| ==> HasType(nexts[k], t)
  }

  /** `add_data(key, v)` applied for each `v` of `nexts` in turn, as a repeated
      key does to its field. */
  function MergeAll(t: Ty, current: Val, key: string, nexts: seq<Val>): (r: Val)
    requires Supported(t) && HasType(current, t) && AllOfType(nexts, ElemTy(t))
    ensures HasType(r, t)
    decreases |nexts|
  {
    if |nexts| == 0 then current
    else Merge(t, MergeAll(t, current, key, nexts[..|nexts| - 1]), key, nexts[|nexts| - 1])
  }

  /** The key is used only by the map rule: for every other type the result of
      add_data does not depend on which key it was given. */
  lemma MergeIgnoresKey(t: Ty, current: Val, k1: string, k2: string, next: Val)
    requires Supported(t) && HasType(current, t) && HasType(next, ElemTy(t))
    requires !t.TyHashMap?
    ensures Merge(t, current, k1, next) == Merge(t, current, k2, next)
  {
  }

  /** Append: n occurrences of a `Vec` field's key leave its values after the
      old ones, in arrival order. */
  lemma {:induction false} RepeatedVecAppends(e: Ty, start: seq<Val>, key: string, nexts: seq<Val>)
    requires Supported(TyVec(e)) && HasType(VecVal(start), TyVec(e)) && AllOfType(nexts, e)
    ensures MergeAll(TyVec(e), VecVal(start), key, nexts) == VecVal(start + nexts)
    decreases |nexts|
  {
    if |nexts| > 0 {
      var init := nexts[..|nexts| - 1];
      RepeatedVecAppends(e, start, key, init);
      assert start + init + [nexts[|nexts| - 1]] == start + nexts;
    }
  }

  /** Overwrite (scalars, `Value`, nested records): after several occurrences,
      the field holds the last value; nested records are replaced, not merged. */
  lemma {:induction false} RepeatedOverwriteKeepsLast(t: Ty, current: Val, key: string, nexts: seq<Val>)
    requires SelfMerging(t) && HasType(current, t) && AllOfType(nexts, t) && |nexts| > 0
    ensures MergeAll(t, current, key, nexts) == nexts[|nexts| - 1]
  {
  }

  /** Insert: a repeated key of a map field keeps only its last value, and the
      other keys keep theirs. */
  lemma {:induction false} RepeatedMapKeyReplaces(m: map<string, Value>, key: string, nexts: seq<Val>)
    requires AllOfType(nexts, TyValue) && |nexts| > 0
    ensures MergeAll(TyHashMap, MapVal(m), key, nexts) == MapVal(m[key := nexts[|nexts| - 1].v])
    decreases |nexts|
  {
    if |nexts| > 1 {
      RepeatedMapKeyReplaces(m, key, nexts[..|nexts| - 1]);
    }
  }

  /** Set-once wrapping of a list: starting from `None`, n >= 1 occurrences give
      `Some` of the n values in arrival order; the list grows by one each time. */
  lemma {:induction false} RepeatedOptionVecCreatesThenAppends(e: Ty, key: string, nexts: seq<Val>)
    requires SelfMerging(e) && AllOfType(nexts, e) && |nexts| > 0
    ensures MergeAll(TyOption(TyVec(e)), OptionVal(None), key, nexts) == OptionVal(Some(VecVal(nexts)))
    decreases |nexts|
  {
    var t := TyOption(TyVec(e));
    var init := nexts[..|nexts| - 1];
    if |init| > 0 {
      RepeatedOptionVecCreatesThenAppends(e, key, init);
      assert init + [nexts[|nexts| - 1]] == nexts;
    } else {
      assert nexts[..0] == [];
      assert MergeAll(t, OptionVal(None), key, nexts[..0]) == OptionVal(None);
      assert nexts == [nexts[0]];
    }
  }

  /** Append to an existing wrapped list: from `Some(start)`, n occurrences
      give `Some(start + nexts)`, the new values after the old, in order. */
  lemma {:induction false} RepeatedOptionVecAppends(e: Ty, start: seq<Val>, key: string, nexts: seq<Val>)
    requires SelfMerging(e) && HasType(VecVal(start), TyVec(e)) && AllOfType(nexts, e)
    ensures MergeAll(TyOption(TyVec(e)), OptionVal(Some(VecVal(start))), key, nexts)
         == OptionVal(Some(VecVal(start + nexts)))
    decreases |nexts|
  {
    if |nexts| > 0 {
      var init := nexts[..|nexts| - 1];
      RepeatedOptionVecAppends(e, start, key, init);
      assert start + init + [nexts[|nexts| - 1]] == start + nexts;
    } else {
      assert start + nexts == start;
    }
  }

  /** `Option<()>` is a presence flag: a second occurrence changes nothing. */
  lemma OptionUnitIdempotent(current: Val, k1: string, s1: Val, k2: string, s2: Val)
    requires HasType(current, TyOption(TyUnit)) && HasType(s1, TyString) && HasType(s2, TyString)
    ensures Merge(TyOption(TyUnit), current, k1, s1) == OptionVal(Some(UnitVal))
    ensures Merge(TyOption(TyUnit), Merge(TyOption(TyUnit), current, k1, s1), k2, s2)
         == Merge(TyOption(TyUnit), current, k1, s1)
  {
  }
}
