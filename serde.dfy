/** The parts of serde that the best-effort decoder talks to, reduced to values:
    the generic JSON-like `Value`, the deserializer error, and the stream of
    keyed entries that `MapAccess::next_key` / `next_value` hand out. */
module Serde {
  import opened Wrappers

  /** `serde_json::Value`, kept opaque apart from its default `Null`. */
  datatype Value =
    | Null
    | Bool(b: bool)
    | Number(n: int)
    | String(s: string)
    | Array(elems: seq<Value>)
    | Object(members: map<string, Value>)

  /** Errors a deserializer reports: `invalid_length(i, ..)` and everything else. */
  datatype Error = InvalidLength(len: nat) | Custom(msg: string)

  /** One step of `MapAccess`: `next_key` either yields a key (whose value is
      still raw, of the format's own type `R`) or fails. */
  datatype Entry<R> = Pair(key: string, raw: R) | KeyError(error: Error)

  /** The position of the first entry whose key could not be read, if any;
      `while let Some(key) = map.next_key()?` stops there. */
  function FirstKeyError<R>(input: seq<Entry<R>>): (r: Option<nat>)
    ensures r.Some? ==> r.value < |input| && input[r.value].KeyError?
    ensures r.Some? ==> forall j :: 0 <= j < r.value ==> input[j].Pair?
    ensures r.None? <==> forall j :: 0 <= j < |input| ==> input[j].Pair?
  {
    if |input| == 0 then None
    else if input[0].KeyError? then Some(0)
    else match FirstKeyError(input[1..])
      case None => None
      case Some(k) => Some(k + 1)
  }

  /** The first unreadable key is determined by the positions alone: any
      unreadable key preceded only by readable ones is it. */
  lemma FirstKeyErrorAt<R>(input: seq<Entry<R>>, k: nat)
    requires k < |input| && input[k].KeyError?
    requires forall j :: 0 <= j < k ==> input[j].Pair?
    ensures FirstKeyError(input) == Some(k)
  {
    assert !input[k].Pair?;
  }

  /** Reading one more entry: the first unreadable key of the longer stream is
      that of the shorter one, or else the new entry if it is unreadable. */
  lemma FirstKeyErrorSnoc<R>(input: seq<Entry<R>>, e: Entry<R>)
    ensures FirstKeyError(input + [e]) ==
      if FirstKeyError(input).Some? then FirstKeyError(input)
      else if e.KeyError? then Some(|input|) else None
  {
    var s := input + [e];
    var ri := FirstKeyError(input);
    if ri.Some? {
      assert s[ri.value] == input[ri.value];
      assert forall j :: 0 <= j < ri.value ==> s[j] == input[j];
      FirstKeyErrorAt(s, ri.value);
    } else {
      assert forall j :: 0 <= j < |input| ==> s[j] == input[j];
      if e.KeyError? {
        FirstKeyErrorAt(s, |input|);
      } else {
        assert forall j :: 0 <= j < |s| ==> s[j].Pair?;
      }
    }
  }
}
