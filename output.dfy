/**
 * `CLI#output` in rally.rb, over an already parsed response: a hash with a
 * truthy `error` entry shows only that entry, anything else is shown whole.
 * Parsing the text and pretty-printing are left to the JSON library and `pp`.
 */
module Output {

  /** A parsed JSON document as Ruby's `JSON.parse` returns it (numbers kept to integers). */
  datatype Json =
    | Null
    | Bool(b: bool)
    | Number(n: int)
    | Str(s: string)
    | Array(items: seq<Json>)
    | Object(fields: seq<(string, Json)>)

  /** `hash[key]` on a parsed object: the last member with that name wins; nil when there is none. */
  function Get(fields: seq<(string, Json)>, key: string): (v: Json)
    ensures v != Null ==> exists i :: 0 <= i < |fields| && fields[i] == (key, v)
    decreases |fields|
  {
    if fields == [] then Null
    else
      var n := |fields| - 1;
      if fields[n].0 == key then fields[n].1 else Get(fields[..n], key)
  }

  /** Ruby truthiness: everything except nil and false. */
  predicate Truthy(v: Json) {
    v != Null && v != Bool(false)
  }

  /** What `output` hands to `pp`. */
  function Shown(content: Json): (r: Json)
    ensures r != content ==> content.Object? && Truthy(r)
  {
    if content.Object? && Truthy(Get(content.fields, "error")) then Get(content.fields, "error")
    else content
  }

  /** `hash[key]` is the value of the last member named `key`. */
  lemma {:induction false} GetLast(fields: seq<(string, Json)>, key: string, i: nat)
    requires i < |fields| && fields[i].0 == key
    requires forall j :: i < j < |fields| ==> fields[j].0 != key
    ensures Get(fields, key) == fields[i].1
    decreases |fields|
  {
    var n := |fields| - 1;
    if i < n {
      assert forall j :: 0 <= j < n ==> fields[..n][j] == fields[j];
      GetLast(fields[..n], key, i);
    }
  }

  /** An object without an `error` member is shown whole. */
  lemma {:induction false} GetMissing(fields: seq<(string, Json)>, key: string)
    requires forall j :: 0 <= j < |fields| ==> fields[j].0 != key
    ensures Get(fields, key) == Null
    decreases |fields|
  {
    if fields != [] {
      var n := |fields| - 1;
      assert forall j :: 0 <= j < n ==> fields[..n][j] == fields[j];
      GetMissing(fields[..n], key);
    }
  }

  /** A hash whose last `error` member is truthy is shown as that member's value alone. */
  lemma ShownError(fields: seq<(string, Json)>, i: nat)
    requires i < |fields| && fields[i].0 == "error" && Truthy(fields[i].1)
    requires forall j :: i < j < |fields| ==> fields[j].0 != "error"
    ensures Shown(Object(fields)) == fields[i].1
  {
    GetLast(fields, "error", i);
  }

  /** A hash whose last `error` member is nil or false is shown whole. */
  lemma ShownFalsyError(fields: seq<(string, Json)>, i: nat)
    requires i < |fields| && fields[i].0 == "error" && !Truthy(fields[i].1)
    requires forall j :: i < j < |fields| ==> fields[j].0 != "error"
    ensures Shown(Object(fields)) == Object(fields)
  {
    GetLast(fields, "error", i);
  }

  /** Content that is not a hash, or a hash with no `error` member, is shown whole. */
  lemma ShownWhole(content: Json)
    requires !content.Object? || forall j :: 0 <= j < |content.fields| ==> content.fields[j].0 != "error"
    ensures Shown(content) == content
  {
    if content.Object? {
      GetMissing(content.fields, "error");
    }
  }

  /** Examples: `{"error":"bad creds"}` shows only `"bad creds"`; a hash without `error` is shown whole. */
  lemma ShownErrorExample()
    ensures Shown(Object([("error", Str("bad creds"))])) == Str("bad creds")
    ensures Shown(Object([("id", Number(5)), ("time", Number(90))])) == Object([("id", Number(5)), ("time", Number(90))])
  {
    var f := [("id", Number(5)), ("time", Number(90))];
    GetMissing(f, "error");
  }
}
