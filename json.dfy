/** JSON texts as trees: the values a caller hands to `set`, and the envelope
    record `set` serializes and `get` reads back. An object keeps its fields in
    the order the text writes them, duplicates included; reading a property
    (`Member`) does what `JSON.parse` followed by a property read does, so the
    last of duplicate keys wins. Numbers are integers here. */
module Json {
  import opened Wrappers

  datatype Json =
    | JNull
    | JBool(b: bool)
    | JNum(n: int)
    | JStr(s: string)
    | JArr(items: seq<Json>)
    | JObj(fields: seq<(string, Json)>)

  /** JavaScript truthiness of a property value; `None` is `undefined`. */
  predicate Truthy(v: Option<Json>) {
    match v
    case None => false
    case Some(JNull) => false
    case Some(JBool(b)) => b
    case Some(JNum(n)) => n != 0
    case Some(JStr(s)) => s != ""
    case Some(_) => true
  }

  /** The value of the last field named `key` (JSON.parse keeps the last of
      duplicate keys), or `None` when there is none. */
  function Lookup(fields: seq<(string, Json)>, key: string): (r: Option<Json>)
    ensures r.None? <==> forall i :: 0 <= i < |fields| ==> fields[i].0 != key
    ensures r.Some? ==>
      exists i :: 0 <= i < |fields| && fields[i] == (key, r.value) && forall j :: i < j < |fields| ==> fields[j].0 != key
  {
    if |fields| == 0 then None
    else if fields[|fields| - 1].0 == key then Some(fields[|fields| - 1].1)
    else Lookup(fields[..|fields| - 1], key)
  }

  /** The property read `v.key`: a field of an object, `undefined` for anything
      else (reading a property of `null` throws; callers handle that first). */
  function Member(v: Json, key: string): Option<Json> {
    if v.JObj? then Lookup(v.fields, key) else None
  }

  /** The names of an object's fields, in order. */
  function Keys(v: Json): (r: seq<string>)
    ensures v.JObj? ==> |r| == |v.fields| && forall i :: 0 <= i < |r| ==> r[i] == v.fields[i].0
    ensures !v.JObj? ==> r == []
  {
    if v.JObj? then seq(|v.fields|, i requires 0 <= i < |v.fields| => v.fields[i].0) else []
  }

  function Replace(fields: seq<(string, Json)>, key: string, x: Json): (r: seq<(string, Json)>)
    ensures |r| == |fields|
    ensures forall i :: 0 <= i < |r| ==> r[i].0 == fields[i].0
    ensures forall i :: 0 <= i < |r| ==> r[i].1 == if fields[i].0 == key then x else fields[i].1
  {
    if |fields| == 0 then []
    else
      var (k, prior) := fields[|fields| - 1];
      Replace(fields[..|fields| - 1], key, x) + [(k, if k == key then x else prior)]
  }

  /** The assignment `v.key = x` on a parsed object: a field already there keeps
      its place and takes the new value, a new one is added at the end. */
  function Assign(v: Json, key: string, x: Json): Json
    requires v.JObj?
  {
    if key in Keys(v) then JObj(Replace(v.fields, key, x)) else JObj(v.fields + [(key, x)])
  }

  /** After `v.key = x`, reading `key` gives `x` and every other field reads as
      before. */
  lemma AssignThenMember(v: Json, key: string, x: Json, other: string)
    requires v.JObj?
    ensures Member(Assign(v, key, x), key) == Some(x)
    ensures other != key ==> Member(Assign(v, key, x), other) == Member(v, other)
  {
    if key in Keys(v) {
      LookupReplaced(v.fields, key, x, key);
      LookupReplaced(v.fields, key, x, other);
    } else {
      var f := v.fields + [(key, x)];
      assert f[..|f| - 1] == v.fields;
    }
  }

  lemma {:induction false} LookupReplaced(fields: seq<(string, Json)>, key: string, x: Json, other: string)
    requires key in Keys(JObj(fields))
    ensures Lookup(Replace(fields, key, x), key) == Some(x)
    ensures other != key ==> Lookup(Replace(fields, key, x), other) == Lookup(fields, other)
  {
    var r := Replace(fields, key, x);
    var n := |fields| - 1;
    assert r[..n] == Replace(fields[..n], key, x);
    if fields[n].0 != key {
      var i :| 0 <= i < |fields| && Keys(JObj(fields))[i] == key;
      assert Keys(JObj(fields[..n]))[i] == key;
      LookupReplaced(fields[..n], key, x, other);
    } else if other != key && key in Keys(JObj(fields[..n])) {
      LookupReplaced(fields[..n], key, x, other);
    } else if other != key {
      ReplaceAbsentKey(fields[..n], key, x);
    }
  }

  lemma {:induction false} ReplaceAbsentKey(fields: seq<(string, Json)>, key: string, x: Json)
    requires key !in Keys(JObj(fields))
    ensures Replace(fields, key, x) == fields
  {
    if |fields| > 0 {
      var n := |fields| - 1;
      ReplaceAbsentKey(fields[..n], key, x);
      assert fields == fields[..n] + [fields[n]];
    }
  }

  /** A field that no later field shadows is the one a lookup finds. */
  lemma LookupLast(fields: seq<(string, Json)>, key: string, i: int)
    requires 0 <= i < |fields| && fields[i].0 == key
    requires forall j :: i < j < |fields| ==> fields[j].0 != key
    ensures Lookup(fields, key) == Some(fields[i].1)
  {
    var r := Lookup(fields, key);
    var k :| 0 <= k < |fields| && fields[k] == (key, r.value) && forall j :: k < j < |fields| ==> fields[j].0 != key;
    assert k == i;
  }
}
