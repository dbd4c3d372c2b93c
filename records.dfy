/**
 * The front end's grid rows and column definitions: JSON-like values and
 * records (dicts from column name to value), as the grids hand them to the
 * callbacks.
 */
module Records {
  import opened Wrappers
  import Seqs
  import Dicts

  /** A JSON value as a grid cell, a column definition entry or a stored row. Numbers are opaque: only copied, never computed with. */
  datatype Value =
    | JNull
    | JBool(b: bool)
    | JNumber(n: int)
    | JStr(s: string)
    | JList(items: seq<Value>)
    | JObj(entries: Dicts.Dict<string, Value>)

  /** A row of a grid or a column definition: a dict from key to value. */
  type Record = Dicts.Dict<string, Value>

  /** A callback output slot: Dash's `no_update` or a new value. */
  datatype Update<T> = NoUpdate | Update(value: T)

  /** `record[key]`: KeyError when the key is missing. */
  function Lookup(r: Record, key: string): (v: Result<Value>)
    ensures v.Err? <==> key !in Dicts.Keys(r)
    ensures v.Err? ==> v.error == KeyError
    ensures v.Ok? ==> Some(v.value) == Dicts.Get(r, key)
  {
    match Dicts.Get(r, key)
    case None => Err(KeyError)
    case Some(x) => Ok(x)
  }

  /** `[record[key] for record in records]`: KeyError when some record misses the key. */
  function Column(records: seq<Record>, key: string): (r: Result<seq<Value>>)
    ensures r.Err? <==> exists i :: 0 <= i < |records| && key !in Dicts.Keys(records[i])
    ensures r.Err? ==> r.error == KeyError
    ensures r.Ok? ==> |r.value| == |records|
    ensures r.Ok? ==> forall i :: 0 <= i < |records| ==> Lookup(records[i], key) == Ok(r.value[i])
    decreases |records|
  {
    if |records| == 0 then Ok([])
    else
      match Lookup(records[0], key)
      case Err(e) => Err(e)
      case Ok(v) =>
        var rest := Column(records[1..], key);
        if rest.Err? then
          ghost var i :| 0 <= i < |records[1..]| && key !in Dicts.Keys(records[1..][i]);
          assert key !in Dicts.Keys(records[i + 1]);
          Err(rest.error)
        else
          Ok([v] + rest.value)
  }

  /** A field given as None or as a list. */
  function OrEmpty(f: Option<seq<Record>>): seq<Record> {
    if f.Some? then f.value else []
  }

  /**
   * The `__post_init__` loop of the grid dataclasses: every field that is
   * None becomes an empty list; the others stay as they are.
   */
  method SetListIfNone(fields: seq<Option<seq<Record>>>) returns (r: seq<seq<Record>>)
    ensures |r| == |fields|
    ensures forall i :: 0 <= i < |fields| ==>
      (fields[i].None? ==> r[i] == []) && (fields[i].Some? ==> r[i] == fields[i].value)
  {
    r := [];
    for i := 0 to |fields|
      invariant |r| == i
      invariant forall k :: 0 <= k < i ==> r[k] == OrEmpty(fields[k])
    {
      if fields[i].None? {
        r := r + [[]];
      } else {
        r := r + [fields[i].value];
      }
    }
  }

  /** A list of records as a JSON list of objects. */
  function Objects(rs: seq<Record>): (v: Value)
    ensures v.JList? && |v.items| == |rs| && forall i :: 0 <= i < |rs| ==> v.items[i] == JObj(rs[i])
  {
    JList(seq(|rs|, i requires 0 <= i < |rs| => JObj(rs[i])))
  }

  /** The records of a JSON list of objects; anything else is not a list of records. */
  function RecordsOf(v: Value): (r: Option<seq<Record>>)
    ensures r.Some? <==> v.JList? && forall i :: 0 <= i < |v.items| ==> v.items[i].JObj?
    ensures r.Some? ==> |r.value| == |v.items| && forall i :: 0 <= i < |v.items| ==> v.items[i] == JObj(r.value[i])
  {
    if v.JList? && forall i :: 0 <= i < |v.items| ==> v.items[i].JObj? then
      Some(seq(|v.items|, i requires 0 <= i < |v.items| && v.items[i].JObj? => v.items[i].entries))
    else None
  }

  /** Reading back a list of records written as JSON gives the same records. */
  lemma RecordsRoundTrip(rs: seq<Record>)
    ensures RecordsOf(Objects(rs)) == Some(rs)
  {
    var r := RecordsOf(Objects(rs));
    assert r.Some?;
    assert r.value == rs;
  }
}
