/** `AppLogger._prepare_extra`: the keyword arguments of a log call are made
    safe for the logging record's `extra` mapping. */
module LogExtra {

  /** A Python value passed as a keyword argument. `Other` is any object
      that is not a str, int, float, bool or None, carrying `str()` of it. */
  datatype Value =
    | Str(s: string)
    | Int(i: int)
    | Float(x: real)
    | Bool(b: bool)
    | NoneValue
    | Other(text: string)

  /** str, int, float, bool or None: passed through unchanged. */
  predicate Primitive(v: Value)
  {
    !v.Other?
  }

  /** An empty mapping gives an empty result; otherwise the result holds one
      key, 'extra', mapping every key of `data` to its value, with every
      non-primitive value replaced by its string form. */
  method PrepareExtra(data: map<string, Value>) returns (r: map<string, map<string, Value>>)
    ensures data == map[] ==> r == map[]
    ensures data != map[] ==> r.Keys == {"extra"} && r["extra"].Keys == data.Keys
    ensures data != map[] ==> forall k :: k in data && Primitive(data[k]) ==> r["extra"][k] == data[k]
    ensures data != map[] ==> forall k :: k in data && !Primitive(data[k]) ==> r["extra"][k] == Str(data[k].text)
    ensures forall m, k :: m in r && k in r[m] ==> Primitive(r[m][k])
  {
    if data == map[] {
      return map[];
    }
    var extra: map<string, Value> := map[];
    var pending := data.Keys;
    while pending != {}
      invariant pending <= data.Keys
      invariant extra.Keys == data.Keys - pending
      invariant forall k :: k in extra && Primitive(data[k]) ==> extra[k] == data[k]
      invariant forall k :: k in extra && !Primitive(data[k]) ==> extra[k] == Str(data[k].text)
      decreases pending
    {
      var key :| key in pending;
      var value := data[key];
      if !Primitive(value) {
        extra := extra[key := Str(value.text)];
      } else {
        extra := extra[key := value];
      }
      pending := pending - {key};
    }
    r := map["extra" := extra];
  }
}
