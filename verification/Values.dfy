/** The values JSON text stands for. */
module Values {
  import opened Units
  import opened Scalars

  /**
   * A parsed value. Object members are compared without regard to order, as
   * isDeepStrictEqual compares them, so an object is a map. A number is kept as its literal.
   */
  datatype Value =
    | Null
    | Bool(b: bool)
    | Num(literal: Number)
    | Str(s: Text)
    | Arr(items: seq<Value>)
    | Obj(fields: map<Text, Value>)

  type Fields = map<Text, Value>

  /** What an edit of `path` means on the object it edits. */
  function Merged(before: Fields, path: seq<Text>, value: Value, keep: bool): (after: Fields)
    decreases |path|
  {
    if path == [] then before
    else if |path| == 1 then
      if !keep || path[0] !in before then before[path[0] := value] else before
    else
      var inner := if path[0] in before && before[path[0]].Obj? then before[path[0]].fields else map[];
      before[path[0] := Obj(Merged(inner, path[1..], value, keep))]
  }
}
