/**
  The dynamically typed values of JavaScript that the system navigates: parsed manifest documents and
  request bodies. Only the operations the modelled code uses are defined: truthiness, property access
  (`v.k`), optional chaining (`v?.k`) and `Array.isArray`.
*/
module Json {
  import opened Wrappers

  datatype Value =
    | Undefined
    | Null
    | Bool(b: bool)
    | Num(n: int)
    | Str(s: string)
    | Arr(items: seq<Value>)
    | Obj(fields: map<string, Value>)

  /** JavaScript truthiness: `undefined`, `null`, `false`, `0` and `""` are falsy, everything else truthy. */
  predicate Truthy(v: Value) {
    match v
    case Undefined => false
    case Null => false
    case Bool(b) => b
    case Num(n) => n != 0
    case Str(s) => s != ""
    case Arr(_) => true
    case Obj(_) => true
  }

  predicate Nullish(v: Value) {
    v.Undefined? || v.Null?
  }

  /** Property read on a value that is not nullish; own properties of objects only. */
  function Member(v: Value, key: string): (r: Value)
    requires !Nullish(v)
    ensures v.Obj? && key in v.fields ==> r == v.fields[key]
    ensures !v.Obj? || key !in v.fields ==> r == Undefined
  {
    if v.Obj? && key in v.fields then v.fields[key] else Undefined
  }

  /** `v?.key`: short-circuits to `undefined` on a nullish value. */
  function OptMember(v: Value, key: string): (r: Value)
    ensures Nullish(v) ==> r == Undefined
    ensures !Nullish(v) ==> r == Member(v, key)
  {
    if Nullish(v) then Undefined else Member(v, key)
  }

  /** The TypeError raised by reading a property of `undefined` or `null`. */
  datatype Thrown = TypeError

  /** `v.key` without optional chaining: throws on a nullish value. */
  function StrictMember(v: Value, key: string): (r: Result<Value, Thrown>)
    ensures r.Failure? <==> Nullish(v)
    ensures r.Success? ==> r.value == Member(v, key)
  {
    if Nullish(v) then Failure(TypeError) else Success(Member(v, key))
  }

  /** `v?.length` is truthy: a non-empty array or string, or an object whose `length` property is truthy. */
  predicate LengthTruthy(v: Value) {
    match v
    case Arr(items) => items != []
    case Str(s) => s != ""
    case Obj(fields) => "length" in fields && Truthy(fields["length"])
    case _ => false
  }

  /** The numbers of an array whose every element is a number; None when some element is not. */
  function NumberItems(items: seq<Value>): (r: Option<seq<int>>)
    ensures r.Some? ==> |r.value| == |items| && forall i :: 0 <= i < |items| ==> items[i] == Num(r.value[i])
    ensures r.None? ==> exists i :: 0 <= i < |items| && !items[i].Num?
    decreases |items|
  {
    if items == [] then Some([])
    else match NumberItems(items[..|items| - 1])
      case None => None
      case Some(ids) =>
        var last := items[|items| - 1];
        if last.Num? then Some(ids + [last.n]) else None
  }
}
