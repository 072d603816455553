/**
 JSON values as the webhook handler sees them after Express has parsed the
 request body, together with the two JavaScript conversions the handler relies
 on: truthiness (ToBoolean, section 7.1.2 of ECMA-262) and string conversion
 (ToString, section 7.1.17 of ECMA-262), which `RegExp.prototype.test` applies
 to its argument.
 */
module Json {

  datatype Option<+T> = None | Some(value: T)

  /** A parsed JSON value. A number is carried as the text JavaScript's
      ToString gives for it ("0" for both zeros, "12.5", "1e+21", ...), which is
      all the handler ever observes of a number: whether it is zero and how it
      prints. */
  datatype Json =
    | Null
    | Bool(b: bool)
    | Num(repr: string)
    | Str(s: string)
    | Arr(elems: seq<Json>)
    | Obj(fields: map<string, Json>)

  /** A JavaScript value reachable by optional chaining: `undefined` or a JSON value. */
  datatype Value = Undefined | Defined(json: Json)

  /** ToBoolean: `undefined`, `null`, `false`, zero and the empty string are falsy. */
  predicate Truthy(v: Value) {
    match v
    case Undefined => false
    case Defined(j) =>
      match j
      case Null => false
      case Bool(b) => b
      case Num(repr) => repr != "0"
      case Str(s) => s != ""
      case Arr(_) => true
      case Obj(_) => true
  }

  /** `typeof v === "string"` */
  predicate IsString(v: Value) {
    v.Defined? && v.json.Str?
  }

  /** ToString of a JSON value. `None` stands for the TypeError JavaScript
      throws: an object whose own `toString` property is not callable (no JSON
      value is) falls through to `valueOf`, which returns the object itself,
      so no primitive is found. An array converts as `join(",")`, with `null`
      elements written as the empty string. */
  function ToStr(j: Json): Option<string>
    decreases j
  {
    match j
    case Null => Some("null")
    case Bool(b) => Some(if b then "true" else "false")
    case Num(repr) => Some(repr)
    case Str(s) => Some(s)
    case Arr(es) =>
      JoinElements(seq(|es|, i requires 0 <= i < |es| =>
        if es[i].Null? then Some("") else ToStr(es[i])))
    case Obj(m) => if "toString" in m then None else Some("[object Object]")
  }

  /** `Array.prototype.join(",")` over element conversions already made,
      failing as soon as one element's conversion fails. */
  function JoinElements(parts: seq<Option<string>>): Option<string>
    decreases |parts|
  {
    if |parts| == 0 then Some("")
    else if parts[0].None? then None
    else if |parts| == 1 then parts[0]
    else
      match JoinElements(parts[1..])
      case None => None
      case Some(rest) => Some(parts[0].value + "," + rest)
  }

  /** The values ToStr converts without throwing: no object on the way has an
      own `toString` key (nested arrays are converted element by element). */
  predicate Stringifiable(j: Json)
    decreases j
  {
    match j
    case Obj(m) => "toString" !in m
    case Arr(es) => forall i :: 0 <= i < |es| ==> es[i].Null? || Stringifiable(es[i])
    case _ => true
  }

  lemma {:induction false} JoinElementsSome(parts: seq<Option<string>>)
    ensures JoinElements(parts).Some? <==> forall i :: 0 <= i < |parts| ==> parts[i].Some?
    decreases |parts|
  {
    if |parts| > 1 {
      JoinElementsSome(parts[1..]);
      assert forall i :: 1 <= i < |parts| ==> parts[i] == parts[1..][i - 1];
    }
  }

  /** String conversion throws exactly on the values that are not Stringifiable. */
  lemma {:induction false} ToStrDefinedIffStringifiable(j: Json)
    ensures ToStr(j).Some? <==> Stringifiable(j)
    decreases j
  {
    match j
    case Arr(es) =>
      var parts := seq(|es|, i requires 0 <= i < |es| =>
        if es[i].Null? then Some("") else ToStr(es[i]));
      JoinElementsSome(parts);
      forall i | 0 <= i < |es|
        ensures parts[i].Some? <==> (es[i].Null? || Stringifiable(es[i]))
      {
        if !es[i].Null? {
          ToStrDefinedIffStringifiable(es[i]);
        }
      }
    case _ =>
  }
}
