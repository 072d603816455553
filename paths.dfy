/**
 Optional chaining over a parsed payload: `body?.a?.[0]?.b`. Every step
 yields `undefined` instead of throwing when the value it starts from is
 `undefined` or `null`, or when the property or element is not there.
 */
module Paths {
  import opened Json

  /** One step of an optional chain: `?.name` or `?.[0]`. */
  datatype Seg = Prop(name: string) | First

  /** One optional-chaining step. A property is read from an object's own
      fields; `[0]` reads the first element of an array, the key "0" of an
      object, or the first character of a string. Every other receiver has
      nothing to offer under the names the extractor uses. */
  function Get(v: Value, seg: Seg): Value {
    match v
    case Undefined => Undefined
    case Defined(j) =>
      match seg
      case Prop(k) =>
        if j.Obj? && k in j.fields then Defined(j.fields[k]) else Undefined
      case First =>
        match j
        case Arr(es) => if |es| > 0 then Defined(es[0]) else Undefined
        case Obj(m) => if "0" in m then Defined(m["0"]) else Undefined
        case Str(s) => if |s| > 0 then Defined(Str([s[0]])) else Undefined
        case _ => Undefined
  }

  /** A whole chain, evaluated from the left. */
  function Resolve(v: Value, path: seq<Seg>): Value
    decreases |path|
  {
    if path == [] then v else Resolve(Get(v, path[0]), path[1..])
  }

  /** Once a chain has produced `undefined` it stays `undefined`: the
      short-circuit of `?.`. */
  lemma {:induction false} ResolveUndefined(path: seq<Seg>)
    ensures Resolve(Undefined, path) == Undefined
    decreases |path|
  {
    if path != [] {
      ResolveUndefined(path[1..]);
    }
  }

  /** A chain can be evaluated in two pieces. */
  lemma {:induction false} ResolveAppend(v: Value, p: seq<Seg>, q: seq<Seg>)
    ensures Resolve(v, p + q) == Resolve(Resolve(v, p), q)
    decreases |p|
  {
    if p != [] {
      assert (p + q)[0] == p[0];
      assert (p + q)[1..] == p[1..] + q;
      ResolveAppend(Get(v, p[0]), p[1..], q);
    } else {
      assert p + q == q;
    }
  }

  /** A missing intermediate makes every longer chain through it `undefined`:
      a malformed payload never makes the lookup fail. */
  lemma ResolveMissingPrefix(v: Value, p: seq<Seg>, q: seq<Seg>)
    requires Resolve(v, p) == Undefined
    ensures Resolve(v, p + q) == Undefined
  {
    ResolveAppend(v, p, q);
    ResolveUndefined(q);
  }

  /** A chain that starts with a property name finds nothing on a body that is
      not an object (`undefined`, `null`, a boolean, number, string or array). */
  lemma ResolveFromNonObject(v: Value, path: seq<Seg>)
    requires path != [] && path[0].Prop?
    requires !(v.Defined? && v.json.Obj?)
    ensures Resolve(v, path) == Undefined
  {
    ResolveUndefined(path[1..]);
  }
}
