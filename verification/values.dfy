/** The values a props object can hold, and the deep structural equality the
    hook uses to compare two props objects (the `fast-deep-equal` package,
    whose code is not part of this model). */
module Values {

  /** A property name of a JavaScript object. */
  type Key = string

  /** A JavaScript value without cycles. Numbers are integers. A function is an
      opaque heap object: `Fn(ref)` carries only its identity, so two closures
      created by two renders are different values even when their code is
      the same. */
  datatype Value =
    | Undefined
    | Null
    | Bool(b: bool)
    | Num(n: int)
    | Str(s: string)
    | Arr(items: seq<Value>)
    | Obj(fields: map<Key, Value>)
    | Fn(ref: nat)

  /** Deep equality as `fast-deep-equal` decides it for acyclic values: arrays
      are equal when they have the same length and equal elements in order,
      plain objects when they have the same own keys and equal values under
      every key, functions only when they are the same reference, and
      primitives when they are strictly equal. Values of different kinds are
      never equal. */
  function DeepEqual(a: Value, b: Value): bool
  {
    match (a, b)
    case (Arr(xs), Arr(ys)) =>
      |xs| == |ys| && forall i :: 0 <= i < |xs| ==> DeepEqual(xs[i], ys[i])
    case (Obj(m), Obj(n)) =>
      m.Keys == n.Keys && forall k :: k in m ==> DeepEqual(m[k], n[k])
    case (Fn(r), Fn(q)) => r == q
    case _ => a == b
  }

  /** Deep equality on acyclic values is exactly structural equality: two
      values are deeply equal if and only if they are the same value. So it is
      reflexive, symmetric and transitive, and a fresh copy with the same
      content compares equal. */
  lemma {:induction false} DeepEqualIsEquality(a: Value, b: Value)
    ensures DeepEqual(a, b) <==> a == b
    decreases a
  {
    match a
    case Arr(xs) =>
      if b.Arr? {
        var ys := b.items;
        forall i | 0 <= i < |xs| && i < |ys| {
          DeepEqualIsEquality(xs[i], ys[i]);
        }
        if DeepEqual(a, b) {
          assert xs == ys;
        }
      }
    case Obj(m) =>
      if b.Obj? {
        var n := b.fields;
        forall k | k in m && k in n {
          DeepEqualIsEquality(m[k], n[k]);
        }
        if DeepEqual(a, b) {
          assert m == n;
        }
      }
    case _ =>
  }
}
