/**
 * The values the device-tree YAML reader produces: strings, booleans,
 * integers, floating-point numbers (kept as their literal text), lists and
 * insertion-ordered dictionaries; and `_flatten`, which collapses every
 * single-element list whose only element is itself a list.
 */
module Tree {
  import opened Assoc

  datatype Value =
    | Str(s: string)
    | Bool(b: bool)
    | Int(i: int)
    | Float(text: string)
    | List(items: seq<Value>)
    | Dict(entries: seq<(string, Value)>)

  /** No list anywhere in `v` consists of exactly one list. */
  predicate IsFlat(v: Value)
  {
    match v
    case List(xs) => !(|xs| == 1 && xs[0].List?) && forall i :: 0 <= i < |xs| ==> IsFlat(xs[i])
    case Dict(es) => forall i :: 0 <= i < |es| ==> IsFlat(es[i].1)
    case _ => true
  }

  /**
   * `_flatten(v)`: dictionaries keep their keys in order, lists their
   * length, except that a list whose single flattened element is a list
   * becomes that element; every other value is returned as it is.
   */
  function Flatten(v: Value): (r: Value)
    ensures v.Dict? ==> r.Dict? && Keys(r.entries) == Keys(v.entries)
    ensures v.List? && !(|v.items| == 1 && Flatten(v.items[0]).List?) ==>
      r.List? && |r.items| == |v.items|
    ensures v.List? && |v.items| == 1 && Flatten(v.items[0]).List? ==> r == Flatten(v.items[0])
    ensures !v.Dict? && !v.List? ==> r == v
  {
    match v
    case Dict(es) =>
      Dict(seq(|es|, i requires 0 <= i < |es| => (es[i].0, Flatten(es[i].1))))
    case List(xs) =>
      var ys := seq(|xs|, i requires 0 <= i < |xs| => Flatten(xs[i]));
      if |ys| == 1 && ys[0].List? then ys[0] else List(ys)
    case _ => v
  }

  /** Every result of `_flatten` is flat. */
  lemma {:induction false} FlattenIsFlat(v: Value)
    ensures IsFlat(Flatten(v))
    decreases v
  {
    match v
    case Dict(es) =>
      forall i | 0 <= i < |es| ensures IsFlat(Flatten(es[i].1)) {
        FlattenIsFlat(es[i].1);
      }
    case List(xs) =>
      forall i | 0 <= i < |xs| ensures IsFlat(Flatten(xs[i])) {
        FlattenIsFlat(xs[i]);
      }
    case _ =>
  }

  /** `_flatten` leaves a flat value unchanged. */
  lemma {:induction false} FlattenFlat(v: Value)
    requires IsFlat(v)
    ensures Flatten(v) == v
    decreases v
  {
    match v
    case Dict(es) =>
      forall i | 0 <= i < |es| ensures Flatten(es[i].1) == es[i].1 {
        FlattenFlat(es[i].1);
      }
      assert Flatten(v).entries == es;
    case List(xs) =>
      forall i | 0 <= i < |xs| ensures Flatten(xs[i]) == xs[i] {
        FlattenFlat(xs[i]);
      }
      var ys := seq(|xs|, i requires 0 <= i < |xs| => Flatten(xs[i]));
      assert ys == xs;
    case _ =>
  }

  /** Applying `_flatten` twice is the same as applying it once. */
  lemma FlattenIdempotent(v: Value)
    ensures Flatten(Flatten(v)) == Flatten(v)
  {
    FlattenIsFlat(v);
    FlattenFlat(Flatten(v));
  }

  /** The shape that motivates `_flatten`: `[[x, y]]` becomes `[x, y]`, and `[[[x]]]` becomes `[x]`. */
  lemma FlattenExamples(x: Value, y: Value)
    requires !x.List? && !x.Dict? && !y.List? && !y.Dict?
    ensures Flatten(List([List([x, y])])) == List([x, y])
    ensures Flatten(List([List([List([x])])])) == List([x])
  {
    assert Flatten(List([x, y])) == List([x, y]);
    assert Flatten(List([x])) == List([x]);
    assert Flatten(List([List([x])])) == List([x]);
  }
}
