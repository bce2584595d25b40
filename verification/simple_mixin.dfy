/**
 `simpleMixin(destProto, sourceProto)`: one `for ... in` copy from a single
 source, with no `hasOwnProperty` filter, so inherited enumerable keys are
 copied too. The function itself returns nothing; the model returns the
 destination as the call leaves it.
 */
module Simple {
  import opened JsValues
  import opened MixinFold
  import Oop

  /**
   `simpleMixin`. A null source copies nothing (`for ... in` over `null` or
   `undefined` runs zero times). Otherwise every key the source enumerates
   ends with the source's own value, the destination's other keys are left
   as they were, and no other key appears.
   */
  function SimpleMixin<V>(dest: Props<V>, source: Source<V>): (r: Props<V>)
    ensures source.Nil? ==> r == dest
    ensures source.Obj? ==> r.Keys == dest.Keys + source.props.Keys
    ensures source.Obj? ==> forall k :: k in source.props ==> r[k] == source.props[k]
    ensures forall k :: k in dest && !Defines(source, k) ==> r[k] == dest[k]
  {
    CopySource(dest, source)
  }

  /** `simpleMixin` is `OOP.mixin` given that one source as a bare argument. */
  lemma SimpleIsOopMixinOfOne<V>(dest: Props<V>, source: Source<V>)
    ensures SimpleMixin(dest, source) == Oop.Mixin(dest, Single(source))
  {
  }

  /** Copying the same source twice leaves the destination as one copy did. */
  lemma SimpleMixinIdempotent<V>(dest: Props<V>, source: Source<V>)
    ensures SimpleMixin(SimpleMixin(dest, source), source) == SimpleMixin(dest, source)
  {
  }
}
