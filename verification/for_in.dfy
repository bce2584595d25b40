/**
 The innermost loop every mixin helper shares: for each key a non-null source
 enumerates, assign the source's value for that key to the same key of the
 destination.
 */
module ForIn {
  import opened JsValues

  /**
   The destination after every enumerated key of `src` has been assigned onto
   it: the source's keys now hold the source's values, every other key of the
   destination is left as it was, and no key appears from nowhere.
   */
  function Assign<V>(dest: Props<V>, src: Props<V>): (r: Props<V>)
    ensures r.Keys == dest.Keys + src.Keys
    ensures forall k :: k in src ==> r[k] == src[k]
    ensures forall k :: k in dest && k !in src ==> r[k] == dest[k]
  {
    dest + src
  }

  /**
   The loop itself, assigning one key at a time. `for ... in` enumeration
   order is not modelled: the next key is chosen arbitrarily among those not
   yet visited, so the result holds for every enumeration order.
   */
  method ForInAssign<V>(dest: Props<V>, src: Props<V>) returns (r: Props<V>)
    ensures r == Assign(dest, src)
  {
    r := dest;
    var todo := src.Keys;
    while todo != {}
      invariant todo <= src.Keys
      invariant r.Keys == dest.Keys + (src.Keys - todo)
      invariant forall k :: k in src && k !in todo ==> r[k] == src[k]
      invariant forall k :: k in dest && k !in src ==> r[k] == dest[k]
      invariant forall k :: k in todo && k in dest ==> r[k] == dest[k]
      decreases todo
    {
      var key :| key in todo;
      r := r[key := src[key]];
      todo := todo - {key};
    }
    assert forall k :: k in r ==> r[k] == Assign(dest, src)[k];
  }
}
