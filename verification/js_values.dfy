/**
 The JavaScript values the mixin helpers touch.

 An object is reduced to the map of the keys that `for (key in m)` enumerates
 on it: its own and its inherited enumerable keys, flattened, each with the
 value `m[key]` reads. Property values are left abstract (type parameter `V`),
 so a copy can only ever hand over the value itself: copying is shallow.
 */
module JsValues {

  type Key = string

  /** The enumerable keys of an object, with the value reading each one gives. */
  type Props<V> = map<Key, V>

  /** A mixin source: `null`/`undefined`, or an object. */
  datatype Source<V> = Nil | Obj(props: Props<V>)

  /**
   A proto-mixin entry: `null`/`undefined`, or an object (normally a
   constructor) whose `prototype` property is read. That property may itself
   be `undefined` (a plain object has none), which is what `Ctor(Nil)` stands for.
   */
  datatype ProtoSource<V> = NilCtor | Ctor(prototype: Source<V>)

  /** An argument that callers may pass either bare or as an array. */
  datatype Arg<E> = Single(item: E) | Arr(items: seq<E>)

  datatype Option<T> = None | Some(value: T)

  /** The exception a property assignment on `null`/`undefined` raises. */
  datatype JsError = TypeError

  /** How a call ends: returning a value, or throwing. */
  datatype Completion<T> = Normal(value: T) | Throw(error: JsError)

  /**
   The list an argument stands for: an array is taken as it is, and anything
   that is not an array, `null` and `undefined` included, becomes a list of
   exactly that one entry.
   */
  function AsList<E>(a: Arg<E>): (r: seq<E>)
    ensures a.Single? ==> |r| == 1 && r[0] == a.item
    ensures a.Arr? ==> r == a.items
  {
    match a
    case Single(x) => [x]
    case Arr(xs) => xs
  }
}
