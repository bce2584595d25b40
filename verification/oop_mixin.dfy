/**
 `OOP.mixin(obj, mixins)`: the copy loop of `microMixin` without the
 proto-mixins. It wraps a bare `mixins` into a fresh array and never pushes
 onto the caller's array, so it returns only the destination.
 */
module Oop {
  import opened JsValues
  import opened MixinFold
  import Micro

  /**
   `OOP.mixin`. Every key is set by the last listed mixin that defines it,
   keys no mixin defines keep their presence and value, and null entries
   contribute nothing. The returned object is the destination passed in.
   */
  function Mixin<V>(obj: Props<V>, mixins: Arg<Source<V>>): (r: Props<V>)
    ensures var e := AsList(mixins);
            forall k :: k in r <==> k in obj || LastWriter(e, k).Some?
    ensures var e := AsList(mixins);
            forall k :: LastWriter(e, k).Some? ==> r[k] == e[LastWriter(e, k).value].props[k]
    ensures var e := AsList(mixins);
            forall k :: LastWriter(e, k).None? && k in obj ==> r[k] == obj[k]
  {
    LastWriterWins(obj, AsList(mixins));
    MixinAll(obj, AsList(mixins))
  }

  /** `OOP.mixin` as written: normalise, then the shared copy loop. */
  method MixinLoop<V>(obj: Props<V>, mixins: Arg<Source<V>>) returns (r: Props<V>)
    ensures r == Mixin(obj, mixins)
  {
    r := Micro.CopyLoop(obj, AsList(mixins));
  }

  /**
   `OOP.mixin` is `microMixin` with a null proto-mixin: same destination,
   and the caller's `mixins` argument comes back as it was passed.
   */
  lemma MixinIsMicroMixinWithoutProtos<V>(obj: Props<V>, mixins: Arg<Source<V>>)
    ensures Micro.MicroMixin(obj, mixins, Single(NilCtor)) == Micro.Outcome(Mixin(obj, mixins), mixins)
  {
    assert AsList<ProtoSource<V>>(Single(NilCtor)) == [NilCtor];
    assert Micro.Prototypes<V>([NilCtor]) == [];
    assert AsList(mixins) + [] == AsList(mixins);
  }

  /** Mixing the same objects in again leaves the destination as one mixin did. */
  lemma MixinIdempotent<V>(obj: Props<V>, mixins: Arg<Source<V>>)
    ensures Mixin(Mixin(obj, mixins), mixins) == Mixin(obj, mixins)
  {
  }

  /** A null in the list is skipped without effect, wherever it stands. */
  lemma NullEntryIsSkipped<V>(obj: Props<V>, before: seq<Source<V>>, after: seq<Source<V>>)
    ensures Mixin(obj, Arr(before + [Nil] + after)) == Mixin(obj, Arr(before + after))
  {
    var nil: seq<Source<V>> := [Nil];
    assert nil[..0] == [];
    MixinAllAppend(obj, before + nil, after);
    MixinAllAppend(obj, before, nil);
    MixinAllAppend(obj, before, after);
  }
}
