/**
 `microMixin(obj, mixins, protoMixins)`: copies onto `obj` the keys of each
 mixin, then of the `prototype` of each proto-mixin, skipping null entries.
 When `mixins` is an array, the prototypes are pushed onto that array, so the
 caller sees it grow.
 */
module Micro {
  import opened JsValues
  import opened MixinFold
  import ForIn

  /**
   What the push loop appends for a list of proto-mixins: the `prototype` of
   every non-null entry, in order. A null entry is never
   dereferenced (reading `prototype` off `NilCtor` would not be well-formed).
   */
  function Prototypes<V>(protos: seq<ProtoSource<V>>): (r: seq<Source<V>>)
    ensures |r| <= |protos|
    ensures (forall i :: 0 <= i < |protos| ==> protos[i].NilCtor?) ==> r == []
    ensures (forall i :: 0 <= i < |protos| ==> protos[i].Ctor?) ==>
              |r| == |protos| && forall i :: 0 <= i < |protos| ==> r[i] == protos[i].prototype
    decreases |protos|
  {
    if |protos| == 0 then []
    else
      var p := protos[|protos| - 1];
      var front := Prototypes(protos[..|protos| - 1]);
      if p.NilCtor? then front else front + [p.prototype]
  }

  /** Pushing the prototypes of `a + b` is pushing those of `a`, then those of `b`. */
  lemma {:induction false} PrototypesAppend<V>(a: seq<ProtoSource<V>>, b: seq<ProtoSource<V>>)
    ensures Prototypes(a + b) == Prototypes(a) + Prototypes(b)
    decreases |b|
  {
    if |b| == 0 {
      assert a + b == a;
    } else {
      var n := |b| - 1;
      assert (a + b)[..|a + b| - 1] == a + b[..n];
      assert (a + b)[|a + b| - 1] == b[n];
      PrototypesAppend(a, b[..n]);
    }
  }

  /**
   The list the copy loop walks: the mixins first, in their order, then at
   most one pushed prototype per proto-mixin; with only null proto-mixins it
   is the mixins alone.
   */
  function EffectiveSources<V>(mixins: Arg<Source<V>>, protoMixins: Arg<ProtoSource<V>>): (r: seq<Source<V>>)
    ensures |AsList(mixins)| <= |r| <= |AsList(mixins)| + |AsList(protoMixins)|
    ensures r[..|AsList(mixins)|] == AsList(mixins)
    ensures r[|AsList(mixins)|..] == Prototypes(AsList(protoMixins))
    ensures (forall i :: 0 <= i < |AsList(protoMixins)| ==> AsList(protoMixins)[i].NilCtor?) ==>
              r == AsList(mixins)
  {
    AsList(mixins) + Prototypes(AsList(protoMixins))
  }

  /** What a call leaves behind: the destination, and the caller's `mixins` argument. */
  datatype Outcome<V> = Outcome(obj: Props<V>, mixins: Arg<Source<V>>)

  /**
   `microMixin`. The returned object is the destination passed in (the model
   has one `obj` field for both). Its keys are set by the last effective
   source that defines them, keys no source defines keep their value, and an
   array `mixins` comes back extended by exactly the pushed prototypes, while
   a bare one is untouched (the wrapping array was the function's own).
   */
  function MicroMixin<V>(obj: Props<V>, mixins: Arg<Source<V>>, protoMixins: Arg<ProtoSource<V>>): (r: Outcome<V>)
    ensures mixins.Single? ==> r.mixins == mixins
    ensures mixins.Arr? ==> r.mixins == Arr(mixins.items + Prototypes(AsList(protoMixins)))
    ensures var e := EffectiveSources(mixins, protoMixins);
            forall k :: k in r.obj <==> k in obj || LastWriter(e, k).Some?
    ensures var e := EffectiveSources(mixins, protoMixins);
            forall k :: LastWriter(e, k).Some? ==> r.obj[k] == e[LastWriter(e, k).value].props[k]
    ensures var e := EffectiveSources(mixins, protoMixins);
            forall k :: LastWriter(e, k).None? && k in obj ==> r.obj[k] == obj[k]
  {
    var list := AsList(mixins) + Prototypes(AsList(protoMixins));
    LastWriterWins(obj, list);
    Outcome(MixinAll(obj, list), if mixins.Arr? then Arr(list) else mixins)
  }

  /**
   The first loop of `microMixin`: push the `prototype` of every non-null
   proto-mixin onto the mixins list, in order.
   */
  method PushPrototypes<V>(list: seq<Source<V>>, protos: seq<ProtoSource<V>>) returns (out: seq<Source<V>>)
    ensures out == list + Prototypes(protos)
  {
    out := list;
    var n := 0;
    while n < |protos|
      invariant 0 <= n <= |protos|
      invariant out == list + Prototypes(protos[..n])
    {
      var p := protos[n];
      assert protos[..n + 1][..n] == protos[..n];
      if p.Ctor? {
        out := out + [p.prototype];
      }
      n := n + 1;
    }
    assert protos[..n] == protos;
  }

  /**
   The second loop of `microMixin` (and the only loop of `OOP.mixin`): walk
   the list, skip null entries, run the `for ... in` copy on each object.
   */
  method CopyLoop<V>(obj: Props<V>, list: seq<Source<V>>) returns (res: Props<V>)
    ensures res == MixinAll(obj, list)
  {
    res := obj;
    var i := 0;
    while i < |list|
      invariant 0 <= i <= |list|
      invariant res == MixinAll(obj, list[..i])
    {
      var m := list[i];
      assert list[..i + 1][..i] == list[..i];
      if m.Obj? {
        res := ForIn.ForInAssign(res, m.props);
      }
      i := i + 1;
    }
    assert list[..i] == list;
  }

  /** `microMixin` as written: normalise both arguments, push, then copy. */
  method MicroMixinLoops<V>(obj: Props<V>, mixins: Arg<Source<V>>, protoMixins: Arg<ProtoSource<V>>)
    returns (res: Props<V>, mixinsAfter: Arg<Source<V>>)
    ensures Outcome(res, mixinsAfter) == MicroMixin(obj, mixins, protoMixins)
  {
    var list := PushPrototypes(AsList(mixins), AsList(protoMixins));
    mixinsAfter := if mixins.Arr? then Arr(list) else mixins;
    res := CopyLoop(obj, list);
  }

  /**
   Because the prototypes come after the mixins, a key that some pushed
   prototype defines ends with that prototype's value (the last one's),
   whatever the mixins say about it.
   */
  lemma PrototypeBeatsMixin<V>(obj: Props<V>, mixins: Arg<Source<V>>, protoMixins: Arg<ProtoSource<V>>, k: Key)
    requires LastWriter(Prototypes(AsList(protoMixins)), k).Some?
    ensures var ps := Prototypes(AsList(protoMixins));
            var r := MicroMixin(obj, mixins, protoMixins);
            k in r.obj && r.obj[k] == ps[LastWriter(ps, k).value].props[k]
  {
    var ps := Prototypes(AsList(protoMixins));
    var e := AsList(mixins) + ps;
    LastWriterAppend(AsList(mixins), ps, k);
    assert LastWriter(e, k).Some?;
    assert e[LastWriter(e, k).value] == ps[LastWriter(ps, k).value];
  }

  /**
   A null proto-mixin, wherever it stands in the list, is never read and
   contributes nothing: neither to the destination nor to the caller's array.
   */
  lemma NullProtoMixinIsSkipped<V>(obj: Props<V>, mixins: Arg<Source<V>>,
                                   before: seq<ProtoSource<V>>, after: seq<ProtoSource<V>>)
    ensures MicroMixin(obj, mixins, Arr(before + [NilCtor] + after)) == MicroMixin(obj, mixins, Arr(before + after))
  {
    var nil: seq<ProtoSource<V>> := [NilCtor];
    PrototypesAppend(before + nil, after);
    PrototypesAppend(before, nil);
    PrototypesAppend(before, after);
    assert Prototypes(nil) == [];
  }

  /**
   A bare argument behaves as a one-element array: for the destination in
   both positions, and for the array too when it is the proto-mixins.
   */
  lemma BareArgumentIsSingleton<V>(obj: Props<V>, m: Source<V>, p: ProtoSource<V>)
    ensures MicroMixin(obj, Single(m), Single(p)).obj == MicroMixin(obj, Arr([m]), Single(p)).obj
    ensures MicroMixin(obj, Arr([m]), Single(p)) == MicroMixin(obj, Arr([m]), Arr([p]))
  {
  }

  /**
   The class template's own call, made on the class prototype with an empty
   mixin list and no parent class, leaves both the prototype and the mixin
   list as they were.
   */
  lemma TemplateDefaultsChangeNothing<V>(proto: Props<V>)
    ensures MicroMixin(proto, Arr([]), Single(NilCtor)) == Outcome(proto, Arr([]))
  {
  }

  /**
   With a parent class set, the same call copies the parent prototype's keys
   onto the class prototype and leaves that prototype in the `mixins` array.
   */
  lemma TemplateWithParent<V>(proto: Props<V>, parentProto: Props<V>)
    ensures var r := MicroMixin(proto, Arr([]), Single(Ctor(Obj(parentProto))));
            && r.mixins == Arr([Obj(parentProto)])
            && r.obj.Keys == proto.Keys + parentProto.Keys
            && (forall k :: k in parentProto ==> r.obj[k] == parentProto[k])
            && (forall k :: k in proto && k !in parentProto ==> r.obj[k] == proto[k])
  {
    var list := [Obj(parentProto)];
    assert Prototypes([Ctor(Obj(parentProto))]) == list;
    assert EffectiveSources(Arr([]), Single(Ctor(Obj(parentProto)))) == list;
    assert list[..0] == [];
    assert MixinAll(proto, list) == CopySource(proto, Obj(parentProto));
  }

  /**
   Calling `microMixin` again with what the first call left behind (the same
   destination, the possibly grown `mixins` array, the same proto-mixins)
   yields the same destination, although the prototypes are now copied twice.
   */
  lemma {:induction false} MicroMixinReapply<V>(obj: Props<V>, mixins: Arg<Source<V>>, protoMixins: Arg<ProtoSource<V>>)
    ensures var first := MicroMixin(obj, mixins, protoMixins);
            MicroMixin(first.obj, first.mixins, protoMixins).obj == first.obj
  {
    var first := MicroMixin(obj, mixins, protoMixins);
    var e := EffectiveSources(mixins, protoMixins);
    var ps := Prototypes(AsList(protoMixins));
    if mixins.Single? {
      MixinAllIdempotent(obj, e);
    } else {
      var ms := mixins.items;
      assert first.obj == MixinAll(obj, ms + ps);
      MixinAllAppend(obj, ms, ps);
      var base := MixinAll(obj, ms);
      assert first.obj == MixinAll(base, ps);
      assert EffectiveSources(first.mixins, protoMixins) == (ms + ps) + ps;
      MixinAllAppend(first.obj, ms + ps, ps);
      MixinAllIdempotent(obj, ms + ps);
      MixinAllIdempotent(base, ps);
    }
  }
}
