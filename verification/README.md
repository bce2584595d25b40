# Shallow mixin copy, modelled in Dafny

The repository's only working logic is a shallow "mixin" copy used to put
members onto class prototypes. It comes in three variants:

- `microMixin(obj, mixins, protoMixins)` appears twice, in `inheritanceTests.js`
  and in `classTemplateAnnotated.js`. It wraps a bare `mixins` or `protoMixins`
  into a one-element array. It pushes `p.prototype` for every non-null
  proto-mixin `p` onto the mixins array, and that array is the caller's own
  when one was passed. It then copies, in list order and skipping
  `null`/`undefined` entries, every key that `for ... in` enumerates on each
  source onto `obj`, and returns `obj`.
- `OOP.mixin(obj, mixins)` does the same without proto-mixins, and never
  writes to the caller's array.
- `simpleMixin(destProto, sourceProto)` runs one `for ... in` copy from a
  single source and returns nothing.

A JavaScript object is modelled as the map of the keys `for ... in` enumerates
on it. That map holds own and inherited enumerable keys, flattened, because
none of the variants filters with `hasOwnProperty`. Property values are a type
parameter, so a copy can only hand over the value itself, which is what a
shallow copy does. Sources are `Nil | Obj(props)`. Proto-mixins are
`NilCtor | Ctor(prototype)`, where the `prototype` read off a non-null entry
may itself be `undefined`. Arguments are `Single(x) | Arr(xs)`.

Modules, one per piece of the source:

- `JsValues`: the value types, and the bare-or-array normalisation.
- `ForIn`: the inner key copy from one object, as a function and as a loop
  that visits keys in any order.
- `MixinFold`: the copy loop over a list of sources, `MixinAll`. The lemmas
  `MixinAllAt` and `LastWriterWins` compare it with an independent reference,
  `LastWriter`, which gives the index of the last source defining a key. This module also holds the
  append, idempotence and null-skipping lemmas, and the copy onto a null
  destination.
- `Micro`: `microMixin`, as a function and as the source's two loops. This
  includes the returned `mixins` array.
- `Oop`: `OOP.mixin`, and its equivalence with `microMixin` given a null
  proto-mixin.
- `Simple`: `simpleMixin`, and its equivalence with `OOP.mixin` of one source.

A mutated destination and a returned destination are the same value in a
model without references. So `microMixin` and `OOP.mixin` return one
destination map, and that map is both the object the call left behind and the
value it returned. Sources are never written to, so "the source is not
modified" holds by construction.

None of the helpers checks its destination. A null destination throws
`TypeError` at the first key assignment. When no source enumerates any key,
`microMixin` and `OOP.mixin` return it unchanged (`MixinFold.CopyInto`), and
`simpleMixin`, as always, returns `undefined`. Every helper overwrites:
there is no copy mode that fills only keys the destination lacks.

## Model

| member | source | states |
|---|---|---|
| ForIn.Assign | inheritanceTests.js:27-29 | copying one object: its keys end holding its own values, other destination keys keep theirs, and no other key appears |
| ForIn.ForInAssign | classTemplateAnnotated.js:63-65 | the key-by-key loop gives that same result whatever order `for ... in` visits the keys in |
| JsValues.AsList | inheritanceTests.js:16-17 | an array argument is taken as it is; anything else, null included, becomes a list of exactly that one entry (the same wrapping as inheritanceLib.js:50) |
| MixinFold.CopySource | inheritanceTests.js:25-29 | one turn of the copy loop: a null entry leaves the destination as it is; an object's keys end holding its values, and every other key keeps its own |
| MixinFold.MixinAll | inheritanceTests.js:24-30 | the copy loop over the whole list; it never removes a key, and its full meaning per key is given by `MixinFold.MixinAllAt` |
| MixinFold.MixinAllAt | inheritanceTests.js:24-30 | for one key, after the copy loop: present iff it was before or some source defines it; if some source defines it, it holds the value of the last source defining it; otherwise it keeps its old value |
| MixinFold.LastWriterWins | inheritanceTests.js:24-30 | the same three facts for every key at once |
| MixinFold.LastWriter | inheritanceTests.js:24-30 | the reference used above: the index returned defines the key and no later source does, and `None` means no source defines it |
| MixinFold.MixinAllAppend | classTemplateAnnotated.js:59-66 | copying from `a + b` is copying from `a` and then from `b`, because sources are applied strictly in list order |
| MixinFold.MixinAllIdempotent | classTemplateAnnotated.js:38 | applying the same sources again leaves the destination as one application did ("can be used many times") |
| MixinFold.NonNullSingle | classTemplateAnnotated.js:62 | removing nulls from one entry: a null leaves nothing, an object is kept |
| MixinFold.NonNullSnoc | classTemplateAnnotated.js:62 | removing nulls from a list with one more entry: the filtered list, plus that entry when it is an object |
| MixinFold.NonNullAppend | classTemplateAnnotated.js:62 | removing nulls keeps order: a concatenation is filtered part by part |
| MixinFold.NullsAreSkipped | classTemplateAnnotated.js:62 | dropping every null/undefined entry from the list (and keeping every object entry, in order) gives the same destination |
| MixinFold.CopyInto | inheritanceTests.js:26-28 | on a null destination the loop throws `TypeError` iff some source enumerates a key, and otherwise returns the null destination; an object destination gets the normal copy |
| Micro.Prototypes | inheritanceTests.js:18-22 | what is pushed: nothing when every proto-mixin is null, each one's `prototype` in order when none is null, and never more entries than proto-mixins |
| Micro.EffectiveSources | inheritanceTests.js:18-24 | the list the copy loop walks: the mixins first, in order, then exactly the pushed prototypes (at most one per proto-mixin); only the mixins when every proto-mixin is null |
| Micro.NullProtoMixinIsSkipped | inheritanceTests.js:20 | a null proto-mixin anywhere in the list changes neither the destination nor the caller's array |
| Micro.PushPrototypes | classTemplateAnnotated.js:53-57 | the push loop appends exactly the prototypes of the non-null proto-mixins, in order, after the existing mixins |
| Micro.CopyLoop | classTemplateAnnotated.js:59-66 | the source's copy loop, with its null skip, computes the fold characterised by `MixinFold.MixinAllAt` |
| Micro.MicroMixin | inheritanceTests.js:15-32 | the destination follows last-writer-wins over the mixins followed by the pushed prototypes; an array `mixins` comes back extended by exactly those prototypes; a bare one is untouched |
| Micro.MicroMixinLoops | classTemplateAnnotated.js:50-68 | the loops as written (normalise, push, copy) produce the destination and the mixins array that `Micro.MicroMixin` specifies |
| Micro.PrototypeBeatsMixin | classTemplateAnnotated.js:53-65 | a key that some pushed prototype defines ends with the last such prototype's value, whatever the mixins hold for it |
| Micro.BareArgumentIsSingleton | inheritanceTests.js:16-17 | a bare mixin or proto-mixin argument behaves as a one-element array |
| Micro.TemplateDefaultsChangeNothing | classTemplateAnnotated.js:168 | the template's own call with `mixins = []` and `parentClass = null` leaves the prototype and the array unchanged |
| Micro.TemplateWithParent | classTemplateAnnotated.js:168 | with a parent class, that call copies the parent prototype's keys onto the class prototype and leaves the parent prototype in the `mixins` array |
| Micro.MicroMixinReapply | inheritanceTests.js:15-32 | calling again with the grown array and the same proto-mixins, so the prototypes are copied twice, still leaves the destination as the first call did |
| Oop.Mixin | inheritanceLib.js:49-59 | last-writer-wins over the listed mixins, keys no mixin defines keep their presence and value, and null entries contribute nothing |
| Oop.MixinLoop | inheritanceLib.js:50-57 | normalisation followed by the copy loop computes `Oop.Mixin` |
| Oop.MixinIsMicroMixinWithoutProtos | inheritanceLib.js:49-59 | `microMixin` with a null proto-mixin gives the same destination as `OOP.mixin` and returns the caller's `mixins` unchanged |
| Oop.MixinIdempotent | inheritanceLib.js:38 | mixing the same objects in again leaves the destination as one mixin did |
| Oop.NullEntryIsSkipped | inheritanceLib.js:53 | a null inserted anywhere in the list changes nothing |
| Simple.SimpleMixin | simpleMixin.js:7-11 | a null source copies nothing; otherwise every key the source enumerates, inherited ones included, ends with the source's own value, and other destination keys keep theirs |
| Simple.SimpleIsOopMixinOfOne | simpleMixin.js:8-9 | `simpleMixin` equals `OOP.mixin` with that source passed bare |
| Simple.SimpleMixinIdempotent | simpleMixin.js:8-9 | copying the same source twice leaves the destination as one copy did |

## Left out

- Key enumeration order and property attributes (enumerability, writability,
  getters and setters). Sources are already-flattened maps, and any visiting
  order gives the same result (`ForIn.ForInAssign`).
- Aliasing. Values are immutable, so the model assumes that the destination,
  every source, the `mixins` array and the `protoMixins` array are distinct,
  unrelated objects. Three cases fall outside it:
  - The destination is one of its own sources. In JavaScript, later sources
    would then see keys written by earlier ones.
  - A source inherits from the destination. It would then enumerate keys
    that earlier sources just wrote, where the model uses a snapshot.
  - `mixins` and `protoMixins` are the same array. The push loop's bound
    would then grow with every push, and each pushed prototype would be read
    again as a proto-mixin.
- Non-object, non-null sources, such as a string or a number passed as a
  mixin, and primitive destinations. The helpers are only documented for
  objects.
- Null destination for `microMixin`: when it throws, `microMixin` has already
  pushed the prototypes onto the caller's array. The null-destination
  behaviour is modelled once, for the shared copy loop (`MixinFold.CopyInto`),
  and not combined with the push.
- `simpleMixin` returns `undefined`. `Simple.SimpleMixin` returns the
  destination as the call leaves it.
- `OOP.inherits` (inheritanceLib.js:25-35). It sets up live prototype
  delegation through `Object.create` and property descriptors, which is a
  feature of the object model rather than a snapshot copy.
- The class-skeleton templates with their closure-based private, public and
  static members: classTemplate.js, apClassTemplate.js,
  classTemplateAnnotated.js:74-166 and classTemplateDelayed.js. Where they
  call a mixin at all, they pass empty or null arguments, and
  `Micro.TemplateDefaultsChangeNothing` covers the `microMixin` call with those
  defaults. The demo classes in inheritanceTests.js:45-232 pass fixed
  one-element lists to `microMixin`, which `Micro.MicroMixin` covers for any
  list.
- `errorTemplate.js` and `defineProp.js`. They depend on the built-in
  `Error`, on `setTimeout` and on `Object.defineProperty`.
- The `DOMContentLoaded` handlers and console demos.
- The `log(...)` call in the copy loop of `classTemplateAnnotated.js`
  (line 61). That function is not defined in the repository. The model treats
  it as a function the host page supplies, which returns normally and
  changes nothing the loop reads. Without it, the loop would throw
  `ReferenceError` on its first turn.
- The call at inheritanceTests.js:264 that passes `push`'s numeric return
  value as `mixins`. That is a number source, which is excluded above.
