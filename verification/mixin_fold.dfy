/**
 The copy loop over a list of sources that `microMixin` and `OOP.mixin` share:
 walk the list by index, pass over `null`/`undefined` entries, and run the key
 copy of `ForIn` on every object entry. Its meaning: for each key, the last source that defines it wins; a key no
 source defines is left alone; null entries are skipped.
 */
module MixinFold {
  import opened JsValues
  import ForIn

  /** Source `m` is an object that enumerates key `k`. */
  predicate Defines<V>(m: Source<V>, k: Key)
  {
    m.Obj? && k in m.props
  }

  /**
   One turn of the outer loop: a null entry leaves the destination as it is;
   an object's keys end holding its values, and every other key keeps its own.
   */
  function CopySource<V>(dest: Props<V>, m: Source<V>): (r: Props<V>)
    ensures m.Nil? ==> r == dest
    ensures forall k :: k in r <==> k in dest || Defines(m, k)
    ensures forall k :: Defines(m, k) ==> r[k] == m.props[k]
    ensures forall k :: k in dest && !Defines(m, k) ==> r[k] == dest[k]
  {
    match m
    case Nil => dest
    case Obj(p) => ForIn.Assign(dest, p)
  }

  /**
   The index of the last source in `sources` that defines `k`, or `None` when
   none does. This is the reference the copy loop is measured against.
   */
  function LastWriter<V>(sources: seq<Source<V>>, k: Key): (r: Option<nat>)
    ensures r.Some? ==>
              && r.value < |sources|
              && Defines(sources[r.value], k)
              && forall j :: r.value < j < |sources| ==> !Defines(sources[j], k)
    ensures r.None? ==> forall j :: 0 <= j < |sources| ==> !Defines(sources[j], k)
    decreases |sources|
  {
    if |sources| == 0 then None
    else if Defines(sources[|sources| - 1], k) then Some(|sources| - 1)
    else LastWriter(sources[..|sources| - 1], k)
  }

  /**
   The destination after the copy loop has run over `sources` in order. The
   loop never removes a key; what it does to each key is stated by `MixinAllAt`.
   */
  function MixinAll<V>(dest: Props<V>, sources: seq<Source<V>>): (r: Props<V>)
    ensures dest.Keys <= r.Keys
    decreases |sources|
  {
    if |sources| == 0 then dest
    else CopySource(MixinAll(dest, sources[..|sources| - 1]), sources[|sources| - 1])
  }

  /**
   What the copy loop does to one key `k`: it is present afterwards exactly
   when it was present before or some source defines it; when some source
   defines it, it holds the value of the last such source (last writer wins,
   and the value is the source's own, not a copy); otherwise it keeps its
   old value.
   */
  lemma {:induction false} MixinAllAt<V>(dest: Props<V>, sources: seq<Source<V>>, k: Key)
    ensures k in MixinAll(dest, sources) <==> k in dest || LastWriter(sources, k).Some?
    ensures LastWriter(sources, k).Some? ==>
              MixinAll(dest, sources)[k] == sources[LastWriter(sources, k).value].props[k]
    ensures LastWriter(sources, k).None? && k in dest ==> MixinAll(dest, sources)[k] == dest[k]
    decreases |sources|
  {
    if |sources| > 0 {
      MixinAllAt(dest, sources[..|sources| - 1], k);
    }
  }

  /** `MixinAllAt`, for all keys at once. */
  lemma LastWriterWins<V>(dest: Props<V>, sources: seq<Source<V>>)
    ensures var r := MixinAll(dest, sources);
            forall k :: k in r <==> k in dest || LastWriter(sources, k).Some?
    ensures var r := MixinAll(dest, sources);
            forall k :: LastWriter(sources, k).Some? ==> r[k] == sources[LastWriter(sources, k).value].props[k]
    ensures var r := MixinAll(dest, sources);
            forall k :: LastWriter(sources, k).None? && k in dest ==> r[k] == dest[k]
  {
    forall k {
      MixinAllAt(dest, sources, k);
    }
  }

  /** Running the loop over `a + b` is running it over `a`, then over `b`. */
  lemma {:induction false} MixinAllAppend<V>(dest: Props<V>, a: seq<Source<V>>, b: seq<Source<V>>)
    ensures MixinAll(dest, a + b) == MixinAll(MixinAll(dest, a), b)
    decreases |b|
  {
    if |b| == 0 {
      assert a + b == a;
    } else {
      var n := |b| - 1;
      assert (a + b)[..|a + b| - 1] == a + b[..n];
      assert (a + b)[|a + b| - 1] == b[n];
      MixinAllAppend(dest, a, b[..n]);
    }
  }

  /**
   Copying the same sources a second time changes nothing: the helpers'
   documentation says a mixin "can be used many times on a single object".
   */
  lemma MixinAllIdempotent<V>(dest: Props<V>, sources: seq<Source<V>>)
    ensures MixinAll(MixinAll(dest, sources), sources) == MixinAll(dest, sources)
  {
    var once := MixinAll(dest, sources);
    var twice := MixinAll(once, sources);
    LastWriterWins(dest, sources);
    LastWriterWins(once, sources);
    assert twice.Keys == once.Keys;
  }

  /** The list with its null entries removed, the object entries kept in order. */
  function NonNull<V>(sources: seq<Source<V>>): (r: seq<Source<V>>)
    ensures |r| <= |sources|
    ensures forall i :: 0 <= i < |r| ==> r[i].Obj?
    ensures forall i :: 0 <= i < |r| ==> r[i] in sources
    ensures forall i :: 0 <= i < |sources| && sources[i].Obj? ==> sources[i] in r
    ensures (forall i :: 0 <= i < |sources| ==> sources[i].Obj?) ==> r == sources
    decreases |sources|
  {
    if |sources| == 0 then []
    else
      var rest := NonNull(sources[..|sources| - 1]);
      if sources[|sources| - 1].Nil? then rest else rest + [sources[|sources| - 1]]
  }

  /** Dropping nulls from one entry: a null leaves nothing, an object is kept. */
  lemma NonNullSingle<V>(m: Source<V>)
    ensures m.Nil? ==> NonNull([m]) == []
    ensures m.Obj? ==> NonNull([m]) == [m]
  {
    var one := [m];
    assert one[..0] == [];
  }

  /** Dropping nulls from a list with one more entry at the end. */
  lemma NonNullSnoc<V>(s: seq<Source<V>>, m: Source<V>)
    ensures NonNull(s + [m]) == NonNull(s) + (if m.Nil? then [] else [m])
  {
    var sm := s + [m];
    assert sm[..|sm| - 1] == s;
  }

  /** Dropping nulls works piecewise and keeps order: a concatenation is filtered part by part. */
  lemma {:induction false} NonNullAppend<V>(a: seq<Source<V>>, b: seq<Source<V>>)
    ensures NonNull(a + b) == NonNull(a) + NonNull(b)
    decreases |b|
  {
    if |b| == 0 {
      assert a + b == a;
    } else {
      var n := |b| - 1;
      var front := b[..n];
      assert b == front + [b[n]];
      assert a + b == (a + front) + [b[n]];
      NonNullAppend(a, front);
      NonNullSnoc(a + front, b[n]);
      NonNullSnoc(front, b[n]);
    }
  }

  /** Null entries contribute no keys: dropping them all gives the same destination. */
  lemma {:induction false} NullsAreSkipped<V>(dest: Props<V>, sources: seq<Source<V>>)
    ensures MixinAll(dest, NonNull(sources)) == MixinAll(dest, sources)
    decreases |sources|
  {
    if |sources| > 0 {
      var n := |sources| - 1;
      NullsAreSkipped(dest, sources[..n]);
      if sources[n].Obj? {
        MixinAllAppend(dest, NonNull(sources[..n]), [sources[n]]);
        assert [sources[n]][..0] == [];
      }
    }
  }

  /**
   When `k` is defined somewhere in the later part `b`, what the earlier part
   `a` holds for `k` does not matter.
   */
  lemma {:induction false} LastWriterAppend<V>(a: seq<Source<V>>, b: seq<Source<V>>, k: Key)
    requires LastWriter(b, k).Some?
    ensures LastWriter(a + b, k) == Some(|a| + LastWriter(b, k).value)
    decreases |b|
  {
    var n := |b| - 1;
    assert (a + b)[|a + b| - 1] == b[n];
    if !Defines(b[n], k) {
      assert (a + b)[..|a + b| - 1] == a + b[..n];
      LastWriterAppend(a, b[..n], k);
    }
  }

  /**
   The copy loop on a destination that may be `null`/`undefined`. The helpers
   do not check their destination: on a null one, the first key assignment
   throws a `TypeError`, and when no source enumerates any key, the loop
   never assigns and the (null) destination is returned as it was.
   */
  function CopyInto<V>(obj: Source<V>, sources: seq<Source<V>>): (r: Completion<Source<V>>)
    ensures r.Throw? <==> obj.Nil? && exists k :: LastWriter(sources, k).Some?
    ensures r.Throw? ==> r.error == TypeError
    ensures r.Normal? && obj.Nil? ==> r.value == Nil
    ensures obj.Obj? ==> r.Normal? && r.value.Obj? && r.value.props == MixinAll(obj.props, sources)
  {
    match obj
    case Obj(p) => Normal(Obj(MixinAll(p, sources)))
    case Nil =>
      SomeKeyIffNonEmptySource(sources);
      if exists i :: 0 <= i < |sources| && sources[i].Obj? && sources[i].props != map[]
      then Throw(TypeError)
      else Normal(Nil)
  }

  /** Some source enumerates some key exactly when some source is a non-empty object. */
  lemma SomeKeyIffNonEmptySource<V>(sources: seq<Source<V>>)
    ensures (exists k :: LastWriter(sources, k).Some?) <==>
            exists i :: 0 <= i < |sources| && sources[i].Obj? && sources[i].props != map[]
  {
    if i :| 0 <= i < |sources| && sources[i].Obj? && sources[i].props != map[] {
      var k :| k in sources[i].props;
      assert Defines(sources[i], k);
      assert LastWriter(sources, k).Some?;
    }
  }
}
