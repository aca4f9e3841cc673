/**
 Layered configuration (src/schemas/config-layers.schema.ts): objects merge deeply, arrays are
 concatenated, anything else is replaced by the later layer.
 */
module Layers {
  import opened Prelude

  /** Everything that is neither a plain object nor an array. */
  datatype Scalar = Text(text: string) | Number(n: int) | Truth(b: bool) | Null | Date(ms: int)

  type Fields = map<string, Value>

  datatype Value = Leaf(scalar: Scalar) | Arr(items: seq<Value>) | Obj(fields: Fields)

  /** The own entries of an array or text, keyed by position. */
  function ByPosition(items: seq<Value>): Fields {
    if items == [] then map[]
    else ByPosition(items[..|items| - 1])[Decimal(|items| - 1) := items[|items| - 1]]
  }

  function Characters(text: string): seq<Value> {
    if text == "" then [] else [Leaf(Text([text[0]]))] + Characters(text[1..])
  }

  /** What an existing value offers when an object is laid over it. */
  function AsRecord(existing: Option<Value>): Fields {
    match existing
    case Some(Obj(fields)) => fields
    case Some(Arr(items)) => ByPosition(items)
    case Some(Leaf(Text(text))) => ByPosition(Characters(text))
    case _ => map[]
  }

  function At(fields: Fields, key: string): Option<Value> {
    if key in fields then Some(fields[key]) else None
  }

  /** One source object laid over an accumulated one. */
  function MergeInto(acc: Fields, source: Value): Fields
    requires source.Obj?
    decreases source, 0
  {
    map key | key in acc.Keys + source.fields.Keys ::
      if key in source.fields then Combine(At(acc, key), source.fields[key]) else acc[key]
  }

  /** The value stored at one key after a source value arrives there. */
  function Combine(existing: Option<Value>, v: Value): Value
    decreases v, 1
  {
    match v
    case Obj(_) => Obj(MergeInto(AsRecord(existing), v))
    case Arr(items) => if existing.Some? && existing.value.Arr? then Arr(existing.value.items + items) else v
    case Leaf(_) => v
  }

  /** All sources laid over each other from left to right. */
  function DeepMerge(sources: seq<Fields>): Fields {
    if sources == [] then map[]
    else MergeInto(DeepMerge(sources[..|sources| - 1]), Obj(sources[|sources| - 1]))
  }

  // ---------------------------------------------------------------------------
  // Identity and left regrouping hold always
  // ---------------------------------------------------------------------------

  lemma {:induction false} CombineWithNothing(v: Value)
    ensures Combine(None, v) == v
    decreases v
  {
    if !v.Obj? {
    } else {
      forall key | key in v.fields
        ensures Combine(None, v.fields[key]) == v.fields[key]
      {
        CombineWithNothing(v.fields[key]);
      }
      assert MergeInto(map[], v) == v.fields;
    }
  }

  lemma {:induction false} MergeIntoEmpty(source: Value)
    requires source.Obj?
    ensures MergeInto(map[], source) == source.fields
    decreases source
  {
    forall key | key in source.fields
      ensures Combine(None, source.fields[key]) == source.fields[key]
    {
      CombineWithNothing(source.fields[key]);
    }
  }

  /** Merging a single layer gives that layer back. */
  lemma SingleLayerIsItself(layer: Fields)
    ensures DeepMerge([layer]) == layer
  {
    assert [layer][..0] == [];
    MergeIntoEmpty(Obj(layer));
  }

  /** A finished prefix can be merged first, whatever the layers hold. */
  lemma {:induction false} PrefixCanBeMergedFirst(xs: seq<Fields>, ys: seq<Fields>)
    ensures DeepMerge(xs + ys) == DeepMerge([DeepMerge(xs)] + ys)
  {
    if ys == [] {
      assert xs + ys == xs && [DeepMerge(xs)] + ys == [DeepMerge(xs)];
      SingleLayerIsItself(DeepMerge(xs));
    } else {
      var front := ys[..|ys| - 1];
      assert (xs + ys)[..|xs + ys| - 1] == xs + front;
      assert ([DeepMerge(xs)] + ys)[..|ys|] == [DeepMerge(xs)] + front;
      PrefixCanBeMergedFirst(xs, front);
    }
  }

  // ---------------------------------------------------------------------------
  // Objects over arrays and texts
  // ---------------------------------------------------------------------------

  ghost predicate IsPosition(key: string, n: nat) {
    exists i: nat :: i < n && key == Decimal(i)
  }

  lemma {:induction false} PositionHolds(items: seq<Value>, i: nat)
    requires i < |items|
    ensures At(ByPosition(items), Decimal(i)) == Some(items[i])
  {
    var last := |items| - 1;
    if i == last {
    } else {
      PositionHolds(items[..last], i);
      if Decimal(i) == Decimal(last) { DecimalIsInjective(i, last); }
    }
  }

  lemma {:induction false} OnlyPositions(items: seq<Value>, key: string)
    requires key in ByPosition(items)
    ensures IsPosition(key, |items|)
  {
    var last := |items| - 1;
    if key == Decimal(last) {
    } else {
      OnlyPositions(items[..last], key);
    }
  }

  /** The keys are the decimal positions, and each holds the item of its position. */
  lemma PositionsAreKeys(items: seq<Value>)
    ensures forall key :: key in ByPosition(items) <==> IsPosition(key, |items|)
    ensures forall i: nat | i < |items| :: At(ByPosition(items), Decimal(i)) == Some(items[i])
  {
    forall i: nat | i < |items| ensures At(ByPosition(items), Decimal(i)) == Some(items[i]) { PositionHolds(items, i); }
    forall key | key in ByPosition(items) ensures IsPosition(key, |items|) { OnlyPositions(items, key); }
  }

  lemma {:induction false} CharactersAt(text: string)
    ensures |Characters(text)| == |text|
    ensures forall i | 0 <= i < |text| :: Characters(text)[i] == Leaf(Text([text[i]]))
  {
    if text == "" {
    } else {
      CharactersAt(text[1..]);
    }
  }

  /** The object takes over the items under their positions, and combines with the ones whose position it names. */
  ghost predicate TakesOver(fields: Fields, items: seq<Value>, over: Fields) {
    && (forall i: nat | i < |items| ::
          At(fields, Decimal(i))
          == Some(if Decimal(i) in over then Combine(Some(items[i]), over[Decimal(i)]) else items[i]))
    && (forall key | !IsPosition(key, |items|) :: At(fields, key) == At(over, key))
  }

  lemma PositionsAreTakenOver(items: seq<Value>, over: Fields)
    ensures TakesOver(MergeInto(ByPosition(items), Obj(over)), items, over)
  {
    PositionsAreKeys(items);
    forall key | key in over ensures Combine(None, over[key]) == over[key] { CombineWithNothing(over[key]); }
    forall i: nat | i < |items| ensures Decimal(i) in ByPosition(items) {
      assert IsPosition(Decimal(i), |items|);
    }
  }

  /**
   An object laid over an array takes over its items under their decimal positions, and over a text
   its characters. Over any other scalar it stands alone.
   */
  lemma ObjectOverScalar(scalar: Scalar, items: seq<Value>, over: Fields)
    ensures Combine(Some(Arr(items)), Obj(over)).Obj?
    ensures TakesOver(Combine(Some(Arr(items)), Obj(over)).fields, items, over)
    ensures scalar.Text? ==>
              && Combine(Some(Leaf(scalar)), Obj(over)).Obj?
              && TakesOver(Combine(Some(Leaf(scalar)), Obj(over)).fields,
                           seq(|scalar.text|, i requires 0 <= i < |scalar.text| => Leaf(Text([scalar.text[i]]))), over)
    ensures !scalar.Text? ==> Combine(Some(Leaf(scalar)), Obj(over)) == Obj(over)
  {
    PositionsAreTakenOver(items, over);
    if scalar.Text? {
      CharactersAt(scalar.text);
      assert Characters(scalar.text)
          == seq(|scalar.text|, i requires 0 <= i < |scalar.text| => Leaf(Text([scalar.text[i]])));
      PositionsAreTakenOver(Characters(scalar.text), over);
    } else {
      MergeIntoEmpty(Obj(over));
    }
  }

  // ---------------------------------------------------------------------------
  // The loops of the source
  // ---------------------------------------------------------------------------

  /** Nesting depth bound; it only serves to show that the recursion ends. */
  ghost predicate NestsWithin(v: Value, depth: nat) {
    match v
    case Leaf(_) => true
    case Arr(items) => depth > 0 && forall i | 0 <= i < |items| :: NestsWithin(items[i], depth - 1)
    case Obj(fields) => depth > 0 && forall key | key in fields :: NestsWithin(fields[key], depth - 1)
  }

  ghost predicate FieldsNestWithin(fields: Fields, depth: nat) {
    forall key | key in fields :: NestsWithin(fields[key], depth)
  }

  lemma {:induction false} ByPositionNests(items: seq<Value>, depth: nat)
    requires forall i | 0 <= i < |items| :: NestsWithin(items[i], depth)
    ensures FieldsNestWithin(ByPosition(items), depth)
  {
    if items == [] {
    } else {
      ByPositionNests(items[..|items| - 1], depth);
    }
  }

  lemma {:induction false} CharactersAreLeaves(text: string)
    ensures forall i | 0 <= i < |Characters(text)| :: Characters(text)[i].Leaf?
  {
    if text == "" {
    } else {
      CharactersAreLeaves(text[1..]);
    }
  }

  lemma RecordNests(existing: Option<Value>, depth: nat)
    requires existing.Some? ==> NestsWithin(existing.value, depth)
    requires depth > 0
    ensures FieldsNestWithin(AsRecord(existing), depth - 1)
  {
    match existing
    case Some(Arr(items)) => ByPositionNests(items, depth - 1);
    case Some(Leaf(Text(text))) =>
      CharactersAreLeaves(text);
      ByPositionNests(Characters(text), depth - 1);
    case _ =>
  }

  /** The keys of `source` handled so far have been combined into `base`. */
  ghost function MergeSome(base: Fields, source: Fields, done: set<string>): Fields {
    map key | key in base.Keys + (source.Keys * done) ::
      if key in source && key in done then Combine(At(base, key), source[key]) else base[key]
  }

  lemma MergeSomeStep(base: Fields, source: Fields, done: set<string>, key: string)
    requires key in source && key !in done
    ensures At(MergeSome(base, source, done), key) == At(base, key)
    ensures MergeSome(base, source, done)[key := Combine(At(base, key), source[key])]
         == MergeSome(base, source, done + {key})
  {
  }

  lemma MergeNone(base: Fields, source: Fields)
    ensures MergeSome(base, source, {}) == base
  {
  }

  lemma NestingKept(fields: Fields, key: string, v: Value, depth: nat)
    requires FieldsNestWithin(fields, depth) && NestsWithin(v, depth)
    ensures FieldsNestWithin(fields[key := v], depth)
  {
  }

  lemma MergeAll(base: Fields, source: Fields)
    ensures MergeSome(base, source, source.Keys) == MergeInto(base, Obj(source))
  {
  }

  lemma TwoSources(record: Fields, value: Value)
    requires value.Obj?
    ensures DeepMerge([record, value.fields]) == MergeInto(record, value)
  {
    assert [record, value.fields][..1] == [record];
    SingleLayerIsItself(record);
  }

  /** The branch on the kind of the incoming value. */
  method StoredValue(existing: Option<Value>, value: Value, ghost depth: nat) returns (stored: Value)
    requires NestsWithin(value, depth) && (existing.Some? ==> NestsWithin(existing.value, depth))
    ensures stored == Combine(existing, value)
    ensures NestsWithin(stored, depth)
    decreases depth, 0
  {
    if value.Obj? {
      RecordNests(existing, depth);
      var merged := MergeLoop([AsRecord(existing), value.fields], depth - 1);
      TwoSources(AsRecord(existing), value);
      return Obj(merged);
    } else if value.Arr? && existing.Some? && existing.value.Arr? {
      return Arr(existing.value.items + value.items);
    }
    return value;
  }

  /** One pass of the inner loop. */
  method StoreEntry(
    ghost base: Fields, source: Fields, ghost done: set<string>, before: Fields, key: string, ghost depth: nat)
    returns (after: Fields)
    requires FieldsNestWithin(before, depth) && FieldsNestWithin(source, depth)
    requires key in source && key !in done && before == MergeSome(base, source, done)
    ensures after == MergeSome(base, source, done + {key})
    ensures FieldsNestWithin(after, depth)
    decreases depth, 1
  {
    var stored := StoredValue(At(before, key), source[key], depth);
    MergeSomeStep(base, source, done, key);
    NestingKept(before, key, stored, depth);
    after := before[key := stored];
  }

  /** The inner loop over the entries of one source, in any order. */
  method MergeSource(base: Fields, source: Fields, ghost depth: nat) returns (result: Fields)
    requires FieldsNestWithin(base, depth) && FieldsNestWithin(source, depth)
    ensures result == MergeInto(base, Obj(source))
    ensures FieldsNestWithin(result, depth)
    decreases depth, 2
  {
    result := base;
    var todo := source.Keys;
    ghost var done: set<string> := {};
    MergeNone(base, source);
    while todo != {}
      invariant todo <= source.Keys && done == source.Keys - todo
      invariant result == MergeSome(base, source, done)
      invariant FieldsNestWithin(result, depth)
      decreases todo
    {
      var key :| key in todo;
      result := StoreEntry(base, source, done, result, key, depth);
      todo := todo - {key};
      done := done + {key};
    }
    assert done == source.Keys;
    assert result == MergeSome(base, source, source.Keys);
    MergeAll(base, source);
  }

  /** The outer loop. `depth` bounds the nesting of the layers; every finite value has such a bound. */
  method MergeLoop(sources: seq<Fields>, ghost depth: nat) returns (result: Fields)
    requires forall i | 0 <= i < |sources| :: FieldsNestWithin(sources[i], depth)
    ensures result == DeepMerge(sources)
    ensures FieldsNestWithin(result, depth)
    decreases depth, 3
  {
    result := map[];
    var i := 0;
    while i < |sources|
      invariant 0 <= i <= |sources|
      invariant result == DeepMerge(sources[..i])
      invariant FieldsNestWithin(result, depth)
    {
      result := MergeSource(result, sources[i], depth);
      assert sources[..i + 1][..i] == sources[..i];
      i := i + 1;
    }
    assert sources[..i] == sources;
  }

  // ---------------------------------------------------------------------------
  // Regrouping on the right
  // ---------------------------------------------------------------------------

  /** Laying `over` on `under` hides every part of `under`. */
  ghost predicate Hides(over: Value, under: Fields)
    requires over.Obj?
    decreases over
  {
    forall key | key in under ::
      key in over.fields &&
      match over.fields[key]
      case Leaf(_) => true
      case Arr(_) => under[key].Arr? ==> under[key].items == []
      case Obj(_) => Hides(over.fields[key], AsRecord(Some(under[key])))
  }

  lemma {:induction false} HidesIsExact(over: Value, under: Fields)
    requires over.Obj?
    ensures MergeInto(under, over) == over.fields <==> Hides(over, under)
    decreases over
  {
    var merged := MergeInto(under, over);
    forall key | key in over.fields && key in under && over.fields[key].Obj?
      ensures Combine(At(under, key), over.fields[key]) == over.fields[key]
         <==> Hides(over.fields[key], AsRecord(Some(under[key])))
    {
      HidesIsExact(over.fields[key], AsRecord(Some(under[key])));
    }
    forall key | key in over.fields && key !in under
      ensures Combine(At(under, key), over.fields[key]) == over.fields[key]
    {
      CombineWithNothing(over.fields[key]);
    }
    forall key | key in over.fields && key in under && over.fields[key].Arr?
      ensures Combine(At(under, key), over.fields[key]) == over.fields[key]
         <==> (under[key].Arr? ==> under[key].items == [])
    {
      if under[key].Arr? {
        var lower, upper := under[key].items, over.fields[key].items;
        assert |lower + upper| == |lower| + |upper|;
        assert lower == [] ==> lower + upper == upper;
      }
    }
    if merged == over.fields {
      forall key | key in under
        ensures key in over.fields
        ensures Combine(At(under, key), over.fields[key]) == over.fields[key]
      {
        assert key in merged;
      }
    }
    if Hides(over, under) {
      assert merged.Keys == over.fields.Keys;
      forall key | key in over.fields
        ensures merged[key] == over.fields[key]
      {
      }
    }
  }

  predicate Indexable(v: Value) {
    v.Arr? || (v.Leaf? && v.scalar.Text?)
  }

  /** No object of a later layer meets an array or text of an earlier one. */
  ghost predicate NoIndexing(a: Fields, b: Fields, c: Value)
    requires c.Obj?
    decreases c
  {
    forall key | key in c.fields && c.fields[key].Obj? ::
      && (key in a ==> !Indexable(a[key]))
      && (key in b ==> !Indexable(b[key]))
      && NoIndexing(AsRecord(At(a, key)), AsRecord(At(b, key)), c.fields[key])
  }

  /**
   Where regrouping is sound: an array of the last layer must not skip over a non-array of the
   middle layer onto an array of the first, and an object must not skip over a replaced scalar
   onto parts of the first layer that it does not hide.
   */
  ghost predicate Regroupable(a: Fields, b: Fields, c: Value)
    requires c.Obj?
    decreases c
  {
    forall key | key in a && key in b && key in c.fields ::
      match c.fields[key]
      case Leaf(_) => true
      case Arr(_) => b[key].Arr? || !a[key].Arr? || a[key].items == []
      case Obj(_) =>
        if b[key].Obj? then Regroupable(AsRecord(At(a, key)), b[key].fields, c.fields[key])
        else Hides(c.fields[key], AsRecord(At(a, key)))
  }

  /** Both groupings, key by key. */
  lemma GroupingsAt(a: Fields, b: Fields, c: Value, key: string)
    requires c.Obj? && key in c.fields
    ensures At(MergeInto(MergeInto(a, Obj(b)), c), key) == Some(Combine(At(MergeInto(a, Obj(b)), key), c.fields[key]))
    ensures At(MergeInto(a, Obj(MergeInto(b, c))), key)
         == Some(Combine(At(a, key), Combine(At(b, key), c.fields[key])))
  {
  }

  lemma GroupingsElsewhere(a: Fields, b: Fields, c: Value, key: string)
    requires c.Obj? && key !in c.fields
    ensures At(MergeInto(MergeInto(a, Obj(b)), c), key) == At(MergeInto(a, Obj(MergeInto(b, c))), key)
  {
  }

  lemma SameAtEveryKey(x: Fields, y: Fields)
    ensures x == y <==> forall key :: At(x, key) == At(y, key)
  {
    if forall key :: At(x, key) == At(y, key) {
      assert forall key :: key in x <==> At(x, key).Some?;
      assert x.Keys == y.Keys;
      assert forall key | key in x :: At(x, key) == Some(x[key]) && At(y, key) == Some(y[key]);
    }
  }

  /** Away from objects over arrays or texts, three layers regroup exactly when they are regroupable. */
  lemma {:induction false} RegroupingIsExact(a: Fields, b: Fields, c: Value)
    requires c.Obj? && NoIndexing(a, b, c)
    ensures MergeInto(MergeInto(a, Obj(b)), c) == MergeInto(a, Obj(MergeInto(b, c))) <==> Regroupable(a, b, c)
    decreases c, 1
  {
    var left, right := MergeInto(MergeInto(a, Obj(b)), c), MergeInto(a, Obj(MergeInto(b, c)));
    SameAtEveryKey(left, right);
    forall key: string
      ensures key !in c.fields ==> At(left, key) == At(right, key)
      ensures key in c.fields ==>
                (At(left, key) == At(right, key) <==>
                 Combine(At(MergeInto(a, Obj(b)), key), c.fields[key])
                 == Combine(At(a, key), Combine(At(b, key), c.fields[key])))
    {
      if key in c.fields { GroupingsAt(a, b, c, key); } else { GroupingsElsewhere(a, b, c, key); }
    }
    forall key | key in c.fields { RegroupKey(a, b, c, key); }
  }

  lemma {:induction false} RegroupKey(a: Fields, b: Fields, c: Value, key: string)
    requires c.Obj? && key in c.fields && NoIndexing(a, b, c)
    ensures Combine(At(MergeInto(a, Obj(b)), key), c.fields[key])
         == Combine(At(a, key), Combine(At(b, key), c.fields[key]))
       <==> (key in a && key in b ==>
               match c.fields[key]
               case Leaf(_) => true
               case Arr(_) => b[key].Arr? || !a[key].Arr? || a[key].items == []
               case Obj(_) =>
                 if b[key].Obj? then Regroupable(AsRecord(At(a, key)), b[key].fields, c.fields[key])
                 else Hides(c.fields[key], AsRecord(At(a, key))))
    decreases c, 0
  {
    var v := c.fields[key];
    if key !in b {
      CombineWithNothing(v);
    } else if key !in a {
      CombineWithNothing(b[key]);
      CombineWithNothing(Combine(At(b, key), v));
    } else if v.Obj? {
      if b[key].Obj? {
        RegroupingIsExact(AsRecord(At(a, key)), b[key].fields, v);
      } else {
        assert AsRecord(At(b, key)) == map[];
        MergeIntoEmpty(v);
        HidesIsExact(v, AsRecord(At(a, key)));
      }
    } else if v.Arr? && a[key].Arr? && b[key].Arr? {
      assert (a[key].items + b[key].items) + v.items == a[key].items + (b[key].items + v.items);
    }
  }

  lemma ThreeLayers(a: Fields, b: Fields, c: Fields)
    ensures DeepMerge([a, b, c]) == MergeInto(MergeInto(a, Obj(b)), Obj(c))
    ensures DeepMerge([a, DeepMerge([b, c])]) == MergeInto(a, Obj(MergeInto(b, Obj(c))))
  {
    assert [a, b, c][..2] == [a, b];
    TwoSources(a, Obj(b));
    TwoSources(b, Obj(c));
    TwoSources(a, Obj(MergeInto(b, Obj(c))));
  }

  /** The exception occurs: a null in the middle layer, objects with different keys around it. */
  lemma RegroupingCanFail(key: string, x: string, y: string)
    requires x != y
    ensures var a: Fields := map[key := Obj(map[x := Leaf(Number(1))])];
            var b: Fields := map[key := Leaf(Null)];
            var c: Fields := map[key := Obj(map[y := Leaf(Number(2))])];
            DeepMerge([a, b, c]) != DeepMerge([a, DeepMerge([b, c])])
  {
    var a: Fields := map[key := Obj(map[x := Leaf(Number(1))])];
    var b: Fields := map[key := Leaf(Null)];
    var c: Fields := map[key := Obj(map[y := Leaf(Number(2))])];
    ThreeLayers(a, b, c);
    assert x in a[key].fields && x !in c[key].fields;
    assert !Hides(c[key], a[key].fields);
    RegroupingIsExact(a, b, Obj(c));
  }

  // ---------------------------------------------------------------------------
  // Layers of one common shape
  // ---------------------------------------------------------------------------

  datatype Shape = LeafShape | ArrShape | ObjShape(fields: map<string, Shape>)

  ghost predicate Fits(v: Value, shape: Shape)
    decreases v
  {
    match v
    case Leaf(_) => shape.LeafShape?
    case Arr(_) => shape.ArrShape?
    case Obj(fields) =>
      shape.ObjShape? && forall key | key in fields :: key in shape.fields && Fits(fields[key], shape.fields[key])
  }

  lemma {:induction false} MergeFits(acc: Fields, source: Value, shape: Shape)
    requires source.Obj? && Fits(Obj(acc), shape) && Fits(source, shape)
    ensures Fits(Obj(MergeInto(acc, source)), shape)
    decreases source
  {
    forall key | key in source.fields
      ensures Fits(Combine(At(acc, key), source.fields[key]), shape.fields[key])
    {
      if source.fields[key].Obj? {
        MergeFits(AsRecord(At(acc, key)), source.fields[key], shape.fields[key]);
      }
    }
  }

  lemma {:induction false} LayersFit(layers: seq<Fields>, shape: Shape)
    requires shape.ObjShape? && forall i | 0 <= i < |layers| :: Fits(Obj(layers[i]), shape)
    ensures Fits(Obj(DeepMerge(layers)), shape)
  {
    if layers == [] {
    } else {
      LayersFit(layers[..|layers| - 1], shape);
      MergeFits(DeepMerge(layers[..|layers| - 1]), Obj(layers[|layers| - 1]), shape);
    }
  }

  lemma {:induction false} CommonShapeRegroups(a: Fields, b: Fields, c: Value, shape: Shape)
    requires c.Obj? && Fits(Obj(a), shape) && Fits(Obj(b), shape) && Fits(c, shape)
    ensures NoIndexing(a, b, c) && Regroupable(a, b, c)
    decreases c
  {
    forall key | key in c.fields && c.fields[key].Obj?
      ensures NoIndexing(AsRecord(At(a, key)), AsRecord(At(b, key)), c.fields[key])
      ensures key in a ==> Fits(a[key], shape.fields[key])
      ensures key in b ==> Fits(b[key], shape.fields[key])
      ensures key in a && key in b ==> Regroupable(AsRecord(At(a, key)), b[key].fields, c.fields[key])
    {
      CommonShapeRegroups(AsRecord(At(a, key)), AsRecord(At(b, key)), c.fields[key], shape.fields[key]);
    }
  }

  /** Layers of one common shape can be split anywhere, merged on both sides, and merged again. */
  lemma {:induction false} LayersRegroup(xs: seq<Fields>, ys: seq<Fields>, shape: Shape)
    requires shape.ObjShape?
    requires forall i | 0 <= i < |xs| :: Fits(Obj(xs[i]), shape)
    requires forall i | 0 <= i < |ys| :: Fits(Obj(ys[i]), shape)
    ensures DeepMerge([DeepMerge(xs), DeepMerge(ys)]) == DeepMerge(xs + ys)
  {
    TwoSources(DeepMerge(xs), Obj(DeepMerge(ys)));
    if ys == [] {
      assert xs + ys == xs;
    } else {
      var front, last := ys[..|ys| - 1], ys[|ys| - 1];
      assert (xs + ys)[..|xs + ys| - 1] == xs + front;
      LayersRegroup(xs, front, shape);
      TwoSources(DeepMerge(xs), Obj(DeepMerge(front)));
      LayersFit(xs, shape);
      LayersFit(front, shape);
      CommonShapeRegroups(DeepMerge(xs), DeepMerge(front), Obj(last), shape);
      RegroupingIsExact(DeepMerge(xs), DeepMerge(front), Obj(last));
    }
  }

  /** The value at a path of keys. */
  ghost function Lookup(fields: Fields, path: seq<string>): Option<Value>
    requires path != []
    decreases |path|
  {
    if path[0] !in fields then None
    else if |path| == 1 then Some(fields[path[0]])
    else if fields[path[0]].Obj? then Lookup(fields[path[0]].fields, path[1..])
    else None
  }

  lemma {:induction false} MergeAtPath(acc: Fields, source: Value, shape: Shape, path: seq<string>)
    requires source.Obj? && path != [] && Fits(Obj(acc), shape) && Fits(source, shape)
    ensures Lookup(MergeInto(acc, source), path)
         == match Lookup(source.fields, path)
            case None => Lookup(acc, path)
            case Some(v) => Some(Combine(Lookup(acc, path), v))
    decreases |path|
  {
    var key := path[0];
    if key in source.fields && |path| > 1 {
      var v := source.fields[key];
      if !v.Obj? {
    } else {
        MergeAtPath(AsRecord(At(acc, key)), v, shape.fields[key], path[1..]);
      }
    }
  }

  /** The last layer that defines the path. */
  ghost function LastDefined(layers: seq<Fields>, path: seq<string>): Option<Value>
    requires path != []
  {
    if layers == [] then None
    else
      var last := Lookup(layers[|layers| - 1], path);
      if last.Some? then last else LastDefined(layers[..|layers| - 1], path)
  }

  /** All arrays at the path, one after the other in layer order. */
  ghost function AllItems(layers: seq<Fields>, path: seq<string>): seq<Value>
    requires path != []
  {
    if layers == [] then []
    else
      AllItems(layers[..|layers| - 1], path)
      + match Lookup(layers[|layers| - 1], path) case Some(Arr(items)) => items case _ => []
  }

  ghost function ShapeAt(shape: Shape, path: seq<string>): Option<Shape>
    decreases |path|
  {
    if path == [] then Some(shape)
    else if shape.ObjShape? && path[0] in shape.fields then ShapeAt(shape.fields[path[0]], path[1..])
    else None
  }

  lemma {:induction false} LookupFits(fields: Fields, shape: Shape, path: seq<string>)
    requires path != [] && Fits(Obj(fields), shape)
    ensures Lookup(fields, path).Some? ==>
              ShapeAt(shape, path).Some? && Fits(Lookup(fields, path).value, ShapeAt(shape, path).value)
    decreases |path|
  {
    var key := path[0];
    if key in fields {
      if |path| == 1 {
        assert path[1..] == [];
      } else if fields[key].Obj? {
        LookupFits(fields[key].fields, shape.fields[key], path[1..]);
      }
    }
  }

  /** At a scalar path the last layer that defines it wins; at an array path all layers are concatenated in order. */
  lemma {:induction false} LastWinsAndArraysAdd(layers: seq<Fields>, shape: Shape, path: seq<string>)
    requires shape.ObjShape? && path != [] && forall i | 0 <= i < |layers| :: Fits(Obj(layers[i]), shape)
    ensures ShapeAt(shape, path) == Some(LeafShape) ==>
              Lookup(DeepMerge(layers), path) == LastDefined(layers, path)
    ensures ShapeAt(shape, path) == Some(ArrShape) ==>
              Lookup(DeepMerge(layers), path)
              == if LastDefined(layers, path).None? then None else Some(Arr(AllItems(layers, path)))
    ensures ShapeAt(shape, path) == Some(ArrShape) && LastDefined(layers, path).None? ==> AllItems(layers, path) == []
  {
    if layers == [] {
    } else {
      var front, last := layers[..|layers| - 1], layers[|layers| - 1];
      LastWinsAndArraysAdd(front, shape, path);
      LayersFit(front, shape);
      MergeAtPath(DeepMerge(front), Obj(last), shape, path);
      LookupFits(last, shape, path);
      LookupFits(DeepMerge(front), shape, path);
      assert AllItems(front, path) + [] == AllItems(front, path);
      if ShapeAt(shape, path) == Some(ArrShape) && Lookup(last, path).Some? {
        assert [] + Lookup(last, path).value.items == Lookup(last, path).value.items;
      }
    }
  }
}
