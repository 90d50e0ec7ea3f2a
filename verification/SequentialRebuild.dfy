/** Building what was read: consistent values are the values of some build, so the builder
    writes every layout that framing reads. */
module SequentialRebuild {
  import opened Base
  import opened Grammar
  import opened Arrays
  import OutputRuns
  import opened ArrayWriters
  import opened SequentialSchema
  import opened SequentialFrame
  import opened SequentialWriter

  /** Items written straight through. */
  function Plainly(items: seq<seq<byte>>): (sources: seq<ItemSource>)
    ensures |sources| == |items|
    ensures forall i :: 0 <= i < |items| ==> sources[i] == ItemSource([OutputRuns.Emit(items[i])], items[i])
  {
    seq(|items|, i requires 0 <= i < |items| => ItemSource([OutputRuns.Emit(items[i])], items[i]))
  }

  /** What the typed builder is given for a field of known value; `items` are those of an
      array. */
  function Rebuilt(fields: seq<Field>, value: Value, items: seq<seq<byte>>, k: nat): Built
    requires k < |fields|
  {
    match fields[k].kind
    case ScalarKind(_, _, _) => if DerivedScalar(fields, k) then Derived else Given(value)
    case FixedKind(_, expected) => if expected.Some? then Derived else Given(value)
    case ArrayKind(_, _) => Streamed(Plainly(items))
    case _ => Given(value)
  }

  function Rebuild(fields: seq<Field>, values: seq<Value>, items: seq<seq<seq<byte>>>): (build: seq<Built>)
    requires |fields| == |values| == |items|
    ensures |build| == |fields| && forall k :: 0 <= k < |fields| ==> build[k] == Rebuilt(fields, values[k], items[k], k)
  {
    seq(|fields|, k requires 0 <= k < |fields| => Rebuilt(fields, values[k], items[k], k))
  }

  /** Consistent values, with the items of every array. */
  ghost predicate Known(fields: seq<Field>, values: seq<Value>, items: seq<seq<seq<byte>>>) {
    && ValidSchema(fields) && AllConsistent(fields, values) && |items| == |fields|
    && forall k :: 0 <= k < |fields| && fields[k].kind.ArrayKind? ==> KnownItems(fields[k].kind.item, values[k], items[k])
  }

  ghost predicate KnownItems(item: Item, value: Value, items: seq<seq<byte>>) {
    value.Counted? && Emitted(item, value.span, items, value.count)
  }

  lemma PlainlyValid(item: Item, items: seq<seq<byte>>)
    requires GoodItems(item, items)
    ensures ValidSources(item, Plainly(items)) && NonEmpty(Plainly(items)) && BytesOfSources(Plainly(items)) == items
  {
    hide Writes;
    forall i | 0 <= i < |items| ensures ValidSource(item, Plainly(items)[i]) && items[i] != [] {
      PlainWrites(items[i]);
      assert GoodItem(item, items[i]);
    }
  }

  lemma ArrayRebuilt(fields: seq<Field>, values: seq<Value>, items: seq<seq<seq<byte>>>, k: nat)
    requires Known(fields, values, items) && k < |fields| && fields[k].kind.ArrayKind?
    ensures var build := Rebuild(fields, values, items);
            && BuiltFits(fields, build, k) && Derivable(fields, build, k) && ValueOf(fields, build, k) == values[k]
            && SourcesOf(build, k) == Plainly(items[k]) && values[k].Counted? && values[k].count == |items[k]|
  {
    hide OwnCounts, OwnRoles, ValidSources, Representable, GoodItems, NonEmpty;
    var c := fields[k].kind.count;
    assert ValidField(fields, k) && Consistent(fields, values, k) && Consistent(fields, values, c);
    assert KnownItems(fields[k].kind.item, values[k], items[k]);
    PlainlyValid(fields[k].kind.item, items[k]);
  }

  /** The values of the fields that `k` is derived from. */
  lemma DependentsRebuilt(fields: seq<Field>, values: seq<Value>, items: seq<seq<seq<byte>>>, k: nat, j: nat)
    requires Known(fields, values, items) && k < |fields| && j < |fields|
    ensures var build := Rebuild(fields, values, items);
            && (fields[j].kind == BoundedKind(k) ==> values[k] == Int(|BytesOf(fields, build, j)|))
            && (CountsBy(fields[j], k) ==> values[k] == Int(|SourcesOf(build, j)|))
            && (fields[j].kind == FlagKind(k) ==> values[k] == Int(if build[j] == Given(Present(true)) then 1 else 0))
  {
    hide OwnCounts, OwnRoles, Representable, ValidSchema;
    assert Consistent(fields, values, j);
    if CountsBy(fields[j], k) {
      ArrayRebuilt(fields, values, items, j);
    }
  }

  lemma ScalarRebuilt(fields: seq<Field>, values: seq<Value>, items: seq<seq<seq<byte>>>, k: nat)
    requires Known(fields, values, items) && k < |fields| && fields[k].kind.ScalarKind?
    ensures var build := Rebuild(fields, values, items);
            BuiltFits(fields, build, k) && Derivable(fields, build, k) && ValueOf(fields, build, k) == values[k]
  {
    hide OwnCounts, OwnRoles, Representable, Rebuild, BytesOf, SourcesOf, KnownItems;
    var build := Rebuild(fields, values, items);
    assert build[k] == Rebuilt(fields, values[k], items[k], k);
    assert ValidField(fields, k) && Consistent(fields, values, k);
    RolesOf(fields, k);
    var counted, flag, length :=
      FirstWith(fields, ItemCount, k, 0), FirstWith(fields, Presence, k, 0), FirstWith(fields, ByteLength, k, 0);
    if counted.Some? {
      DependentsRebuilt(fields, values, items, k, counted.value);
    }
    if flag.Some? {
      DependentsRebuilt(fields, values, items, k, flag.value);
    }
    if length.Some? {
      DependentsRebuilt(fields, values, items, k, length.value);
      forall j | 0 <= j < |fields| ensures SharesLength(fields, build, k, j, |BytesOf(fields, build, length.value)|) {
        DependentsRebuilt(fields, values, items, k, j);
      }
    }
    if fields[k].condition.Some? {
      ConditionRebuilt(fields, values, items, k);
    }
  }

  lemma ConditionRebuilt(fields: seq<Field>, values: seq<Value>, items: seq<seq<seq<byte>>>, k: nat)
    requires Known(fields, values, items) && k < |fields| && fields[k].condition.Some?
    ensures var f := fields[k].condition.value;
            f < |fields| && fields[f].kind.FlagKind? && Rebuild(fields, values, items)[f] == Given(values[f])
    ensures fields[k].kind.ScalarKind? && !DerivedScalar(fields, k)
  {
    hide OwnCounts, OwnRoles, Representable, ValidKind, AllConsistent, KnownItems;
    assert ValidField(fields, k);
    NoCount(fields, k);
    NoLength(fields, k);
    NoPresence(fields, k);
  }

  lemma NoPresence(fields: seq<Field>, k: nat)
    requires ValidSchema(fields) && k < |fields| && fields[k].kind.ScalarKind? && !Plain(fields[k])
    ensures FirstWith(fields, Presence, k, 0).None?
  {
    assert ValidField(fields, FirstWith(fields, Presence, k, 0).GetOr(k));
  }

  lemma FieldRebuilt(fields: seq<Field>, values: seq<Value>, items: seq<seq<seq<byte>>>, k: nat)
    requires Known(fields, values, items) && k < |fields|
    ensures var build := Rebuild(fields, values, items);
            BuiltFits(fields, build, k) && Derivable(fields, build, k) && ValueOf(fields, build, k) == values[k]
  {
    hide OwnCounts, OwnRoles, Representable, ValidSchema, Emitted;
    if fields[k].kind.ScalarKind? {
      ScalarRebuilt(fields, values, items, k);
    } else if fields[k].kind.ArrayKind? {
      ArrayRebuilt(fields, values, items, k);
    } else {
      assert Consistent(fields, values, k);
    }
  }

  /** A complete build has exactly those values. */
  lemma ConsistentBuilds(fields: seq<Field>, values: seq<Value>, items: seq<seq<seq<byte>>>)
    requires Known(fields, values, items)
    ensures var build := Rebuild(fields, values, items);
            && CompleteBuild(fields, build) && Buildable(fields, build) && Values(fields, build) == values
            && Layout(fields, build) == Emit(fields, values, |fields|)
  {
    hide BuiltFits, Derivable, ValueOf, Emit, ValidSchema, Consistent, KnownItems;
    var build := Rebuild(fields, values, items);
    forall k | 0 <= k < |fields|
      ensures BuiltFits(fields, build, k) && Derivable(fields, build, k) && ValueOf(fields, build, k) == values[k]
    {
      FieldRebuilt(fields, values, items, k);
    }
    assert Values(fields, build) == values;
  }

  ghost function ItemsOf(item: Item, value: Value): (items: seq<seq<byte>>)
    requires exists items :: KnownItems(item, value, items)
    ensures KnownItems(item, value, items)
  {
    var items :| KnownItems(item, value, items);
    items
  }

  lemma ConsistentKnown(fields: seq<Field>, values: seq<Value>) returns (items: seq<seq<seq<byte>>>)
    requires ValidSchema(fields) && AllConsistent(fields, values)
    ensures Known(fields, values, items)
  {
    hide ValidSchema, Emitted, Representable;
    forall k | 0 <= k < |fields| && fields[k].kind.ArrayKind?
      ensures exists items :: KnownItems(fields[k].kind.item, values[k], items)
    {
      assert Consistent(fields, values, k);
      var items :| Emitted(fields[k].kind.item, values[k].span, items, values[k].count);
      assert KnownItems(fields[k].kind.item, values[k], items);
    }
    items := seq(|fields|, k requires 0 <= k < |fields| =>
      if fields[k].kind.ArrayKind? then ItemsOf(fields[k].kind.item, values[k]) else []);
  }

  /** The builder can write a region exactly when some consistent values lie in it, every
      field where the format says. */
  lemma BuildsExactly(fields: seq<Field>, region: seq<byte>)
    requires ValidSchema(fields)
    ensures (exists build :: CompleteBuild(fields, build) && Layout(fields, build) == Some(region)) <==>
            (exists values :: AllConsistent(fields, values) && LaysOut(fields, values, region))
  {
    hide ValidSchema, Consistent, LaysOut, BuiltFits, Layout, Emit, KnownItems, PositionsKnown;
    if build :| CompleteBuild(fields, build) && Layout(fields, build) == Some(region) {
      LayoutLies(fields, build, region);
      BuildableConsistent(fields, build);
      assert AllConsistent(fields, Values(fields, build)) && LaysOut(fields, Values(fields, build), region);
    }
    if values :| AllConsistent(fields, values) && LaysOut(fields, values, region) {
      var items := ConsistentKnown(fields, values);
      ConsistentBuilds(fields, values, items);
      ConsistentPositions(fields, values);
      LayoutIs(fields, values, region);
    }
  }
}
